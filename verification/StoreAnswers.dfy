/** What the availability store means for the answers of the selection engine. */
module StoreAnswers {
  import opened Seqs
  import opened Slices
  import opened Config
  import opened SliceSelection
  import opened SelectionLaws
  import opened SliceAvailability
  import opened StoreLaws

  // ----- Read your writes -----

  /** What a PUT does to the other candidates of its set: nothing. */
  lemma OthersAfterUpsert(l: seq<AmfEntry>, nfId: string, data: seq<AvailabilityData>, req: seq<Snssai>, n: string)
    requires n != nfId
    ensures n in Candidates(Upsert(l, nfId, data), req) <==> n in Candidates(l, req)
  {
    var m, p := Upsert(l, nfId, data), EntryIndex(l, nfId);
    CandidatesExact(l, req);
    CandidatesExact(m, req);
    assert m[p].nfId == nfId;
    assert forall q :: 0 <= q < |l| && q != p ==> m[q] == l[q];
    if q :| 0 <= q < |l| && l[q].nfId == n && Serves(l[q], req) {
      assert m[q] == l[q];
    }
    if q :| 0 <= q < |m| && m[q].nfId == n && Serves(m[q], req) {
      assert m[q] == l[q];
    }
  }

  /** What a PUT does to its own AMF: the payload decides, unless the id occurs a
      second time in the set. */
  lemma OwnAfterUpsert(l: seq<AmfEntry>, nfId: string, data: seq<AvailabilityData>, req: seq<Snssai>)
    ensures DataCovers(data, req) ==> nfId in Candidates(Upsert(l, nfId, data), req)
    ensures nfId in Candidates(Upsert(l, nfId, data), req) && !DataCovers(data, req) ==>
      nfId in Candidates(l, req) && !Distinct(Map(NfId, l))
  {
    var m, p := Upsert(l, nfId, data), EntryIndex(l, nfId);
    CandidatesExact(l, req);
    CandidatesExact(m, req);
    assert m[p] == AmfEntry(nfId, data);
    if !DataCovers(data, req) {
      if q :| 0 <= q < |m| && m[q].nfId == nfId && Serves(m[q], req) {
        assert q != p && m[q] == l[q];
        assert Map(NfId, l)[q] == Map(NfId, l)[p];
      }
    }
  }

  /** A stored PUT is seen by the selections that follow it: requests its payload
      covers are served from its set or an earlier one, earlier answers stay,
      and its AMF is a candidate on the strength of the payload alone. */
  lemma ReadYourWrites(sets: seq<AmfInfo>, put: PutRequest, req: seq<Snssai>)
    requires Accepted(sets, put.info)
    ensures var k, data := SetIndex(sets, put.info.amfSetId.value), put.info.supportedNssaiAvailabilityData;
      var after := Stored(sets, put);
      && (forall j :: 0 <= j < |sets| && j != k ==> after[j] == sets[j])
      && (DataCovers(data, req) ==> ChosenSet(after, req) <= k && put.nfId in Candidates(after[k].amfList, req))
      && (Distinct(Map(NfId, sets[k].amfList)) && !DataCovers(data, req) ==>
            put.nfId !in Candidates(after[k].amfList, req))
      && (forall n :: n != put.nfId ==>
            (n in Candidates(after[k].amfList, req) <==> n in Candidates(sets[k].amfList, req)))
      && (ChosenSet(sets, req) < k || (ChosenSet(sets, req) > k && !DataCovers(data, req)) ==>
            ChosenSet(after, req) == ChosenSet(sets, req))
  {
    var k, data := SetIndex(sets, put.info.amfSetId.value), put.info.supportedNssaiAvailabilityData;
    var after := Stored(sets, put);
    var c := ChosenSet(sets, req);
    OwnAfterUpsert(sets[k].amfList, put.nfId, data, req);
    forall n | n != put.nfId
      ensures n in Candidates(after[k].amfList, req) <==> n in Candidates(sets[k].amfList, req)
    {
      OthersAfterUpsert(sets[k].amfList, put.nfId, data, req, n);
    }
    if c > k && !DataCovers(data, req) {
      EmptyIff(Candidates(sets[k].amfList, req));
      EmptyIff(Candidates(after[k].amfList, req));
    }
  }

  /** The same over a run: as long as no later PUT overwrites it, whatever else
      is stored before or after. */
  lemma RunReadYourWrites(sets: seq<AmfInfo>, puts: seq<PutRequest>, i: nat, req: seq<Snssai>)
    requires i < |puts| && Accepted(sets, puts[i].info)
    requires forall j :: i < j < |puts| && puts[j].info.amfSetId == puts[i].info.amfSetId ==>
      puts[j].nfId != puts[i].nfId
    ensures var k, after := SetIndex(sets, puts[i].info.amfSetId.value), Run(sets, puts);
      var data := puts[i].info.supportedNssaiAvailabilityData;
      && k < |after| == |sets|
      && (DataCovers(data, req) ==>
            ChosenSet(after, req) <= k && puts[i].nfId in Candidates(after[k].amfList, req))
      && (Distinct(Map(NfId, sets[k].amfList)) && !DataCovers(data, req) ==>
            puts[i].nfId !in Candidates(after[k].amfList, req))
  {
    var k, n := SetIndex(sets, puts[i].info.amfSetId.value), puts[i].nfId;
    AcceptedMeansListed(sets, puts[i]);
    LastWriteIs(Map(SetId, sets), puts, i);
    assert WasWritten(sets, puts, k, n);
    RunCandidates(sets, puts, k, n, req);
    var l := sets[k].amfList;
    if Distinct(Map(NfId, l)) {
      forall p | 0 <= p < |l| && l[p].nfId == n ensures p == EntryIndex(l, n) {
        assert Map(NfId, l)[p] == Map(NfId, l)[EntryIndex(l, n)];
      }
    }
  }

  lemma {:induction false} LastWriteIs(ids: seq<string>, puts: seq<PutRequest>, i: nat)
    requires i < |puts| && AcceptedBy(ids, puts[i])
    requires forall j :: i < j < |puts| && puts[j].info.amfSetId == puts[i].info.amfSetId ==>
      puts[j].nfId != puts[i].nfId
    ensures LastWrite(ids, puts, KeyOf(puts[i])) == Some(puts[i].info.supportedNssaiAvailabilityData)
  {
    if i == |puts| - 1 {
    } else {
      LastWriteIs(ids, puts[..|puts| - 1], i);
    }
  }

  // ----- Selecting from the list is selecting from the map -----

  ghost predicate WellFormed(sets: seq<AmfInfo>) {
    Distinct(Map(SetId, sets)) && NoDuplicates(sets)
  }

  /** The AMFs of a set that serve the request, by the map alone. */
  function MapServers(m: AbstractStore, id: string, req: seq<Snssai>): set<string> {
    set key | key in m && key.amfSetId == id && DataCovers(m[key], req) :: key.nfId
  }

  function HasMapServer(m: AbstractStore, req: seq<Snssai>): string -> bool {
    (id: string) => MapServers(m, id, req) != {}
  }

  /** The data the map holds for an AMF of set `k`, if any. */
  function Visible(sets: seq<AmfInfo>, k: nat, n: string): seq<AvailabilityData>
    requires k < |sets|
  {
    var held := Lookup(sets, StoreKey(sets[k].targetAmfSet, n));
    if held.Some? then held.value else []
  }

  /** For every request, AMF `n` is a candidate in set `k` iff the map says so. */
  ghost predicate MapAgrees(sets: seq<AmfInfo>, m: AbstractStore, k: nat, n: string)
    requires k < |sets|
  {
    forall req ::
      n in Candidates(sets[k].amfList, req) <==> n in MapServers(m, sets[k].targetAmfSet, req)
  }

  /** The entries of AMF `n` in set `k` and the data the map holds for it support
      the same: each entry of the one is within the other. */
  ghost predicate MapDecides(sets: seq<AmfInfo>, k: nat, n: string)
    requires k < |sets|
  {
    && (forall a, d :: a in sets[k].amfList && a.nfId == n && d in a.data ==> Within(d, Visible(sets, k, n)))
    && (forall d :: d in Visible(sets, k, n) ==>
          exists a :: a in sets[k].amfList && a.nfId == n && Within(d, a.data))
  }

  /** Exactly when the map decides about an AMF of a list. */
  lemma MapAgreesIff(sets: seq<AmfInfo>, m: AbstractStore, k: nat, n: string)
    requires Represents(sets, m) && k < |sets|
    ensures MapAgrees(sets, m, k, n) <==> MapDecides(sets, k, n)
  {
    if MapDecides(sets, k, n) {
      forall req
        ensures n in Candidates(sets[k].amfList, req) <==> n in MapServers(m, sets[k].targetAmfSet, req)
      {
        DecidedFor(sets, m, k, n, req);
      }
    }
    if MapAgrees(sets, m, k, n) {
      forall a, d | a in sets[k].amfList && a.nfId == n && d in a.data
        ensures Within(d, Visible(sets, k, n))
      {
        var req := AsRequest(d.supportedSnssaiList);
        assert Within(d, a.data);
        WithinIffCovered(d, a.data);
        CandidateByEntry(sets[k].amfList, n, req);
        assert n in Candidates(sets[k].amfList, req);
        ServerByVisible(sets, m, k, n, req);
        WithinIffCovered(d, Visible(sets, k, n));
      }
      forall d | d in Visible(sets, k, n)
        ensures exists a :: a in sets[k].amfList && a.nfId == n && Within(d, a.data)
      {
        var req := AsRequest(d.supportedSnssaiList);
        assert Within(d, Visible(sets, k, n));
        WithinIffCovered(d, Visible(sets, k, n));
        ServerByVisible(sets, m, k, n, req);
        CandidateByEntry(sets[k].amfList, n, req);
        assert n in Candidates(sets[k].amfList, req);
        var a :| a in sets[k].amfList && a.nfId == n && Serves(a, req);
        WithinIffCovered(d, a.data);
      }
    }
  }

  lemma CandidateByEntry(l: seq<AmfEntry>, n: string, req: seq<Snssai>)
    ensures n in Candidates(l, req) <==> exists a :: a in l && a.nfId == n && Serves(a, req)
  {
    CandidatesExact(l, req);
    if a :| a in l && a.nfId == n && Serves(a, req) {
      var i :| 0 <= i < |l| && l[i] == a;
    }
  }

  lemma ServerByVisible(sets: seq<AmfInfo>, m: AbstractStore, k: nat, n: string, req: seq<Snssai>)
    requires Represents(sets, m) && k < |sets|
    ensures n in MapServers(m, sets[k].targetAmfSet, req) <==> DataCovers(Visible(sets, k, n), req)
  {
    var key := StoreKey(sets[k].targetAmfSet, n);
    assert Lookup(sets, key) == if key in m then Some(m[key]) else None;
    assert n in MapServers(m, sets[k].targetAmfSet, req) <==> key in m && DataCovers(m[key], req);
  }

  lemma DecidedFor(sets: seq<AmfInfo>, m: AbstractStore, k: nat, n: string, req: seq<Snssai>)
    requires Represents(sets, m) && k < |sets| && MapDecides(sets, k, n)
    ensures n in Candidates(sets[k].amfList, req) <==> n in MapServers(m, sets[k].targetAmfSet, req)
  {
    CandidateByEntry(sets[k].amfList, n, req);
    ServerByVisible(sets, m, k, n, req);
    if a :| a in sets[k].amfList && a.nfId == n && Serves(a, req) {
      CoveredByEntry(a.data, req);
      var d :| d in a.data && Keys(req) <= SupportKeys(d.supportedSnssaiList);
      WithinCovers(d, Visible(sets, k, n), req);
    }
    if DataCovers(Visible(sets, k, n), req) {
      CoveredByEntry(Visible(sets, k, n), req);
      var d :| d in Visible(sets, k, n) && Keys(req) <= SupportKeys(d.supportedSnssaiList);
      var a :| a in sets[k].amfList && a.nfId == n && Within(d, a.data);
      WithinCovers(d, a.data, req);
    }
  }

  /** Where the map decides about every AMF, selection over the nested lists
      answers what a look through the map in the order of the set ids answers. */
  lemma SelectionRefinesMap(sets: seq<AmfInfo>, m: AbstractStore, req: seq<Snssai>)
    requires Represents(sets, m)
    requires forall k, n :: 0 <= k < |sets| ==> MapDecides(sets, k, n)
    ensures forall k, n :: 0 <= k < |sets| ==>
      (n in Candidates(sets[k].amfList, req) <==> n in MapServers(m, sets[k].targetAmfSet, req))
    ensures ChosenSet(sets, req) == FirstIndex(Map(SetId, sets), HasMapServer(m, req))
  {
    var ids := Map(SetId, sets);
    forall k, n | 0 <= k < |sets|
      ensures n in Candidates(sets[k].amfList, req) <==> n in MapServers(m, sets[k].targetAmfSet, req)
    {
      DecidedFor(sets, m, k, n, req);
    }
    forall k | 0 <= k < |sets|
      ensures Candidates(sets[k].amfList, req) == [] <==> MapServers(m, ids[k], req) == {}
    {
      EmptyIff(Candidates(sets[k].amfList, req));
    }
    assert FirstIndex(ids, HasMapServer(m, req)) == ChosenSet(sets, req);
  }

  /** Distinct ids are enough for the map to decide. */
  lemma WellFormedDecides(sets: seq<AmfInfo>, k: nat, n: string)
    requires WellFormed(sets) && k < |sets|
    ensures MapDecides(sets, k, n)
  {
    var l := sets[k].amfList;
    var first, p := SetIndex(sets, sets[k].targetAmfSet), EntryIndex(l, n);
    assert Map(SetId, sets)[first] == Map(SetId, sets)[k];
    forall a | a in l && a.nfId == n ensures p < |l| && a == l[p] {
      var i :| 0 <= i < |l| && l[i] == a;
      assert Map(NfId, l)[i] == n == Map(NfId, l)[p];
    }
    assert Visible(sets, k, n) == if p < |l| then l[p].data else [];
  }

  /** Without distinct ids the map does not determine the answer: a second entry
      of an AMF is searched although no PUT and no look-up ever reaches it. */
  lemma DuplicateIdsEscapeMap()
    ensures exists sets, sets', req ::
      && Map(SetId, sets) == Map(SetId, sets')
      && (forall key :: Lookup(sets, key) == Lookup(sets', key))
      && ChosenSet(sets, req) != ChosenSet(sets', req)
  {
    var support, req := [ExtSnssai(1, None)], [Snssai(1, None)];
    var data := [AvailabilityData(NO_DATA.tai, support)];
    var none, able := AmfEntry("amf-1", []), AmfEntry("amf-1", data);
    var sets, sets' := [AmfInfo("set-1", "", "", [none])], [AmfInfo("set-1", "", "", [none, able])];
    assert Serves([none, able][1], req) by {
      assert support[0] in support;
      assert IsSupported(req[0], support);
      assert Covers(data[0].supportedSnssaiList, req);
    }
    assert Candidates(sets[0].amfList, req) == [];
    assert ChosenSet(sets, req) == 1 && ChosenSet(sets', req) == 0;
    forall key ensures Lookup(sets, key) == Lookup(sets', key) {
      assert SetIndex(sets, key.amfSetId) == SetIndex(sets', key.amfSetId);
      SecondEntryHidden(none, able, key.nfId);
    }
    assert Map(SetId, sets) == Map(SetId, sets');
  }

  lemma SecondEntryHidden(a: AmfEntry, b: AmfEntry, nfId: string)
    requires a.nfId == b.nfId
    ensures var i, j := EntryIndex([a], nfId), EntryIndex([a, b], nfId);
      if a.nfId == nfId then i == j == 0 else i == 1 && j == 2
  {
    assert [a, b][0] == a && [a, b][1] == b;
  }

  /** After any run of PUTs the answer is the one given by the map of last writes,
      for exactly the AMFs about which the map decides; with distinct configured
      ids these are all AMFs of all sets. */
  lemma RunAnswers(sets: seq<AmfInfo>, puts: seq<PutRequest>)
    ensures var ids := Map(SetId, sets);
      var m, after := MapRun(ids, Abstraction(sets), puts), Run(sets, puts);
      && |after| == |sets|
      && (forall k, n :: 0 <= k < |sets| ==> (MapAgrees(after, m, k, n) <==> MapDecides(after, k, n)))
      && ((forall k, n :: 0 <= k < |sets| ==> MapDecides(after, k, n)) ==>
            forall req :: ChosenSet(after, req) == FirstIndex(ids, HasMapServer(m, req)))
      && (WellFormed(sets) ==> forall k, n :: 0 <= k < |sets| ==> MapDecides(after, k, n))
  {
    var ids, after := Map(SetId, sets), Run(sets, puts);
    var m := MapRun(ids, Abstraction(sets), puts);
    RunKeepsShape(sets, puts);
    ShapeKeepsIds(sets, after);
    RunRefinesMap(sets, Abstraction(sets), puts);
    forall k, n | 0 <= k < |sets| ensures MapAgrees(after, m, k, n) <==> MapDecides(after, k, n) {
      MapAgreesIff(after, m, k, n);
    }
    if forall k, n :: 0 <= k < |sets| ==> MapDecides(after, k, n) {
      forall req ensures ChosenSet(after, req) == FirstIndex(ids, HasMapServer(m, req)) {
        SelectionRefinesMap(after, m, req);
      }
    }
    if WellFormed(sets) {
      forall k, n | 0 <= k < |sets| ensures MapDecides(after, k, n) {
        WellFormedDecides(after, k, n);
      }
    }
  }

  // ----- The current answers of any list, repeated ids included -----

  /** A run touches only first entries of first sets, and never moves an entry. */
  lemma {:induction false} RunEntries(sets: seq<AmfInfo>, puts: seq<PutRequest>, k: nat, p: nat)
    requires k < |sets| && p < |sets[k].amfList|
    ensures var after, was := Run(sets, puts), sets[k].amfList[p];
      && |after| == |sets| && p < |after[k].amfList| && after[k].amfList[p].nfId == was.nfId
      && (after[k].amfList[p] == was
          || (k == SetIndex(sets, sets[k].targetAmfSet) && p == EntryIndex(sets[k].amfList, was.nfId)))
  {
    RunKeepsShape(sets, puts);
    if puts == [] {
    } else {
      var init, last := puts[..|puts| - 1], puts[|puts| - 1];
      var before, was := Run(sets, init), sets[k].amfList[p];
      RunEntries(sets, init, k, p);
      RunKeepsShape(sets, init);
      ShapeKeepsIds(sets, before);
      if Accepted(before, last.info) && k == SetIndex(before, last.info.amfSetId.value)
         && p == EntryIndex(before[k].amfList, last.nfId) {
        PrefixEntryIndex(sets[k].amfList, before[k].amfList, was.nfId);
      }
    }
  }

  lemma PrefixEntryIndex(l: seq<AmfEntry>, m: seq<AmfEntry>, nfId: string)
    requires Map(NfId, l) <= Map(NfId, m)
    ensures var i, j := EntryIndex(l, nfId), EntryIndex(m, nfId);
      if i < |l| then j == i else j >= |l|
  {
    assert forall j :: 0 <= j < |l| ==> Map(NfId, l)[j] == Map(NfId, m)[j];
    assert forall j :: 0 <= j < |l| ==> l[j].nfId == m[j].nfId;
  }

  /** An entry behind the configured ones is the only one of its AMF in the first
      set with its id, and was written. */
  lemma {:induction false} AppendedEntry(sets: seq<AmfInfo>, puts: seq<PutRequest>, k: nat, q: nat)
    requires k < |sets| && |Run(sets, puts)| == |sets| && |sets[k].amfList| <= q < |Run(sets, puts)[k].amfList|
    ensures var l := Run(sets, puts)[k].amfList;
      && SetIndex(sets, sets[k].targetAmfSet) == k
      && EntryIndex(l, l[q].nfId) == q
      && LastWrite(Map(SetId, sets), puts, StoreKey(sets[k].targetAmfSet, l[q].nfId)).Some?
  {
    var init, last := puts[..|puts| - 1], puts[|puts| - 1];
    var before, after := Run(sets, init), Run(sets, puts);
    RunKeepsShape(sets, init);
    ShapeKeepsIds(sets, before);
    AcceptedMeansListed(before, last);
    StoredShape(before, last);
    if q < |before[k].amfList| {
      AppendedEntry(sets, init, k, q);
      assert Map(NfId, before[k].amfList)[q] == Map(NfId, after[k].amfList)[q];
      PrefixEntryIndex(before[k].amfList, after[k].amfList, before[k].amfList[q].nfId);
    } else {
      assert forall j :: 0 <= j < q ==> after[k].amfList[j] == before[k].amfList[j];
    }
  }

  /** An accepted PUT of the run wrote AMF `n` of set `k`. */
  ghost predicate WasWritten(sets: seq<AmfInfo>, puts: seq<PutRequest>, k: nat, n: string)
    requires k < |sets|
  {
    LastWrite(Map(SetId, sets), puts, StoreKey(sets[k].targetAmfSet, n)).Some?
    && SetIndex(sets, sets[k].targetAmfSet) == k
  }

  ghost function LastPayload(sets: seq<AmfInfo>, puts: seq<PutRequest>, k: nat, n: string): seq<AvailabilityData>
    requires k < |sets| && WasWritten(sets, puts, k, n)
  {
    LastWrite(Map(SetId, sets), puts, StoreKey(sets[k].targetAmfSet, n)).value
  }

  /** Every entry after a run: the first entry of an AMF that was written holds
      its last payload, and any other entry is as configured. */
  lemma EntryAfterRun(sets: seq<AmfInfo>, puts: seq<PutRequest>, k: nat, q: nat)
    requires k < |sets| && |Run(sets, puts)| == |sets| && q < |Run(sets, puts)[k].amfList|
    ensures var l, m := sets[k].amfList, Run(sets, puts)[k].amfList;
      var n := m[q].nfId;
      if WasWritten(sets, puts, k, n) && q == EntryIndex(m, n)
      then m[q].data == LastPayload(sets, puts, k, n)
      else q < |l| && m[q] == l[q]
  {
    var after, l, m := Run(sets, puts), sets[k].amfList, Run(sets, puts)[k].amfList;
    var n := m[q].nfId;
    RunKeepsShape(sets, puts);
    ShapeKeepsIds(sets, after);
    RunLookup(sets, puts, StoreKey(sets[k].targetAmfSet, n));
    if q < |l| {
      RunEntries(sets, puts, k, q);
      PrefixEntryIndex(l, m, n);
    } else {
      AppendedEntry(sets, puts, k, q);
    }
  }

  /** An AMF that was written has an entry after the run. */
  lemma WrittenIsThere(sets: seq<AmfInfo>, puts: seq<PutRequest>, k: nat, n: string)
    requires k < |sets| && WasWritten(sets, puts, k, n)
    ensures |Run(sets, puts)| == |sets|
    ensures EntryIndex(Run(sets, puts)[k].amfList, n) < |Run(sets, puts)[k].amfList|
  {
    RunKeepsShape(sets, puts);
    ShapeKeepsIds(sets, Run(sets, puts));
    RunLookup(sets, puts, StoreKey(sets[k].targetAmfSet, n));
  }

  /** AMF `n` is able to serve the request in set `k` after a run: by its last
      accepted payload, or by a configured entry that no PUT has replaced. */
  ghost predicate CurrentlyServes(
    sets: seq<AmfInfo>, puts: seq<PutRequest>, k: nat, n: string, req: seq<Snssai>)
    requires k < |sets|
  {
    var l, written := sets[k].amfList, WasWritten(sets, puts, k, n);
    || (written && DataCovers(LastPayload(sets, puts, k, n), req))
    || exists p :: 0 <= p < |l| && l[p].nfId == n && Serves(l[p], req) && !(written && p == EntryIndex(l, n))
  }

  /** After any run, on any list, the candidates of a set are its able AMFs. */
  lemma RunCandidates(sets: seq<AmfInfo>, puts: seq<PutRequest>, k: nat, n: string, req: seq<Snssai>)
    requires k < |sets|
    ensures |Run(sets, puts)| == |sets|
    ensures n in Candidates(Run(sets, puts)[k].amfList, req) <==> CurrentlyServes(sets, puts, k, n, req)
  {
    RunKeepsShape(sets, puts);
    var m := Run(sets, puts)[k].amfList;
    CandidatesExact(m, req);
    if q :| 0 <= q < |m| && m[q].nfId == n && Serves(m[q], req) {
      EntryAfterRun(sets, puts, k, q);
      PrefixEntryIndex(sets[k].amfList, m, n);
    }
    if CurrentlyServes(sets, puts, k, n, req) {
      var q := AbleEntry(sets, puts, k, n, req);
    }
  }

  lemma AbleEntry(sets: seq<AmfInfo>, puts: seq<PutRequest>, k: nat, n: string, req: seq<Snssai>) returns (q: nat)
    requires k < |sets| && CurrentlyServes(sets, puts, k, n, req)
    ensures |Run(sets, puts)| == |sets| && q < |Run(sets, puts)[k].amfList|
    ensures Run(sets, puts)[k].amfList[q].nfId == n && Serves(Run(sets, puts)[k].amfList[q], req)
  {
    RunKeepsShape(sets, puts);
    var l, m := sets[k].amfList, Run(sets, puts)[k].amfList;
    if WasWritten(sets, puts, k, n) && DataCovers(LastPayload(sets, puts, k, n), req) {
      WrittenIsThere(sets, puts, k, n);
      q := EntryIndex(m, n);
    } else {
      q :| 0 <= q < |l| && l[q].nfId == n && Serves(l[q], req)
        && !(WasWritten(sets, puts, k, n) && q == EntryIndex(l, n));
      assert Map(NfId, m)[q] == Map(NfId, l)[q];
      PrefixEntryIndex(l, m, n);
    }
    EntryAfterRun(sets, puts, k, q);
  }

  /** `k` is the first set with an AMF currently able to serve, or `|sets|`. */
  ghost predicate IsFirstAble(sets: seq<AmfInfo>, puts: seq<PutRequest>, req: seq<Snssai>, k: nat) {
    && k <= |sets|
    && (k < |sets| ==> exists n :: CurrentlyServes(sets, puts, k, n, req))
    && (forall j, n :: 0 <= j < k ==> !CurrentlyServes(sets, puts, j, n, req))
  }

  lemma FirstAbleUnique(sets: seq<AmfInfo>, puts: seq<PutRequest>, req: seq<Snssai>, k: nat, k': nat)
    requires IsFirstAble(sets, puts, req, k) && IsFirstAble(sets, puts, req, k')
    ensures k == k'
  {
  }

  lemma RunChoosesFirstAble(sets: seq<AmfInfo>, puts: seq<PutRequest>, req: seq<Snssai>)
    ensures |Run(sets, puts)| == |sets|
    ensures IsFirstAble(sets, puts, req, ChosenSet(Run(sets, puts), req))
  {
    var after := Run(sets, puts);
    var k := ChosenSet(after, req);
    RunKeepsShape(sets, puts);
    forall j, n | 0 <= j < |sets|
      ensures n in Candidates(after[j].amfList, req) <==> CurrentlyServes(sets, puts, j, n, req)
    {
      RunCandidates(sets, puts, j, n, req);
    }
    if k < |sets| {
      EmptyIff(Candidates(after[k].amfList, req));
    }
  }

  // ----- The handler as written -----

  /** The handler as written leaves the list alone. After a run that is the list
      that was meant if and only if every key's last accepted payload is what
      was configured for it already; in particular no accepted PUT may name an
      AMF that its set does not list. */
  lemma AsWrittenMeetsIntentIff(sets: seq<AmfInfo>, puts: seq<PutRequest>)
    ensures Run(sets, puts) == sets <==>
      forall key :: var w := LastWrite(Map(SetId, sets), puts, key); w.Some? ==> w == Lookup(sets, key)
  {
    var after, ids := Run(sets, puts), Map(SetId, sets);
    if after == sets {
      forall key ensures var w := LastWrite(ids, puts, key); w.Some? ==> w == Lookup(sets, key) {
        RunLookup(sets, puts, key);
      }
    }
    if forall key :: var w := LastWrite(ids, puts, key); w.Some? ==> w == Lookup(sets, key) {
      RunKeepsShape(sets, puts);
      forall k | 0 <= k < |sets| ensures after[k] == sets[k] {
        UnchangedSet(sets, puts, k);
      }
    }
  }

  lemma UnchangedSet(sets: seq<AmfInfo>, puts: seq<PutRequest>, k: nat)
    requires k < |sets| && ShapeKept(sets, Run(sets, puts))
    requires forall key :: var w := LastWrite(Map(SetId, sets), puts, key); w.Some? ==> w == Lookup(sets, key)
    ensures Run(sets, puts)[k] == sets[k]
  {
    var l, m := sets[k].amfList, Run(sets, puts)[k].amfList;
    assert |Map(NfId, l)| <= |Map(NfId, m)|;
    if |l| < |m| {
      EntryAfterRun(sets, puts, k, |l|);
      PrefixEntryIndex(l, m, m[|l|].nfId);
      assert false;
    }
    forall q | 0 <= q < |m| ensures m[q] == l[q] {
      EntryAfterRun(sets, puts, k, q);
      PrefixEntryIndex(l, m, m[q].nfId);
      assert Map(NfId, m)[q] == Map(NfId, l)[q];
    }
  }
}
