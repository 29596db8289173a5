/** Properties of the availability store over whole runs of PUTs. Unless they say
    otherwise they are about the meant store, the one whose PUTs are kept. */
module StoreLaws {
  import opened Seqs
  import opened Slices
  import opened Config
  import opened SliceSelection
  import opened SliceAvailability

  datatype StoreKey = StoreKey(amfSetId: string, nfId: string)

  type AbstractStore = map<StoreKey, seq<AvailabilityData>>

  function SetId(s: AmfInfo): string { s.targetAmfSet }

  /** The data the store holds for a key: the first entry of the AMF in the first
      set with the id. */
  function Lookup(sets: seq<AmfInfo>, key: StoreKey): Option<seq<AvailabilityData>> {
    var k := SetIndex(sets, key.amfSetId);
    if k == |sets| then None else
    var i := EntryIndex(sets[k].amfList, key.nfId);
    if i == |sets[k].amfList| then None else Some(sets[k].amfList[i].data)
  }

  ghost predicate Represents(sets: seq<AmfInfo>, m: AbstractStore) {
    forall key :: Lookup(sets, key) == if key in m then Some(m[key]) else None
  }

  /** The key a PUT writes, and the write itself on the abstract store. */
  function KeyOf(put: PutRequest): StoreKey
    requires put.info.amfSetId.Some?
  {
    StoreKey(put.info.amfSetId.value, put.nfId)
  }

  predicate AcceptedBy(ids: seq<string>, put: PutRequest) {
    put.info.amfSetId.Some? && put.info.amfSetId.value != "" && put.info.amfSetId.value in ids
  }

  function MapStep(ids: seq<string>, m: AbstractStore, put: PutRequest): AbstractStore {
    if AcceptedBy(ids, put) then m[KeyOf(put) := put.info.supportedNssaiAvailabilityData] else m
  }

  function Run(sets: seq<AmfInfo>, puts: seq<PutRequest>): seq<AmfInfo> {
    if puts == [] then sets else Stored(Run(sets, puts[..|puts| - 1]), puts[|puts| - 1])
  }

  function MapRun(ids: seq<string>, m: AbstractStore, puts: seq<PutRequest>): AbstractStore {
    if puts == [] then m else MapStep(ids, MapRun(ids, m, puts[..|puts| - 1]), puts[|puts| - 1])
  }

  lemma AcceptedMeansListed(sets: seq<AmfInfo>, put: PutRequest)
    ensures Accepted(sets, put.info) <==> AcceptedBy(Map(SetId, sets), put)
  {
    var ids := Map(SetId, sets);
    if put.info.amfSetId.Some? {
      var k := SetIndex(sets, put.info.amfSetId.value);
      assert k < |sets| ==> ids[k] == put.info.amfSetId.value;
      if put.info.amfSetId.value in ids {
        var j :| 0 <= j < |ids| && ids[j] == put.info.amfSetId.value;
        assert k <= j;
      }
    }
  }

  // ----- What no PUT ever changes -----

  /** Same sets in the same order with the same ids and URIs, and in each the old
      AMF ids are still there, in place, in front of any new ones. */
  ghost predicate ShapeKept(before: seq<AmfInfo>, after: seq<AmfInfo>) {
    && |before| == |after|
    && forall k :: 0 <= k < |before| ==>
         && after[k] == before[k].(amfList := after[k].amfList)
         && Map(NfId, before[k].amfList) <= Map(NfId, after[k].amfList)
  }

  ghost predicate NoDuplicates(sets: seq<AmfInfo>) {
    forall k :: 0 <= k < |sets| ==> Distinct(Map(NfId, sets[k].amfList))
  }

  lemma UpsertShape(amfList: seq<AmfEntry>, nfId: string, data: seq<AvailabilityData>)
    ensures var i := EntryIndex(amfList, nfId);
      Map(NfId, Upsert(amfList, nfId, data))
        == if i < |amfList| then Map(NfId, amfList) else Map(NfId, amfList) + [nfId]
    ensures Distinct(Map(NfId, amfList)) ==> Distinct(Map(NfId, Upsert(amfList, nfId, data)))
  {
    var ids := Map(NfId, amfList);
    assert EntryIndex(amfList, nfId) == |amfList| ==> forall j :: 0 <= j < |ids| ==> ids[j] != nfId;
  }

  lemma StoredShape(sets: seq<AmfInfo>, put: PutRequest)
    ensures ShapeKept(sets, Stored(sets, put))
    ensures NoDuplicates(sets) ==> NoDuplicates(Stored(sets, put))
  {
    if Accepted(sets, put.info) {
      var k := SetIndex(sets, put.info.amfSetId.value);
      UpsertShape(sets[k].amfList, put.nfId, put.info.supportedNssaiAvailabilityData);
    }
  }

  lemma ShapeKeepsIds(a: seq<AmfInfo>, b: seq<AmfInfo>)
    requires ShapeKept(a, b)
    ensures Map(SetId, a) == Map(SetId, b)
    ensures forall id :: SetIndex(a, id) == SetIndex(b, id)
  {
    forall id ensures SetIndex(a, id) == SetIndex(b, id) {
      var i, j := SetIndex(a, id), SetIndex(b, id);
      assert i < |a| ==> b[i].targetAmfSet == id;
      assert j < |b| ==> a[j].targetAmfSet == id;
    }
    assert forall k :: 0 <= k < |a| ==> Map(SetId, a)[k] == Map(SetId, b)[k];
  }

  lemma {:induction false} RunKeepsShape(sets: seq<AmfInfo>, puts: seq<PutRequest>)
    ensures ShapeKept(sets, Run(sets, puts))
    ensures NoDuplicates(sets) ==> NoDuplicates(Run(sets, puts))
  {
    if puts == [] {
    } else {
      var before := Run(sets, puts[..|puts| - 1]);
      RunKeepsShape(sets, puts[..|puts| - 1]);
      StoredShape(before, puts[|puts| - 1]);
    }
  }

  // ----- Refinement of a map -----

  /** A PUT changes the data of its own key and of no other. */
  lemma StoredLookup(sets: seq<AmfInfo>, put: PutRequest, key: StoreKey)
    ensures Lookup(Stored(sets, put), key) ==
      if Accepted(sets, put.info) && key == KeyOf(put) then Some(put.info.supportedNssaiAvailabilityData)
      else Lookup(sets, key)
  {
    var after := Stored(sets, put);
    StoredShape(sets, put);
    ShapeKeepsIds(sets, after);
    if Accepted(sets, put.info) && key.amfSetId == put.info.amfSetId.value {
      var k := SetIndex(sets, key.amfSetId);
      UpsertLookup(sets[k].amfList, put.nfId, put.info.supportedNssaiAvailabilityData, key.nfId);
    }
  }

  lemma UpsertLookup(amfList: seq<AmfEntry>, nfId: string, data: seq<AvailabilityData>, other: string)
    ensures var after := Upsert(amfList, nfId, data);
      var i, j := EntryIndex(amfList, other), EntryIndex(after, other);
      if other == nfId then j < |after| && after[j].data == data
      else (j < |after| <==> i < |amfList|) && (i < |amfList| ==> after[j].data == amfList[i].data)
  {
    var after := Upsert(amfList, nfId, data);
    var p := EntryIndex(amfList, nfId);
    var i, j := EntryIndex(amfList, other), EntryIndex(after, other);
    assert after[p].nfId == nfId && after[p].data == data;
    assert forall q :: 0 <= q < |amfList| && q != p ==> after[q] == amfList[q];
    assert i < |amfList| && other != nfId ==> after[i] == amfList[i];
  }

  /** The abstract store of a configured list. */
  function Abstraction(sets: seq<AmfInfo>): (m: AbstractStore)
    ensures Represents(sets, m)
  {
    var keys := set s, a | s in sets && a in s.amfList :: StoreKey(s.targetAmfSet, a.nfId);
    assert forall key :: Lookup(sets, key).Some? ==> key in keys by {
      forall key | Lookup(sets, key).Some? ensures key in keys {
        var k := SetIndex(sets, key.amfSetId);
        assert sets[k] in sets && sets[k].amfList[EntryIndex(sets[k].amfList, key.nfId)] in sets[k].amfList;
      }
    }
    map key | key in keys && Lookup(sets, key).Some? :: Lookup(sets, key).value
  }

  /** The meant store refines a map over every run. */
  lemma {:induction false} RunRefinesMap(sets: seq<AmfInfo>, m: AbstractStore, puts: seq<PutRequest>)
    requires Represents(sets, m)
    ensures Represents(Run(sets, puts), MapRun(Map(SetId, sets), m, puts))
  {
    if puts == [] {
    } else {
      var init, last := puts[..|puts| - 1], puts[|puts| - 1];
      var before := Run(sets, init);
      RunRefinesMap(sets, m, init);
      RunKeepsShape(sets, init);
      ShapeKeepsIds(sets, before);
      AcceptedMeansListed(before, last);
      forall key { StoredLookup(before, last, key); }
    }
  }

  /** The payload of the last accepted PUT that names `key`. */
  function LastWrite(ids: seq<string>, puts: seq<PutRequest>, key: StoreKey): Option<seq<AvailabilityData>> {
    if puts == [] then None else
    var last := puts[|puts| - 1];
    if AcceptedBy(ids, last) && KeyOf(last) == key then Some(last.info.supportedNssaiAvailabilityData)
    else LastWrite(ids, puts[..|puts| - 1], key)
  }

  /** After any run the data of a key is its last accepted write, else what was
      configured. */
  lemma {:induction false} RunLookup(sets: seq<AmfInfo>, puts: seq<PutRequest>, key: StoreKey)
    ensures Lookup(Run(sets, puts), key) ==
      var w := LastWrite(Map(SetId, sets), puts, key); if w.Some? then w else Lookup(sets, key)
  {
    if puts == [] {
    } else {
      var init, last := puts[..|puts| - 1], puts[|puts| - 1];
      RunLookup(sets, init, key);
      RunKeepsShape(sets, init);
      ShapeKeepsIds(sets, Run(sets, init));
      AcceptedMeansListed(Run(sets, init), last);
      StoredLookup(Run(sets, init), last, key);
    }
  }

  // ----- Order of the entries -----

  /** `xs` appended to `ids` one by one, each only if it is not there yet. */
  function AppendNew(ids: seq<string>, xs: seq<string>): seq<string> {
    if xs == [] then ids else
    var before, x := AppendNew(ids, xs[..|xs| - 1]), xs[|xs| - 1];
    if x in before then before else before + [x]
  }

  /** The AMF ids that the accepted PUTs of a run write to set `k`, in order. */
  function WrittenTo(sets: seq<AmfInfo>, k: nat, puts: seq<PutRequest>): seq<string> {
    if puts == [] then [] else
    var before, last := WrittenTo(sets, k, puts[..|puts| - 1]), puts[|puts| - 1];
    if Accepted(sets, last.info) && SetIndex(sets, last.info.amfSetId.value) == k
    then before + [last.nfId] else before
  }

  /** New AMFs end up behind the configured ones in the order in which they were
      first written; being written again does not move an AMF. */
  lemma {:induction false} RunOrder(sets: seq<AmfInfo>, k: nat, puts: seq<PutRequest>)
    requires k < |sets|
    ensures |Run(sets, puts)| == |sets|
    ensures Map(NfId, Run(sets, puts)[k].amfList)
         == AppendNew(Map(NfId, sets[k].amfList), WrittenTo(sets, k, puts))
  {
    RunKeepsShape(sets, puts);
    if puts == [] {
    } else {
      var init, last := puts[..|puts| - 1], puts[|puts| - 1];
      var before := Run(sets, init);
      RunOrder(sets, k, init);
      RunKeepsShape(sets, init);
      ShapeKeepsIds(sets, before);
      AcceptedMeansListed(sets, last);
      AcceptedMeansListed(before, last);
      var xs := WrittenTo(sets, k, init);
      assert (xs + [last.nfId])[..|xs|] == xs;
      UpsertShape(before[k].amfList, last.nfId, last.info.supportedNssaiAvailabilityData);
      EntryIndexIffListed(before[k].amfList, last.nfId);
    }
  }

  lemma EntryIndexIffListed(amfList: seq<AmfEntry>, nfId: string)
    ensures EntryIndex(amfList, nfId) < |amfList| <==> nfId in Map(NfId, amfList)
  {
    var i, ids := EntryIndex(amfList, nfId), Map(NfId, amfList);
    assert i < |amfList| ==> ids[i] == nfId;
    if nfId in ids {
      var j :| 0 <= j < |ids| && ids[j] == nfId;
      assert i <= j;
    }
  }

  // ----- Two PUTs in a row -----

  /** A later PUT to the same key makes the earlier one as if it had never been. */
  lemma LastPutWins(sets: seq<AmfInfo>, p: PutRequest, q: PutRequest)
    requires p.nfId == q.nfId && p.info.amfSetId == q.info.amfSetId
    ensures Stored(Stored(sets, p), q) == Stored(sets, q)
  {
    if Accepted(sets, p.info) {
      var k := SetIndex(sets, p.info.amfSetId.value);
      StoredShape(sets, p);
      ShapeKeepsIds(sets, Stored(sets, p));
      UpsertTwice(sets[k].amfList, p.nfId,
                  p.info.supportedNssaiAvailabilityData, q.info.supportedNssaiAvailabilityData);
    }
  }

  lemma UpsertTwice(l: seq<AmfEntry>, n: string, d: seq<AvailabilityData>, e: seq<AvailabilityData>)
    ensures Upsert(Upsert(l, n, d), n, e) == Upsert(l, n, e)
  {
    var m, i := Upsert(l, n, d), EntryIndex(l, n);
    assert m[i].nfId == n && forall j :: 0 <= j < i ==> m[j] == l[j];
    assert EntryIndex(m, n) == i;
  }

  /** The PUT finds its AMF already in the set it names. */
  predicate Replaces(sets: seq<AmfInfo>, put: PutRequest)
    requires put.info.amfSetId.Some?
  {
    Lookup(sets, KeyOf(put)).Some?
  }

  /** Exactly when the order of two PUTs does not matter. */
  lemma PutsCommuteIff(sets: seq<AmfInfo>, p: PutRequest, q: PutRequest)
    ensures Stored(Stored(sets, p), q) == Stored(Stored(sets, q), p) <==>
      || !Accepted(sets, p.info) || !Accepted(sets, q.info)
      || p.info.amfSetId != q.info.amfSetId
      || (if p.nfId == q.nfId
          then p.info.supportedNssaiAvailabilityData == q.info.supportedNssaiAvailabilityData
          else Replaces(sets, p) || Replaces(sets, q))
  {
    StoredShape(sets, p);
    ShapeKeepsIds(sets, Stored(sets, p));
    StoredShape(sets, q);
    ShapeKeepsIds(sets, Stored(sets, q));
    if Accepted(sets, p.info) && Accepted(sets, q.info) && p.info.amfSetId == q.info.amfSetId {
      var k, d, e := SetIndex(sets, p.info.amfSetId.value),
        p.info.supportedNssaiAvailabilityData, q.info.supportedNssaiAvailabilityData;
      var l := sets[k].amfList;
      UpsertsCommuteIff(l, p.nfId, d, q.nfId, e);
      var pq, qp := Stored(Stored(sets, p), q), Stored(Stored(sets, q), p);
      assert pq[k].amfList == Upsert(Upsert(l, p.nfId, d), q.nfId, e);
      assert qp[k].amfList == Upsert(Upsert(l, q.nfId, e), p.nfId, d);
    }
  }

  lemma UpsertsCommuteIff(
    l: seq<AmfEntry>, n: string, d: seq<AvailabilityData>, o: string, e: seq<AvailabilityData>)
    ensures Upsert(Upsert(l, n, d), o, e) == Upsert(Upsert(l, o, e), n, d) <==>
      if n == o then d == e else EntryIndex(l, n) < |l| || EntryIndex(l, o) < |l|
  {
    if n == o {
      UpsertTwice(l, n, d, e);
      UpsertTwice(l, n, e, d);
      assert Upsert(l, n, d)[EntryIndex(l, n)].data == d;
      assert Upsert(l, n, e)[EntryIndex(l, n)].data == e;
    } else {
      EntryIndexAfter(l, n, d, o);
      EntryIndexAfter(l, o, e, n);
      if EntryIndex(l, n) == |l| && EntryIndex(l, o) == |l| {
        assert Upsert(Upsert(l, n, d), o, e)[|l|].nfId == n;
        assert Upsert(Upsert(l, o, e), n, d)[|l|].nfId == o;
      }
    }
  }

  /** Writing one AMF does not move another. */
  lemma EntryIndexAfter(l: seq<AmfEntry>, n: string, d: seq<AvailabilityData>, other: string)
    requires n != other
    ensures EntryIndex(Upsert(l, n, d), other) ==
      if EntryIndex(l, other) < |l| then EntryIndex(l, other) else |Upsert(l, n, d)|
  {
    var m, i, j := Upsert(l, n, d), EntryIndex(l, other), EntryIndex(Upsert(l, n, d), other);
    assert forall q :: 0 <= q < |l| && q != EntryIndex(l, n) ==> m[q] == l[q];
    assert m[EntryIndex(l, n)].nfId == n;
    if i < |l| { assert m[i].nfId == other; }
    if j < |m| { assert m[j] == l[j]; }
  }
}
