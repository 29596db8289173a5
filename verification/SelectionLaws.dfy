/** Properties of the selection engine that relate several requests, several
    configurations, or a request to the handlers' whole answer. */
module SelectionLaws {
  import opened Seqs
  import opened Slices
  import opened Config
  import opened SliceSelection

  // ----- Exactness -----

  /** Some AMF of some set has one availability entry that covers the request. */
  ghost predicate SomeAmfCovers(sets: seq<AmfInfo>, req: seq<Snssai>) {
    exists s, a, d :: s in sets && a in s.amfList && d in a.data && Covers(d.supportedSnssaiList, req)
  }

  lemma ChosenSetExists(sets: seq<AmfInfo>, req: seq<Snssai>)
    ensures ChosenSet(sets, req) < |sets| <==> SomeAmfCovers(sets, req)
  {
    var k := ChosenSet(sets, req);
    if k < |sets| {
      var i :| 0 <= i < |sets[k].amfList| && Serves(sets[k].amfList[i], req);
      var data := sets[k].amfList[i].data;
      var j :| 0 <= j < |data| && Covers(data[j].supportedSnssaiList, req);
      assert sets[k] in sets && sets[k].amfList[i] in sets[k].amfList && data[j] in data;
    }
    if SomeAmfCovers(sets, req) {
      var s, a, d :| s in sets && a in s.amfList && d in a.data && Covers(d.supportedSnssaiList, req);
      assert Serves(a, req);
      assert Candidates(s.amfList, req) != [];
    }
  }

  /** Some requested S-NSSAI matches a subscribed one. */
  ghost predicate SomeSubscribed(info: SliceInfoForRegistration) {
    exists r, s :: r in Requested(info) && s in SubscribedList(info) && CompareSnssai(r, s.subscribedSnssai)
  }

  /** No mapping, no home PLMN, a TAI that is absent or listed, both NSSAIs given:
      the request gets as far as comparing S-NSSAIs. */
  ghost predicate IsCompared(c: ConfigData, info: SliceInfoForRegistration, tai: Tai, home: PlmnId) {
    && !info.requestMappingIsSet && !info.mappingOfNssaiIsSet
    && home.mcc == ""
    && (tai.tac == "" || exists i :: 0 <= i < |c.taInfoList| && c.taInfoList[i].tai == tai)
    && info.requestedNssai.Some? && info.subscribedNssai.Some?
  }

  /** The request passes every check that comes before the AMFs. */
  ghost predicate PassesChecks(c: ConfigData, info: SliceInfoForRegistration, tai: Tai, home: PlmnId) {
    IsCompared(c, info, tai, home) && SomeSubscribed(info)
  }

  /** The conditions under which a registration request is answered 200. */
  ghost predicate RegistrationAcceptable(c: ConfigData, info: SliceInfoForRegistration, tai: Tai, home: PlmnId) {
    PassesChecks(c, info, tai, home) && SomeAmfCovers(c.amfInfoList, Requested(info))
  }

  lemma SomethingMatched(info: SliceInfoForRegistration)
    ensures Matched(Requested(info), SubscribedList(info)) != [] <==> SomeSubscribed(info)
  {
    var req, sub := Requested(info), SubscribedList(info);
    Partition(req, sub);
    if r :| r in req && IsSubscribed(r, sub) {
      var s :| s in sub && CompareSnssai(r, s.subscribedSnssai);
    }
    if r, s :| r in req && s in sub && CompareSnssai(r, s.subscribedSnssai) {
      assert IsSubscribed(r, sub);
    }
  }

  /** Past the checks that answer 503, the TAI is given but unknown, or one of
      the two NSSAIs is missing. */
  ghost predicate RegistrationSilent(c: ConfigData, info: SliceInfoForRegistration, tai: Tai, home: PlmnId) {
    && !info.requestMappingIsSet && !info.mappingOfNssaiIsSet && home.mcc == ""
    && ((tai.tac != "" && !exists i :: 0 <= i < |c.taInfoList| && c.taInfoList[i].tai == tai)
        || info.requestedNssai.None? || info.subscribedNssai.None?)
  }

  /** The verdict by what the request and the configuration contain. */
  lemma VerdictExact(c: ConfigData, info: SliceInfoForRegistration, tai: Tai, home: PlmnId)
    ensures var v, k := Judge(c, info, tai, home), ChosenSet(c.amfInfoList, Requested(info));
      && (v.NotInPlmn? <==> IsCompared(c, info, tai, home) && !SomeSubscribed(info))
      && (v.NoAmfSet? <==> PassesChecks(c, info, tai, home) && !SomeAmfCovers(c.amfInfoList, Requested(info)))
      && (v.Granted? <==> RegistrationAcceptable(c, info, tai, home))
      && (v.Granted? ==> v.amfSet == k)
      && (PassesChecks(c, info, tai, home) <==> v.NoAmfSet? || v.Granted?)
  {
    SomethingMatched(info);
    ChosenSetExists(c.amfInfoList, Requested(info));
  }

  lemma SilentVerdicts(c: ConfigData, info: SliceInfoForRegistration, tai: Tai, home: PlmnId)
    ensures var v := Judge(c, info, tai, home);
      v.TaiUnknown? || v.NssaiMissing? <==> RegistrationSilent(c, info, tai, home)
  {
  }

  /** Registration is sound and complete: when it is silent the caller's code
      stays; otherwise it is 503 for mapping or roaming, 200 under exactly the
      conditions above, and 403 for all the rest. */
  lemma RegistrationExact(c: ConfigData, info: SliceInfoForRegistration, tai: Tai, home: PlmnId, before: int)
    ensures RegistrationCode(Judge(c, info, tai, home), before) ==
      if RegistrationSilent(c, info, tai, home) then before
      else if info.requestMappingIsSet || info.mappingOfNssaiIsSet || home.mcc != "" then 503
      else if RegistrationAcceptable(c, info, tai, home) then 200
      else 403
    ensures RegistrationAcceptable(c, info, tai, home) ==> !RegistrationSilent(c, info, tai, home)
  {
    VerdictExact(c, info, tai, home);
    SilentVerdicts(c, info, tai, home);
  }

  /** What a 200 registration answer holds: the matched part of the request, and
      the first AMF set able to serve the whole request. */
  lemma GrantedInfo(c: ConfigData, info: SliceInfoForRegistration, tai: Tai, home: PlmnId, auth: AuthInfo)
    requires RegistrationAcceptable(c, info, tai, home)
    ensures var req, sub := info.requestedNssai.value, SubscribedList(info);
      var k, after := ChosenSet(c.amfInfoList, req), RegistrationInfo(c, info, Judge(c, info, tai, home), auth);
      && k < |c.amfInfoList|
      && after.allowedNssaiList.Some? && |after.allowedNssaiList.value| == 1
      && var allowed := after.allowedNssaiList.value[0];
      && allowed.accessType == ThreeGppAccess
      && |allowed.allowedSnssaiList| == |Matched(req, sub)|
      && (forall i :: 0 <= i < |Matched(req, sub)| ==>
            allowed.allowedSnssaiList[i].allowedSnssai == Matched(req, sub)[i])
      && after.candidateAmfList == Some(Candidates(c.amfInfoList[k].amfList, req))
      && after.candidateAmfList.value != []
      && after.targetAmfSet == Some(c.amfInfoList[k].targetAmfSet)
      && after.nrfAmfSet == Some(c.amfInfoList[k].nrfAmfSet)
      && after.nrfAmfSetNfMgtUri == Some(c.amfInfoList[k].nrfAmfSetMgt)
      && after.rejectedNssaiInPlmn == auth.rejectedNssaiInPlmn
      && after.nsiInformation == auth.nsiInformation
      && SomeAmfCovers(c.amfInfoList[k..k + 1], req) && !SomeAmfCovers(c.amfInfoList[..k], req)
  {
    assert Judge(c, info, tai, home) == Granted(ChosenSet(c.amfInfoList, Requested(info))) by {
      VerdictExact(c, info, tai, home);
    }
    FirstCoveringSet(c.amfInfoList, Requested(info));
  }

  lemma FirstCoveringSet(sets: seq<AmfInfo>, req: seq<Snssai>)
    requires ChosenSet(sets, req) < |sets|
    ensures var k := ChosenSet(sets, req);
      SomeAmfCovers(sets[k..k + 1], req) && !SomeAmfCovers(sets[..k], req)
  {
    var k := ChosenSet(sets, req);
    ChosenSetExists(sets[..k], req);
    ChosenSetExists(sets[k..k + 1], req);
    assert forall j :: 0 <= j < k ==> sets[..k][j] == sets[j];
    assert sets[k..k + 1][0] == sets[k];
  }

  /** What a registration that is not granted leaves behind. The rejected list is
      set iff S-NSSAIs were compared and none matched, the Allowed NSSAI iff one
      matched and no AMF covers the request; the AMF fields never are. */
  lemma RefusedInfo(c: ConfigData, info: SliceInfoForRegistration, tai: Tai, home: PlmnId, auth: AuthInfo)
    requires !RegistrationAcceptable(c, info, tai, home)
    ensures var after := RegistrationInfo(c, info, Judge(c, info, tai, home), auth);
      if !IsCompared(c, info, tai, home) then after == auth
      else if !SomeSubscribed(info) then after == auth.(rejectedNssaiInPlmn := info.requestedNssai)
      else
        && after == auth.(allowedNssaiList := after.allowedNssaiList)
        && after.allowedNssaiList.Some? && |after.allowedNssaiList.value| == 1
        && after.allowedNssaiList.value[0].accessType == ThreeGppAccess
        && (forall r :: AllowedSnssai(r) in after.allowedNssaiList.value[0].allowedSnssaiList <==>
              r in info.requestedNssai.value && IsSubscribed(r, info.subscribedNssai.value))
        && !SomeAmfCovers(c.amfInfoList, info.requestedNssai.value)
  {
    VerdictExact(c, info, tai, home);
    AllowedMembers(Matched(Requested(info), SubscribedList(info)));
  }

  lemma AllowedMembers(nssai: seq<Snssai>)
    ensures forall r :: AllowedSnssai(r) in AllowedFor(nssai)[0].allowedSnssaiList <==> r in nssai
  {
    var list := Map(Allow, nssai);
    forall r | r in nssai ensures AllowedSnssai(r) in list {
      var i :| 0 <= i < |nssai| && nssai[i] == r;
      assert list[i] == AllowedSnssai(r);
    }
  }

  /** The AMF sets are consulted last: they decide only among the requests that
      pass every other check. */
  lemma AmfSetsDecideLast(
    c: ConfigData, sets: seq<AmfInfo>, info: SliceInfoForRegistration, tai: Tai, home: PlmnId)
    ensures var v, k := Judge(c, info, tai, home), ChosenSet(sets, Requested(info));
      Judge(c.(amfInfoList := sets), info, tai, home) ==
        if !v.NoAmfSet? && !v.Granted? then v else if k < |sets| then Granted(k) else NoAmfSet
  {
  }

  /** The candidates are exactly the ids of serving AMFs, in list order, each
      position counted at most once. */
  lemma CandidatesExact(amfList: seq<AmfEntry>, req: seq<Snssai>)
    ensures forall n :: n in Candidates(amfList, req) <==>
      exists i :: 0 <= i < |amfList| && amfList[i].nfId == n && Serves(amfList[i], req)
    ensures Subsequence(Candidates(amfList, req), Map(NfId, amfList))
    ensures Distinct(Map(NfId, amfList)) ==> Distinct(Candidates(amfList, req))
  {
    var serving := Filter(amfList, Serving(req));
    var cands := Candidates(amfList, req);
    forall n | n in cands
      ensures exists i :: 0 <= i < |amfList| && amfList[i].nfId == n && Serves(amfList[i], req)
    {
      var j :| 0 <= j < |cands| && cands[j] == n;
      assert serving[j] in serving;
      var i :| 0 <= i < |amfList| && amfList[i] == serving[j];
    }
    forall i | 0 <= i < |amfList| && Serves(amfList[i], req) ensures amfList[i].nfId in cands {
      assert amfList[i] in serving;
      var j :| 0 <= j < |serving| && serving[j] == amfList[i];
      assert cands[j] == amfList[i].nfId;
    }
    FilterSubsequence(amfList, Serving(req));
    SubsequenceMap(serving, amfList, NfId);
    if Distinct(Map(NfId, amfList)) {
      SubsequenceDistinct(cands, Map(NfId, amfList));
    }
  }

  /** The whole code table of the PDU session handler: 503 for roaming or a home
      PLMN, else 200 for an admissible TAI and a matching NSI entry, else 400.
      The result changes under 200 only, by the first matching entry. */
  lemma PduExact(c: ConfigData, info: SliceInfoForPduSession, tai: Tai, home: PlmnId, before: AuthInfo)
    ensures PduCode(c, info, tai, home) ==
      if info.roamingIndication != 1 || home.mcc != "" then 503
      else if (tai.tac == "" || exists i :: 0 <= i < |c.taInfoList| && c.taInfoList[i].tai == tai)
              && exists i :: 0 <= i < |c.nsiInfoList| && CompareSnssai(info.sNssai, c.nsiInfoList[i].snssai)
      then 200
      else 400
    ensures PduCode(c, info, tai, home) == 200 ==>
      exists i :: 0 <= i < |c.nsiInfoList|
        && CompareSnssai(info.sNssai, c.nsiInfoList[i].snssai)
        && (forall j :: 0 <= j < i ==> !CompareSnssai(info.sNssai, c.nsiInfoList[j].snssai))
        && PduInfo(c, info, tai, home, before) == before.(nsiInformation := Some(c.nsiInfoList[i].nsiInformation))
    ensures PduCode(c, info, tai, home) != 200 ==> PduInfo(c, info, tai, home, before) == before
  {
    var k := ChosenNsi(c.nsiInfoList, info.sNssai);
    if PduAccepted(c, info, tai, home) {
      var i :| 0 <= i < |c.nsiInfoList| && CompareSnssai(info.sNssai, c.nsiInfoList[i].snssai);
      assert k <= i;
      assert CompareSnssai(info.sNssai, c.nsiInfoList[k].snssai);
    }
  }

  // ----- Enlarging the request, enlarging the support -----

  /** Data covers a request iff one entry has all the request's keys. */
  lemma CoveredByEntry(data: seq<AvailabilityData>, req: seq<Snssai>)
    ensures DataCovers(data, req) <==>
      exists d :: d in data && Keys(req) <= SupportKeys(d.supportedSnssaiList)
  {
    forall i | 0 <= i < |data|
      ensures Covers(data[i].supportedSnssaiList, req) <==> Keys(req) <= SupportKeys(data[i].supportedSnssaiList)
    {
      CoversIsKeyInclusion(data[i].supportedSnssaiList, req);
    }
    if i :| 0 <= i < |data| && Covers(data[i].supportedSnssaiList, req) {
      assert data[i] in data;
    }
  }

  lemma ServesAntitone(a: AmfEntry, small: seq<Snssai>, large: seq<Snssai>)
    requires Keys(small) <= Keys(large)
    ensures Serves(a, large) ==> Serves(a, small)
  {
    CoveredByEntry(a.data, small);
    CoveredByEntry(a.data, large);
  }

  /** Asking for more moves the chosen set later, or to failure; within the same
      set it only removes candidates. */
  lemma LargerRequestLater(sets: seq<AmfInfo>, small: seq<Snssai>, large: seq<Snssai>)
    requires Keys(small) <= Keys(large)
    ensures ChosenSet(sets, small) <= ChosenSet(sets, large)
    ensures forall k :: 0 <= k < |sets| ==>
      Subsequence(Candidates(sets[k].amfList, large), Candidates(sets[k].amfList, small))
  {
    forall k | 0 <= k < |sets|
      ensures Subsequence(Candidates(sets[k].amfList, large), Candidates(sets[k].amfList, small))
      ensures Candidates(sets[k].amfList, large) != [] ==> Candidates(sets[k].amfList, small) != []
    {
      forall a | a in sets[k].amfList ensures Serves(a, large) ==> Serves(a, small) { ServesAntitone(a, small, large); }
      var l := sets[k].amfList;
      FilterMonotone(l, Serving(large), Serving(small));
      SubsequenceMap(Filter(l, Serving(large)), Filter(l, Serving(small)), NfId);
    }
  }

  /** Some entry of `data` supports at least what `d` does. */
  ghost predicate Within(d: AvailabilityData, data: seq<AvailabilityData>) {
    exists e :: e in data && SupportKeys(d.supportedSnssaiList) <= SupportKeys(e.supportedSnssaiList)
  }

  ghost predicate AmfGrows(a: AmfEntry, b: AmfEntry) {
    forall d :: d in a.data ==> Within(d, b.data)
  }

  ghost predicate SetGrows(s: AmfInfo, t: AmfInfo) {
    forall a :: a in s.amfList ==> exists b :: b in t.amfList && AmfGrows(a, b)
  }

  /** Set by set, `grown` supports at least what `sets` supports; it may also
      have more sets at its end. */
  ghost predicate SetsGrow(sets: seq<AmfInfo>, grown: seq<AmfInfo>) {
    |sets| <= |grown| && forall k :: 0 <= k < |sets| ==> SetGrows(sets[k], grown[k])
  }

  /** Supporting more moves the chosen set earlier. */
  lemma LargerSupportEarlier(sets: seq<AmfInfo>, grown: seq<AmfInfo>, req: seq<Snssai>)
    requires SetsGrow(sets, grown)
    ensures ChosenSet(sets, req) < |sets| ==> ChosenSet(grown, req) <= ChosenSet(sets, req)
  {
    var k := ChosenSet(sets, req);
    if k < |sets| {
      var i :| 0 <= i < |sets[k].amfList| && Serves(sets[k].amfList[i], req);
      var a := sets[k].amfList[i];
      assert a in sets[k].amfList && SetGrows(sets[k], grown[k]);
      var b :| b in grown[k].amfList && AmfGrows(a, b);
      CoveredByEntry(a.data, req);
      CoveredByEntry(b.data, req);
      var d :| d in a.data && Keys(req) <= SupportKeys(d.supportedSnssaiList);
      assert Within(d, b.data);
      assert Serves(b, req);
    }
  }

  /** The S-NSSAIs of a support list, as a request. */
  function AsRequest(support: seq<ExtSnssai>): seq<Snssai> {
    Map((e: ExtSnssai) => e.AsSnssai(), support)
  }

  lemma AsRequestKeys(support: seq<ExtSnssai>)
    ensures Keys(AsRequest(support)) == SupportKeys(support)
  {
    var req := AsRequest(support);
    forall e | e in support ensures e.AsSnssai().Key() in Keys(req) {
      var i :| 0 <= i < |support| && support[i] == e;
      assert req[i] in req;
    }
    forall r | r in req ensures r.Key() in SupportKeys(support) {
      var i :| 0 <= i < |req| && req[i] == r;
      assert support[i] in support;
    }
  }

  /** An entry is within some data iff that data covers the entry's own list. */
  lemma WithinIffCovered(d: AvailabilityData, data: seq<AvailabilityData>)
    ensures Within(d, data) <==> DataCovers(data, AsRequest(d.supportedSnssaiList))
  {
    AsRequestKeys(d.supportedSnssaiList);
    CoveredByEntry(data, AsRequest(d.supportedSnssaiList));
  }

  /** A request that fits an entry is covered by any data the entry is within. */
  lemma WithinCovers(d: AvailabilityData, data: seq<AvailabilityData>, req: seq<Snssai>)
    requires Within(d, data) && Keys(req) <= SupportKeys(d.supportedSnssaiList)
    ensures DataCovers(data, req)
  {
    CoveredByEntry(data, req);
  }

  /** The same two laws for whole registrations: a granted request stays granted,
      from an index at most as large, when it shrinks but still names something
      subscribed, or when the AMFs come to support more. */
  lemma RegistrationMonotone(
    c: ConfigData, grown: ConfigData, info: SliceInfoForRegistration, less: SliceInfoForRegistration,
    tai: Tai, home: PlmnId)
    requires grown.taInfoList == c.taInfoList && SetsGrow(c.amfInfoList, grown.amfInfoList)
    requires less.requestedNssai.Some? && less == info.(requestedNssai := less.requestedNssai)
    requires Keys(Requested(less)) <= Keys(Requested(info))
    requires SomeSubscribed(less) && RegistrationAcceptable(c, info, tai, home)
    ensures var v, w := Judge(c, info, tai, home), Judge(grown, less, tai, home);
      v.Granted? && w.Granted? && w.amfSet <= v.amfSet
  {
    VerdictExact(c, info, tai, home);
    VerdictExact(grown, less, tai, home);
    var req, lessReq := Requested(info), Requested(less);
    assert ChosenSet(grown.amfInfoList, lessReq) <= ChosenSet(c.amfInfoList, req) by {
      LargerRequestLater(c.amfInfoList, lessReq, req);
      LargerSupportEarlier(c.amfInfoList, grown.amfInfoList, lessReq);
    }
    ChosenSetExists(grown.amfInfoList, lessReq);
  }

  // ----- Only the matching classes of the request count -----

  lemma SelectionCongruence(sets: seq<AmfInfo>, req: seq<Snssai>, req': seq<Snssai>)
    requires Keys(req) == Keys(req')
    ensures ChosenSet(sets, req) == ChosenSet(sets, req')
    ensures forall k :: 0 <= k < |sets| ==> Candidates(sets[k].amfList, req) == Candidates(sets[k].amfList, req')
  {
    forall k | 0 <= k < |sets| ensures Candidates(sets[k].amfList, req) == Candidates(sets[k].amfList, req') {
      forall a | a in sets[k].amfList ensures Serves(a, req) <==> Serves(a, req') {
        ServesAntitone(a, req, req');
        ServesAntitone(a, req', req);
      }
      FilterCongruent(sets[k].amfList, Serving(req), Serving(req'));
    }
  }

  /** Reordering, repeating or replacing requested S-NSSAIs by matching ones
      changes neither the verdict nor any AMF field. */
  lemma RegistrationCongruence(
    c: ConfigData, info: SliceInfoForRegistration, info': SliceInfoForRegistration,
    tai: Tai, home: PlmnId, auth: AuthInfo)
    requires info.requestedNssai.Some? && info'.requestedNssai.Some?
    requires info' == info.(requestedNssai := info'.requestedNssai)
    requires Keys(Requested(info)) == Keys(Requested(info'))
    ensures var v, v' := Judge(c, info, tai, home), Judge(c, info', tai, home);
      && v == v'
      && var after, after' := RegistrationInfo(c, info, v, auth), RegistrationInfo(c, info', v', auth);
         after.(allowedNssaiList := None, rejectedNssaiInPlmn := None)
           == after'.(allowedNssaiList := None, rejectedNssaiInPlmn := None)
  {
    SelectionCongruence(c.amfInfoList, Requested(info), Requested(info'));
    MatchedCongruence(Requested(info), Requested(info'), SubscribedList(info));
  }

  /** The Allowed NSSAI keeps the matching classes that are both requested and
      subscribed, whatever the request's form. */
  lemma MatchedCongruence(req: seq<Snssai>, req': seq<Snssai>, sub: seq<SubscribedSnssai>)
    requires Keys(req) == Keys(req')
    ensures Keys(Matched(req, sub)) == Keys(Matched(req', sub)) == Keys(req) * SubscribedKeys(sub)
    ensures Matched(req, sub) == [] <==> Matched(req', sub) == []
  {
    MatchedKeys(req, sub);
    MatchedKeys(req', sub);
    KeysEmpty(Matched(req, sub));
    KeysEmpty(Matched(req', sub));
  }

  /** Reordering the request reorders the Allowed NSSAI. */
  lemma AllowedPermutes(req: seq<Snssai>, req': seq<Snssai>, sub: seq<SubscribedSnssai>)
    requires multiset(req) == multiset(req')
    ensures multiset(AllowedFor(Matched(req, sub))[0].allowedSnssaiList)
         == multiset(AllowedFor(Matched(req', sub))[0].allowedSnssaiList)
  {
    var m, m' := Matched(req, sub), Matched(req', sub);
    forall y ensures multiset(Map(Allow, m))[y] == multiset(Map(Allow, m'))[y] {
      AllowCount(m, y);
      AllowCount(m', y);
      FilterCount(req, Subscribed(sub), y.allowedSnssai);
      FilterCount(req', Subscribed(sub), y.allowedSnssai);
    }
  }

  /** The same for the S-NSSAI of a PDU session. */
  lemma PduCongruence(
    c: ConfigData, info: SliceInfoForPduSession, info': SliceInfoForPduSession,
    tai: Tai, home: PlmnId, before: AuthInfo)
    requires info' == info.(sNssai := info'.sNssai) && CompareSnssai(info.sNssai, info'.sNssai)
    ensures PduCode(c, info, tai, home) == PduCode(c, info', tai, home)
    ensures PduInfo(c, info, tai, home, before) == PduInfo(c, info', tai, home, before)
  {
    PduAcceptedIff(c, info, tai, home);
    PduAcceptedIff(c, info', tai, home);
    assert ChosenNsi(c.nsiInfoList, info.sNssai) == ChosenNsi(c.nsiInfoList, info'.sNssai);
  }

  /** A PDU session request cannot see the AMF sets. */
  lemma PduIgnoresAmfSets(
    c: ConfigData, sets: seq<AmfInfo>, info: SliceInfoForPduSession, tai: Tai, home: PlmnId, before: AuthInfo)
    ensures PduCode(c.(amfInfoList := sets), info, tai, home) == PduCode(c, info, tai, home)
    ensures PduInfo(c.(amfInfoList := sets), info, tai, home, before) == PduInfo(c, info, tai, home, before)
  {
  }

  lemma KeysEmpty(nssai: seq<Snssai>)
    ensures Keys(nssai) == {} <==> nssai == []
  {
    if nssai != [] {
      assert nssai[0] in nssai;
      assert nssai[0].Key() in Keys(nssai);
    }
  }

  lemma MatchedKeys(req: seq<Snssai>, sub: seq<SubscribedSnssai>)
    ensures Keys(Matched(req, sub)) == Keys(req) * SubscribedKeys(sub)
  {
    forall r | r in req ensures IsSubscribed(r, sub) <==> r.Key() in SubscribedKeys(sub) {
    }
  }

  lemma {:induction false} AllowCount(nssai: seq<Snssai>, y: AllowedSnssai)
    ensures multiset(Map(Allow, nssai))[y] == multiset(nssai)[y.allowedSnssai]
  {
    if nssai == [] {
    } else {
      var rest := nssai[1..];
      AllowCount(rest, y);
      assert multiset(nssai) == multiset{nssai[0]} + multiset(rest) by {
        assert nssai == [nssai[0]] + rest;
      }
      assert multiset(Map(Allow, nssai)) == multiset{Allow(nssai[0])} + multiset(Map(Allow, rest)) by {
        assert Map(Allow, nssai) == [Allow(nssai[0])] + Map(Allow, rest);
      }
    }
  }

  // ----- First match and the loader -----

  /** `c` with `d` appended, list by list. */
  function Extend(c: ConfigData, d: ConfigData): ConfigData {
    ConfigData(c.nsiInfoList + d.nsiInfoList, c.taInfoList + d.taInfoList, c.amfInfoList + d.amfInfoList)
  }

  const EMPTY_CONFIG := ConfigData([], [], [])

  /** Loading appends, and what it appends does not depend on what is there. */
  lemma LoadExtends(c: ConfigData, file: SliceFile)
    ensures Load(c, file) == Extend(c, Load(EMPTY_CONFIG, file))
  {
    assert forall s: seq<NsiInfo> :: [] + s == s && s + [] == s;
    assert forall s: seq<TaInfo> :: [] + s == s && s + [] == s;
    assert forall s: seq<AmfInfo> :: [] + s == s && s + [] == s;
  }

  /** Whatever is granted stays granted, with the same answer, when more
      configuration follows. */
  lemma AnswersSurviveExtension(
    c: ConfigData, d: ConfigData, info: SliceInfoForRegistration, pdu: SliceInfoForPduSession,
    tai: Tai, home: PlmnId, auth: AuthInfo)
    ensures var v, w := Judge(c, info, tai, home), Judge(Extend(c, d), info, tai, home);
      v.Granted? ==> w == v && RegistrationInfo(Extend(c, d), info, w, auth) == RegistrationInfo(c, info, v, auth)
    ensures PduAccepted(c, pdu, tai, home) ==>
      && PduAccepted(Extend(c, d), pdu, tai, home)
      && PduInfo(Extend(c, d), pdu, tai, home, auth) == PduInfo(c, pdu, tai, home, auth)
  {
    FirstIndexAppend(c.amfInfoList, d.amfInfoList, HasCandidate(Requested(info)));
    FirstIndexAppend(c.nsiInfoList, d.nsiInfoList, MatchesNsi(pdu.sNssai));
    TaiListedExtends(c, d, tai);
    PduAcceptedIff(c, pdu, tai, home);
    PduAcceptedIff(Extend(c, d), pdu, tai, home);
  }

  lemma TaiListedExtends(c: ConfigData, d: ConfigData, tai: Tai)
    ensures TaiListed(Extend(c, d).taInfoList, tai) <==> TaiListed(c.taInfoList, tai) || TaiListed(d.taInfoList, tai)
  {
    var l := Extend(c, d).taInfoList;
    if TaiListed(c.taInfoList, tai) {
      var i :| 0 <= i < |c.taInfoList| && c.taInfoList[i].tai == tai;
      assert l[i].tai == tai;
    }
    if TaiListed(d.taInfoList, tai) {
      var i :| 0 <= i < |d.taInfoList| && d.taInfoList[i].tai == tai;
      assert l[|c.taInfoList| + i].tai == tai;
    }
  }

  lemma PduAcceptedIff(c: ConfigData, info: SliceInfoForPduSession, tai: Tai, home: PlmnId)
    ensures PduAccepted(c, info, tai, home) <==>
      && info.roamingIndication == ROAMING_IND_NON_ROAMING && home.mcc == "" && TaiAdmitted(c, tai)
      && ChosenNsi(c.nsiInfoList, info.sNssai) < |c.nsiInfoList|
  {
    var k := ChosenNsi(c.nsiInfoList, info.sNssai);
    assert k < |c.nsiInfoList| ==> CompareSnssai(info.sNssai, c.nsiInfoList[k].snssai);
  }

  lemma RepeatedChoice(a: seq<AmfInfo>, d: seq<AmfInfo>, req: seq<Snssai>)
    ensures var k, l := ChosenSet(a + d, req), ChosenSet(a + d + d, req);
      if k < |a + d| then l == k else l == |a + d + d|
  {
    FirstIndexAppend(a, d, HasCandidate(req));
    FirstIndexAppend(a + d, d, HasCandidate(req));
  }

  lemma RepeatedRegistration(
    c: ConfigData, d: ConfigData, info: SliceInfoForRegistration, tai: Tai, home: PlmnId, auth: AuthInfo)
    ensures var once := Extend(c, d);
      var twice := Extend(once, d);
      var v := Judge(once, info, tai, home);
      Judge(twice, info, tai, home) == v
      && RegistrationInfo(twice, info, v, auth) == RegistrationInfo(once, info, v, auth)
  {
    TaiListedExtends(c, d, tai);
    TaiListedExtends(Extend(c, d), d, tai);
    RepeatedChoice(c.amfInfoList, d.amfInfoList, Requested(info));
  }

  lemma RepeatedPduSession(
    c: ConfigData, d: ConfigData, pdu: SliceInfoForPduSession, tai: Tai, home: PlmnId, auth: AuthInfo)
    ensures var once := Extend(c, d);
      var twice := Extend(once, d);
      PduCode(twice, pdu, tai, home) == PduCode(once, pdu, tai, home)
      && PduInfo(twice, pdu, tai, home, auth) == PduInfo(once, pdu, tai, home, auth)
  {
    TaiListedExtends(c, d, tai);
    TaiListedExtends(Extend(c, d), d, tai);
    FirstIndexAppend(c.nsiInfoList, d.nsiInfoList, MatchesNsi(pdu.sNssai));
    FirstIndexAppend(c.nsiInfoList + d.nsiInfoList, d.nsiInfoList, MatchesNsi(pdu.sNssai));
    PduAcceptedIff(Extend(c, d), pdu, tai, home);
    PduAcceptedIff(Extend(Extend(c, d), d), pdu, tai, home);
  }

  /** Loading the same file a second time doubles the lists but changes no
      answer, neither a success nor a failure, of either handler. */
  lemma LoadTwiceSameAnswers(
    c: ConfigData, file: SliceFile, info: SliceInfoForRegistration, pdu: SliceInfoForPduSession,
    tai: Tai, home: PlmnId, auth: AuthInfo)
    ensures var once := Load(c, file);
      var twice := Load(once, file);
      var v := Judge(once, info, tai, home);
      && Judge(twice, info, tai, home) == v
      && RegistrationInfo(twice, info, v, auth) == RegistrationInfo(once, info, v, auth)
      && PduCode(twice, pdu, tai, home) == PduCode(once, pdu, tai, home)
      && PduInfo(twice, pdu, tai, home, auth) == PduInfo(once, pdu, tai, home, auth)
  {
    var d := Load(EMPTY_CONFIG, file);
    LoadExtends(c, file);
    LoadExtends(Load(c, file), file);
    RepeatedRegistration(c, d, info, tai, home, auth);
    RepeatedPduSession(c, d, pdu, tai, home, auth);
  }
}
