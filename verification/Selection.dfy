/** The slice-selection engine: what each step must find, and the loops that
    find it. */
module SliceSelection {
  import opened Seqs
  import opened Slices
  import opened Config

  const OK := 200
  const BAD_REQUEST := 400
  const FORBIDDEN := 403
  const SERVICE_UNAVAILABLE := 503

  const ROAMING_IND_NON_ROAMING := 1

  datatype AccessType = ThreeGppAccess | NonThreeGppAccess
  datatype AllowedSnssai = AllowedSnssai(allowedSnssai: Snssai)
  datatype AllowedNssai = AllowedNssai(accessType: AccessType, allowedSnssaiList: seq<AllowedSnssai>)

  /** The contents of a selection result. */
  datatype AuthInfo = AuthInfo(
    allowedNssaiList: Option<seq<AllowedNssai>>,
    rejectedNssaiInPlmn: Option<seq<Snssai>>,
    candidateAmfList: Option<seq<string>>,
    targetAmfSet: Option<string>,
    nrfAmfSet: Option<string>,
    nrfAmfSetNfMgtUri: Option<string>,
    nsiInformation: Option<NsiInformation>)

  const EMPTY_AUTH_INFO := AuthInfo(None, None, None, None, None, None, None)

  /** The result object the handlers fill in, field by field. */
  class AuthorizedNetworkSliceInfo {
    var allowedNssaiList: Option<seq<AllowedNssai>>
    var rejectedNssaiInPlmn: Option<seq<Snssai>>
    var candidateAmfList: Option<seq<string>>
    var targetAmfSet: Option<string>
    var nrfAmfSet: Option<string>
    var nrfAmfSetNfMgtUri: Option<string>
    var nsiInformation: Option<NsiInformation>

    function Info(): AuthInfo
      reads this
    {
      AuthInfo(allowedNssaiList, rejectedNssaiInPlmn, candidateAmfList, targetAmfSet,
               nrfAmfSet, nrfAmfSetNfMgtUri, nsiInformation)
    }

    constructor ()
      ensures Info() == EMPTY_AUTH_INFO
    {
      allowedNssaiList, rejectedNssaiInPlmn, candidateAmfList := None, None, None;
      targetAmfSet, nrfAmfSet, nrfAmfSetNfMgtUri, nsiInformation := None, None, None, None;
    }
  }

  datatype SliceInfoForRegistration = SliceInfoForRegistration(
    requestedNssai: Option<seq<Snssai>>,
    subscribedNssai: Option<seq<SubscribedSnssai>>,
    requestMappingIsSet: bool,
    mappingOfNssaiIsSet: bool)

  datatype SliceInfoForPduSession = SliceInfoForPduSession(sNssai: Snssai, roamingIndication: int)

  // ----- AMF sets -----

  /** One availability entry covers the whole request: entries are not pooled. */
  predicate DataCovers(data: seq<AvailabilityData>, req: seq<Snssai>) {
    exists i :: 0 <= i < |data| && Covers(data[i].supportedSnssaiList, req)
  }

  predicate Serves(a: AmfEntry, req: seq<Snssai>) {
    DataCovers(a.data, req)
  }

  function Serving(req: seq<Snssai>): AmfEntry -> bool {
    (a: AmfEntry) => Serves(a, req)
  }

  function NfId(a: AmfEntry): string {
    a.nfId
  }

  /** The ids of the AMFs that serve the request, in order. */
  function Candidates(amfList: seq<AmfEntry>, req: seq<Snssai>): (r: seq<string>)
    ensures r == [] <==> forall i :: 0 <= i < |amfList| ==> !Serves(amfList[i], req)
  {
    var serving := Filter(amfList, Serving(req));
    assert forall i :: 0 <= i < |amfList| && Serves(amfList[i], req) ==> amfList[i] in serving;
    assert serving != [] ==> serving[0] in serving && serving[0] in amfList;
    Map(NfId, serving)
  }

  function HasCandidate(req: seq<Snssai>): AmfInfo -> bool {
    (s: AmfInfo) => Candidates(s.amfList, req) != []
  }

  /** The first AMF set with a candidate, or `|sets|`. */
  function ChosenSet(sets: seq<AmfInfo>, req: seq<Snssai>): (k: nat)
    ensures k <= |sets|
    ensures k < |sets| ==> Candidates(sets[k].amfList, req) != []
    ensures forall j :: 0 <= j < k ==> Candidates(sets[j].amfList, req) == []
  {
    FirstIndex(sets, HasCandidate(req))
  }

  /** `auth` with the AMF fields taken from `s`. */
  function WithAmfSet(auth: AuthInfo, s: AmfInfo, req: seq<Snssai>): AuthInfo {
    auth.(candidateAmfList := Some(Candidates(s.amfList, req)),
          targetAmfSet := Some(s.targetAmfSet),
          nrfAmfSet := Some(s.nrfAmfSet),
          nrfAmfSetNfMgtUri := Some(s.nrfAmfSetMgt))
  }

  method GetValidAmf(eSnssaiList: seq<ExtSnssai>, rNssai: seq<Snssai>) returns (valid: bool)
    ensures valid <==> Covers(eSnssaiList, rNssai)
  {
    var rejected: seq<Snssai> := [];
    for i := 0 to |rNssai|
      invariant rejected == [] <==> Covers(eSnssaiList, rNssai[..i])
    {
      var amfMatched := false;
      for j := 0 to |eSnssaiList|
        invariant amfMatched <==> IsSupported(rNssai[i], eSnssaiList[..j])
      {
        var eSnssai := eSnssaiList[j];
        var tmp := Snssai(eSnssai.sst, None);
        if eSnssai.sd.Some? { tmp := tmp.(sd := Some(eSnssai.sd.value)); }
        assert tmp == eSnssai.AsSnssai() && eSnssaiList[..j + 1] == eSnssaiList[..j] + [eSnssai];
        if CompareSnssai(rNssai[i], tmp) { amfMatched := true; }
      }
      assert eSnssaiList[..|eSnssaiList|] == eSnssaiList;
      assert rNssai[..i + 1] == rNssai[..i] + [rNssai[i]];
      if !amfMatched { rejected := rejected + [rNssai[i]]; }
    }
    assert rNssai[..|rNssai|] == rNssai;
    return |rejected| == 0;
  }

  lemma CandidatesStep(amfList: seq<AmfEntry>, i: nat, req: seq<Snssai>)
    requires i < |amfList|
    ensures Candidates(amfList[..i + 1], req)
         == Candidates(amfList[..i], req) + if Serves(amfList[i], req) then [amfList[i].nfId] else []
  {
    FilterStep(amfList, i, Serving(req));
  }

  /** The candidates of one AMF set. The list handed in is empty whenever the
      search moves on to a new set. */
  method CollectCandidates(amfList: seq<AmfEntry>, reqNssai: seq<Snssai>, before: seq<string>)
    returns (candidates: seq<string>)
    ensures candidates == before + Candidates(amfList, reqNssai)
  {
    candidates := before;
    for i := 0 to |amfList|
      invariant candidates == before + Candidates(amfList[..i], reqNssai)
    {
      CandidatesStep(amfList, i, reqNssai);
      var amf := amfList[i];
      for j := 0 to |amf.data|
        invariant forall d :: 0 <= d < j ==> !Covers(amf.data[d].supportedSnssaiList, reqNssai)
        invariant candidates == before + Candidates(amfList[..i], reqNssai)
      {
        var valid := GetValidAmf(amf.data[j].supportedSnssaiList, reqNssai);
        if valid {
          candidates := candidates + [amf.nfId];
          assert Serves(amf, reqNssai);
          break;
        }
      }
    }
    assert amfList[..|amfList|] == amfList;
  }

  method GetValidAmfSet(cfg: NssfConfig, reqNssai: seq<Snssai>, auth: AuthorizedNetworkSliceInfo)
    returns (found: bool)
    modifies auth
    ensures var k := ChosenSet(cfg.amfInfoList, reqNssai);
            && (found <==> k < |cfg.amfInfoList|)
            && auth.Info() == if found then WithAmfSet(old(auth.Info()), cfg.amfInfoList[k], reqNssai)
                              else old(auth.Info())
  {
    var candidates: seq<string> := [];
    for k := 0 to |cfg.amfInfoList|
      invariant candidates == []
      invariant k <= ChosenSet(cfg.amfInfoList, reqNssai)
      invariant auth.Info() == old(auth.Info())
    {
      var amfSet := cfg.amfInfoList[k];
      ghost var chosen := ChosenSet(cfg.amfInfoList, reqNssai);
      candidates := CollectCandidates(amfSet.amfList, reqNssai, candidates);
      assert candidates == Candidates(amfSet.amfList, reqNssai);
      if candidates != [] {
        assert k == chosen;
        auth.candidateAmfList := Some(candidates);
        auth.targetAmfSet := Some(amfSet.targetAmfSet);
        auth.nrfAmfSet := Some(amfSet.nrfAmfSet);
        auth.nrfAmfSetNfMgtUri := Some(amfSet.nrfAmfSetMgt);
        return true;
      }
    }
    return false;
  }

  // ----- Requested against subscribed S-NSSAIs -----

  function Subscribed(subscribed: seq<SubscribedSnssai>): Snssai -> bool {
    (r: Snssai) => IsSubscribed(r, subscribed)
  }

  function NotSubscribed(subscribed: seq<SubscribedSnssai>): Snssai -> bool {
    (r: Snssai) => !IsSubscribed(r, subscribed)
  }

  /** The requested S-NSSAIs that match a subscribed one, in order. */
  function Matched(req: seq<Snssai>, subscribed: seq<SubscribedSnssai>): seq<Snssai> {
    Filter(req, Subscribed(subscribed))
  }

  function Rejected(req: seq<Snssai>, subscribed: seq<SubscribedSnssai>): seq<Snssai> {
    Filter(req, NotSubscribed(subscribed))
  }

  /** The requested list splits into matched and rejected, in order and without
      loss, and the size of the rejected part tells whether anything matched,
      the empty request included. */
  lemma Partition(req: seq<Snssai>, sub: seq<SubscribedSnssai>)
    ensures Subsequence(Matched(req, sub), req) && Subsequence(Rejected(req, sub), req)
    ensures multiset(Matched(req, sub)) + multiset(Rejected(req, sub)) == multiset(req)
    ensures |Rejected(req, sub)| == |req| <==> Matched(req, sub) == []
    ensures Matched(req, sub) == [] <==> !exists r :: r in req && IsSubscribed(r, sub)
  {
    FilterSubsequence(req, Subscribed(sub));
    FilterSubsequence(req, NotSubscribed(sub));
    FilterSplits(req, Subscribed(sub), NotSubscribed(sub));
    var m := Matched(req, sub);
    assert m != [] ==> m[0] in m;
  }

  lemma PartitionStep(req: seq<Snssai>, sub: seq<SubscribedSnssai>, i: nat)
    requires i < |req|
    ensures var here := IsSubscribed(req[i], sub);
      && Matched(req[..i + 1], sub) == Matched(req[..i], sub) + (if here then [req[i]] else [])
      && Rejected(req[..i + 1], sub) == Rejected(req[..i], sub) + (if here then [] else [req[i]])
  {
    FilterStep(req, i, Subscribed(sub));
    FilterStep(req, i, NotSubscribed(sub));
  }

  function Allow(s: Snssai): AllowedSnssai {
    AllowedSnssai(s)
  }

  /** The Allowed NSSAI made of `nssai`: same length, order and S-NSSAIs. */
  function AllowedFor(nssai: seq<Snssai>): seq<AllowedNssai> {
    [AllowedNssai(ThreeGppAccess, Map(Allow, nssai))]
  }

  method SetAllowedNssai(nssai: seq<Snssai>, auth: AuthorizedNetworkSliceInfo)
    modifies auth
    ensures auth.Info() == old(auth.Info()).(allowedNssaiList := Some(AllowedFor(nssai)))
  {
    var allowedSnssaiList: seq<AllowedSnssai> := [];
    for i := 0 to |nssai|
      invariant allowedSnssaiList == Map(Allow, nssai)[..i]
    {
      var snssai := Snssai(nssai[i].sst, None);
      if nssai[i].sd.Some? { snssai := snssai.(sd := Some(nssai[i].sd.value)); }
      allowedSnssaiList := allowedSnssaiList + [AllowedSnssai(snssai)];
    }
    assert allowedSnssaiList == Map(Allow, nssai);
    auth.allowedNssaiList := Some([AllowedNssai(ThreeGppAccess, allowedSnssaiList)]);
  }

  /** Called only when both lists are set; absent lists read as empty. */
  function Requested(info: SliceInfoForRegistration): seq<Snssai> {
    if info.requestedNssai.Some? then info.requestedNssai.value else []
  }

  function SubscribedList(info: SliceInfoForRegistration): seq<SubscribedSnssai> {
    if info.subscribedNssai.Some? then info.subscribedNssai.value else []
  }

  method ValidateRnssaiInPlmn(info: SliceInfoForRegistration, auth: AuthorizedNetworkSliceInfo)
    returns (valid: bool)
    modifies auth
    ensures valid <==> Matched(Requested(info), SubscribedList(info)) != []
    ensures auth.Info() == if valid
      then old(auth.Info()).(allowedNssaiList := Some(AllowedFor(Matched(Requested(info), SubscribedList(info)))))
      else old(auth.Info()).(rejectedNssaiInPlmn := Some(Requested(info)))
  {
    var req, sub := Requested(info), SubscribedList(info);
    var rejected: seq<Snssai>, matched: seq<Snssai> := [], [];
    for i := 0 to |req|
      invariant matched == Matched(req[..i], sub)
      invariant rejected == Rejected(req[..i], sub)
      invariant auth.Info() == old(auth.Info())
    {
      PartitionStep(req, sub, i);
      var snssaiMatched := false;
      for j := 0 to |sub|
        invariant snssaiMatched <==> IsSubscribed(req[i], sub[..j])
      {
        if CompareSnssai(req[i], sub[j].subscribedSnssai) { snssaiMatched := true; }
        assert sub[..j + 1] == sub[..j] + [sub[j]];
      }
      assert sub[..|sub|] == sub;
      if !snssaiMatched {
        rejected := rejected + [req[i]];
      } else {
        matched := matched + [req[i]];
      }
    }
    assert req[..|req|] == req;
    Partition(req, sub);
    if |rejected| == |req| {
      auth.rejectedNssaiInPlmn := Some(req);
      return false;
    }
    SetAllowedNssai(matched, auth);
    return true;
  }

  // ----- TAI and NSI look-ups -----

  predicate TaiListed(taInfoList: seq<TaInfo>, tai: Tai) {
    exists i :: 0 <= i < |taInfoList| && taInfoList[i].tai == tai
  }

  method ValidateTa(cfg: NssfConfig, tai: Tai) returns (valid: bool)
    ensures valid <==> TaiListed(cfg.taInfoList, tai)
  {
    for i := 0 to |cfg.taInfoList|
      invariant forall j :: 0 <= j < i ==> cfg.taInfoList[j].tai != tai
    {
      var item := cfg.taInfoList[i];
      if tai.plmnId.mcc == item.tai.plmnId.mcc && tai.plmnId.mnc == item.tai.plmnId.mnc
         && tai.tac == item.tai.tac {
        return true;
      }
    }
    return false;
  }

  function MatchesNsi(s: Snssai): NsiInfo -> bool {
    (n: NsiInfo) => CompareSnssai(s, n.snssai)
  }

  /** The first NSI entry whose S-NSSAI matches, or `|nsi|`. */
  function ChosenNsi(nsi: seq<NsiInfo>, s: Snssai): (k: nat)
    ensures k <= |nsi|
    ensures k < |nsi| ==> nsi[k].snssai.Key() == s.Key()
    ensures forall j :: 0 <= j < k ==> nsi[j].snssai.Key() != s.Key()
  {
    FirstIndex(nsi, MatchesNsi(s))
  }

  /** `before` with the fields that are set in `item` copied over it. */
  function CopiedOver(before: NsiInformation, item: NsiInformation): (r: NsiInformation)
    ensures before == NsiInformation("", None, None) ==> r == item
  {
    NsiInformation(item.nrfId,
                   if item.nsiId.Some? then item.nsiId else before.nsiId,
                   if item.nrfNfMgtUri.Some? then item.nrfNfMgtUri else before.nrfNfMgtUri)
  }

  method ValidateNsi(cfg: NssfConfig, info: SliceInfoForPduSession, before: NsiInformation)
    returns (valid: bool, nsiInfo: NsiInformation)
    ensures var k := ChosenNsi(cfg.nsiInfoList, info.sNssai);
            && (valid <==> k < |cfg.nsiInfoList|)
            && nsiInfo == if valid then CopiedOver(before, cfg.nsiInfoList[k].nsiInformation) else before
  {
    nsiInfo := before;
    for i := 0 to |cfg.nsiInfoList|
      invariant i <= ChosenNsi(cfg.nsiInfoList, info.sNssai)
      invariant nsiInfo == before
    {
      var item := cfg.nsiInfoList[i];
      if CompareSnssai(info.sNssai, item.snssai) {
        nsiInfo := nsiInfo.(nrfId := item.nsiInformation.nrfId);
        if item.nsiInformation.nsiId.Some? {
          nsiInfo := nsiInfo.(nsiId := Some(item.nsiInformation.nsiId.value));
        }
        if item.nsiInformation.nrfNfMgtUri.Some? {
          nsiInfo := nsiInfo.(nrfNfMgtUri := Some(item.nsiInformation.nrfNfMgtUri.value));
        }
        return true, nsiInfo;
      }
    }
    return false, nsiInfo;
  }

  // ----- The two handlers -----

  /** A TAI is only looked at when its TAC is given. */
  predicate TaiAdmitted(c: ConfigData, tai: Tai) {
    tai.tac == "" || TaiListed(c.taInfoList, tai)
  }

  /** How a registration request ends. */
  datatype Verdict =
    | Unsupported             // mapping or roaming
    | TaiUnknown
    | NssaiMissing            // no requested or no subscribed NSSAI
    | NotInPlmn               // nothing requested is subscribed
    | NoAmfSet                // no AMF covers the request
    | Granted(amfSet: nat)

  function Judge(c: ConfigData, info: SliceInfoForRegistration, tai: Tai, home: PlmnId): (v: Verdict)
    ensures v.Granted? ==> v.amfSet < |c.amfInfoList| && info.requestedNssai.Some?
  {
    if info.requestMappingIsSet || info.mappingOfNssaiIsSet || home.mcc != "" then Unsupported
    else if !TaiAdmitted(c, tai) then TaiUnknown
    else if info.requestedNssai.None? || info.subscribedNssai.None? then NssaiMissing
    else if Matched(Requested(info), SubscribedList(info)) == [] then NotInPlmn
    else
      var k := ChosenSet(c.amfInfoList, Requested(info));
      if k == |c.amfInfoList| then NoAmfSet else Granted(k)
  }

  /** The HTTP code after the registration handler, given the one before. */
  function RegistrationCode(v: Verdict, before: int): int {
    match v
    case Unsupported => SERVICE_UNAVAILABLE
    case TaiUnknown => before
    case NssaiMissing => before
    case NotInPlmn => FORBIDDEN
    case NoAmfSet => FORBIDDEN
    case Granted(_) => OK
  }

  function RegistrationInfo(c: ConfigData, info: SliceInfoForRegistration, v: Verdict, before: AuthInfo): AuthInfo
    requires v.Granted? ==> v.amfSet < |c.amfInfoList|
  {
    var req := Requested(info);
    var allowed := before.(allowedNssaiList := Some(AllowedFor(Matched(req, SubscribedList(info)))));
    match v
    case NotInPlmn => before.(rejectedNssaiInPlmn := Some(req))
    case NoAmfSet => allowed
    case Granted(k) => WithAmfSet(allowed, c.amfInfoList[k], req)
    case _ => before
  }

  method HandleSliceInfoForRegistration(
    cfg: NssfConfig, info: SliceInfoForRegistration, tai: Tai, home: PlmnId, httpCode: int,
    auth: AuthorizedNetworkSliceInfo) returns (ok: bool, code: int)
    modifies auth
    ensures var v := Judge(cfg.Data(), info, tai, home);
            && (ok <==> v.Granted? || v.NssaiMissing?)
            && code == RegistrationCode(v, httpCode)
            && auth.Info() == RegistrationInfo(cfg.Data(), info, v, old(auth.Info()))
  {
    code := httpCode;
    if info.requestMappingIsSet {
      return false, SERVICE_UNAVAILABLE;
    }
    if info.mappingOfNssaiIsSet {
      return false, SERVICE_UNAVAILABLE;
    }
    if home.mcc != "" {
      return false, SERVICE_UNAVAILABLE;
    }
    if tai.tac != "" {
      var taValid := ValidateTa(cfg, tai);
      if !taValid { return false, code; }
    }
    if info.requestedNssai.Some? {
      if info.subscribedNssai.Some? {
        code := FORBIDDEN;
        var inPlmn := ValidateRnssaiInPlmn(info, auth);
        if !inPlmn { return false, code; }
        var found := GetValidAmfSet(cfg, info.requestedNssai.value, auth);
        if !found { return false, code; }
        code := OK;
      }
    }
    return true, code;
  }

  predicate PduAccepted(c: ConfigData, info: SliceInfoForPduSession, tai: Tai, home: PlmnId) {
    && info.roamingIndication == ROAMING_IND_NON_ROAMING
    && home.mcc == ""
    && TaiAdmitted(c, tai)
    && exists i :: 0 <= i < |c.nsiInfoList| && CompareSnssai(info.sNssai, c.nsiInfoList[i].snssai)
  }

  function PduCode(c: ConfigData, info: SliceInfoForPduSession, tai: Tai, home: PlmnId): int {
    if info.roamingIndication != ROAMING_IND_NON_ROAMING || home.mcc != "" then SERVICE_UNAVAILABLE
    else if PduAccepted(c, info, tai, home) then OK
    else BAD_REQUEST
  }

  function PduInfo(c: ConfigData, info: SliceInfoForPduSession, tai: Tai, home: PlmnId, before: AuthInfo): AuthInfo {
    if PduAccepted(c, info, tai, home)
    then before.(nsiInformation := Some(c.nsiInfoList[ChosenNsi(c.nsiInfoList, info.sNssai)].nsiInformation))
    else before
  }

  method HandleSliceInfoForPduSession(
    cfg: NssfConfig, info: SliceInfoForPduSession, tai: Tai, home: PlmnId, httpCode: int,
    auth: AuthorizedNetworkSliceInfo) returns (ok: bool, code: int)
    modifies auth
    ensures ok <==> PduAccepted(cfg.Data(), info, tai, home)
    ensures code == PduCode(cfg.Data(), info, tai, home)
    ensures auth.Info() == PduInfo(cfg.Data(), info, tai, home, old(auth.Info()))
  {
    code := httpCode;
    if info.roamingIndication != ROAMING_IND_NON_ROAMING {
      code := SERVICE_UNAVAILABLE;
      return false, code;
    }
    if home.mcc != "" {
      code := SERVICE_UNAVAILABLE;
      return false, code;
    }
    if tai.tac != "" {
      var taValid := ValidateTa(cfg, tai);
      if !taValid {
        code := BAD_REQUEST;
        return false, code;
      }
    }
    var valid, nsiInfo := ValidateNsi(cfg, info, NsiInformation("", None, None));
    if valid {
      auth.nsiInformation := Some(nsiInfo);
      code := OK;
      return true, code;
    }
    code := BAD_REQUEST;
    return false, code;
  }
}
