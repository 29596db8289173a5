/** The application wrapper and the two HTTP front ends, from a parsed request to
    a code and a body. */
module FrontEnds {
  import opened Slices
  import opened Config
  import opened SliceSelection
  import opened SelectionLaws

  /** The contents of the problem details of an error answer. */
  datatype Problem = Problem(
    title: Option<string>, status: Option<int>, detail: Option<string>, cause: Option<string>)

  const NO_PROBLEM := Problem(None, None, None, None)

  const SNSSAI_NOT_SUPPORTED := Problem(
    Some("UNSUPPORTED_RESOURCE"), Some(FORBIDDEN),
    Some("S-NSSAI in Requested NSSAI is not supported in PLMN"), Some("SNSSAI_NOT_SUPPORTED"))

  class ProblemDetails {
    var title: Option<string>
    var status: Option<int>
    var detail: Option<string>
    var cause: Option<string>

    function Contents(): Problem
      reads this
    {
      Problem(title, status, detail, cause)
    }

    constructor ()
      ensures Contents() == NO_PROBLEM
    {
      title, status, detail, cause := None, None, None, None;
    }
  }

  // ----- The application wrapper -----

  method AppRegistration(
    cfg: NssfConfig, info: SliceInfoForRegistration, tai: Tai, home: PlmnId, httpCode: int,
    problem: ProblemDetails, auth: AuthorizedNetworkSliceInfo) returns (code: int)
    modifies problem, auth
    ensures var v := Judge(cfg.Data(), info, tai, home);
      && code == RegistrationCode(v, httpCode)
      && auth.Info() == RegistrationInfo(cfg.Data(), info, v, old(auth.Info()))
      && problem.Contents() ==
           if code == FORBIDDEN && !v.NssaiMissing? then SNSSAI_NOT_SUPPORTED else old(problem.Contents())
    ensures httpCode != FORBIDDEN && old(problem.Contents()) == NO_PROBLEM ==>
      (problem.Contents() == SNSSAI_NOT_SUPPORTED <==> code == FORBIDDEN)
  {
    var ok;
    ok, code := HandleSliceInfoForRegistration(cfg, info, tai, home, httpCode, auth);
    if !ok {
      if code == FORBIDDEN {
        problem.title := Some("UNSUPPORTED_RESOURCE");
        problem.status := Some(FORBIDDEN);
        problem.detail := Some("S-NSSAI in Requested NSSAI is not supported in PLMN");
        problem.cause := Some("SNSSAI_NOT_SUPPORTED");
      }
    }
  }

  method AppPduSession(
    cfg: NssfConfig, info: SliceInfoForPduSession, tai: Tai, home: PlmnId, httpCode: int,
    problem: ProblemDetails, auth: AuthorizedNetworkSliceInfo) returns (code: int)
    modifies problem, auth
    ensures code == PduCode(cfg.Data(), info, tai, home)
    ensures auth.Info() == PduInfo(cfg.Data(), info, tai, home, old(auth.Info()))
    ensures problem.Contents() == old(problem.Contents())
  {
    var ok;
    ok, code := HandleSliceInfoForPduSession(cfg, info, tai, home, httpCode, auth);
    if !ok {
      if code == FORBIDDEN {
        // The problem details written here are never reached: this handler does
        // not answer 403.
        assert false;
      }
    }
  }

  // ----- Requests and replies -----

  /** The nf-type parameter: missing or not an NF type at all, one of the two that
      both front ends serve, or another NF type. */
  datatype NfType = NotAnNfType | Amf | Nssf | OtherNf

  datatype Request = Request(
    nfType: NfType,
    registration: Option<SliceInfoForRegistration>,
    pduSession: Option<SliceInfoForPduSession>,
    homePlmnId: Option<PlmnId>,
    tai: Option<Tai>)
  {
    function HomeOrEmpty(): PlmnId { if homePlmnId.Some? then homePlmnId.value else PlmnId("", "") }
    function TaiOrEmpty(): Tai { if tai.Some? then tai.value else Tai(PlmnId("", ""), "") }
  }

  datatype Body = NoBody | Result(info: AuthInfo) | Failure(problem: Problem)
  datatype Reply = NoReply | Reply(code: int, body: Body)

  /** Code 200 carries the result, every other code the problem details. */
  function Answer(code: int, info: AuthInfo, problem: Problem): Reply {
    Reply(code, if code == OK then Result(info) else Failure(problem))
  }

  function PduLegCode(c: ConfigData, req: Request): int {
    if req.pduSession.Some? then PduCode(c, req.pduSession.value, req.TaiOrEmpty(), req.HomeOrEmpty()) else 0
  }

  function PduLegInfo(c: ConfigData, req: Request): AuthInfo {
    if req.pduSession.Some? then PduInfo(c, req.pduSession.value, req.TaiOrEmpty(), req.HomeOrEmpty(), EMPTY_AUTH_INFO)
    else EMPTY_AUTH_INFO
  }

  /** The verdict on the registration part of a request that has one. */
  function RequestVerdict(c: ConfigData, req: Request): Verdict
    requires req.registration.Some?
  {
    Judge(c, req.registration.value, req.TaiOrEmpty(), req.HomeOrEmpty())
  }

  /** The answer of a registration that starts from the given code and result. */
  function RegistrationAnswer(c: ConfigData, req: Request, code: int, info: AuthInfo): Reply
    requires req.registration.Some?
  {
    var v := RequestVerdict(c, req);
    var after := RegistrationCode(v, code);
    Answer(after, RegistrationInfo(c, req.registration.value, v, info),
           if after == FORBIDDEN then SNSSAI_NOT_SUPPORTED else NO_PROBLEM)
  }

  /** HTTP/1 runs the PDU session part first, then the registration part on the
      same code, problem details and result. */
  function Http1Reply(c: ConfigData, req: Request): Reply {
    if req.nfType.NotAnNfType? then Reply(BAD_REQUEST, NoBody)
    else if req.registration.Some? then RegistrationAnswer(c, req, PduLegCode(c, req), PduLegInfo(c, req))
    else Answer(PduLegCode(c, req), PduLegInfo(c, req), NO_PROBLEM)
  }

  /** HTTP/2 runs one part only, registration if there is one, and answers
      nothing when there is neither. */
  function Http2Reply(c: ConfigData, req: Request): Reply {
    if req.registration.None? && req.pduSession.None? then NoReply
    else if !req.nfType.Amf? && !req.nfType.Nssf? then Reply(BAD_REQUEST, NoBody)
    else if req.registration.Some? then RegistrationAnswer(c, req, 0, EMPTY_AUTH_INFO)
    else Answer(PduLegCode(c, req), PduLegInfo(c, req), NO_PROBLEM)
  }

  method NsSelectionGet(cfg: NssfConfig, req: Request) returns (reply: Reply)
    ensures reply == Http1Reply(cfg.Data(), req)
  {
    var httpCode := 0;
    if req.nfType.NotAnNfType? {
      httpCode := BAD_REQUEST;
      return Reply(httpCode, NoBody);
    }
    var tai := Tai(PlmnId("", ""), "");
    if req.tai.Some? { tai := req.tai.value; }
    var home := PlmnId("", "");
    if req.homePlmnId.Some? { home := req.homePlmnId.value; }
    var problem := new ProblemDetails();
    var auth := new AuthorizedNetworkSliceInfo();
    ghost var c := cfg.Data();
    if req.pduSession.Some? {
      httpCode := AppPduSession(cfg, req.pduSession.value, tai, home, httpCode, problem, auth);
    }
    assert cfg.Data() == c && httpCode == PduLegCode(c, req) && auth.Info() == PduLegInfo(c, req);
    if req.registration.Some? {
      httpCode := AppRegistration(cfg, req.registration.value, tai, home, httpCode, problem, auth);
      assert cfg.Data() == c;
    }
    if httpCode != OK {
      return Reply(httpCode, Failure(problem.Contents()));
    } else {
      return Reply(httpCode, Result(auth.Info()));
    }
  }

  method GetSliceInfoForRegistrationHandler(
    cfg: NssfConfig, nfType: NfType, info: SliceInfoForRegistration, tai: Tai, home: PlmnId)
    returns (reply: Reply)
    ensures reply ==
      if nfType.Amf? || nfType.Nssf?
      then RegistrationAnswer(cfg.Data(), Request(nfType, Some(info), None, Some(home), Some(tai)), 0, EMPTY_AUTH_INFO)
      else Reply(BAD_REQUEST, NoBody)
  {
    var httpCode := 0;
    var problem := new ProblemDetails();
    var auth := new AuthorizedNetworkSliceInfo();
    ghost var c := cfg.Data();
    if nfType.Amf? || nfType.Nssf? {
      httpCode := AppRegistration(cfg, info, tai, home, httpCode, problem, auth);
      assert cfg.Data() == c;
      if httpCode == OK {
        return Reply(httpCode, Result(auth.Info()));
      } else {
        return Reply(httpCode, Failure(problem.Contents()));
      }
    } else {
      httpCode := BAD_REQUEST;
      return Reply(httpCode, NoBody);
    }
  }

  method GetSliceInfoForPduSessionHandler(
    cfg: NssfConfig, nfType: NfType, info: SliceInfoForPduSession, tai: Tai, home: PlmnId)
    returns (reply: Reply)
    ensures reply ==
      if nfType.Amf? || nfType.Nssf?
      then Answer(PduCode(cfg.Data(), info, tai, home),
                  PduInfo(cfg.Data(), info, tai, home, EMPTY_AUTH_INFO), NO_PROBLEM)
      else Reply(BAD_REQUEST, NoBody)
  {
    var httpCode := 0;
    var problem := new ProblemDetails();
    var auth := new AuthorizedNetworkSliceInfo();
    ghost var c := cfg.Data();
    if nfType.Amf? || nfType.Nssf? {
      httpCode := AppPduSession(cfg, info, tai, home, httpCode, problem, auth);
      assert cfg.Data() == c;
      if httpCode == OK {
        return Reply(httpCode, Result(auth.Info()));
      } else {
        return Reply(httpCode, Failure(problem.Contents()));
      }
    } else {
      httpCode := BAD_REQUEST;
      return Reply(httpCode, NoBody);
    }
  }

  method Http2Dispatch(cfg: NssfConfig, req: Request) returns (reply: Reply)
    ensures reply == Http2Reply(cfg.Data(), req)
  {
    var tai := Tai(PlmnId("", ""), "");
    var home := PlmnId("", "");
    if req.homePlmnId.Some? { home := req.homePlmnId.value; }
    if req.tai.Some? { tai := req.tai.value; }
    ghost var c := cfg.Data();
    if req.registration.Some? {
      reply := GetSliceInfoForRegistrationHandler(cfg, req.nfType, req.registration.value, tai, home);
      assert cfg.Data() == c;
      return;
    }
    if req.pduSession.Some? {
      reply := GetSliceInfoForPduSessionHandler(cfg, req.nfType, req.pduSession.value, tai, home);
      assert cfg.Data() == c;
      return;
    }
    return NoReply;
  }

  // ----- What holds of every reply -----

  /** A result body: the five registration fields are set together or not at
      all, the rejected list never. */
  ghost predicate AllOrNothing(info: AuthInfo) {
    && (info.allowedNssaiList.Some? <==> info.candidateAmfList.Some?)
    && (info.allowedNssaiList.Some? <==> info.targetAmfSet.Some?)
    && (info.allowedNssaiList.Some? <==> info.nrfAmfSet.Some?)
    && (info.allowedNssaiList.Some? <==> info.nrfAmfSetNfMgtUri.Some?)
    && info.rejectedNssaiInPlmn.None?
    && (info.allowedNssaiList.Some? ==> info.candidateAmfList.value != [])
  }

  /** HTTP/1 serves every NF type, HTTP/2 only AMF and NSSF. */
  predicate IsServed(req: Request, http2: bool) {
    !req.nfType.NotAnNfType? && (http2 ==> !req.nfType.OtherNf?)
  }

  function ReplyTo(c: ConfigData, req: Request, http2: bool): Reply {
    if http2 then Http2Reply(c, req) else Http1Reply(c, req)
  }

  predicate HomePlmnGiven(req: Request) {
    req.homePlmnId.Some? && req.homePlmnId.value.mcc != ""
  }

  /** A TAI is given, with a TAC, and is not configured. */
  ghost predicate TaiRefused(c: ConfigData, req: Request) {
    && req.tai.Some? && req.tai.value.tac != ""
    && !exists i :: 0 <= i < |c.taInfoList| && c.taInfoList[i].tai == req.tai.value
  }

  ghost predicate PduSucceeds(c: ConfigData, req: Request) {
    && req.pduSession.Some? && req.pduSession.value.roamingIndication == 1
    && !HomePlmnGiven(req) && !TaiRefused(c, req)
    && exists i :: 0 <= i < |c.nsiInfoList|
         && CompareSnssai(req.pduSession.value.sNssai, c.nsiInfoList[i].snssai)
  }

  /** A mapping or a home PLMN asks for more than registration supports. */
  predicate AsksForMore(req: Request) {
    req.registration.Some? &&
    (req.registration.value.requestMappingIsSet || req.registration.value.mappingOfNssaiIsSet || HomePlmnGiven(req))
  }

  /** The registration part passes every check before the AMFs. */
  ghost predicate ReachesAmfs(c: ConfigData, req: Request) {
    && req.registration.Some? && !AsksForMore(req) && !TaiRefused(c, req)
    && req.registration.value.requestedNssai.Some? && req.registration.value.subscribedNssai.Some?
    && SomeSubscribed(req.registration.value)
  }

  ghost predicate RegistrationSucceeds(c: ConfigData, req: Request) {
    ReachesAmfs(c, req) && SomeAmfCovers(c.amfInfoList, req.registration.value.requestedNssai.value)
  }

  /** The registration part leaves the code it is called with. */
  ghost predicate RegistrationStaysSilent(c: ConfigData, req: Request) {
    && req.registration.Some? && !AsksForMore(req)
    && (|| TaiRefused(c, req)
        || req.registration.value.requestedNssai.None?
        || req.registration.value.subscribedNssai.None?)
  }

  lemma RequestVerdictExact(c: ConfigData, req: Request)
    requires req.registration.Some?
    ensures RequestVerdict(c, req).Granted? <==> RegistrationSucceeds(c, req)
    ensures RequestVerdict(c, req).Granted? || RequestVerdict(c, req).NoAmfSet? <==> ReachesAmfs(c, req)
    ensures RequestVerdict(c, req).Unsupported? <==> AsksForMore(req)
    ensures RequestVerdict(c, req).TaiUnknown? || RequestVerdict(c, req).NssaiMissing?
       <==> RegistrationStaysSilent(c, req)
    ensures RequestVerdict(c, req).Granted? ==>
      RequestVerdict(c, req).amfSet == ChosenSet(c.amfInfoList, Requested(req.registration.value))
  {
    VerdictExact(c, req.registration.value, req.TaiOrEmpty(), req.HomeOrEmpty());
    SilentVerdicts(c, req.registration.value, req.TaiOrEmpty(), req.HomeOrEmpty());
  }

  lemma PduLegExact(c: ConfigData, req: Request)
    requires req.pduSession.Some?
    ensures PduLegCode(c, req) ==
      if req.pduSession.value.roamingIndication != 1 || HomePlmnGiven(req) then 503
      else if PduSucceeds(c, req) then 200
      else 400
    ensures PduSucceeds(c, req) ==>
      exists i :: 0 <= i < |c.nsiInfoList|
        && CompareSnssai(req.pduSession.value.sNssai, c.nsiInfoList[i].snssai)
        && (forall j :: 0 <= j < i ==> !CompareSnssai(req.pduSession.value.sNssai, c.nsiInfoList[j].snssai))
        && PduLegInfo(c, req) == EMPTY_AUTH_INFO.(nsiInformation := Some(c.nsiInfoList[i].nsiInformation))
    ensures !PduSucceeds(c, req) ==> PduLegInfo(c, req) == EMPTY_AUTH_INFO
  {
    PduExact(c, req.pduSession.value, req.TaiOrEmpty(), req.HomeOrEmpty(), EMPTY_AUTH_INFO);
  }

  /** The code of every reply, by the fields of the request. */
  lemma ReplyCodeExact(c: ConfigData, req: Request, http2: bool)
    ensures var reply := ReplyTo(c, req, http2);
      reply.Reply? ==>
        reply.code ==
        if req.nfType.NotAnNfType? || (http2 && req.nfType.OtherNf?) then 400
        else if req.registration.Some? && !RegistrationStaysSilent(c, req) then
          if AsksForMore(req) then 503 else if RegistrationSucceeds(c, req) then 200 else 403
        else if req.pduSession.Some? && !(http2 && req.registration.Some?) then
          if req.pduSession.value.roamingIndication != 1 || HomePlmnGiven(req) then 503
          else if PduSucceeds(c, req) then 200 else 400
        else 0
  {
    if req.registration.Some? {
      RequestVerdictExact(c, req);
    }
    if req.pduSession.Some? {
      PduLegExact(c, req);
    }
  }

  /** The contents of every result: the first matching NSI entry's information for
      a PDU session part, and for a registration part the requested S-NSSAIs that
      are subscribed, in order, with the first AMF set that covers them all. */
  lemma ResultExact(c: ConfigData, req: Request, http2: bool)
    ensures var reply := ReplyTo(c, req, http2);
      reply.Reply? && reply.body.Result? ==>
        var info := reply.body.info;
        && (info.nsiInformation.Some? ==>
              req.pduSession.Some? &&
              exists i :: 0 <= i < |c.nsiInfoList|
                && CompareSnssai(req.pduSession.value.sNssai, c.nsiInfoList[i].snssai)
                && (forall j :: 0 <= j < i ==> !CompareSnssai(req.pduSession.value.sNssai, c.nsiInfoList[j].snssai))
                && info.nsiInformation.value == c.nsiInfoList[i].nsiInformation)
        && (info.targetAmfSet.Some? ==>
              RegistrationSucceeds(c, req) && IsGrantFor(c, req.registration.value, info))
  {
    if req.registration.Some? {
      RequestVerdictExact(c, req);
      if RegistrationSucceeds(c, req) {
        GrantIsGrant(c, req, EMPTY_AUTH_INFO);
        GrantIsGrant(c, req, PduLegInfo(c, req));
      }
    }
    if req.pduSession.Some? {
      PduLegExact(c, req);
    }
  }

  /** `info` holds the grant of a registration: what is allowed, and the first AMF
      set that covers the request with its candidates. */
  ghost predicate IsGrantFor(c: ConfigData, registration: SliceInfoForRegistration, info: AuthInfo) {
    var req, sub := Requested(registration), SubscribedList(registration);
    var k := ChosenSet(c.amfInfoList, req);
    && k < |c.amfInfoList| && !SomeAmfCovers(c.amfInfoList[..k], req)
    && info.targetAmfSet == Some(c.amfInfoList[k].targetAmfSet)
    && info.nrfAmfSet == Some(c.amfInfoList[k].nrfAmfSet)
    && info.nrfAmfSetNfMgtUri == Some(c.amfInfoList[k].nrfAmfSetMgt)
    && info.candidateAmfList == Some(Candidates(c.amfInfoList[k].amfList, req))
    && info.allowedNssaiList.Some? && |info.allowedNssaiList.value| == 1
    && var allowed := info.allowedNssaiList.value[0];
    && allowed.accessType == ThreeGppAccess
    && |allowed.allowedSnssaiList| == |Matched(req, sub)|
    && (forall i :: 0 <= i < |Matched(req, sub)| ==>
          allowed.allowedSnssaiList[i].allowedSnssai == Matched(req, sub)[i])
  }

  lemma GrantIsGrant(c: ConfigData, req: Request, before: AuthInfo)
    requires req.registration.Some? && RequestVerdict(c, req).Granted?
    ensures IsGrantFor(c, req.registration.value,
                       RegistrationInfo(c, req.registration.value, RequestVerdict(c, req), before))
  {
    VerdictExact(c, req.registration.value, req.TaiOrEmpty(), req.HomeOrEmpty());
    GrantedInfo(c, req.registration.value, req.TaiOrEmpty(), req.HomeOrEmpty(), before);
  }

  /** A home PLMN is refused with 503 by either front end, whatever is asked. */
  lemma HomePlmnIsRefused(c: ConfigData, req: Request, http2: bool)
    requires IsServed(req, http2) && (req.registration.Some? || req.pduSession.Some?)
    requires req.homePlmnId.Some? && req.homePlmnId.value.mcc != ""
    ensures ReplyTo(c, req, http2) == Reply(503, Failure(NO_PROBLEM))
  {
  }

  /** A TAI counts only through being listed. With no TAC or a listed TAI the reply
      is that to the same request without a TAI; with another TAI no registration
      and no PDU session is ever granted or refused for its S-NSSAIs: the code is
      0, 400 or 503. */
  lemma TaiCountsByListing(c: ConfigData, req: Request, t: Tai, http2: bool)
    requires req.tai == Some(t)
    ensures (t.tac == "" || exists i :: 0 <= i < |c.taInfoList| && c.taInfoList[i].tai == t) ==>
      ReplyTo(c, req, http2) == ReplyTo(c, req.(tai := None), http2)
    ensures !(t.tac == "" || exists i :: 0 <= i < |c.taInfoList| && c.taInfoList[i].tai == t) ==>
      var reply := ReplyTo(c, req, http2);
      reply.Reply? ==> reply.code in {0, 400, 503}
  {
    ReplyCodeExact(c, req, http2);
  }


  /** On either front end a body is a result exactly under code 200, and then it
      is all or nothing: registration fields iff the registration part
      succeeded, NSI information iff the PDU session part was run and
      succeeded. Problem details are filled in exactly under code 403. There is
      no body exactly when the NF type is refused, and no reply exactly when
      HTTP/2 is given neither part. */
  lemma RepliesAreWhole(c: ConfigData, req: Request, http2: bool)
    ensures var reply := ReplyTo(c, req, http2);
      && (reply.NoReply? <==> http2 && req.registration.None? && req.pduSession.None?)
      && (reply.Reply? ==>
        && (reply.body.NoBody? <==> !IsServed(req, http2))
        && (reply.body.NoBody? ==> reply.code == BAD_REQUEST)
        && (reply.code == OK <==> reply.body.Result?)
        && (reply.body.Result? ==>
              var info := reply.body.info;
              && AllOrNothing(info)
              && (info.allowedNssaiList.Some? <==> RegistrationSucceeds(c, req))
              && (info.nsiInformation.Some? <==> PduSucceeds(c, req) && !(http2 && req.registration.Some?))
              && (info.allowedNssaiList.Some? || info.nsiInformation.Some?))
        && (reply.body.Failure? ==>
              var p := reply.body.problem;
              if reply.code == 403
              then p.title == Some("UNSUPPORTED_RESOURCE") && p.status == Some(403)
                   && p.detail == Some("S-NSSAI in Requested NSSAI is not supported in PLMN")
                   && p.cause == Some("SNSSAI_NOT_SUPPORTED")
              else p == Problem(None, None, None, None)))
  {
    if req.registration.Some? {
      RequestVerdictExact(c, req);
    }
    if req.pduSession.Some? {
      PduLegExact(c, req);
    }
  }

  /** A reply that grants a registration, with the set and candidates it names. */
  ghost predicate Grants(reply: Reply, s: AmfInfo, candidates: seq<string>) {
    && reply.Reply? && reply.code == OK && reply.body.Result?
    && reply.body.info.targetAmfSet == Some(s.targetAmfSet)
    && reply.body.info.nrfAmfSet == Some(s.nrfAmfSet)
    && reply.body.info.nrfAmfSetNfMgtUri == Some(s.nrfAmfSetMgt)
    && reply.body.info.candidateAmfList == Some(candidates)
  }

  /** A granted registration part shows in the reply of either front end. */
  lemma GrantShows(c: ConfigData, req: Request, http2: bool)
    requires IsServed(req, http2)
    requires req.registration.Some? && RequestVerdict(c, req).Granted?
    ensures var k, nssai := RequestVerdict(c, req).amfSet, Requested(req.registration.value);
      && k == ChosenSet(c.amfInfoList, nssai)
      && Grants(ReplyTo(c, req, http2), c.amfInfoList[k], Candidates(c.amfInfoList[k].amfList, nssai))
  {
  }

  // ----- Replies with a code that is none -----

  /** Exactly when a reply carries none of the codes 200, 400, 403 and 503. It
      then carries 0: nothing that ran set a code. */
  lemma CodelessReplyIff(c: ConfigData, req: Request, http2: bool)
    ensures var reply := ReplyTo(c, req, http2);
      && (reply.Reply? && reply.code !in {OK, BAD_REQUEST, FORBIDDEN, SERVICE_UNAVAILABLE} <==>
            && IsServed(req, http2)
            && if req.registration.Some? then RegistrationStaysSilent(c, req) && (http2 || req.pduSession.None?)
               else req.pduSession.None? && !http2)
      && (reply.Reply? && reply.code !in {OK, BAD_REQUEST, FORBIDDEN, SERVICE_UNAVAILABLE} ==>
            reply == Reply(0, Failure(NO_PROBLEM)))
  {
    if req.registration.Some? {
      RequestVerdictExact(c, req);
    }
  }

  const EMPTY_REGISTRATION := SliceInfoForRegistration(None, None, false, false)
  const LISTED_NOWHERE := Tai(PlmnId("208", "95"), "33456")

  /** A registration from a tracking area that is not configured is answered with
      code 0 on both front ends; the same UE's PDU session is answered 400. */
  lemma UnknownTaiAnswersZero(pdu: SliceInfoForPduSession)
    requires pdu.roamingIndication == ROAMING_IND_NON_ROAMING
    ensures forall http2 ::
      ReplyTo(EMPTY_CONFIG, Request(Amf, Some(EMPTY_REGISTRATION), None, None, Some(LISTED_NOWHERE)), http2)
        == Reply(0, Failure(NO_PROBLEM))
    ensures forall http2 ::
      ReplyTo(EMPTY_CONFIG, Request(Amf, None, Some(pdu), None, Some(LISTED_NOWHERE)), http2)
        == Reply(BAD_REQUEST, Failure(NO_PROBLEM))
  {
  }

  // ----- Where the front ends agree -----

  ghost predicate Agreement(c: ConfigData, req: Request) {
    match req.nfType
    case NotAnNfType => req.registration.Some? || req.pduSession.Some?
    case OtherNf => false
    case _ =>
      if req.registration.Some? && req.pduSession.Some?
      then !RegistrationStaysSilent(c, req) && !(RegistrationSucceeds(c, req) && PduSucceeds(c, req))
      else req.registration.Some? || req.pduSession.Some?
  }

  /** Exactly when the two front ends give the same code and body. For the NF
      types AMF and NSSF that is always so with one of the two parameters; with
      both, registration must not be silent, that is the TAI has to be known and
      both NSSAIs given unless mapping or roaming is refused first, and the two
      parts must not both succeed. */
  lemma FrontEndsAgreeIff(c: ConfigData, req: Request)
    ensures Http1Reply(c, req) == Http2Reply(c, req) <==> Agreement(c, req)
  {
    if req.registration.Some? {
      RequestVerdictExact(c, req);
    }
    if req.pduSession.Some? {
      PduLegExact(c, req);
    }
  }

  /** Two requests on which they differ: with both parameters and an incomplete
      registration, HTTP/1 answers the PDU session and HTTP/2 answers 0; an NF
      type other than AMF and NSSF is served by HTTP/1 only. */
  lemma FrontEndsDisagree(pdu: SliceInfoForPduSession)
    ensures var both := Request(Amf, Some(EMPTY_REGISTRATION), Some(pdu), None, None);
      && Http2Reply(EMPTY_CONFIG, both) == Reply(0, Failure(NO_PROBLEM))
      && Http1Reply(EMPTY_CONFIG, both).Reply? && Http1Reply(EMPTY_CONFIG, both).code != 0
    ensures var other := Request(OtherNf, None, Some(pdu), None, None);
      && Http2Reply(EMPTY_CONFIG, other) == Reply(BAD_REQUEST, NoBody)
      && Http1Reply(EMPTY_CONFIG, other).Reply? && Http1Reply(EMPTY_CONFIG, other).body == Failure(NO_PROBLEM)
  {
  }
}
