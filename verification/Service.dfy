/** Whole runs of the service: PUTs from AMFs and selection requests, in any
    order and number. */
module Service {
  import opened Seqs
  import opened Slices
  import opened Config
  import opened SliceSelection
  import opened SelectionLaws
  import opened SliceAvailability
  import opened StoreLaws
  import opened StoreAnswers
  import opened FrontEnds

  datatype Event =
    | Put(put: PutRequest)
    | Get(http2: bool, request: Request)

  datatype Outcome =
    | PutDone(ok: bool, code: int)
    | GetDone(reply: Reply)

  /** The configuration after an event, when PUTs are kept. */
  function Step(c: ConfigData, e: Event): ConfigData {
    if e.Put? then c.(amfInfoList := Stored(c.amfInfoList, e.put)) else c
  }

  function After(c: ConfigData, events: seq<Event>): ConfigData {
    if events == [] then c else Step(After(c, events[..|events| - 1]), events[|events| - 1])
  }

  /** What the client of an event is told, in a given configuration. */
  function Told(c: ConfigData, e: Event): Outcome {
    match e
    case Put(put) =>
      PutDone(Accepted(c.amfInfoList, put.info) || put.info.amfSetId == Some(""),
              PutCode(c.amfInfoList, put.info, 0))
    case Get(http2, request) =>
      GetDone(ReplyTo(c, request, http2))
  }

  /** One event, with the meant store. */
  method ServeOne(cfg: NssfConfig, e: Event) returns (outcome: Outcome)
    modifies cfg
    ensures cfg.Data() == Step(old(cfg.Data()), e)
    ensures outcome == Told(old(cfg.Data()), e)
  {
    match e {
      case Put(put) =>
        var ok, code := HandleCreateNssaiAvailability(cfg, put.nfId, put.info, 0);
        outcome := PutDone(ok, code);
      case Get(http2, request) =>
        var reply;
        if http2 {
          reply := Http2Dispatch(cfg, request);
        } else {
          reply := NsSelectionGet(cfg, request);
        }
        outcome := GetDone(reply);
    }
  }

  /** The service with the meant store. */
  method Serve(cfg: NssfConfig, events: seq<Event>) returns (outcomes: seq<Outcome>)
    modifies cfg
    ensures cfg.Data() == After(old(cfg.Data()), events)
    ensures |outcomes| == |events|
    ensures forall i :: 0 <= i < |events| ==> outcomes[i] == Told(After(old(cfg.Data()), events[..i]), events[i])
  {
    outcomes := [];
    for i := 0 to |events|
      invariant cfg.Data() == After(old(cfg.Data()), events[..i])
      invariant |outcomes| == i
      invariant forall j :: 0 <= j < i ==> outcomes[j] == Told(After(old(cfg.Data()), events[..j]), events[j])
    {
      assert events[..i + 1][..i] == events[..i];
      var outcome := ServeOne(cfg, events[i]);
      outcomes := outcomes + [outcome];
    }
    assert events[..|events|] == events;
  }

  /** The service with the handler as written. Nothing is modified: every answer
      is that of the configuration it started with, whatever was PUT. */
  method ServeAsWritten(cfg: NssfConfig, events: seq<Event>) returns (outcomes: seq<Outcome>)
    ensures |outcomes| == |events|
    ensures forall i :: 0 <= i < |events| ==> outcomes[i] == Told(cfg.Data(), events[i])
  {
    outcomes := [];
    ghost var c := cfg.Data();
    for i := 0 to |events|
      invariant cfg.Data() == c
      invariant |outcomes| == i
      invariant forall j :: 0 <= j < i ==> outcomes[j] == Told(c, events[j])
    {
      match events[i] {
        case Put(put) =>
          var ok, code := HandleCreateAsWritten(cfg, put.nfId, put.info, 0);
          outcomes := outcomes + [PutDone(ok, code)];
        case Get(http2, request) =>
          var reply;
          if http2 {
            reply := Http2Dispatch(cfg, request);
          } else {
            reply := NsSelectionGet(cfg, request);
          }
          outcomes := outcomes + [GetDone(reply)];
      }
    }
  }

  // ----- Runs -----

  function Puts(events: seq<Event>): seq<PutRequest> {
    if events == [] then [] else
    var before, last := Puts(events[..|events| - 1]), events[|events| - 1];
    if last.Put? then before + [last.put] else before
  }

  /** Only the PUTs of a run matter to the configuration, and only to its AMF sets. */
  lemma {:induction false} AfterIsRun(c: ConfigData, events: seq<Event>)
    ensures After(c, events) == c.(amfInfoList := Run(c.amfInfoList, Puts(events)))
  {
    if events == [] {
    } else {
      var init, last := events[..|events| - 1], events[|events| - 1];
      AfterIsRun(c, init);
      if last.Put? {
        var puts := Puts(init);
        assert (puts + [last.put])[..|puts|] == puts;
      }
    }
  }

  /** The replies to PUTs never tell the two services apart, nor do requests
      without a registration part. */
  lemma OnlyRegistrationsDiffer(c: ConfigData, events: seq<Event>, e: Event)
    requires e.Get? ==> e.request.registration.None?
    ensures Told(After(c, events), e) == Told(c, e)
  {
    var sets := Run(c.amfInfoList, Puts(events));
    AfterIsRun(c, events);
    if e.Put? {
      RunKeepsShape(c.amfInfoList, Puts(events));
      ShapeKeepsIds(c.amfInfoList, sets);
      AcceptedMeansListed(c.amfInfoList, e.put);
      AcceptedMeansListed(sets, e.put);
    } else if e.request.pduSession.Some? {
      PduIgnoresAmfSets(c, sets, e.request.pduSession.value, e.request.TaiOrEmpty(), e.request.HomeOrEmpty(),
                        EMPTY_AUTH_INFO);
    }
  }

  /** What the sender of a PUT is told after any run: by the sets that were
      configured and the fields of the PUT alone. */
  lemma PutRepliesExact(c: ConfigData, events: seq<Event>, put: PutRequest)
    ensures var id := put.info.amfSetId;
      Told(After(c, events), Put(put)) ==
        if id == Some("") then PutDone(true, 0)
        else if id.Some? && exists s :: s in c.amfInfoList && s.targetAmfSet == id.value then PutDone(true, 204)
        else PutDone(false, 503)
  {
    OnlyRegistrationsDiffer(c, events, Put(put));
    PutCodeExact(c.amfInfoList, put.info, 0);
  }

  /** The verdict after a run, from the checks on the request and the first set
      with an AMF able to serve it by the last writes. */
  lemma VerdictAfterRun(c: ConfigData, events: seq<Event>, request: Request, k: nat)
    requires request.registration.Some?
    requires IsFirstAble(c.amfInfoList, Puts(events), Requested(request.registration.value), k)
    ensures RequestVerdict(After(c, events), request) ==
      if !ReachesAmfs(c, request) then RequestVerdict(c, request)
      else if k < |c.amfInfoList| then Granted(k) else NoAmfSet
  {
    var sets, info := Run(c.amfInfoList, Puts(events)), request.registration.value;
    RequestVerdictExact(c, request);
    AmfSetsDecideLast(c, sets, info, request.TaiOrEmpty(), request.HomeOrEmpty());
    assert |sets| == |c.amfInfoList| && ChosenSet(sets, Requested(info)) == k by {
      RunChoosesFirstAble(c.amfInfoList, Puts(events), Requested(info));
      FirstAbleUnique(c.amfInfoList, Puts(events), Requested(info), k, ChosenSet(sets, Requested(info)));
    }
    assert After(c, events) == c.(amfInfoList := sets) by { AfterIsRun(c, events); }
  }

  /** A reply that grants from set `k` with exactly its able AMFs as candidates,
      or, when `k` is no set, refuses because the S-NSSAI is not supported. */
  ghost predicate Settles(
    reply: Reply, sets: seq<AmfInfo>, puts: seq<PutRequest>, nssai: seq<Snssai>, k: nat)
    requires k <= |sets|
  {
    if k == |sets| then reply == Reply(FORBIDDEN, Failure(SNSSAI_NOT_SUPPORTED))
    else exists candidates ::
      && Grants(reply, sets[k], candidates)
      && forall n :: n in candidates <==> CurrentlyServes(sets, puts, k, n, nssai)
  }

  /** Safety and completeness of every answer of every run. A registration that
      passes the earlier checks is granted from the first configured set with an
      AMF able to serve it by the last stored (else configured) data, with
      exactly the able AMFs as candidates, and refused if there is no such set.
      What is told about any other request does not depend on the run. */
  lemma EveryGrantIsCurrent(c: ConfigData, events: seq<Event>, request: Request, http2: bool)
    ensures ReachesAmfs(c, request) && IsServed(request, http2) ==>
      exists k: nat ::
        && IsFirstAble(c.amfInfoList, Puts(events), Requested(request.registration.value), k)
        && Settles(Told(After(c, events), Get(http2, request)).reply,
                   c.amfInfoList, Puts(events), Requested(request.registration.value), k)
    ensures !(ReachesAmfs(c, request) && IsServed(request, http2)) ==>
      Told(After(c, events), Get(http2, request)) == Told(c, Get(http2, request))
  {
    if ReachesAmfs(c, request) && IsServed(request, http2) {
      ReachingRequest(c, events, request, http2);
    } else if request.registration.Some? {
      OtherRequest(c, events, request, http2);
    } else {
      OnlyRegistrationsDiffer(c, events, Get(http2, request));
    }
  }

  lemma OtherRequest(c: ConfigData, events: seq<Event>, request: Request, http2: bool)
    requires request.registration.Some? && !(ReachesAmfs(c, request) && IsServed(request, http2))
    ensures Told(After(c, events), Get(http2, request)) == Told(c, Get(http2, request))
  {
    var sets, info := Run(c.amfInfoList, Puts(events)), request.registration.value;
    var tai, home := request.TaiOrEmpty(), request.HomeOrEmpty();
    AfterIsRun(c, events);
    RequestVerdictExact(c, request);
    AmfSetsDecideLast(c, sets, info, tai, home);
    if request.pduSession.Some? {
      PduIgnoresAmfSets(c, sets, request.pduSession.value, tai, home, EMPTY_AUTH_INFO);
    }
  }

  lemma ReachingRequest(c: ConfigData, events: seq<Event>, request: Request, http2: bool)
    requires ReachesAmfs(c, request) && IsServed(request, http2)
    ensures exists k: nat ::
      && IsFirstAble(c.amfInfoList, Puts(events), Requested(request.registration.value), k)
      && Settles(Told(After(c, events), Get(http2, request)).reply,
                 c.amfInfoList, Puts(events), Requested(request.registration.value), k)
  {
    var sets, puts, nssai := c.amfInfoList, Puts(events), Requested(request.registration.value);
    var k := ChosenSet(Run(sets, puts), nssai);
    RunChoosesFirstAble(sets, puts, nssai);
    VerdictAfterRun(c, events, request, k);
    assert Settles(Told(After(c, events), Get(http2, request)).reply, sets, puts, nssai, k) by {
      if k < |sets| {
        GrantAfterRun(c, events, request, http2, k);
      } else {
        RefusalShows(After(c, events), request, http2);
      }
    }
  }

  lemma RefusalShows(c: ConfigData, request: Request, http2: bool)
    requires request.registration.Some? && IsServed(request, http2)
    requires RequestVerdict(c, request).NoAmfSet?
    ensures Told(c, Get(http2, request)).reply == Reply(FORBIDDEN, Failure(SNSSAI_NOT_SUPPORTED))
  {
  }

  lemma GrantAfterRun(c: ConfigData, events: seq<Event>, request: Request, http2: bool, k: nat)
    requires request.registration.Some? && IsServed(request, http2)
    requires RequestVerdict(After(c, events), request) == Granted(k) && k < |c.amfInfoList|
    ensures Settles(Told(After(c, events), Get(http2, request)).reply,
                    c.amfInfoList, Puts(events), Requested(request.registration.value), k)
  {
    var puts, nssai := Puts(events), Requested(request.registration.value);
    var sets := Run(c.amfInfoList, puts);
    AfterIsRun(c, events);
    RunKeepsShape(c.amfInfoList, puts);
    GrantShows(After(c, events), request, http2);
    var candidates := Candidates(sets[k].amfList, nssai);
    forall n ensures n in candidates <==> CurrentlyServes(c.amfInfoList, puts, k, n, nssai) {
      RunCandidates(c.amfInfoList, puts, k, n, nssai);
    }
    assert Grants(Told(After(c, events), Get(http2, request)).reply, c.amfInfoList[k], candidates);
  }

  /** In configuration `c` the registration is granted from the set that the PUT
      names or an earlier one, in the first case with the PUT's AMF as a
      candidate. */
  ghost predicate Delivers(c: ConfigData, put: PutRequest, request: Request) {
    && request.registration.Some? && put.info.amfSetId.Some?
    && var k, v := SetIndex(c.amfInfoList, put.info.amfSetId.value), RequestVerdict(c, request);
    && v.Granted? && v.amfSet <= k < |c.amfInfoList|
    && (v.amfSet == k ==> put.nfId in Candidates(c.amfInfoList[k].amfList, Requested(request.registration.value)))
  }

  /** Once a PUT has been reported stored, and until its AMF overwrites it, any
      registration that passes the checks before the AMFs and that the payload
      covers is granted on the strength of it. */
  lemma StoredAmfIsServed(
    c: ConfigData, before: seq<Event>, put: PutRequest, later: seq<Event>, request: Request)
    requires Accepted(c.amfInfoList, put.info) && ReachesAmfs(c, request)
    requires forall e :: e in later && e.Put? && e.put.info.amfSetId == put.info.amfSetId ==> e.put.nfId != put.nfId
    requires DataCovers(put.info.supportedNssaiAvailabilityData, Requested(request.registration.value))
    ensures Delivers(After(c, before + [Put(put)] + later), put, request)
  {
    var events := before + [Put(put)] + later;
    var puts, info := Puts(events), request.registration.value;
    assert After(c, events) == c.(amfInfoList := Run(c.amfInfoList, puts)) by { AfterIsRun(c, events); }
    RequestVerdictExact(c, request);
    AmfSetsDecideLast(c, Run(c.amfInfoList, puts), info, request.TaiOrEmpty(), request.HomeOrEmpty());
    RunKeepsShape(c.amfInfoList, puts);
    ShapeKeepsIds(c.amfInfoList, Run(c.amfInfoList, puts));
    PutsSplit(before, put, later);
    RunReadYourWrites(c.amfInfoList, puts, |Puts(before)|, Requested(info));
  }

  // ----- The same promise as written -----

  /** A registration of exactly these S-NSSAIs, all of them subscribed. */
  function RequestFor(nssai: seq<Snssai>): Request {
    var subscribed := Map((s: Snssai) => SubscribedSnssai(s), nssai);
    Request(Amf, Some(SliceInfoForRegistration(Some(nssai), Some(subscribed), false, false)), None, None, None)
  }

  lemma RequestForReachesAmfs(c: ConfigData, nssai: seq<Snssai>)
    requires nssai != []
    ensures ReachesAmfs(c, RequestFor(nssai))
  {
    var info := RequestFor(nssai).registration.value;
    assert nssai[0] in Requested(info) && SubscribedList(info)[0] in SubscribedList(info);
    assert SomeSubscribed(info);
  }

  /** Each non-empty entry of the payload is within what some AMF of a set before
      the named one, or the PUT's own AMF in the named set, has already. */
  ghost predicate OfferedAlready(sets: seq<AmfInfo>, put: PutRequest)
    requires Accepted(sets, put.info)
  {
    forall d :: d in put.info.supportedNssaiAvailabilityData && d.supportedSnssaiList != [] ==>
      EntryOfferedAlready(sets, put, d)
  }

  ghost predicate EntryOfferedAlready(sets: seq<AmfInfo>, put: PutRequest, d: AvailabilityData)
    requires Accepted(sets, put.info)
  {
    var k := SetIndex(sets, put.info.amfSetId.value);
    || (exists j, a :: 0 <= j < k && a in sets[j].amfList && Within(d, a.data))
    || (exists a :: a in sets[k].amfList && a.nfId == put.nfId && Within(d, a.data))
  }

  /** As written the configuration stays `c` whatever is PUT. The promise of
      `StoredAmfIsServed` is then kept for every registration if and only if the
      payload offers nothing new. */
  lemma AsWrittenServesIff(c: ConfigData, put: PutRequest)
    requires Accepted(c.amfInfoList, put.info)
    ensures
      (forall request ::
         ReachesAmfs(c, request)
         && DataCovers(put.info.supportedNssaiAvailabilityData, Requested(request.registration.value))
         ==> Delivers(c, put, request))
      <==> OfferedAlready(c.amfInfoList, put)
  {
    var data := put.info.supportedNssaiAvailabilityData;
    if OfferedAlready(c.amfInfoList, put) {
      forall request | ReachesAmfs(c, request) && DataCovers(data, Requested(request.registration.value))
        ensures Delivers(c, put, request)
      {
        OfferedIsDelivered(c, put, request);
      }
    }
    if forall request :: ReachesAmfs(c, request) && DataCovers(data, Requested(request.registration.value))
         ==> Delivers(c, put, request) {
      forall d | d in data && d.supportedSnssaiList != [] ensures EntryOfferedAlready(c.amfInfoList, put, d) {
        var request := RequestFor(AsRequest(d.supportedSnssaiList));
        RequestForReachesAmfs(c, AsRequest(d.supportedSnssaiList));
        assert Within(d, data);
        WithinIffCovered(d, data);
        assert Delivers(c, put, request);
        DeliveredIsOffered(c, put, d);
      }
    }
  }

  lemma OfferedIsDelivered(c: ConfigData, put: PutRequest, request: Request)
    requires Accepted(c.amfInfoList, put.info) && OfferedAlready(c.amfInfoList, put)
    requires ReachesAmfs(c, request)
    requires DataCovers(put.info.supportedNssaiAvailabilityData, Requested(request.registration.value))
    ensures Delivers(c, put, request)
  {
    var data, nssai := put.info.supportedNssaiAvailabilityData, Requested(request.registration.value);
    CoveredByEntry(data, nssai);
    var d :| d in data && Keys(nssai) <= SupportKeys(d.supportedSnssaiList);
    KeysEmpty(nssai);
    assert d.supportedSnssaiList != [];
    OfferedEntryDelivers(c, put, d, request);
  }

  lemma OfferedEntryDelivers(c: ConfigData, put: PutRequest, d: AvailabilityData, request: Request)
    requires Accepted(c.amfInfoList, put.info) && EntryOfferedAlready(c.amfInfoList, put, d)
    requires ReachesAmfs(c, request)
    requires Keys(Requested(request.registration.value)) <= SupportKeys(d.supportedSnssaiList)
    ensures Delivers(c, put, request)
  {
    var info, tai, home := request.registration.value, request.TaiOrEmpty(), request.HomeOrEmpty();
    OfferedEntryChosen(c.amfInfoList, put, d, Requested(info));
    RequestVerdictExact(c, request);
    assert c.(amfInfoList := c.amfInfoList) == c;
    AmfSetsDecideLast(c, c.amfInfoList, info, tai, home);
  }

  lemma OfferedEntryChosen(sets: seq<AmfInfo>, put: PutRequest, d: AvailabilityData, nssai: seq<Snssai>)
    requires Accepted(sets, put.info) && EntryOfferedAlready(sets, put, d)
    requires Keys(nssai) <= SupportKeys(d.supportedSnssaiList)
    ensures var k := SetIndex(sets, put.info.amfSetId.value);
      ChosenSet(sets, nssai) <= k && (ChosenSet(sets, nssai) == k ==> put.nfId in Candidates(sets[k].amfList, nssai))
  {
    var k := SetIndex(sets, put.info.amfSetId.value);
    if j, a :| 0 <= j < k && a in sets[j].amfList && Within(d, a.data) {
      WithinCovers(d, a.data, nssai);
      CandidateByEntry(sets[j].amfList, a.nfId, nssai);
    } else {
      var a :| a in sets[k].amfList && a.nfId == put.nfId && Within(d, a.data);
      WithinCovers(d, a.data, nssai);
      CandidateByEntry(sets[k].amfList, put.nfId, nssai);
    }
  }

  lemma DeliveredIsOffered(c: ConfigData, put: PutRequest, d: AvailabilityData)
    requires Accepted(c.amfInfoList, put.info)
    requires Delivers(c, put, RequestFor(AsRequest(d.supportedSnssaiList)))
    ensures EntryOfferedAlready(c.amfInfoList, put, d)
  {
    var sets, nssai := c.amfInfoList, AsRequest(d.supportedSnssaiList);
    var request := RequestFor(nssai);
    var j := RequestVerdict(c, request).amfSet;
    RequestVerdictExact(c, request);
    var n := if j == SetIndex(sets, put.info.amfSetId.value) then put.nfId else Candidates(sets[j].amfList, nssai)[0];
    assert n in Candidates(sets[j].amfList, nssai);
    CandidateByEntry(sets[j].amfList, n, nssai);
    var a :| a in sets[j].amfList && a.nfId == n && Serves(a, nssai);
    WithinIffCovered(d, a.data);
  }

  /** An AMF set that is still empty, and a PUT to it. */
  const EMPTY_SET := AmfInfo("set-1", "http://nrf/disc", "http://nrf/nfm", [])
  const EMPTY_SET_CONFIG := ConfigData([], [], [EMPTY_SET])
  const ENABLING_DATA := AvailabilityData(Tai(PlmnId("208", "95"), "33456"), [ExtSnssai(1, None)])
  const ENABLING_PUT := PutRequest("amf-1", NssaiAvailabilityInfo(Some("set-1"), [ENABLING_DATA]))
  const ENABLED_REQUEST := RequestFor(AsRequest(ENABLING_DATA.supportedSnssaiList))

  /** One case in which it is not kept: the PUT is reported stored, and the
      registration it was to enable is refused by the service as written and
      granted by the meant one. */
  lemma StoredButNotServed()
    ensures Told(EMPTY_SET_CONFIG, Put(ENABLING_PUT)) == PutDone(true, NO_CONTENT)
    ensures Told(EMPTY_SET_CONFIG, Get(true, ENABLED_REQUEST)).reply == Reply(FORBIDDEN, Failure(SNSSAI_NOT_SUPPORTED))
    ensures var reply := Told(After(EMPTY_SET_CONFIG, [Put(ENABLING_PUT)]), Get(true, ENABLED_REQUEST)).reply;
      reply.Reply? && reply.code == OK
  {
    var c, put, request := EMPTY_SET_CONFIG, ENABLING_PUT, ENABLED_REQUEST;
    EnablingPut();
    StoredAmfIsServed(c, [], put, [], request);
    assert [] + [Put(put)] + [] == [Put(put)];
    GrantShows(After(c, [Put(put)]), request, true);
  }

  lemma EnablingPut()
    ensures Accepted([EMPTY_SET], ENABLING_PUT.info)
    ensures ReachesAmfs(EMPTY_SET_CONFIG, ENABLED_REQUEST)
    ensures DataCovers([ENABLING_DATA], Requested(ENABLED_REQUEST.registration.value))
    ensures RequestVerdict(EMPTY_SET_CONFIG, ENABLED_REQUEST).NoAmfSet?
  {
    var nssai := AsRequest(ENABLING_DATA.supportedSnssaiList);
    assert nssai == [Snssai(1, None)];
    RequestForReachesAmfs(EMPTY_SET_CONFIG, nssai);
    assert Within(ENABLING_DATA, [ENABLING_DATA]) by { assert ENABLING_DATA in [ENABLING_DATA]; }
    WithinIffCovered(ENABLING_DATA, [ENABLING_DATA]);
    assert ChosenSet([EMPTY_SET], nssai) == 1;
    RequestVerdictExact(EMPTY_SET_CONFIG, ENABLED_REQUEST);
  }

  lemma {:induction false} PutsSplit(before: seq<Event>, put: PutRequest, later: seq<Event>)
    ensures var puts, i := Puts(before + [Put(put)] + later), |Puts(before)|;
      && i < |puts| && puts[i] == put
      && forall j :: i < j < |puts| ==> Put(puts[j]) in later
  {
    var all := before + [Put(put)] + later;
    if later == [] {
      assert all[..|all| - 1] == before;
    } else {
      PutsSplit(before, put, later[..|later| - 1]);
      assert all[..|all| - 1] == before + [Put(put)] + later[..|later| - 1];
      assert all[|all| - 1] == later[|later| - 1];
    }
  }
}
