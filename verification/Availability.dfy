/** The AMF availability store: an AMF's PUT replaces its entry in the first AMF
    set with the given id, or appends one. The handler is modelled twice, once
    updating the configured list as its log lines and interface comments
    describe, and once as it is written, on copies. */
module SliceAvailability {
  import opened Seqs
  import opened Slices
  import opened Config
  import opened SliceSelection

  const NO_CONTENT := 204

  datatype NssaiAvailabilityInfo = NssaiAvailabilityInfo(
    amfSetId: Option<string>, supportedNssaiAvailabilityData: seq<AvailabilityData>)

  datatype PutRequest = PutRequest(nfId: string, info: NssaiAvailabilityInfo)

  function SetIdIs(id: string): AmfInfo -> bool {
    (s: AmfInfo) => s.targetAmfSet == id
  }

  /** The first AMF set with this id, or `|sets|`. */
  function SetIndex(sets: seq<AmfInfo>, id: string): (k: nat)
    ensures k <= |sets|
    ensures k < |sets| ==> sets[k].targetAmfSet == id
    ensures forall j :: 0 <= j < k ==> sets[j].targetAmfSet != id
  {
    FirstIndex(sets, SetIdIs(id))
  }

  function NfIdIs(nfId: string): AmfEntry -> bool {
    (a: AmfEntry) => a.nfId == nfId
  }

  /** The first entry of this AMF, or `|amfList|`. */
  function EntryIndex(amfList: seq<AmfEntry>, nfId: string): (i: nat)
    ensures i <= |amfList|
    ensures i < |amfList| ==> amfList[i].nfId == nfId
    ensures forall j :: 0 <= j < i ==> amfList[j].nfId != nfId
  {
    FirstIndex(amfList, NfIdIs(nfId))
  }

  /** The PUT names an AMF set that is configured. */
  predicate Accepted(sets: seq<AmfInfo>, info: NssaiAvailabilityInfo) {
    info.amfSetId.Some? && info.amfSetId.value != "" && SetIndex(sets, info.amfSetId.value) < |sets|
  }

  function Upsert(amfList: seq<AmfEntry>, nfId: string, data: seq<AvailabilityData>): seq<AmfEntry> {
    var i := EntryIndex(amfList, nfId);
    if i < |amfList| then amfList[i := AmfEntry(nfId, data)] else amfList + [AmfEntry(nfId, data)]
  }

  /** The configured sets after a PUT. */
  function Stored(sets: seq<AmfInfo>, put: PutRequest): (r: seq<AmfInfo>)
    ensures |r| == |sets|
  {
    if !Accepted(sets, put.info) then sets else
    var k := SetIndex(sets, put.info.amfSetId.value);
    sets[k := sets[k].(
      amfList := Upsert(sets[k].amfList, put.nfId, put.info.supportedNssaiAvailabilityData))]
  }

  /** 204 when stored, 503 when no set is named or it is unknown; an empty set id
      is reported as success without touching the code. */
  function PutCode(sets: seq<AmfInfo>, info: NssaiAvailabilityInfo, before: int): int {
    if Accepted(sets, info) then NO_CONTENT
    else if info.amfSetId == Some("") then before
    else SERVICE_UNAVAILABLE
  }

  /** The reply to a PUT by its fields: it is stored and answered 204 iff it names,
      with a non-empty id, a set that is configured; an empty id leaves the code
      alone; all else is 503. */
  lemma PutCodeExact(sets: seq<AmfInfo>, info: NssaiAvailabilityInfo, before: int)
    ensures Accepted(sets, info) <==>
      info.amfSetId.Some? && info.amfSetId.value != "" && exists s :: s in sets && s.targetAmfSet == info.amfSetId.value
    ensures PutCode(sets, info, before) ==
      if info.amfSetId == Some("") then before
      else if info.amfSetId.Some? && exists s :: s in sets && s.targetAmfSet == info.amfSetId.value then 204
      else 503
  {
    if info.amfSetId.Some? {
      var id := info.amfSetId.value;
      assert SetIndex(sets, id) < |sets| ==> sets[SetIndex(sets, id)] in sets;
    }
  }

  method AmfSetPosition(cfg: NssfConfig, targetAmfSet: string) returns (k: nat)
    ensures k == SetIndex(cfg.amfInfoList, targetAmfSet)
  {
    for i := 0 to |cfg.amfInfoList|
      invariant i <= SetIndex(cfg.amfInfoList, targetAmfSet)
    {
      if cfg.amfInfoList[i].targetAmfSet == targetAmfSet { return i; }
    }
    return |cfg.amfInfoList|;
  }

  /** The meant handler: it works on the configured set itself. */
  method HandleCreateNssaiAvailability(
    cfg: NssfConfig, nfId: string, info: NssaiAvailabilityInfo, httpCode: int)
    returns (ok: bool, code: int)
    modifies cfg`amfInfoList
    ensures cfg.amfInfoList == Stored(old(cfg.amfInfoList), PutRequest(nfId, info))
    ensures code == PutCode(old(cfg.amfInfoList), info, httpCode)
    ensures ok <==> Accepted(old(cfg.amfInfoList), info) || info.amfSetId == Some("")
  {
    code := httpCode;
    if info.amfSetId.Some? {
      var amfSet := info.amfSetId.value;
      if amfSet != "" {
        var k := AmfSetPosition(cfg, amfSet);
        if k < |cfg.amfInfoList| {
          var updateDone := false;
          var amfInfo := cfg.amfInfoList[k];
          for i := 0 to |amfInfo.amfList|
            invariant !updateDone && code == httpCode && cfg.amfInfoList == old(cfg.amfInfoList)
            invariant i <= EntryIndex(amfInfo.amfList, nfId)
          {
            var amf := amfInfo.amfList[i];
            if amf.nfId == nfId {
              amf := amf.(data := info.supportedNssaiAvailabilityData);
              cfg.amfInfoList := cfg.amfInfoList[k := amfInfo.(amfList := amfInfo.amfList[i := amf])];
              updateDone := true;
              code := NO_CONTENT;
              break;
            }
          }
          if !updateDone {
            var amf := AmfEntry(nfId, info.supportedNssaiAvailabilityData);
            cfg.amfInfoList := cfg.amfInfoList[k := amfInfo.(amfList := amfInfo.amfList + [amf])];
            code := NO_CONTENT;
          }
        } else {
          code := SERVICE_UNAVAILABLE;
          return false, code;
        }
      }
    } else {
      code := SERVICE_UNAVAILABLE;
      return false, code;
    }
    return true, code;
  }

  /** The look-up as written hands out a copy of the set. */
  method AmfSetPresent(cfg: NssfConfig, targetAmfSet: string, before: AmfInfo)
    returns (present: bool, amfInfo: AmfInfo)
    ensures var k := SetIndex(cfg.amfInfoList, targetAmfSet);
      && (present <==> k < |cfg.amfInfoList|)
      && amfInfo == if present then cfg.amfInfoList[k] else before
  {
    for i := 0 to |cfg.amfInfoList|
      invariant i <= SetIndex(cfg.amfInfoList, targetAmfSet)
    {
      if cfg.amfInfoList[i].targetAmfSet == targetAmfSet { return true, cfg.amfInfoList[i]; }
    }
    return false, before;
  }

  /** The handler as written: the set and each of its entries are copies, so
      nothing outside this method changes, while the replies are the same. */
  method HandleCreateAsWritten(
    cfg: NssfConfig, nfId: string, info: NssaiAvailabilityInfo, httpCode: int)
    returns (ok: bool, code: int)
    ensures code == PutCode(cfg.amfInfoList, info, httpCode)
    ensures ok <==> Accepted(cfg.amfInfoList, info) || info.amfSetId == Some("")
  {
    code := httpCode;
    if info.amfSetId.Some? {
      var amfSet := info.amfSetId.value;
      if amfSet != "" {
        var present, amfInfo := AmfSetPresent(cfg, amfSet, AmfInfo("", "", "", []));
        if present {
          var updateDone := false;
          for i := 0 to |amfInfo.amfList|
            invariant !updateDone && code == httpCode
          {
            var amf := amfInfo.amfList[i];
            if amf.nfId == nfId {
              amf := amf.(data := []);
              amf := amf.(data := info.supportedNssaiAvailabilityData);
              updateDone := true;
              code := NO_CONTENT;
              break;
            }
          }
          if !updateDone {
            var amf := AmfEntry(nfId, info.supportedNssaiAvailabilityData);
            amfInfo := amfInfo.(amfList := amfInfo.amfList + [amf]);
            code := NO_CONTENT;
          }
        } else {
          code := SERVICE_UNAVAILABLE;
          return false, code;
        }
      }
    } else {
      code := SERVICE_UNAVAILABLE;
      return false, code;
    }
    return true, code;
  }
}
