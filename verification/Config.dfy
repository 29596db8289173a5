/** The data the selection engine reads, and the loader that fills it from the
    slice configuration file. */
module Config {
  import opened Slices

  datatype PlmnId = PlmnId(mcc: string, mnc: string)
  datatype Tai = Tai(plmnId: PlmnId, tac: string)

  datatype NsiInformation = NsiInformation(
    nrfId: string, nsiId: Option<string>, nrfNfMgtUri: Option<string>)
  datatype NsiInfo = NsiInfo(snssai: Snssai, nsiInformation: NsiInformation)
  datatype TaInfo = TaInfo(tai: Tai)

  /** What one AMF supports in one tracking area. */
  datatype AvailabilityData = AvailabilityData(tai: Tai, supportedSnssaiList: seq<ExtSnssai>)
  datatype AmfEntry = AmfEntry(nfId: string, data: seq<AvailabilityData>)
  datatype AmfInfo = AmfInfo(
    targetAmfSet: string, nrfAmfSet: string, nrfAmfSetMgt: string, amfList: seq<AmfEntry>)

  /** The contents of the configuration object, as a value. */
  datatype ConfigData = ConfigData(
    nsiInfoList: seq<NsiInfo>, taInfoList: seq<TaInfo>, amfInfoList: seq<AmfInfo>)

  // ----- The configuration file, as far as the loader can tell -----

  /** One scalar of the file: missing, unreadable as the wanted type, or a value. */
  datatype Field<+T> = Absent | Malformed | Value(value: T) {
    /** An optional field is acceptable unless it is there and unreadable. */
    predicate Readable() { !Malformed? }
    function ToOption(): Option<T> { if Value? then Some(value) else None }
  }

  datatype NsiNode = NsiNode(
    nrfId: Field<string>, nsiId: Field<string>, nrfNfMgtUri: Field<string>,
    sst: Field<int>, sd: Field<string>)
  datatype TaNode = TaNode(mcc: Field<string>, mnc: Field<string>, tac: Field<string>)
  datatype SnssaiNode = SnssaiNode(sst: Field<int>, sd: Field<string>)
  datatype NssaiNode = NssaiNode(
    tac: Field<string>, mcc: Field<string>, supportedSnssaiList: seq<SnssaiNode>)
  datatype AmfNode = AmfNode(nfId: Field<string>, nssai: NssaiNode)
  datatype AmfSetNode = AmfSetNode(
    targetAmfSet: Field<string>, nrfAmfSet: Field<string>, nrfAmfSetNfMgtUri: Field<string>,
    amfList: seq<AmfNode>)

  /** The file is missing, is no mapping that YAML can read, or has or lacks each
      of its three sections. */
  datatype SliceFile =
    | NoFile
    | NotAMapping
    | SliceFile(nsi: Option<seq<NsiNode>>, ta: Option<seq<TaNode>>, amf: Option<seq<AmfSetNode>>)

  // ----- What each kind of node stands for, if it can be read -----

  function ParseNsi(n: NsiNode): Option<NsiInfo> {
    if n.nrfId.Value? && n.nsiId.Readable() && n.nrfNfMgtUri.Readable() && n.sst.Value? && n.sd.Readable()
    then Some(NsiInfo(Snssai(n.sst.value, n.sd.ToOption()),
                      NsiInformation(n.nrfId.value, n.nsiId.ToOption(), n.nrfNfMgtUri.ToOption())))
    else None
  }

  function ParseTa(n: TaNode): Option<TaInfo> {
    if n.mcc.Value? && n.mnc.Value? && n.tac.Value?
    then Some(TaInfo(Tai(PlmnId(n.mcc.value, n.mnc.value), n.tac.value)))
    else None
  }

  function ParseExtSnssai(n: SnssaiNode): Option<ExtSnssai> {
    if n.sst.Value? && n.sd.Readable() then Some(ExtSnssai(n.sst.value, n.sd.ToOption())) else None
  }

  const NO_DATA := AvailabilityData(Tai(PlmnId("", ""), ""), [])

  predicate NssaiReadable(n: NssaiNode) {
    n.tac.Value? && n.mcc.Value? && forall s :: s in n.supportedSnssaiList ==> ParseExtSnssai(s).Some?
  }

  /** The data stored for an AMF: its TAI as soon as that is readable (the MNC is
      never filled in), its support list only if every entry is readable. */
  function NssaiOf(n: NssaiNode): AvailabilityData {
    AvailabilityData(
      if n.tac.Value? && n.mcc.Value? then Tai(PlmnId(n.mcc.value, ""), n.tac.value) else NO_DATA.tai,
      if NssaiReadable(n) then ReadablePrefix(n.supportedSnssaiList, ParseExtSnssai) else [])
  }

  function ParseAmf(n: AmfNode): Option<AmfEntry> {
    if n.nfId.Value? then Some(AmfEntry(n.nfId.value, [NssaiOf(n.nssai)])) else None
  }

  /** A set needs its own fields and every AMF id; availability data that cannot
      be read does not spoil it. */
  function ParseAmfSet(n: AmfSetNode): Option<AmfInfo> {
    if n.targetAmfSet.Value? && n.nrfAmfSet.Value? && n.nrfAmfSetNfMgtUri.Value?
       && |ReadablePrefix(n.amfList, ParseAmf)| == |n.amfList|
    then Some(AmfInfo(n.targetAmfSet.value, n.nrfAmfSet.value, n.nrfAmfSetNfMgtUri.value,
                      ReadablePrefix(n.amfList, ParseAmf)))
    else None
  }

  /** What the nodes before the first unreadable one stand for, in order. */
  function ReadablePrefix<N, T>(nodes: seq<N>, parse: N -> Option<T>): (r: seq<T>)
    ensures |r| <= |nodes|
    ensures forall i :: 0 <= i < |r| ==> parse(nodes[i]) == Some(r[i])
    ensures |r| < |nodes| ==> parse(nodes[|r|]) == None
  {
    if nodes == [] || parse(nodes[0]).None? then []
    else [parse(nodes[0]).value] + ReadablePrefix(nodes[1..], parse)
  }

  /** One step of a loop over `nodes` that has not met an unreadable one. */
  lemma PrefixStep<N, T>(nodes: seq<N>, parse: N -> Option<T>, i: nat)
    requires i < |nodes| && i <= |ReadablePrefix(nodes, parse)|
    ensures var all := ReadablePrefix(nodes, parse);
      if parse(nodes[i]).Some? then i < |all| && all[..i + 1] == all[..i] + [parse(nodes[i]).value]
      else |all| == i && all[..i] == all
  {
  }

  /** How loading ends; reading something that is no mapping throws, and nothing
      in the loader catches it. */
  datatype Loading = Loaded | Refused | Thrown

  predicate Loads(file: SliceFile) {
    file.SliceFile? && file.nsi.Some? && file.ta.Some? && file.amf.Some?
  }

  /** The configuration after loading `file` on top of `c`. A missing section
      ends the loading, but what came before it stays. */
  function Load(c: ConfigData, file: SliceFile): ConfigData {
    if !file.SliceFile? || file.nsi.None? then c else
    var c1 := c.(nsiInfoList := c.nsiInfoList + ReadablePrefix(file.nsi.value, ParseNsi));
    if file.ta.None? then c1 else
    var c2 := c1.(taInfoList := c.taInfoList + ReadablePrefix(file.ta.value, ParseTa));
    if file.amf.None? then c2 else
    c2.(amfInfoList := c.amfInfoList + ReadablePrefix(file.amf.value, ParseAmfSet))
  }

  class NssfConfig {
    var nsiInfoList: seq<NsiInfo>
    var taInfoList: seq<TaInfo>
    var amfInfoList: seq<AmfInfo>

    function Data(): ConfigData
      reads this
    {
      ConfigData(nsiInfoList, taInfoList, amfInfoList)
    }

    constructor ()
      ensures Data() == ConfigData([], [], [])
    {
      nsiInfoList, taInfoList, amfInfoList := [], [], [];
    }

    method ParseNsiInfo(conf: seq<NsiNode>) returns (ok: bool)
      modifies this`nsiInfoList
      ensures nsiInfoList == old(nsiInfoList) + ReadablePrefix(conf, ParseNsi)
      ensures ok <==> |ReadablePrefix(conf, ParseNsi)| == |conf|
    {
      ghost var all := ReadablePrefix(conf, ParseNsi);
      for it := 0 to |conf|
        invariant it <= |all|
        invariant nsiInfoList == old(nsiInfoList) + all[..it]
      {
        PrefixStep(conf, ParseNsi, it);
        var node := conf[it];
        if !node.nrfId.Value? { return false; }
        var info := NsiInformation(node.nrfId.value, None, None);
        if node.nsiId != Absent {
          if !node.nsiId.Value? { return false; }
          info := info.(nsiId := Some(node.nsiId.value));
        }
        if node.nrfNfMgtUri != Absent {
          if !node.nrfNfMgtUri.Value? { return false; }
          info := info.(nrfNfMgtUri := Some(node.nrfNfMgtUri.value));
        }
        if !node.sst.Value? { return false; }
        var snssai := Snssai(node.sst.value, None);
        if node.sd != Absent {
          if !node.sd.Value? { return false; }
          snssai := snssai.(sd := Some(node.sd.value));
        }
        assert ParseNsi(node) == Some(NsiInfo(snssai, info));
        nsiInfoList := nsiInfoList + [NsiInfo(snssai, info)];
      }
      return true;
    }

    method ParseTaInfo(conf: seq<TaNode>) returns (ok: bool)
      modifies this`taInfoList
      ensures taInfoList == old(taInfoList) + ReadablePrefix(conf, ParseTa)
      ensures ok <==> |ReadablePrefix(conf, ParseTa)| == |conf|
    {
      ghost var all := ReadablePrefix(conf, ParseTa);
      for it := 0 to |conf|
        invariant it <= |all|
        invariant taInfoList == old(taInfoList) + all[..it]
      {
        PrefixStep(conf, ParseTa, it);
        var node := conf[it];
        if !node.mcc.Value? || !node.mnc.Value? || !node.tac.Value? { return false; }
        var plmnId := PlmnId(node.mcc.value, node.mnc.value);
        taInfoList := taInfoList + [TaInfo(Tai(plmnId, node.tac.value))];
      }
      return true;
    }

    static method ParseNssai(conf: NssaiNode) returns (ok: bool, nssaiData: AvailabilityData)
      ensures ok <==> NssaiReadable(conf)
      ensures nssaiData == NssaiOf(conf)
    {
      nssaiData := NO_DATA;
      if !conf.tac.Value? || !conf.mcc.Value? { return false, nssaiData; }
      nssaiData := nssaiData.(tai := Tai(PlmnId(conf.mcc.value, ""), conf.tac.value));
      ghost var all := ReadablePrefix(conf.supportedSnssaiList, ParseExtSnssai);
      var snssaiList := [];
      for it := 0 to |conf.supportedSnssaiList|
        invariant it <= |all|
        invariant snssaiList == all[..it]
      {
        PrefixStep(conf.supportedSnssaiList, ParseExtSnssai, it);
        var snssai := conf.supportedSnssaiList[it];
        if !snssai.sst.Value? || snssai.sd.Malformed? { return false, nssaiData; }
        var eSnssai := ExtSnssai(snssai.sst.value, None);
        if snssai.sd.Value? { eSnssai := eSnssai.(sd := Some(snssai.sd.value)); }
        snssaiList := snssaiList + [eSnssai];
      }
      nssaiData := nssaiData.(supportedSnssaiList := snssaiList);
      return true, nssaiData;
    }

    static method ParseAmfList(conf: seq<AmfNode>) returns (ok: bool, amfList: seq<AmfEntry>)
      ensures ok <==> |amfList| == |conf|
      ensures amfList == ReadablePrefix(conf, ParseAmf)
    {
      ghost var all := ReadablePrefix(conf, ParseAmf);
      amfList := [];
      for it := 0 to |conf|
        invariant it <= |all|
        invariant amfList == all[..it]
      {
        PrefixStep(conf, ParseAmf, it);
        var amf := conf[it];
        var _, nssaiData := ParseNssai(amf.nssai);
        if !amf.nfId.Value? { return false, amfList; }
        assert ParseAmf(amf) == Some(AmfEntry(amf.nfId.value, [nssaiData]));
        amfList := amfList + [AmfEntry(amf.nfId.value, [nssaiData])];
      }
      return true, amfList;
    }

    method ParseAmfInfo(conf: seq<AmfSetNode>) returns (ok: bool)
      modifies this`amfInfoList
      ensures amfInfoList == old(amfInfoList) + ReadablePrefix(conf, ParseAmfSet)
      ensures ok <==> |ReadablePrefix(conf, ParseAmfSet)| == |conf|
    {
      ghost var all := ReadablePrefix(conf, ParseAmfSet);
      for it := 0 to |conf|
        invariant it <= |all|
        invariant amfInfoList == old(amfInfoList) + all[..it]
      {
        PrefixStep(conf, ParseAmfSet, it);
        var node := conf[it];
        if !node.targetAmfSet.Value? || !node.nrfAmfSet.Value? || !node.nrfAmfSetNfMgtUri.Value? {
          return false;
        }
        var listOk, amfList := ParseAmfList(node.amfList);
        if !listOk { return false; }
        amfInfoList := amfInfoList + [AmfInfo(
          node.targetAmfSet.value, node.nrfAmfSet.value, node.nrfAmfSetNfMgtUri.value, amfList)];
      }
      return true;
    }

    /** The flags of the section parsers are ignored: only a missing or unusable
        file or a missing section keeps the loader from reporting success. */
    method ParseConfig(file: SliceFile) returns (end: Loading)
      modifies this
      ensures end.Loaded? <==> file.SliceFile? && file.nsi.Some? && file.ta.Some? && file.amf.Some?
      ensures end.Thrown? <==> file.NotAMapping?
      ensures Data() == Load(old(Data()), file)
    {
      if file.NoFile? { return Refused; }
      if file.NotAMapping? { return Thrown; }
      if file.nsi.Some? {
        var _ := ParseNsiInfo(file.nsi.value);
      } else {
        return Refused;
      }
      if file.ta.Some? {
        var _ := ParseTaInfo(file.ta.value);
      } else {
        return Refused;
      }
      if file.amf.Some? {
        var _ := ParseAmfInfo(file.amf.value);
      } else {
        return Refused;
      }
      return Loaded;
    }
  }
}
