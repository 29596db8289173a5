/** What the prefix-on-error behaviour of the configuration loader means for the
    answers given later. */
module LoaderLaws {
  import opened Seqs
  import opened Slices
  import opened Config
  import opened SliceSelection
  import opened SelectionLaws

  /** `r` stands for the first `|r|` nodes, and the next one cannot be read. */
  ghost predicate StopsAtUnreadable<N, T>(nodes: seq<N>, parse: N -> Option<T>, r: seq<T>) {
    && |r| <= |nodes|
    && (forall i :: 0 <= i < |r| ==> parse(nodes[i]) == Some(r[i]))
    && (|r| < |nodes| ==> parse(nodes[|r|]) == None)
  }

  /** A section is loaded up to, and not including, its first unreadable node,
      and what is behind that node has no effect. */
  lemma LongestPrefix<N, T>(nodes: seq<N>, parse: N -> Option<T>, r: seq<T>, bad: N, rest: seq<N>)
    ensures r == ReadablePrefix(nodes, parse) <==> StopsAtUnreadable(nodes, parse, r)
    ensures parse(bad).None? ==>
      ReadablePrefix(nodes + [bad] + rest, parse) == ReadablePrefix(nodes, parse)
  {
    if StopsAtUnreadable(nodes, parse, r) {
      PrefixUnique(nodes, parse, r);
    }
    var loaded := ReadablePrefix(nodes, parse);
    if parse(bad).None? {
      var more := nodes + [bad] + rest;
      assert more[|nodes|] == bad;
      assert forall i :: 0 <= i < |nodes| ==> more[i] == nodes[i];
      PrefixUnique(more, parse, loaded);
    }
  }

  lemma PrefixUnique<N, T>(nodes: seq<N>, parse: N -> Option<T>, r: seq<T>)
    requires StopsAtUnreadable(nodes, parse, r)
    ensures r == ReadablePrefix(nodes, parse)
  {
    var all := ReadablePrefix(nodes, parse);
    assert |r| == |all|;
  }

  lemma WholePrefix<N(!new), T>(nodes: seq<N>, parse: N -> Option<T>)
    ensures |ReadablePrefix(nodes, parse)| == |nodes| <==> forall n :: n in nodes ==> parse(n).Some?
  {
  }

  // ----- What is loaded, by the fields of the file -----

  /** The field a loaded optional value was read from. */
  function FieldOf<T>(o: Option<T>): Field<T> {
    if o.Some? then Value(o.value) else Absent
  }

  /** Each section is read if it and all sections before it are there. */
  lemma LoadedSections(file: SliceFile)
    ensures var c := Load(EMPTY_CONFIG, file);
      && c.nsiInfoList == (
           if file.SliceFile? && file.nsi.Some? then ReadablePrefix(file.nsi.value, ParseNsi) else [])
      && c.taInfoList == (
           if file.SliceFile? && file.nsi.Some? && file.ta.Some? then ReadablePrefix(file.ta.value, ParseTa) else [])
      && c.amfInfoList == (if Loads(file) then ReadablePrefix(file.amf.value, ParseAmfSet) else [])
  {
    if file.SliceFile? && file.nsi.Some? {
      var nsi := ReadablePrefix(file.nsi.value, ParseNsi);
      assert [] + nsi == nsi;
    }
    if file.SliceFile? && file.ta.Some? {
      var ta := ReadablePrefix(file.ta.value, ParseTa);
      assert [] + ta == ta;
    }
    if Loads(file) {
      var amf := ReadablePrefix(file.amf.value, ParseAmfSet);
      assert [] + amf == amf;
    }
  }

  /** `l` is what an NSI section is loaded as: field by field, up to the first node
      with a missing or malformed mandatory field or a malformed optional one. */
  ghost predicate AreNsisOf(l: seq<NsiInfo>, nodes: seq<NsiNode>) {
    && |l| <= |nodes|
    && (forall i :: 0 <= i < |l| ==> IsNsiOf(l[i], nodes[i]))
    && (|l| < |nodes| ==>
          var n := nodes[|l|];
          !n.nrfId.Value? || n.nsiId.Malformed? || n.nrfNfMgtUri.Malformed? || !n.sst.Value? || n.sd.Malformed?)
  }

  ghost predicate IsNsiOf(a: NsiInfo, n: NsiNode) {
    && n.nrfId == Value(a.nsiInformation.nrfId)
    && n.nsiId == FieldOf(a.nsiInformation.nsiId)
    && n.nrfNfMgtUri == FieldOf(a.nsiInformation.nrfNfMgtUri)
    && n.sst == Value(a.snssai.sst) && n.sd == FieldOf(a.snssai.sd)
  }

  lemma ParsedNsis(nodes: seq<NsiNode>)
    ensures AreNsisOf(ReadablePrefix(nodes, ParseNsi), nodes)
  {
    var l := ReadablePrefix(nodes, ParseNsi);
    forall i | 0 <= i < |l| ensures IsNsiOf(l[i], nodes[i]) {
      assert ParseNsi(nodes[i]) == Some(l[i]);
    }
  }

  /** The same for a TA section. */
  ghost predicate AreTasOf(l: seq<TaInfo>, nodes: seq<TaNode>) {
    && |l| <= |nodes|
    && (forall i :: 0 <= i < |l| ==>
          nodes[i] == TaNode(Value(l[i].tai.plmnId.mcc), Value(l[i].tai.plmnId.mnc), Value(l[i].tai.tac)))
    && (|l| < |nodes| ==> !nodes[|l|].mcc.Value? || !nodes[|l|].mnc.Value? || !nodes[|l|].tac.Value?)
  }

  lemma ParsedTas(nodes: seq<TaNode>)
    ensures AreTasOf(ReadablePrefix(nodes, ParseTa), nodes)
  {
    var l := ReadablePrefix(nodes, ParseTa);
    forall i | 0 <= i < |l|
      ensures nodes[i] == TaNode(Value(l[i].tai.plmnId.mcc), Value(l[i].tai.plmnId.mnc), Value(l[i].tai.tac))
    {
      assert ParseTa(nodes[i]) == Some(l[i]);
    }
  }

  /** A TAI is listed iff the file has it in a node with only readable nodes before. */
  lemma TaiListedByFile(file: SliceFile, tai: Tai)
    requires file.SliceFile? && file.nsi.Some? && file.ta.Some?
    ensures TaiListed(Load(EMPTY_CONFIG, file).taInfoList, tai) <==>
      exists i :: 0 <= i < |file.ta.value|
        && file.ta.value[i] == TaNode(Value(tai.plmnId.mcc), Value(tai.plmnId.mnc), Value(tai.tac))
        && forall j :: 0 <= j < i ==>
             file.ta.value[j].mcc.Value? && file.ta.value[j].mnc.Value? && file.ta.value[j].tac.Value?
  {
    LoadedSections(file);
    ParsedTas(file.ta.value);
    TaiListedByNodes(ReadablePrefix(file.ta.value, ParseTa), file.ta.value, tai);
  }

  lemma TaiListedByNodes(l: seq<TaInfo>, nodes: seq<TaNode>, tai: Tai)
    requires AreTasOf(l, nodes)
    ensures TaiListed(l, tai) <==>
      exists i :: 0 <= i < |nodes|
        && nodes[i] == TaNode(Value(tai.plmnId.mcc), Value(tai.plmnId.mnc), Value(tai.tac))
        && forall j :: 0 <= j < i ==> nodes[j].mcc.Value? && nodes[j].mnc.Value? && nodes[j].tac.Value?
  {
    var wanted := TaNode(Value(tai.plmnId.mcc), Value(tai.plmnId.mnc), Value(tai.tac));
    if i :| 0 <= i < |l| && l[i].tai == tai {
      assert nodes[i] == wanted;
    }
    if i :|
      && 0 <= i < |nodes| && nodes[i] == wanted
      && forall j :: 0 <= j < i ==> nodes[j].mcc.Value? && nodes[j].mnc.Value? && nodes[j].tac.Value?
    {
      assert i < |l| && l[i].tai == tai;
    }
  }

  /** `d` is what the availability data of one AMF is loaded as: the TAI without
      its MNC, the S-NSSAIs all or none. */
  ghost predicate IsDataOf(d: AvailabilityData, n: NssaiNode) {
    var nodes, list := n.supportedSnssaiList, d.supportedSnssaiList;
    var taiReadable := n.tac.Value? && n.mcc.Value?;
    && d.tai == (if taiReadable then Tai(PlmnId(n.mcc.value, ""), n.tac.value) else Tai(PlmnId("", ""), ""))
    && if taiReadable && forall s :: s in nodes ==> s.sst.Value? && !s.sd.Malformed?
       then |list| == |nodes|
            && forall i :: 0 <= i < |list| ==> nodes[i] == SnssaiNode(Value(list[i].sst), FieldOf(list[i].sd))
       else list == []
  }

  ghost predicate IsAmfOf(a: AmfEntry, n: AmfNode) {
    n.nfId == Value(a.nfId) && |a.data| == 1 && IsDataOf(a.data[0], n.nssai)
  }

  ghost predicate IsAmfSetOf(s: AmfInfo, n: AmfSetNode) {
    && n.targetAmfSet == Value(s.targetAmfSet) && n.nrfAmfSet == Value(s.nrfAmfSet)
    && n.nrfAmfSetNfMgtUri == Value(s.nrfAmfSetMgt)
    && |s.amfList| == |n.amfList|
    && forall i :: 0 <= i < |s.amfList| ==> IsAmfOf(s.amfList[i], n.amfList[i])
  }

  /** The same for the AMF sets: whole sets, in order, up to the first with an
      unreadable field or AMF id. Availability data that cannot be read costs
      neither its AMF nor its set. */
  ghost predicate AreAmfSetsOf(l: seq<AmfInfo>, nodes: seq<AmfSetNode>) {
    && |l| <= |nodes|
    && (forall k :: 0 <= k < |l| ==> IsAmfSetOf(l[k], nodes[k]))
    && (|l| < |nodes| ==>
          var n := nodes[|l|];
          || !n.targetAmfSet.Value? || !n.nrfAmfSet.Value? || !n.nrfAmfSetNfMgtUri.Value?
          || exists a :: a in n.amfList && !a.nfId.Value?)
  }

  lemma ParsedAmfSets(nodes: seq<AmfSetNode>)
    ensures AreAmfSetsOf(ReadablePrefix(nodes, ParseAmfSet), nodes)
  {
    var l := ReadablePrefix(nodes, ParseAmfSet);
    forall k | 0 <= k < |l| ensures IsAmfSetOf(l[k], nodes[k]) {
      ParsedAmfSet(nodes[k]);
    }
    if |l| < |nodes| {
      ParsedAmfSet(nodes[|l|]);
    }
  }

  /** What is loaded, by the fields of the file. A section counts only if the ones
      before it are there. */
  lemma LoadedExact(file: SliceFile)
    ensures var c := Load(EMPTY_CONFIG, file);
      && (if file.SliceFile? && file.nsi.Some? then AreNsisOf(c.nsiInfoList, file.nsi.value) else c.nsiInfoList == [])
      && (if file.SliceFile? && file.nsi.Some? && file.ta.Some? then AreTasOf(c.taInfoList, file.ta.value)
          else c.taInfoList == [])
      && (if file.SliceFile? && file.nsi.Some? && file.ta.Some? && file.amf.Some?
          then AreAmfSetsOf(c.amfInfoList, file.amf.value) else c.amfInfoList == [])
  {
    LoadedSections(file);
    if file.SliceFile? {
      if file.nsi.Some? { ParsedNsis(file.nsi.value); }
      if file.ta.Some? { ParsedTas(file.ta.value); }
      if file.amf.Some? { ParsedAmfSets(file.amf.value); }
    }
  }

  /** A set is loaded when its own fields and the ids of all its AMFs are
      readable, whatever their availability data. It then has one entry for each
      AMF of its node, none missing, with that AMF's id and one data entry. */
  lemma SetsAreLoadedWhole(nodes: seq<AmfSetNode>, k: nat)
    requires k < |ReadablePrefix(nodes, ParseAmfSet)|
    ensures forall n: AmfSetNode :: ParseAmfSet(n).Some? <==>
      && n.targetAmfSet.Value? && n.nrfAmfSet.Value? && n.nrfAmfSetNfMgtUri.Value?
      && forall a :: a in n.amfList ==> a.nfId.Value?
    ensures IsAmfSetOf(ReadablePrefix(nodes, ParseAmfSet)[k], nodes[k])
  {
    forall n: AmfSetNode { ParsedAmfSet(n); }
    ParsedAmfSet(nodes[k]);
  }

  lemma ParsedAmfSet(n: AmfSetNode)
    ensures ParseAmfSet(n).Some? <==>
      && n.targetAmfSet.Value? && n.nrfAmfSet.Value? && n.nrfAmfSetNfMgtUri.Value?
      && forall a :: a in n.amfList ==> a.nfId.Value?
    ensures ParseAmfSet(n).Some? ==> IsAmfSetOf(ParseAmfSet(n).value, n)
  {
    WholePrefix(n.amfList, ParseAmf);
    forall a | a in n.amfList && a.nfId.Value? ensures ParseAmf(a).Some? && IsAmfOf(ParseAmf(a).value, a) {
      ParsedAmf(a);
    }
  }

  lemma ParsedAmf(n: AmfNode)
    requires n.nfId.Value?
    ensures ParseAmf(n).Some? && IsAmfOf(ParseAmf(n).value, n)
  {
    WholePrefix(n.nssai.supportedSnssaiList, ParseExtSnssai);
  }

  /** A loaded AMF serves exactly the requests covered by its listed S-NSSAIs; if
      its data could not be read, only the empty request. */
  lemma LoadedAmfServes(a: AmfEntry, n: AmfNode, req: seq<Snssai>)
    requires IsAmfOf(a, n)
    ensures Serves(a, req) <==>
      || req == []
      || (&& n.nssai.tac.Value? && n.nssai.mcc.Value?
          && (forall s :: s in n.nssai.supportedSnssaiList ==> s.sst.Value? && !s.sd.Malformed?)
          && forall r :: r in req ==>
               exists s :: s in n.nssai.supportedSnssaiList && s.sst.Value?
                 && CompareSnssai(r, Snssai(s.sst.value, if s.sd.Value? then Some(s.sd.value) else None)))
  {
    var nodes, list := n.nssai.supportedSnssaiList, a.data[0].supportedSnssaiList;
    assert Serves(a, req) <==> Covers(list, req) by {
      assert Covers(a.data[0].supportedSnssaiList, req) ==> Serves(a, req);
    }
    CoversExact(list, req);
    if list == [] {
      assert req != [] ==> req[0] in req;
    }
    if |list| == |nodes| &&
       forall i :: 0 <= i < |list| ==> nodes[i] == SnssaiNode(Value(list[i].sst), FieldOf(list[i].sd)) {
      forall r | r in req
        ensures (exists e :: e in list && CompareSnssai(r, Snssai(e.sst, e.sd))) <==>
          exists s :: s in nodes && s.sst.Value?
            && CompareSnssai(r, Snssai(s.sst.value, if s.sd.Value? then Some(s.sd.value) else None))
      {
        if e :| e in list && CompareSnssai(r, Snssai(e.sst, e.sd)) {
          var i :| 0 <= i < |list| && list[i] == e;
          assert nodes[i] in nodes;
        }
        if s :|
            && s in nodes && s.sst.Value?
            && CompareSnssai(r, Snssai(s.sst.value, if s.sd.Value? then Some(s.sd.value) else None))
        {
          var i :| 0 <= i < |nodes| && nodes[i] == s;
          assert list[i] in list;
        }
      }
    }
  }

  /** `sets` without the AMF at position `i` of set `k`. */
  function WithoutAmf(sets: seq<AmfInfo>, k: nat, i: nat): seq<AmfInfo>
    requires k < |sets| && i < |sets[k].amfList|
  {
    sets[k := sets[k].(amfList := sets[k].amfList[..i] + sets[k].amfList[i + 1..])]
  }

  /** The AMF sets matter to a registration only through their ids, URIs and
      candidates. */
  lemma VerdictFromCandidates(
    c: ConfigData, sets: seq<AmfInfo>, info: SliceInfoForRegistration, tai: Tai, home: PlmnId, auth: AuthInfo)
    requires |sets| == |c.amfInfoList|
    requires forall j :: 0 <= j < |sets| ==>
      && sets[j].(amfList := []) == c.amfInfoList[j].(amfList := [])
      && Candidates(sets[j].amfList, Requested(info)) == Candidates(c.amfInfoList[j].amfList, Requested(info))
    ensures var v := Judge(c, info, tai, home);
      Judge(c.(amfInfoList := sets), info, tai, home) == v
      && RegistrationInfo(c.(amfInfoList := sets), info, v, auth) == RegistrationInfo(c, info, v, auth)
  {
    var k, v := ChosenSet(sets, Requested(info)), Judge(c, info, tai, home);
    SameChoice(sets, c.amfInfoList, Requested(info));
    AmfSetsDecideLast(c, sets, info, tai, home);
    assert v.Granted? ==> v.amfSet == k && sets[k].(amfList := []) == c.amfInfoList[k].(amfList := []);
  }

  lemma SameChoice(sets: seq<AmfInfo>, others: seq<AmfInfo>, req: seq<Snssai>)
    requires |sets| == |others|
    requires forall j :: 0 <= j < |sets| ==> Candidates(sets[j].amfList, req) == Candidates(others[j].amfList, req)
    ensures ChosenSet(sets, req) == ChosenSet(others, req)
  {
  }

  /** An AMF that does not serve the request could as well be deleted. */
  lemma UselessAmfIsInvisible(
    c: ConfigData, k: nat, i: nat, info: SliceInfoForRegistration, tai: Tai, home: PlmnId, auth: AuthInfo)
    requires k < |c.amfInfoList| && i < |c.amfInfoList[k].amfList|
    requires !Serves(c.amfInfoList[k].amfList[i], Requested(info))
    ensures var less := c.(amfInfoList := WithoutAmf(c.amfInfoList, k, i));
      var v := Judge(c, info, tai, home);
      Judge(less, info, tai, home) == v
      && RegistrationInfo(less, info, v, auth) == RegistrationInfo(c, info, v, auth)
  {
    var l, req := c.amfInfoList[k].amfList, Requested(info);
    assert Candidates(l[..i] + l[i + 1..], req) == Candidates(l, req) by {
      FilterDrop(l[..i], l[i], l[i + 1..], Serving(req));
      assert l[..i] + [l[i]] + l[i + 1..] == l;
    }
    VerdictFromCandidates(c, WithoutAmf(c.amfInfoList, k, i), info, tai, home, auth);
  }

  /** An AMF whose availability data could not be read is invisible to every
      registration: deleting it changes no verdict and no answer. The empty
      request, the only one it covers, is refused before AMFs are looked at. */
  lemma UnreadableAmfIsInvisible(
    c: ConfigData, file: SliceFile, k: nat, i: nat,
    info: SliceInfoForRegistration, tai: Tai, home: PlmnId, auth: AuthInfo)
    requires Loads(file)
    requires k < |ReadablePrefix(file.amf.value, ParseAmfSet)| && i < |file.amf.value[k].amfList|
    requires var n := file.amf.value[k].amfList[i].nssai;
      !n.tac.Value? || !n.mcc.Value? || exists s :: s in n.supportedSnssaiList && (!s.sst.Value? || s.sd.Malformed?)
    ensures var full, s := Load(c, file), |c.amfInfoList| + k;
      && s < |full.amfInfoList| && i < |full.amfInfoList[s].amfList|
      && var less := full.(amfInfoList := WithoutAmf(full.amfInfoList, s, i));
         var v := Judge(full, info, tai, home);
         Judge(less, info, tai, home) == v
         && RegistrationInfo(less, info, v, auth) == RegistrationInfo(full, info, v, auth)
  {
    var nodes, full, s := file.amf.value, Load(c, file), |c.amfInfoList| + k;
    assert full.amfInfoList[s] == ReadablePrefix(nodes, ParseAmfSet)[k];
    ParsedAmfSet(nodes[k]);
    if Requested(info) != [] {
      LoadedAmfServes(full.amfInfoList[s].amfList[i], nodes[k].amfList[i], Requested(info));
      UselessAmfIsInvisible(full, s, i, info, tai, home, auth);
    } else {
      EmptyRequestIsRefused(full, info, tai, home);
      EmptyRequestIsRefused(full.(amfInfoList := WithoutAmf(full.amfInfoList, s, i)), info, tai, home);
    }
  }

  lemma EmptyRequestIsRefused(c: ConfigData, info: SliceInfoForRegistration, tai: Tai, home: PlmnId)
    requires Requested(info) == []
    ensures var v := Judge(c, info, tai, home); !v.Granted? && !v.NoAmfSet?
  {
  }
}
