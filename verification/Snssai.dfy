/** S-NSSAIs and the relation that decides when two of them match. */
module Slices {

  datatype Option<+T> = None | Some(value: T)

  /** The SST value from which the SD takes part in the comparison. Its number is
      not fixed here: every result holds whatever it is. */
  const SST_MAX_STANDARDIZED_VALUE: int

  /** What reading an SD yields when none was ever set; also left open. */
  const DEFAULT_SD: string

  /** The part of an S-NSSAI that matching looks at. */
  datatype SnssaiKey = SnssaiKey(sst: int, sd: Option<string>)

  /** An S-NSSAI: SST and optional SD. */
  datatype Snssai = Snssai(sst: int, sd: Option<string>) {
    function GetSd(): string {
      if sd.Some? then sd.value else DEFAULT_SD
    }

    function Key(): SnssaiKey {
      SnssaiKey(sst, if sst >= SST_MAX_STANDARDIZED_VALUE then Some(GetSd()) else None)
    }
  }

  /** An S-NSSAI as an AMF advertises it. */
  datatype ExtSnssai = ExtSnssai(sst: int, sd: Option<string>) {
    function AsSnssai(): Snssai {
      Snssai(sst, sd)
    }
  }

  /** Two S-NSSAIs match iff they have the same SST and, from the threshold on, the
      same SD, where an SD that is not set may also stand for the default. */
  function CompareSnssai(a: Snssai, b: Snssai): (r: bool)
    ensures r <==> a.Key() == b.Key()
    ensures r <==>
      && a.sst == b.sst
      && (|| a.sst < SST_MAX_STANDARDIZED_VALUE
          || a.sd == b.sd
          || (a.sd == None && b.sd == Some(DEFAULT_SD))
          || (a.sd == Some(DEFAULT_SD) && b.sd == None))
  {
    if a.sst == b.sst then
      if (a.sd.Some? || b.sd.Some?) && a.sst >= SST_MAX_STANDARDIZED_VALUE then
        a.GetSd() == b.GetSd()
      else
        true
    else
      false
  }

  /** The SD is ignored for exactly the SST values below the threshold. From the
      threshold on, an S-NSSAI without SD matches itself and its explicit
      default, and nothing else. */
  lemma SdIgnoredBelowThreshold(sst: int)
    ensures (forall x, y :: CompareSnssai(Snssai(sst, x), Snssai(sst, y)))
       <==> sst < SST_MAX_STANDARDIZED_VALUE
    ensures sst >= SST_MAX_STANDARDIZED_VALUE ==>
              forall x :: CompareSnssai(Snssai(sst, None), Snssai(sst, x))
                     <==> x == None || x == Some(DEFAULT_SD)
  {
    assert CompareSnssai(Snssai(sst, Some("")), Snssai(sst, Some("1")))
      <==> sst < SST_MAX_STANDARDIZED_VALUE;
  }

  function Keys(nssai: seq<Snssai>): set<SnssaiKey> {
    set s | s in nssai :: s.Key()
  }

  function SupportKeys(support: seq<ExtSnssai>): set<SnssaiKey> {
    set e | e in support :: e.AsSnssai().Key()
  }

  /** `r` matches one of the supported S-NSSAIs. */
  predicate IsSupported(r: Snssai, support: seq<ExtSnssai>) {
    exists e :: e in support && CompareSnssai(r, e.AsSnssai())
  }

  /** Every requested S-NSSAI matches some supported one. */
  predicate Covers(support: seq<ExtSnssai>, req: seq<Snssai>) {
    forall r :: r in req ==> IsSupported(r, support)
  }

  /** Covering is inclusion of key sets, so it depends on neither order nor
      repetition, nor on which of several matching S-NSSAIs is written. */
  lemma CoversIsKeyInclusion(support: seq<ExtSnssai>, req: seq<Snssai>)
    ensures Covers(support, req) <==> Keys(req) <= SupportKeys(support)
  {
    if Covers(support, req) {
      forall k | k in Keys(req) ensures k in SupportKeys(support) {
        var r :| r in req && r.Key() == k;
        assert IsSupported(r, support);
      }
    }
    if Keys(req) <= SupportKeys(support) {
      forall r | r in req ensures IsSupported(r, support) {
        assert r.Key() in SupportKeys(support);
      }
    }
  }

  /** Covering by the fields of both lists. */
  lemma CoversExact(support: seq<ExtSnssai>, req: seq<Snssai>)
    ensures Covers(support, req) <==>
      forall r :: r in req ==> exists e :: e in support && CompareSnssai(r, Snssai(e.sst, e.sd))
  {
    forall r | r in req
      ensures IsSupported(r, support) <==> exists e :: e in support && CompareSnssai(r, Snssai(e.sst, e.sd))
    {
      if e :| e in support && CompareSnssai(r, Snssai(e.sst, e.sd)) {
        assert CompareSnssai(r, e.AsSnssai());
      }
    }
  }

  datatype SubscribedSnssai = SubscribedSnssai(subscribedSnssai: Snssai)

  function SubscribedKeys(subscribed: seq<SubscribedSnssai>): set<SnssaiKey> {
    set s | s in subscribed :: s.subscribedSnssai.Key()
  }

  /** `r` matches one of the subscribed S-NSSAIs. */
  predicate IsSubscribed(r: Snssai, subscribed: seq<SubscribedSnssai>) {
    exists s :: s in subscribed && CompareSnssai(r, s.subscribedSnssai)
  }
}
