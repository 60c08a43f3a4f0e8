/**
 * Classification of the BGP routes a device returns for one query
 * (get_routes without the device access): each record is skipped, kept in
 * prefixSet, or, in PI mode, carved out of PA space when an external AS
 * announced it. A record that makes netaddr or the AS-path split raise ends
 * the whole query with no data.
 */
module Routes {
  import opened Wrappers
  import opened IPSets
  import opened AsPath

  /** One <rt> record of the reply: destination, prefix length and AS-path text. */
  datatype Route = Route(prefix: int, prefixLen: int, asPath: string)

  function CidrOf(r: Route): Cidr { Cidr(r.prefix, r.prefixLen) }

  /** The addresses a well-formed record announces. */
  function BlockOf(r: Route): IPSet
    requires IsCidr(CidrOf(r))
  {
    Block(Mask(CidrOf(r)))
  }

  /** What the classification loop does with one record. */
  datatype Verdict =
    | HostRoute     // prefix length 32 or more: skipped
    | Malformed     // not an IPv4 CIDR: netaddr raises
    | Keep          // added to prefixSet
    | Carve         // PA space announced by an external AS: added to carvedSet
    | OwnOrigin     // PA space whose AS path starts with I or ?: skipped
    | Unmatched     // the AS-path pattern does not match: skipped
    | BlankAsPath   // the AS-path group is only whitespace: split()[0] raises

  /** The verdicts that abort the query through the catch-all handler. */
  predicate Raises(v: Verdict) { v == Malformed || v == BlankAsPath }

  /** The verdict for one record, with PI mode on or off and the PA space. */
  function Decide(r: Route, piMode: bool, pa: IPSet): (v: Verdict)
    ensures v == Keep || v == Carve ==> IsCidr(CidrOf(r)) && r.prefixLen < 32
    ensures !piMode ==> v in {HostRoute, Malformed, Keep}
  {
    if r.prefixLen >= 32 then HostRoute
    else if !IsCidr(CidrOf(r)) then Malformed
    else if piMode && BlockOf(r) <= pa then
      match TestAsPath(r.asPath)
      case NoMatch => Unmatched
      case NoToken => BlankAsPath
      case Origin(tok) => if IsOwnOrigin(tok) then OwnOrigin else Carve
    else Keep
  }

  /** The union of the blocks of the records that get verdict v. */
  function Gather(rs: seq<Route>, piMode: bool, pa: IPSet, v: Verdict): IPSet
  {
    if rs == [] then {}
    else
      var r := rs[|rs| - 1];
      Gather(rs[..|rs| - 1], piMode, pa, v)
        + (if Decide(r, piMode, pa) == v && IsCidr(CidrOf(r)) then BlockOf(r) else {})
  }

  /** Some record of the reply raises. */
  predicate AnyRaises(rs: seq<Route>, piMode: bool, pa: IPSet)
  {
    exists k :: 0 <= k < |rs| && Raises(Decide(rs[k], piMode, pa))
  }

  /** The two sets get_routes returns. */
  datatype Classified = Classified(prefixes: IPSet, carved: IPSet)

  /** get_routes on a reply: None for an empty reply or when some record raises. */
  function Classify(rs: seq<Route>, piMode: bool, pa: IPSet): Option<Classified>
  {
    if rs == [] || AnyRaises(rs, piMode, pa) then None
    else Some(Classified(Gather(rs, piMode, pa, Keep), Gather(rs, piMode, pa, Carve)))
  }

  /** The classification loop of get_routes over the records of one reply. */
  method ClassifyRoutes(rs: seq<Route>, piMode: bool, pa: IPSet) returns (result: Option<Classified>)
    ensures result == Classify(rs, piMode, pa)
  {
    if |rs| == 0 {
      return None;
    }
    var prefixes: IPSet := {};
    var carved: IPSet := {};
    for i := 0 to |rs|
      invariant prefixes == Gather(rs[..i], piMode, pa, Keep)
      invariant carved == Gather(rs[..i], piMode, pa, Carve)
      invariant !AnyRaises(rs[..i], piMode, pa)
    {
      RaisesStep(rs, i, piMode, pa);
      GatherStep(rs, i, piMode, pa, Keep);
      GatherStep(rs, i, piMode, pa, Carve);
      // the skip, raise, keep and carve branches of the loop body, as Decide states them
      var v := Decide(rs[i], piMode, pa);
      if Raises(v) {
        return None;
      } else if v == Keep {
        prefixes := prefixes + BlockOf(rs[i]);
      } else if v == Carve {
        carved := carved + BlockOf(rs[i]);
      }
    }
    assert rs[..|rs|] == rs;
    return Some(Classified(prefixes, carved));
  }

  /** Whether the first i + 1 records raise, and a raising record aborts the whole reply. */
  lemma RaisesStep(rs: seq<Route>, i: int, piMode: bool, pa: IPSet)
    requires 0 <= i < |rs|
    ensures AnyRaises(rs[..i + 1], piMode, pa) <==> AnyRaises(rs[..i], piMode, pa) || Raises(Decide(rs[i], piMode, pa))
    ensures Raises(Decide(rs[i], piMode, pa)) ==> AnyRaises(rs, piMode, pa)
  {
    assert forall k :: 0 <= k <= i ==> rs[..i + 1][k] == rs[k];
    if Raises(Decide(rs[i], piMode, pa)) {
      assert rs[..i + 1][i] == rs[i];
    }
  }

  /** Gathering one more record adds its block when its verdict is v. */
  lemma GatherStep(rs: seq<Route>, i: int, piMode: bool, pa: IPSet, v: Verdict)
    requires 0 <= i < |rs|
    ensures Gather(rs[..i + 1], piMode, pa, v) == Gather(rs[..i], piMode, pa, v)
      + (if Decide(rs[i], piMode, pa) == v && IsCidr(CidrOf(rs[i])) then BlockOf(rs[i]) else {})
  {
    assert rs[..i + 1][..i] == rs[..i];
  }

  /** An address is gathered exactly when some record with verdict v announces it. */
  lemma {:induction false} GatherMembers(rs: seq<Route>, piMode: bool, pa: IPSet, v: Verdict, a: int)
    ensures a in Gather(rs, piMode, pa, v) <==>
      exists k :: 0 <= k < |rs| && Decide(rs[k], piMode, pa) == v && IsCidr(CidrOf(rs[k])) && a in BlockOf(rs[k])
  {
    if a in Gather(rs, piMode, pa, v) {
      var k := GatherWitness(rs, piMode, pa, v, a);
    }
    if exists k :: 0 <= k < |rs| && Decide(rs[k], piMode, pa) == v && IsCidr(CidrOf(rs[k])) && a in BlockOf(rs[k]) {
      var k :| 0 <= k < |rs| && Decide(rs[k], piMode, pa) == v && IsCidr(CidrOf(rs[k])) && a in BlockOf(rs[k]);
      GatherComplete(rs, piMode, pa, v, a, k);
    }
  }

  /** A gathered address comes from a record with verdict v. */
  lemma {:induction false} GatherWitness(rs: seq<Route>, piMode: bool, pa: IPSet, v: Verdict, a: int) returns (k: int)
    requires a in Gather(rs, piMode, pa, v)
    ensures 0 <= k < |rs| && Decide(rs[k], piMode, pa) == v && IsCidr(CidrOf(rs[k])) && a in BlockOf(rs[k])
  {
    var init := rs[..|rs| - 1];
    if a in Gather(init, piMode, pa, v) {
      k := GatherWitness(init, piMode, pa, v, a);
      assert init[k] == rs[k];
    } else {
      k := |rs| - 1;
    }
  }

  /** Record k's block is gathered when its verdict is v. */
  lemma {:induction false} GatherComplete(rs: seq<Route>, piMode: bool, pa: IPSet, v: Verdict, a: int, k: int)
    requires 0 <= k < |rs| && Decide(rs[k], piMode, pa) == v && IsCidr(CidrOf(rs[k])) && a in BlockOf(rs[k])
    ensures a in Gather(rs, piMode, pa, v)
  {
    var init := rs[..|rs| - 1];
    if k < |init| {
      assert init[k] == rs[k];
      GatherComplete(init, piMode, pa, v, a, k);
    }
  }

  /**
   * What a successful query returns: prefixSet holds exactly the blocks of
   * the records kept, carvedSet exactly those carved out of PA space.
   */
  lemma ClassifiedMembers(rs: seq<Route>, piMode: bool, pa: IPSet, a: int)
    requires Classify(rs, piMode, pa).Some?
    ensures a in Classify(rs, piMode, pa).value.prefixes <==>
      exists k :: 0 <= k < |rs| && Decide(rs[k], piMode, pa) == Keep && a in BlockOf(rs[k])
    ensures a in Classify(rs, piMode, pa).value.carved <==>
      exists k :: 0 <= k < |rs| && Decide(rs[k], piMode, pa) == Carve && a in BlockOf(rs[k])
  {
    GatherMembers(rs, piMode, pa, Keep, a);
    GatherMembers(rs, piMode, pa, Carve, a);
  }

  /**
   * Outside PI mode nothing is carved, and every well-formed record shorter
   * than /32 lands in prefixSet.
   */
  lemma NonPiMode(rs: seq<Route>, pa: IPSet)
    requires Classify(rs, false, pa).Some?
    ensures Classify(rs, false, pa).value.carved == {}
    ensures forall k :: 0 <= k < |rs| && rs[k].prefixLen < 32 ==>
      IsCidr(CidrOf(rs[k])) && BlockOf(rs[k]) <= Classify(rs, false, pa).value.prefixes
  {
    var c := Classify(rs, false, pa).value;
    forall a | a in c.carved ensures false {
      ClassifiedMembers(rs, false, pa, a);
    }
    forall k | 0 <= k < |rs| && rs[k].prefixLen < 32
      ensures IsCidr(CidrOf(rs[k])) && BlockOf(rs[k]) <= c.prefixes
    {
      assert !Raises(Decide(rs[k], false, pa));
      forall a | a in BlockOf(rs[k]) ensures a in c.prefixes {
        ClassifiedMembers(rs, false, pa, a);
      }
    }
  }

  /**
   * In PI mode, prefixSet holds the routes outside PA space, and carvedSet
   * the PA-space routes whose AS path starts with an AS other than I or ?.
   */
  lemma PiMode(rs: seq<Route>, pa: IPSet, a: int)
    requires Classify(rs, true, pa).Some?
    ensures a in Classify(rs, true, pa).value.prefixes <==>
      exists k :: 0 <= k < |rs| && rs[k].prefixLen < 32 && IsCidr(CidrOf(rs[k]))
        && !(BlockOf(rs[k]) <= pa) && a in BlockOf(rs[k])
    ensures a in Classify(rs, true, pa).value.carved <==>
      exists k :: 0 <= k < |rs| && rs[k].prefixLen < 32 && IsCidr(CidrOf(rs[k]))
        && BlockOf(rs[k]) <= pa && TestAsPath(rs[k].asPath).Origin?
        && !IsOwnOrigin(TestAsPath(rs[k].asPath).token) && a in BlockOf(rs[k])
  {
    ClassifiedMembers(rs, true, pa, a);
  }

  /** A record that is skipped without raising. */
  predicate Skipped(v: Verdict) { v == HostRoute || v == OwnOrigin || v == Unmatched }

  /**
   * A skipped record (a host route, PA space of internal origin, or an AS
   * path the pattern does not match) has no effect on the other records'
   * result.
   */
  lemma SkippedRecord(p: seq<Route>, r: Route, q: seq<Route>, piMode: bool, pa: IPSet)
    requires Skipped(Decide(r, piMode, pa)) && p + q != []
    ensures Classify(p + [r] + q, piMode, pa) == Classify(p + q, piMode, pa)
  {
    SkippedRaises(p, r, q, piMode, pa);
    SkippedGather(p, r, q, piMode, pa, Keep);
    SkippedGather(p, r, q, piMode, pa, Carve);
  }

  /** A skipped record raises nothing, so the reply raises with it exactly when it does without. */
  lemma SkippedRaises(p: seq<Route>, r: Route, q: seq<Route>, piMode: bool, pa: IPSet)
    requires Skipped(Decide(r, piMode, pa))
    ensures AnyRaises(p + [r] + q, piMode, pa) <==> AnyRaises(p + q, piMode, pa)
  {
    var long, short := p + [r] + q, p + q;
    assert long[|p|] == r;
    if AnyRaises(short, piMode, pa) {
      var k :| 0 <= k < |short| && Raises(Decide(short[k], piMode, pa));
      if k < |p| {
        assert long[k] == short[k];
      } else {
        assert long[k + 1] == short[k];
      }
    }
    if AnyRaises(long, piMode, pa) {
      var k :| 0 <= k < |long| && Raises(Decide(long[k], piMode, pa));
      if k < |p| {
        assert short[k] == long[k];
      } else {
        assert k != |p|;
        assert short[k - 1] == long[k];
      }
    }
  }

  /** A skipped record adds no address to either gathered set. */
  lemma SkippedGather(p: seq<Route>, r: Route, q: seq<Route>, piMode: bool, pa: IPSet, v: Verdict)
    requires Skipped(Decide(r, piMode, pa)) && !Skipped(v)
    ensures Gather(p + [r] + q, piMode, pa, v) == Gather(p + q, piMode, pa, v)
  {
    GatherAppend(p + [r], q, piMode, pa, v);
    GatherAppend(p, [r], piMode, pa, v);
    GatherAppend(p, q, piMode, pa, v);
    assert [r][..0] == [];
  }

  /** Gathering a concatenation gathers each part. */
  lemma {:induction false} GatherAppend(xs: seq<Route>, ys: seq<Route>, piMode: bool, pa: IPSet, v: Verdict)
    ensures Gather(xs + ys, piMode, pa, v) == Gather(xs, piMode, pa, v) + Gather(ys, piMode, pa, v)
  {
    if ys == [] {
      assert xs + ys == xs;
    } else {
      var init := ys[..|ys| - 1];
      assert (xs + ys)[..|xs + ys| - 1] == xs + init;
      GatherAppend(xs, init, piMode, pa, v);
    }
  }

  /** One record that raises voids the whole reply, whatever the others hold. */
  lemma RaisingRecord(p: seq<Route>, r: Route, q: seq<Route>, piMode: bool, pa: IPSet)
    requires Raises(Decide(r, piMode, pa))
    ensures Classify(p + [r] + q, piMode, pa) == None
  {
    assert (p + [r] + q)[|p|] == r;
  }
}
