/**
 * The phases of the allocation run, as functions on the city table: the
 * base-overlap check, the per-city query driver, the small-PI dedup,
 * consolidation, override propagation and the per-country union. The
 * Engine class performs each phase in place and is proved to compute these.
 */
module Phases {
  import opened Wrappers
  import opened IPSets
  import opened Routes
  import opened Cities

  // ---------------------------------------------------------------------
  // Base-overlap check

  /** Two distinct cities' configured bases share an address. */
  predicate BasesOverlap(cs: seq<City>)
  {
    exists i, j, a :: 0 <= i < |cs| && 0 <= j < |cs| && i != j && a in cs[i].base && a in cs[j].base
  }

  /** Block c of city i's base lies wholly in the base of another city among the first m. */
  predicate CidrClashes(cs: seq<City>, i: int, c: Cidr, m: int)
  {
    exists j :: 0 <= j < m && j < |cs| && j != i && Block(c) <= cs[j].base
  }

  /** One of the first m CIDRs of city i's base clashes. */
  predicate CityClashes(cs: seq<City>, i: int, m: int)
    requires 0 <= i < |cs|
  {
    exists k :: 0 <= k < m && k < |Cidrs(cs[i].base)| && CidrClashes(cs, i, Cidrs(cs[i].base)[k], |cs|)
  }

  /** The check reports an error for one of the first n cities. */
  predicate AnyClash(cs: seq<City>, n: int)
  {
    exists i :: 0 <= i < n && i < |cs| && CityClashes(cs, i, |Cidrs(cs[i].base)|)
  }

  /**
   * The check, which tests whole CIDRs of one base for containment in the
   * other bases, finds an error exactly when two bases share an address.
   * Containment suffices because two CIDR blocks are nested or disjoint.
   */
  lemma OverlapDetected(cs: seq<City>)
    ensures AnyClash(cs, |cs|) <==> BasesOverlap(cs)
  {
    if AnyClash(cs, |cs|) {
      ClashIsOverlap(cs);
    }
    if BasesOverlap(cs) {
      OverlapIsClash(cs);
    }
  }

  /** A reported clash is a shared address: the network address of the clashing CIDR. */
  lemma ClashIsOverlap(cs: seq<City>)
    requires AnyClash(cs, |cs|)
    ensures BasesOverlap(cs)
  {
    var i :| 0 <= i < |cs| && CityClashes(cs, i, |Cidrs(cs[i].base)|);
    var ks := Cidrs(cs[i].base);
    var k :| 0 <= k < |ks| && CidrClashes(cs, i, ks[k], |cs|);
    var j :| 0 <= j < |cs| && j != i && Block(ks[k]) <= cs[j].base;
    BlockFacts(ks[k]);
    IPSetOfHolds(ks, k);
    assert ks[k].net in cs[i].base && ks[k].net in cs[j].base;
  }

  /**
   * A shared address lies in one CIDR of each base; the two are nested, so
   * the inner one lies wholly in the other city's base.
   */
  lemma OverlapIsClash(cs: seq<City>)
    requires BasesOverlap(cs)
    ensures AnyClash(cs, |cs|)
  {
    var i, j, a :| 0 <= i < |cs| && 0 <= j < |cs| && i != j && a in cs[i].base && a in cs[j].base;
    var ki := IPSetOfWitness(Cidrs(cs[i].base), a);
    var kj := IPSetOfWitness(Cidrs(cs[j].base), a);
    var ci, cj := Cidrs(cs[i].base)[ki], Cidrs(cs[j].base)[kj];
    Overlapping(ci, cj, a);
    IPSetOfHolds(Cidrs(cs[i].base), ki);
    IPSetOfHolds(Cidrs(cs[j].base), kj);
    if Block(ci) <= Block(cj) {
      assert CidrClashes(cs, i, ci, |cs|);
      assert CityClashes(cs, i, |Cidrs(cs[i].base)|);
    } else {
      assert CidrClashes(cs, j, cj, |cs|);
      assert CityClashes(cs, j, |Cidrs(cs[j].base)|);
    }
  }

  /** The three scans of the check, one step at a time. */
  lemma AnyClashStep(cs: seq<City>, i: int)
    requires 0 <= i < |cs|
    ensures AnyClash(cs, i + 1) <==> AnyClash(cs, i) || CityClashes(cs, i, |Cidrs(cs[i].base)|)
  {
  }

  lemma CityClashStep(cs: seq<City>, i: int, k: int)
    requires 0 <= i < |cs| && 0 <= k < |Cidrs(cs[i].base)|
    ensures CityClashes(cs, i, k + 1) <==> CityClashes(cs, i, k) || CidrClashes(cs, i, Cidrs(cs[i].base)[k], |cs|)
  {
  }

  lemma CidrClashStep(cs: seq<City>, i: int, c: Cidr, j: int)
    requires 0 <= j < |cs|
    ensures CidrClashes(cs, i, c, j + 1) <==> CidrClashes(cs, i, c, j) || (j != i && Block(c) <= cs[j].base)
  {
  }

  /** No overlap means pairwise disjoint bases. */
  lemma NoOverlapDisjoint(cs: seq<City>)
    requires !BasesOverlap(cs)
    ensures BasesDisjoint(cs)
  {
    forall i, j | 0 <= i < j < |cs| ensures cs[i].base !! cs[j].base {
      forall a | a in cs[i].base ensures a !in cs[j].base {
      }
    }
  }

  // ---------------------------------------------------------------------
  // Per-city driver

  /** The community tag of the ordinary query and of the PI query. */
  const NormalTag: string := "8220:65404"
  const PiTag: string := "8220:65403"

  /** A route query sent to a device: the city's community and a tag. */
  datatype Query = Query(device: string, communities: seq<string>)

  /**
   * What the devices answer: the route records for each query that
   * succeeds. A query missing from the map is one that failed (connection
   * or RPC error), which get_routes reports as no data.
   */
  type Replies = map<Query, seq<Route>>

  /** get_routes on one query, given the replies. */
  function GetRoutes(replies: Replies, q: Query, piMode: bool, pa: IPSet): Option<Classified>
  {
    if q in replies then Classify(replies[q], piMode, pa) else None
  }

  /** A city is queried only when it has a non-empty community and device. */
  predicate Queried(c: City)
  {
    c.community.Some? && c.community.value != [] && c.device.Some? && c.device.value != []
  }

  /** The CIDRs process_routes walks for one get_routes result: the prefixes, then the carved set. */
  datatype Fetched = Fetched(prefixes: seq<Cidr>, carved: seq<Cidr>)

  /** One get_routes call, with its result split into the CIDR lists that are folded. */
  function Fetch(replies: Replies, q: Query, piMode: bool, pa: IPSet): (f: Option<Fetched>)
    ensures f.None? <==> GetRoutes(replies, q, piMode, pa).None?
    ensures f.Some? ==> IPSetOf(f.value.prefixes) == GetRoutes(replies, q, piMode, pa).value.prefixes
    ensures f.Some? ==> IPSetOf(f.value.carved) == GetRoutes(replies, q, piMode, pa).value.carved
  {
    match GetRoutes(replies, q, piMode, pa)
    case None => None
    case Some(c) => Some(Fetched(Cidrs(c.prefixes), Cidrs(c.carved)))
  }

  /** The results of a city's ordinary and PI query; both are absent when it is not queried. */
  datatype Answers = Answers(normal: Option<Fetched>, pi: Option<Fetched>)

  function AnswersFor(c: City, pa: IPSet, replies: Replies): Answers
  {
    if !Queried(c) then Answers(None, None)
    else
      var community, device := c.community.value, c.device.value;
      Answers(Fetch(replies, Query(device, [community, NormalTag]), false, pa),
              Fetch(replies, Query(device, [community, PiTag]), true, pa))
  }

  /**
   * The answers for every city of the table. The driver never changes a
   * city's community or device (DriveEvolves), so the queries each city
   * sends at its turn are the ones computed here from the starting table.
   */
  function AnswerTable(cs: seq<City>, pa: IPSet, replies: Replies): (ans: seq<Answers>)
    ensures |ans| == |cs|
    ensures forall i :: 0 <= i < |cs| && !Queried(cs[i]) ==> ans[i] == Answers(None, None)
  {
    seq(|cs|, i requires 0 <= i < |cs| => AnswersFor(cs[i], pa, replies))
  }

  /** The two process_routes calls for one get_routes result. */
  function ApplyReply(cs: seq<City>, t: nat, f: Option<Fetched>, pi: bool): (out: seq<City>)
    requires t < |cs|
    ensures |out| == |cs|
  {
    match f
    case None => cs
    case Some(x) => FoldAll(FoldAll(cs, x.prefixes, t, pi, false), x.carved, t, pi, true)
  }

  /** One iteration of the driver loop, for city t: the ordinary reply, then the PI reply. */
  function CityStep(cs: seq<City>, t: nat, a: Answers): (out: seq<City>)
    requires t < |cs|
    ensures |out| == |cs|
  {
    ApplyReply(ApplyReply(cs, t, a.normal, false), t, a.pi, true)
  }

  /** The driver loop over the first n cities, city i using the answers ans[i]. */
  function DriveAll(cs: seq<City>, ans: seq<Answers>, n: nat): (out: seq<City>)
    requires n <= |cs| && n <= |ans|
    ensures |out| == |cs|
  {
    if n == 0 then cs else CityStep(DriveAll(cs, ans, n - 1), n - 1, ans[n - 1])
  }

  /** Each working set of a is a subset of b's. */
  predicate Grown(a: City, b: City)
  {
    && a.additions <= b.additions && a.exclude <= b.exclude && a.piSpace <= b.piSpace
    && a.smallPiSpace <= b.smallPiSpace && a.carvedSpace <= b.carvedSpace
  }

  /** r keeps every configured field and base of cs and only grows the working sets. */
  predicate Evolved(cs: seq<City>, r: seq<City>)
  {
    |r| == |cs| && forall i :: 0 <= i < |cs| ==> SameConfig(cs[i], r[i]) && Grown(cs[i], r[i])
  }

  lemma FoldedFromTrans(a: seq<City>, b: seq<City>, c: seq<City>, x: set<int>, y: set<int>)
    requires FoldedFrom(a, b, x) && FoldedFrom(b, c, y)
    ensures FoldedFrom(a, c, x + y)
  {
  }

  lemma EvolvedTrans(a: seq<City>, b: seq<City>, c: seq<City>)
    requires Evolved(a, b) && Evolved(b, c)
    ensures Evolved(a, c)
  {
  }

  /** The addresses of the CIDR lists of a fetched reply. */
  function FetchedSpace(f: Option<Fetched>): set<int>
  {
    if f.Some? then IPSetOf(f.value.prefixes) + IPSetOf(f.value.carved) else {}
  }

  /** The two folds of one reply grow the working sets only by the reply's addresses. */
  lemma ApplyReplyGrows(cs: seq<City>, t: nat, f: Option<Fetched>, pi: bool)
    requires t < |cs|
    ensures FoldedFrom(cs, ApplyReply(cs, t, f, pi), FetchedSpace(f))
  {
    if f.Some? {
      var x := f.value;
      var cs1 := FoldAll(cs, x.prefixes, t, pi, false);
      FoldAllGrows(cs, x.prefixes, t, pi, false);
      FoldAllGrows(cs1, x.carved, t, pi, true);
      FoldedFromTrans(cs, cs1, ApplyReply(cs, t, f, pi), IPSetOf(x.prefixes), IPSetOf(x.carved));
    }
  }

  lemma ApplyReplyExcludes(cs: seq<City>, t: nat, f: Option<Fetched>, pi: bool)
    requires t < |cs| && ExcludesOwnBase(cs)
    ensures ExcludesOwnBase(ApplyReply(cs, t, f, pi))
  {
    if f.Some? {
      var x := f.value;
      FoldAllExcludesOwnBase(cs, x.prefixes, t, pi, false);
      FoldAllExcludesOwnBase(FoldAll(cs, x.prefixes, t, pi, false), x.carved, t, pi, true);
    }
  }

  /** One driver iteration keeps configuration and bases and grows the working sets only by the replies. */
  lemma CityStepEvolves(cs: seq<City>, t: nat, a: Answers)
    requires t < |cs|
    ensures FoldedFrom(cs, CityStep(cs, t, a), FetchedSpace(a.normal) + FetchedSpace(a.pi))
  {
    var cs1 := ApplyReply(cs, t, a.normal, false);
    ApplyReplyGrows(cs, t, a.normal, false);
    ApplyReplyGrows(cs1, t, a.pi, true);
    FoldedFromTrans(cs, cs1, CityStep(cs, t, a), FetchedSpace(a.normal), FetchedSpace(a.pi));
  }

  lemma CityStepExcludes(cs: seq<City>, t: nat, a: Answers)
    requires t < |cs| && ExcludesOwnBase(cs)
    ensures ExcludesOwnBase(CityStep(cs, t, a))
  {
    ApplyReplyExcludes(cs, t, a.normal, false);
    ApplyReplyExcludes(ApplyReply(cs, t, a.normal, false), t, a.pi, true);
  }

  /** What grows is grown. */
  lemma FoldedEvolved(cs: seq<City>, r: seq<City>, extra: set<int>)
    requires FoldedFrom(cs, r, extra)
    ensures Evolved(cs, r)
  {
  }

  /**
   * The driver never touches a city's configuration or base; it only adds
   * to the working sets.
   */
  lemma {:induction false} DriveEvolves(cs: seq<City>, ans: seq<Answers>, n: nat)
    requires n <= |cs| && n <= |ans|
    ensures Evolved(cs, DriveAll(cs, ans, n))
  {
    if n > 0 {
      DriveEvolves(cs, ans, n - 1);
      DriveStepEvolves(cs, ans, n);
      EvolvedTrans(cs, DriveAll(cs, ans, n - 1), DriveAll(cs, ans, n));
    }
  }

  /** The driver's n-th iteration, from the table the earlier ones left. */
  lemma DriveStepEvolves(cs: seq<City>, ans: seq<Answers>, n: nat)
    requires 0 < n <= |cs| && n <= |ans|
    ensures Evolved(DriveAll(cs, ans, n - 1), DriveAll(cs, ans, n))
  {
    var prev := DriveAll(cs, ans, n - 1);
    CityStepEvolves(prev, n - 1, ans[n - 1]);
    FoldedEvolved(prev, CityStep(prev, n - 1, ans[n - 1]), FetchedSpace(ans[n - 1].normal) + FetchedSpace(ans[n - 1].pi));
  }

  /** Every exclusion the driver records lies in the excluding city's own base. */
  lemma {:induction false} DriveExcludes(cs: seq<City>, ans: seq<Answers>, n: nat)
    requires n <= |cs| && n <= |ans| && ExcludesOwnBase(cs)
    ensures ExcludesOwnBase(DriveAll(cs, ans, n))
  {
    if n > 0 {
      DriveExcludes(cs, ans, n - 1);
      CityStepExcludes(DriveAll(cs, ans, n - 1), n - 1, ans[n - 1]);
    }
  }

  /** The driver step for a city without community or device changes nothing. */
  lemma UnqueriedCity(cs: seq<City>, pa: IPSet, replies: Replies, t: nat)
    requires t < |cs| && !Queried(cs[t])
    ensures CityStep(cs, t, AnswerTable(cs, pa, replies)[t]) == cs
  {
  }

  /** When no city has both a community and a device, the driver changes nothing. */
  lemma {:induction false} NothingQueried(cs: seq<City>, pa: IPSet, replies: Replies, n: nat)
    requires n <= |cs| && forall i :: 0 <= i < |cs| ==> !Queried(cs[i])
    ensures DriveAll(cs, AnswerTable(cs, pa, replies), n) == cs
  {
    if n > 0 {
      NothingQueried(cs, pa, replies, n - 1);
      UnqueriedCity(cs, pa, replies, n - 1);
    }
  }

  // ---------------------------------------------------------------------
  // Small-PI dedup

  /** The union of all cities' small PI space. */
  function SmallPiUnion(cs: seq<City>): (u: IPSet)
    ensures forall i :: 0 <= i < |cs| ==> cs[i].smallPiSpace <= u
    ensures forall a :: a in u ==> exists i :: 0 <= i < |cs| && a in cs[i].smallPiSpace
  {
    if cs == [] then {}
    else
      var u := SmallPiUnion(cs[..|cs| - 1]) + cs[|cs| - 1].smallPiSpace;
      assert forall i :: 0 <= i < |cs| - 1 ==> cs[..|cs| - 1][i] == cs[i];
      u
  }

  /** The first of the blocks that contains (or equals) the block of sc. */
  function FirstContaining(blocks: seq<Cidr>, sc: Cidr): (r: Option<nat>)
    ensures r.Some? ==> r.value < |blocks| && Block(sc) <= Block(blocks[r.value])
    ensures r.Some? ==> forall k :: 0 <= k < r.value ==> !(Block(sc) <= Block(blocks[k]))
    ensures r.None? ==> forall k :: 0 <= k < |blocks| ==> !(Block(sc) <= Block(blocks[k]))
  {
    if blocks == [] then None
    else if Block(sc) <= Block(blocks[0]) then Some(0)
    else match FirstContaining(blocks[1..], sc)
      case None => None
      case Some(k) => Some(k + 1)
  }

  /** One pass of the inner dedup loop: drop the PI CIDR that contains sc, if any. */
  function DedupOne(pi: IPSet, sc: Cidr): IPSet
  {
    var blocks := Cidrs(pi);
    match FirstContaining(blocks, sc)
    case None => pi
    case Some(k) => pi - Block(blocks[k])
  }

  /** The dedup of one city's PI space against the small PI CIDRs, in order. */
  function DedupSet(pi: IPSet, smalls: seq<Cidr>): IPSet
  {
    if smalls == [] then pi else DedupOne(DedupSet(pi, smalls[..|smalls| - 1]), smalls[|smalls| - 1])
  }

  /** Deduplicating against one more small PI CIDR. */
  lemma DedupSetStep(pi: IPSet, smalls: seq<Cidr>, n: nat)
    requires n < |smalls|
    ensures DedupSet(pi, smalls[..n + 1]) == DedupOne(DedupSet(pi, smalls[..n]), smalls[n])
  {
    assert smalls[..n + 1][..n] == smalls[..n];
  }

  /** The dedup phase applied to the whole table. */
  function DedupCities(cs: seq<City>, smalls: seq<Cidr>): (r: seq<City>)
    ensures |r| == |cs|
  {
    seq(|cs|, i requires 0 <= i < |cs| => cs[i].(piSpace := DedupSet(cs[i].piSpace, smalls)))
  }

  /**
   * The driver followed by a dedup keeps configuration and bases, keeps
   * every exclude inside its own base, and so keeps disjoint bases disjoint.
   */
  lemma DriveDedupKeeps(cs: seq<City>, ans: seq<Answers>, smalls: seq<Cidr>)
    requires |cs| <= |ans| && ExcludesOwnBase(cs)
    ensures var q := DedupCities(DriveAll(cs, ans, |cs|), smalls);
      && (forall i :: 0 <= i < |cs| ==> SameConfig(cs[i], q[i]))
      && ExcludesOwnBase(q)
      && (BasesDisjoint(cs) ==> BasesDisjoint(q))
  {
    var driven := DriveAll(cs, ans, |cs|);
    DriveEvolves(cs, ans, |cs|);
    DriveExcludes(cs, ans, |cs|);
    DedupCitiesKeeps(driven, smalls);
  }

  /** The dedup changes nothing but PI space. */
  lemma DedupCitiesKeeps(cs: seq<City>, smalls: seq<Cidr>)
    ensures forall i :: 0 <= i < |cs| ==> SameConfig(cs[i], DedupCities(cs, smalls)[i])
    ensures forall i :: 0 <= i < |cs| ==> DedupCities(cs, smalls)[i].exclude == cs[i].exclude
  {
  }

  /** The dedup changes only PI space, so the small PI union is the same afterwards. */
  lemma DedupCitiesKeepsSmall(cs: seq<City>, smalls: seq<Cidr>)
    ensures SmallPiUnion(DedupCities(cs, smalls)) == SmallPiUnion(cs)
  {
    var r := DedupCities(cs, smalls);
    assert forall i :: 0 <= i < |r| ==> r[i].smallPiSpace == cs[i].smallPiSpace;
  }

  /** After the dedup no small PI CIDR lies wholly in any city's PI space. */
  lemma DedupCitiesClears(cs: seq<City>, smalls: seq<Cidr>)
    requires forall j :: 0 <= j < |smalls| ==> IsNetwork(smalls[j])
    ensures forall i, j :: 0 <= i < |cs| && 0 <= j < |smalls| ==> !(Block(smalls[j]) <= DedupCities(cs, smalls)[i].piSpace)
  {
    forall i | 0 <= i < |cs|
      ensures forall j :: 0 <= j < |smalls| ==> !(Block(smalls[j]) <= DedupCities(cs, smalls)[i].piSpace)
    {
      DedupClears(cs[i].piSpace, smalls);
    }
  }

  /** Block d is one of the PI CIDRs that contain a small PI CIDR. */
  predicate ContainsSmall(d: Cidr, smalls: seq<Cidr>)
  {
    exists j :: 0 <= j < |smalls| && Block(smalls[j]) <= Block(d)
  }

  /** Address a was removed with a whole block of pi that contains a small PI CIDR. */
  ghost predicate RemovedWithBlock(pi: IPSet, smalls: seq<Cidr>, a: int)
  {
    exists d :: IsNetwork(d) && a in Block(d) && Block(d) <= pi && ContainsSmall(d, smalls)
  }

  /**
   * Dedup only shrinks the PI space, and an address leaves it only with a
   * whole PI CIDR that contains (or equals) some small PI CIDR.
   */
  lemma {:induction false} DedupShrinks(pi: IPSet, smalls: seq<Cidr>)
    ensures DedupSet(pi, smalls) <= pi
    ensures forall a :: a in pi && a !in DedupSet(pi, smalls) ==> RemovedWithBlock(pi, smalls, a)
  {
    if smalls != [] {
      var init, sc := smalls[..|smalls| - 1], smalls[|smalls| - 1];
      DedupShrinks(pi, init);
      var mid := DedupSet(pi, init);
      forall a | a in pi && a !in DedupSet(pi, smalls) ensures RemovedWithBlock(pi, smalls, a) {
        if a in mid {
          var blocks := Cidrs(mid);
          CidrsOrdered(mid);
          var k := FirstContaining(blocks, sc).value;
          var d := blocks[k];
          assert Block(sc) <= Block(d);
          assert ContainsSmall(d, smalls) by {
            assert smalls[|smalls| - 1] == sc;
          }
          assert a in Block(d) && Block(d) <= pi;
        } else {
          var d :| IsNetwork(d) && a in Block(d) && Block(d) <= pi && ContainsSmall(d, init);
          var j :| 0 <= j < |init| && Block(init[j]) <= Block(d);
          assert smalls[j] == init[j];
        }
      }
    }
  }

  /**
   * After dedup no small PI CIDR lies wholly inside the PI space: the PI
   * CIDR that held it was removed, and later passes only remove more.
   */
  lemma {:induction false} DedupClears(pi: IPSet, smalls: seq<Cidr>)
    requires forall j :: 0 <= j < |smalls| ==> IsNetwork(smalls[j])
    ensures forall j :: 0 <= j < |smalls| ==> !(Block(smalls[j]) <= DedupSet(pi, smalls))
  {
    if smalls != [] {
      var init, sc := smalls[..|smalls| - 1], smalls[|smalls| - 1];
      DedupClears(pi, init);
      var mid := DedupSet(pi, init);
      DedupOneClears(mid, sc);
      assert DedupSet(pi, smalls) <= mid by {
        DedupShrinks(mid, [sc]);
        assert DedupSet(mid, [sc]) == DedupOne(mid, sc) by {
          assert [sc][..0] == [];
        }
      }
      forall j | 0 <= j < |smalls| ensures !(Block(smalls[j]) <= DedupSet(pi, smalls)) {
        if j < |init| {
          assert smalls[j] == init[j];
        }
      }
    }
  }

  /** One pass removes the PI CIDR holding sc, so sc is no longer inside. */
  lemma DedupOneClears(pi: IPSet, sc: Cidr)
    requires IsNetwork(sc)
    ensures !(Block(sc) <= DedupOne(pi, sc))
    ensures DedupOne(pi, sc) <= pi
  {
    BlockFacts(sc);
    var blocks := Cidrs(pi);
    if Block(sc) <= pi {
      var k := CidrsMaximal(pi, sc);
      var first := FirstContaining(blocks, sc);
      assert first.Some?;
      assert sc.net !in DedupOne(pi, sc);
    }
  }

  /** Without small PI space the dedup changes nothing. */
  lemma NoSmallPi(cs: seq<City>)
    requires forall i :: 0 <= i < |cs| ==> cs[i].smallPiSpace == {}
    ensures DedupCities(cs, Cidrs(SmallPiUnion(cs))) == cs
  {
    assert SmallPiUnion(cs) == {};
    CidrsEmpty();
    assert DedupCities(cs, []) == cs;
  }

  // ---------------------------------------------------------------------
  // Consolidation

  /** Consolidation of every city, in table order. */
  function ConsolidateAll(cs: seq<City>): (r: seq<Allocation>)
    ensures |r| == |cs|
    ensures forall i :: 0 <= i < |cs| ==> r[i] == Consolidated(cs[i])
  {
    seq(|cs|, i requires 0 <= i < |cs| => Consolidated(cs[i]))
  }

  // ---------------------------------------------------------------------
  // Override propagation

  /** set.remove(cidr) guarded by `cidr in set`: only a wholly contained block is removed. */
  function Strip(s: IPSet, b: IPSet): (r: IPSet)
    ensures r <= s
    ensures b <= s ==> r == s - b
    ensures !(b <= s) ==> r == s
  {
    if b <= s then s - b else s
  }

  /** Remove override block b of city i from every other city's base and PI space. */
  function StripOthers(al: seq<Allocation>, i: int, b: IPSet): (r: seq<Allocation>)
    ensures |r| == |al|
  {
    seq(|al|, j requires 0 <= j < |al| =>
      if j == i then al[j]
      else al[j].(base := Strip(al[j].base, b), piSpace := Strip(al[j].piSpace, b)))
  }

  /** The inner loops for city i over the given override CIDRs, in order. */
  function StripCidrs(al: seq<Allocation>, i: int, cidrs: seq<Cidr>): (r: seq<Allocation>)
    ensures |r| == |al|
  {
    if cidrs == [] then al
    else StripOthers(StripCidrs(al, i, cidrs[..|cidrs| - 1]), i, Block(cidrs[|cidrs| - 1]))
  }

  /**
   * The override CIDR lists of the table, one per city in table order.
   * Propagation never changes an override, so the lists taken before the
   * loop are the ones the loop walks.
   */
  function OverrideLists(al: seq<Allocation>): (ov: seq<seq<Cidr>>)
    ensures |ov| == |al|
  {
    seq(|al|, i requires 0 <= i < |al| => Cidrs(al[i].override))
  }

  /** Each override list is made of networks that together cover the override. */
  lemma OverrideListsFacts(al: seq<Allocation>)
    ensures forall i :: 0 <= i < |al| ==> IPSetOf(OverrideLists(al)[i]) == al[i].override
    ensures forall i, k :: 0 <= i < |al| && 0 <= k < |OverrideLists(al)[i]| ==> IsNetwork(OverrideLists(al)[i][k])
  {
  }

  /** Override propagation over the first n cities, city i walking the CIDR list ov[i]. */
  function PropagateAll(al: seq<Allocation>, ov: seq<seq<Cidr>>, n: nat): (r: seq<Allocation>)
    requires n <= |al| && n <= |ov|
    ensures |r| == |al|
  {
    if n == 0 then al
    else StripCidrs(PropagateAll(al, ov, n - 1), n - 1, ov[n - 1])
  }

  /** Without override CIDRs the propagation changes nothing. */
  lemma {:induction false} NoOverrides(al: seq<Allocation>, ov: seq<seq<Cidr>>, n: nat)
    requires n <= |al| && n <= |ov| && forall i :: 0 <= i < |ov| ==> ov[i] == []
    ensures PropagateAll(al, ov, n) == al
  {
    if n > 0 {
      NoOverrides(al, ov, n - 1);
    }
  }

  /** r differs from al only by removals from bases and PI spaces. */
  predicate OnlyRemoves(al: seq<Allocation>, r: seq<Allocation>)
  {
    && |r| == |al|
    && forall j :: 0 <= j < |al| ==>
      && r[j].name == al[j].name && r[j].country == al[j].country
      && r[j].region == al[j].region && r[j].override == al[j].override
      && r[j].base <= al[j].base && r[j].piSpace <= al[j].piSpace
  }

  /** The union of the overrides of every city but j. */
  function OverridesExcept(al: seq<Allocation>, j: int): (u: IPSet)
    ensures forall a :: a in u <==> exists i :: 0 <= i < |al| && i != j && a in al[i].override
  {
    if al == [] then {}
    else
      var init := al[..|al| - 1];
      assert forall i :: 0 <= i < |init| ==> init[i] == al[i];
      OverridesExcept(init, j) + (if |al| - 1 != j then al[|al| - 1].override else {})
  }

  /** Every address removed from a city lies in the override of another city. */
  predicate RemovedByOverrides(al: seq<Allocation>, r: seq<Allocation>)
    requires |r| == |al|
  {
    forall j :: 0 <= j < |al| ==>
      (al[j].base - r[j].base) + (al[j].piSpace - r[j].piSpace) <= OverridesExcept(al, j)
  }

  /** No override CIDR of city i lies wholly in another city's base or PI space. */
  predicate OverridesCleared(r: seq<Allocation>, i: int, cidrs: seq<Cidr>)
  {
    forall k, j :: 0 <= k < |cidrs| && 0 <= j < |r| && j != i ==> NotInside(Block(cidrs[k]), r[j])
  }

  /** Block b lies wholly neither in the base nor in the PI space of a. */
  predicate NotInside(b: IPSet, a: Allocation)
  {
    !(b <= a.base) && !(b <= a.piSpace)
  }

  /** Every address removed from a city on the way from al to r lies in s. */
  predicate RemovedWithin(al: seq<Allocation>, r: seq<Allocation>, s: set<int>)
  {
    |r| == |al| && forall j :: 0 <= j < |al| ==> (al[j].base - r[j].base) + (al[j].piSpace - r[j].piSpace) <= s
  }

  lemma StripOthersFacts(al: seq<Allocation>, i: int, b: IPSet)
    requires 0 <= i < |al|
    ensures OnlyRemoves(al, StripOthers(al, i, b))
    ensures StripOthers(al, i, b)[i] == al[i]
    ensures RemovedWithin(al, StripOthers(al, i, b), b)
  {
  }

  lemma OnlyRemovesTrans(a: seq<Allocation>, b: seq<Allocation>, c: seq<Allocation>)
    requires OnlyRemoves(a, b) && OnlyRemoves(b, c)
    ensures OnlyRemoves(a, c)
  {
  }

  lemma RemovedWithinTrans(a: seq<Allocation>, b: seq<Allocation>, c: seq<Allocation>, x: set<int>, y: set<int>)
    requires RemovedWithin(a, b, x) && RemovedWithin(b, c, y)
    ensures RemovedWithin(a, c, x + y)
  {
  }

  /** The inner loops for city i leave city i alone and only remove addresses. */
  lemma {:induction false} StripCidrsRemoves(al: seq<Allocation>, i: int, cidrs: seq<Cidr>)
    requires 0 <= i < |al|
    ensures OnlyRemoves(al, StripCidrs(al, i, cidrs))
    ensures StripCidrs(al, i, cidrs)[i] == al[i]
  {
    if cidrs != [] {
      var init, c := cidrs[..|cidrs| - 1], cidrs[|cidrs| - 1];
      StripCidrsRemoves(al, i, init);
      var mid := StripCidrs(al, i, init);
      StripOthersFacts(mid, i, Block(c));
      OnlyRemovesTrans(al, mid, StripCidrs(al, i, cidrs));
    }
  }

  /** The inner loops for city i remove only addresses of the CIDRs they scan. */
  lemma {:induction false} StripCidrsWithin(al: seq<Allocation>, i: int, cidrs: seq<Cidr>)
    requires 0 <= i < |al|
    ensures RemovedWithin(al, StripCidrs(al, i, cidrs), IPSetOf(cidrs))
  {
    if cidrs != [] {
      var init, c := cidrs[..|cidrs| - 1], cidrs[|cidrs| - 1];
      StripCidrsWithin(al, i, init);
      var mid := StripCidrs(al, i, init);
      StripOthersFacts(mid, i, Block(c));
      RemovedWithinTrans(al, mid, StripCidrs(al, i, cidrs), IPSetOf(init), Block(c));
      IPSetOfAppend(init, [c]);
      assert init + [c] == cidrs;
      assert IPSetOf([c]) == Block(c) + IPSetOf([]);
    }
  }

  /** Removing block c from the other cities leaves it wholly inside none of them. */
  lemma StripOthersClears(al: seq<Allocation>, i: int, c: Cidr)
    requires 0 <= i < |al| && IsNetwork(c)
    ensures forall j :: 0 <= j < |al| && j != i ==> NotInside(Block(c), StripOthers(al, i, Block(c))[j])
  {
    BlockFacts(c);
    var r := StripOthers(al, i, Block(c));
    forall j | 0 <= j < |al| && j != i ensures NotInside(Block(c), r[j]) {
      if Block(c) <= al[j].base {
        assert c.net !in r[j].base;
      }
      if Block(c) <= al[j].piSpace {
        assert c.net !in r[j].piSpace;
      }
    }
  }

  /** After the inner loops for city i, none of the given CIDRs lies wholly in another city. */
  lemma {:induction false} StripCidrsClears(al: seq<Allocation>, i: int, cidrs: seq<Cidr>)
    requires 0 <= i < |al|
    requires forall k :: 0 <= k < |cidrs| ==> IsNetwork(cidrs[k])
    ensures OverridesCleared(StripCidrs(al, i, cidrs), i, cidrs)
  {
    if cidrs != [] {
      var init, c := cidrs[..|cidrs| - 1], cidrs[|cidrs| - 1];
      StripCidrsClears(al, i, init);
      var mid := StripCidrs(al, i, init);
      var r := StripOthers(mid, i, Block(c));
      assert r == StripCidrs(al, i, cidrs);
      StripOthersFacts(mid, i, Block(c));
      ClearedStays(mid, r, i, init);
      StripOthersClears(mid, i, c);
      forall k, j | 0 <= k < |cidrs| && 0 <= j < |r| && j != i
        ensures NotInside(Block(cidrs[k]), r[j])
      {
        if k < |init| {
          assert cidrs[k] == init[k];
        }
      }
    }
  }

  /** Override propagation only removes addresses from bases and PI spaces. */
  lemma {:induction false} PropagateOnlyRemoves(al: seq<Allocation>, ov: seq<seq<Cidr>>, n: nat)
    requires n <= |al| && n <= |ov|
    ensures OnlyRemoves(al, PropagateAll(al, ov, n))
  {
    if n > 0 {
      PropagateOnlyRemoves(al, ov, n - 1);
      var prev := PropagateAll(al, ov, n - 1);
      StripCidrsRemoves(prev, n - 1, ov[n - 1]);
      OnlyRemovesTrans(al, prev, PropagateAll(al, ov, n));
    }
  }

  /** The turn of city n: its override CIDRs are stripped from the table left by the earlier turns. */
  lemma PropagateNext(al: seq<Allocation>, ov: seq<seq<Cidr>>, n: nat)
    requires n < |al| && n < |ov|
    ensures PropagateAll(al, ov, n + 1) == StripCidrs(PropagateAll(al, ov, n), n, ov[n])
  {
  }

  /** City i's override is still the configured one when its turn comes. */
  lemma PropagateKeepsOverride(al: seq<Allocation>, ov: seq<seq<Cidr>>, n: nat, i: int)
    requires n <= |al| && n <= |ov| && 0 <= i < |al|
    ensures PropagateAll(al, ov, n)[i].override == al[i].override
  {
    PropagateOnlyRemoves(al, ov, n);
  }

  /** Every address propagation removes from a city is in another city's override. */
  lemma {:induction false} PropagateRemovesOverrides(al: seq<Allocation>, ov: seq<seq<Cidr>>, n: nat)
    requires n <= |al| && |ov| == |al|
    requires forall i :: 0 <= i < |al| ==> IPSetOf(ov[i]) == al[i].override
    ensures RemovedByOverrides(al, PropagateAll(al, ov, n))
  {
    if n > 0 {
      var prev := PropagateAll(al, ov, n - 1);
      var t := n - 1;
      var r := PropagateAll(al, ov, n);
      PropagateRemovesOverrides(al, ov, n - 1);
      StripCidrsRemoves(prev, t, ov[t]);
      StripCidrsWithin(prev, t, ov[t]);
      forall j | 0 <= j < |al|
        ensures (al[j].base - r[j].base) + (al[j].piSpace - r[j].piSpace) <= OverridesExcept(al, j)
      {
        if j != t {
          RemovalChain(al[j], prev[j], r[j], OverridesExcept(al, j), al[t].override);
          assert al[t].override <= OverridesExcept(al, j);
        }
      }
    }
  }

  /** Addresses removed in two steps are removed in one of them. */
  lemma RemovalChain(a: Allocation, b: Allocation, c: Allocation, x: set<int>, y: set<int>)
    requires (a.base - b.base) + (a.piSpace - b.piSpace) <= x
    requires (b.base - c.base) + (b.piSpace - c.piSpace) <= y
    ensures (a.base - c.base) + (a.piSpace - c.piSpace) <= x + y
  {
  }

  /**
   * After override propagation no override CIDR of any city lies wholly
   * inside another city's base or PI space.
   */
  lemma {:induction false} PropagateClears(al: seq<Allocation>, ov: seq<seq<Cidr>>, n: nat)
    requires n <= |al| && n <= |ov|
    requires forall i, k :: 0 <= i < |ov| && 0 <= k < |ov[i]| ==> IsNetwork(ov[i][k])
    ensures forall i :: 0 <= i < n ==> OverridesCleared(PropagateAll(al, ov, n), i, ov[i])
  {
    if n > 0 {
      var prev := PropagateAll(al, ov, n - 1);
      var t := n - 1;
      var r := PropagateAll(al, ov, n);
      PropagateClears(al, ov, n - 1);
      StripCidrsRemoves(prev, t, ov[t]);
      StripCidrsClears(prev, t, ov[t]);
      forall i | 0 <= i < t
        ensures OverridesCleared(r, i, ov[i])
      {
        ClearedStays(prev, r, i, ov[i]);
      }
    }
  }

  /** Removing more addresses keeps an override CIDR from lying inside. */
  lemma ClearedStays(prev: seq<Allocation>, r: seq<Allocation>, i: int, cidrs: seq<Cidr>)
    requires OnlyRemoves(prev, r) && OverridesCleared(prev, i, cidrs)
    ensures OverridesCleared(r, i, cidrs)
  {
    forall k, j | 0 <= k < |cidrs| && 0 <= j < |r| && j != i
      ensures NotInside(Block(cidrs[k]), r[j])
    {
      assert NotInside(Block(cidrs[k]), prev[j]);
      assert r[j].base <= prev[j].base && r[j].piSpace <= prev[j].piSpace;
    }
  }

  // ---------------------------------------------------------------------
  // Per-country union

  /** A country's address space: the cities' cidrs and PI cidrs joined. */
  datatype Totals = Totals(cidrs: IPSet, piCidrs: IPSet)

  /** The countries dictionary built in table order. */
  function CountryTotals(al: seq<Allocation>): map<string, Totals>
  {
    if al == [] then map[]
    else
      var a := al[|al| - 1];
      AddCity(CountryTotals(al[..|al| - 1]), a.country, a.base, a.piSpace)
  }

  /** One loop step: a city's space joins its country's entry, which is created when missing. */
  function AddCity(m: map<string, Totals>, country: string, base: IPSet, piSpace: IPSet): (r: map<string, Totals>)
    ensures r.Keys == m.Keys + {country}
    ensures country in m ==> r[country] == Totals(m[country].cidrs + base, m[country].piCidrs + piSpace)
    ensures country !in m ==> r[country] == Totals(base, piSpace)
    ensures forall c :: c in m && c != country ==> r[c] == m[c]
  {
    if country in m then m[country := Totals(m[country].cidrs + base, m[country].piCidrs + piSpace)]
    else m[country := Totals(base, piSpace)]
  }

  /** The dictionary after the first i + 1 cities. */
  lemma CountryTotalsStep(al: seq<Allocation>, i: int)
    requires 0 <= i < |al|
    ensures CountryTotals(al[..i + 1]) == AddCity(CountryTotals(al[..i]), al[i].country, al[i].base, al[i].piSpace)
  {
    assert al[..i + 1][..i] == al[..i];
  }

  /** The union of the bases and of the PI spaces of the cities of one country. */
  function CountryUnion(al: seq<Allocation>, country: string): Totals
  {
    if al == [] then Totals({}, {})
    else
      var rest := CountryUnion(al[1..], country);
      if al[0].country == country then Totals(al[0].base + rest.cidrs, al[0].piSpace + rest.piCidrs)
      else rest
  }

  /**
   * The dictionary holds exactly the countries of the cities, and each
   * country's totals are the union over its cities.
   */
  lemma CountryTotalsUnion(al: seq<Allocation>)
    ensures forall country :: country in CountryTotals(al) <==> exists i :: 0 <= i < |al| && al[i].country == country
    ensures forall country :: country in CountryTotals(al) ==> CountryTotals(al)[country] == CountryUnion(al, country)
  {
    CountryTotalsKeys(al);
    forall country | country in CountryTotals(al)
      ensures CountryTotals(al)[country] == CountryUnion(al, country)
    {
      CountryTotalsAt(al, country);
    }
  }

  /** The countries with an entry are exactly those of the cities. */
  lemma {:induction false} CountryTotalsKeys(al: seq<Allocation>)
    ensures forall country :: country in CountryTotals(al) <==> exists i :: 0 <= i < |al| && al[i].country == country
  {
    if al != [] {
      var init := al[..|al| - 1];
      CountryTotalsKeys(init);
      assert forall i :: 0 <= i < |init| ==> init[i] == al[i];
    }
  }

  /** One country's entry is the union over its cities. */
  lemma {:induction false} CountryTotalsAt(al: seq<Allocation>, country: string)
    requires country in CountryTotals(al)
    ensures CountryTotals(al)[country] == CountryUnion(al, country)
  {
    var init, a := al[..|al| - 1], al[|al| - 1];
    assert init + [a] == al;
    CountryUnionSnoc(init, a, country);
    if country in CountryTotals(init) {
      CountryTotalsAt(init, country);
    } else {
      CountryTotalsKeys(init);
      CountryUnionAbsent(init, country);
    }
  }

  /** Adding city a's space to a country's totals when a belongs to it. */
  function JoinLast(t: Totals, a: Allocation, country: string): Totals
  {
    if a.country == country then Totals(t.cidrs + a.base, t.piCidrs + a.piSpace) else t
  }

  lemma {:induction false} CountryUnionSnoc(al: seq<Allocation>, a: Allocation, country: string)
    ensures CountryUnion(al + [a], country) == JoinLast(CountryUnion(al, country), a, country)
  {
    if al == [] {
      assert al + [a] == [a];
      assert [a][1..] == [];
    } else {
      assert (al + [a])[1..] == al[1..] + [a];
      CountryUnionSnoc(al[1..], a, country);
    }
  }

  lemma {:induction false} CountryUnionAbsent(al: seq<Allocation>, country: string)
    requires forall i :: 0 <= i < |al| ==> al[i].country != country
    ensures CountryUnion(al, country) == Totals({}, {})
  {
    if al != [] {
      CountryUnionAbsent(al[1..], country);
    }
  }
}
