/**
 * The city table and the fold rule of process_routes: how one CIDR learned
 * from a device changes the records of the target city and of the city whose
 * base it was taken from.
 *
 * The table is a sequence in configuration order; "city" and "snCity" are
 * positions in it, so the scan for the first supernet owner keeps its order.
 */
module Cities {
  import opened Wrappers
  import opened IPSets

  /** A city's entry while the device routes are folded in. */
  datatype City = City(
    name: string,
    country: string,
    region: string,
    base: IPSet,            // the configured cidrs
    override: IPSet,        // configured space that wins over every other city
    community: Option<string>,
    device: Option<string>,
    additions: IPSet,       // taken over from another city's base
    exclude: IPSet,         // to be removed from this city's base
    piSpace: IPSet,         // PI routes outside every base
    smallPiSpace: IPSet,    // other routes outside every base
    carvedSpace: IPSet)     // space announced by an external AS

  /** One entry of the configuration's city dictionary. */
  datatype CityConfig = CityConfig(
    name: string,
    country: string,
    region: Option<string>,
    cidrs: seq<Cidr>,
    override: Option<seq<Cidr>>,
    community: Option<string>,
    device: Option<string>)

  /** Every CIDR of the entry parses. */
  predicate WellFormed(cfg: CityConfig)
  {
    && (forall k :: 0 <= k < |cfg.cidrs| ==> IsCidr(cfg.cidrs[k]))
    && (cfg.override.Some? ==> forall k :: 0 <= k < |cfg.override.value| ==> IsCidr(cfg.override.value[k]))
  }

  /** The table entry built from a configuration entry, before any route is seen. */
  function NewCity(cfg: CityConfig): (c: City)
    requires WellFormed(cfg)
    ensures c.base == Parse(cfg.cidrs)
    ensures c.override == (if cfg.override.Some? then Parse(cfg.override.value) else {})
    ensures c.region == (if cfg.region.Some? then cfg.region.value else "")
    ensures c.additions == c.exclude == c.piSpace == c.smallPiSpace == c.carvedSpace == {}
    ensures c.name == cfg.name && c.country == cfg.country
    ensures c.community == cfg.community && c.device == cfg.device
  {
    City(cfg.name, cfg.country,
         if cfg.region.Some? then cfg.region.value else "",
         Parse(cfg.cidrs),
         if cfg.override.Some? then Parse(cfg.override.value) else {},
         cfg.community, cfg.device,
         {}, {}, {}, {}, {})
  }

  /** The city table as the configuration loop builds it, in configuration order. */
  function InitialCities(config: seq<CityConfig>): (cs: seq<City>)
    requires forall i :: 0 <= i < |config| ==> WellFormed(config[i])
    ensures |cs| == |config|
    ensures forall i :: 0 <= i < |config| ==> cs[i] == NewCity(config[i])
  {
    seq(|config|, i requires 0 <= i < |config| => NewCity(config[i]))
  }

  /** The fields process_routes never writes. */
  predicate SameConfig(a: City, b: City)
  {
    && a.name == b.name && a.country == b.country && a.region == b.region
    && a.base == b.base && a.override == b.override
    && a.community == b.community && a.device == b.device
  }

  /** Each working set of b is that of a plus at most the addresses in extra. */
  predicate GrowsWithin(a: City, b: City, extra: set<int>)
  {
    && a.additions <= b.additions <= a.additions + extra
    && a.exclude <= b.exclude <= a.exclude + extra
    && a.piSpace <= b.piSpace <= a.piSpace + extra
    && a.smallPiSpace <= b.smallPiSpace <= a.smallPiSpace + extra
    && a.carvedSpace <= b.carvedSpace <= a.carvedSpace + extra
  }

  /** A table that only differs from cs in working sets grown by addresses in extra. */
  predicate FoldedFrom(cs: seq<City>, r: seq<City>, extra: set<int>)
  {
    |r| == |cs| && forall i :: 0 <= i < |cs| ==> SameConfig(cs[i], r[i]) && GrowsWithin(cs[i], r[i], extra)
  }

  /** o is the first city in table order whose base holds all of b. */
  predicate IsFirstOwner(cs: seq<City>, b: set<int>, o: int)
  {
    0 <= o < |cs| && b <= cs[o].base && forall k :: 0 <= k < o ==> !(b <= cs[k].base)
  }

  /** The scan `for snCity in cities: if cidr in base: ... break`. */
  function FirstOwner(cs: seq<City>, b: set<int>): (r: Option<nat>)
    ensures r.Some? ==> IsFirstOwner(cs, b, r.value)
    ensures r.None? ==> forall k :: 0 <= k < |cs| ==> !(b <= cs[k].base)
  {
    if cs == [] then None
    else if b <= cs[0].base then Some(0)
    else match FirstOwner(cs[1..], b)
      case None => None
      case Some(o) => Some(o + 1)
  }

  /**
   * process_routes for one CIDR block b of the prefix set, with city t as
   * the target and the piSpace and carvedSpace flags.
   */
  function FoldCidr(cs: seq<City>, b: IPSet, t: nat, pi: bool, carved: bool): (r: seq<City>)
    requires t < |cs|
    ensures |r| == |cs|
  {
    if b <= cs[t].base then
      if carved then cs[t := cs[t].(exclude := cs[t].exclude + b, carvedSpace := cs[t].carvedSpace + b)]
      else cs
    else
      match FirstOwner(cs, b)
      case Some(o) =>
        var moved := cs[o := cs[o].(exclude := cs[o].exclude + b)];
        if carved then moved[t := moved[t].(carvedSpace := moved[t].carvedSpace + b)]
        else moved[t := moved[t].(additions := moved[t].additions + b)]
      case None =>
        if pi then cs[t := cs[t].(piSpace := cs[t].piSpace + b)]
        else cs[t := cs[t].(smallPiSpace := cs[t].smallPiSpace + b)]
  }

  /** process_routes over a list of CIDRs, in order. */
  function FoldAll(cs: seq<City>, cidrs: seq<Cidr>, t: nat, pi: bool, carved: bool): (r: seq<City>)
    requires t < |cs|
    ensures |r| == |cs|
    decreases |cidrs|
  {
    if cidrs == [] then cs
    else FoldCidr(FoldAll(cs, cidrs[..|cidrs| - 1], t, pi, carved), Block(cidrs[|cidrs| - 1]), t, pi, carved)
  }

  /** One fold changes no base or configuration and grows working sets only by b. */
  lemma FoldCidrGrows(cs: seq<City>, b: IPSet, t: nat, pi: bool, carved: bool)
    requires t < |cs|
    ensures FoldedFrom(cs, FoldCidr(cs, b, t, pi, carved), b)
  {
    var r := FoldCidr(cs, b, t, pi, carved);
    if b <= cs[t].base {
      FoldOwnBase(cs, b, t, pi, carved);
    } else {
      match FirstOwner(cs, b)
      case Some(o) =>
        FoldOtherOwner(cs, b, t, o, pi, carved);
        forall i | 0 <= i < |cs| ensures SameConfig(cs[i], r[i]) && GrowsWithin(cs[i], r[i], b) {
          if i == o {
            assert r[i] == cs[i].(exclude := cs[i].exclude + b);
          } else if i == t {
            assert r[i].exclude == cs[i].exclude;
          }
        }
      case None =>
        FoldNoOwner(cs, b, t, pi, carved);
    }
  }

  /** Folding one more CIDR of the list. */
  lemma FoldAllStep(cs: seq<City>, cidrs: seq<Cidr>, n: nat, t: nat, pi: bool, carved: bool)
    requires t < |cs| && n < |cidrs|
    ensures FoldAll(cs, cidrs[..n + 1], t, pi, carved) == FoldCidr(FoldAll(cs, cidrs[..n], t, pi, carved), Block(cidrs[n]), t, pi, carved)
  {
    assert cidrs[..n + 1][..n] == cidrs[..n];
  }

  // ---------------------------------------------------------------------
  // The three cases of the fold rule

  /**
   * A CIDR inside the target's own base: carved space is excluded from the
   * target's base and recorded as carved; otherwise nothing changes.
   */
  lemma FoldOwnBase(cs: seq<City>, b: IPSet, t: nat, pi: bool, carved: bool)
    requires t < |cs| && b <= cs[t].base
    ensures !carved ==> FoldCidr(cs, b, t, pi, carved) == cs
    ensures carved ==> (FoldCidr(cs, b, t, pi, carved)
      == cs[t := cs[t].(exclude := cs[t].exclude + b, carvedSpace := cs[t].carvedSpace + b)])
  {
  }

  /**
   * A CIDR of another city's base: exactly the first such city in table
   * order excludes it, and the target takes it as an addition (or as carved
   * space). No other city changes.
   */
  lemma FoldOtherOwner(cs: seq<City>, b: IPSet, t: nat, o: int, pi: bool, carved: bool)
    requires t < |cs| && !(b <= cs[t].base) && IsFirstOwner(cs, b, o)
    ensures o != t
    ensures FoldCidr(cs, b, t, pi, carved)[o] == cs[o].(exclude := cs[o].exclude + b)
    ensures !carved ==> FoldCidr(cs, b, t, pi, carved)[t] == cs[t].(additions := cs[t].additions + b)
    ensures carved ==> FoldCidr(cs, b, t, pi, carved)[t] == cs[t].(carvedSpace := cs[t].carvedSpace + b)
    ensures forall k :: 0 <= k < |cs| && k != o && k != t ==> FoldCidr(cs, b, t, pi, carved)[k] == cs[k]
  {
    assert FirstOwner(cs, b).value == o;
  }

  /** A CIDR outside every base becomes PI space (or small PI space) of the target. */
  lemma FoldNoOwner(cs: seq<City>, b: IPSet, t: nat, pi: bool, carved: bool)
    requires t < |cs| && forall k :: 0 <= k < |cs| ==> !(b <= cs[k].base)
    ensures pi ==> FoldCidr(cs, b, t, pi, carved) == cs[t := cs[t].(piSpace := cs[t].piSpace + b)]
    ensures !pi ==> FoldCidr(cs, b, t, pi, carved) == cs[t := cs[t].(smallPiSpace := cs[t].smallPiSpace + b)]
  {
    assert !(b <= cs[t].base);
  }

  /** Bases of distinct cities share no address (what the overlap check establishes). */
  predicate BasesDisjoint(cs: seq<City>)
  {
    forall i, j :: 0 <= i < j < |cs| ==> cs[i].base !! cs[j].base
  }

  /**
   * With disjoint bases, a non-empty block has at most one owner, so "the
   * first owner" is "the owner".
   */
  lemma UniqueOwner(cs: seq<City>, c: Cidr, o: int)
    requires BasesDisjoint(cs) && IsNetwork(c) && 0 <= o < |cs| && Block(c) <= cs[o].base
    ensures IsFirstOwner(cs, Block(c), o)
    ensures forall k :: 0 <= k < |cs| && k != o ==> !(Block(c) <= cs[k].base)
  {
    BlockFacts(c);
    forall k | 0 <= k < |cs| && k != o ensures c.net !in cs[k].base {
      if k < o {
        assert cs[k].base !! cs[o].base;
      } else {
        assert cs[o].base !! cs[k].base;
      }
    }
  }

  // ---------------------------------------------------------------------
  // Invariants of the fold

  /** Every city excludes only addresses of its own base. */
  predicate ExcludesOwnBase(cs: seq<City>)
  {
    forall i :: 0 <= i < |cs| ==> cs[i].exclude <= cs[i].base
  }

  lemma FoldCidrExcludesOwnBase(cs: seq<City>, b: IPSet, t: nat, pi: bool, carved: bool)
    requires t < |cs| && ExcludesOwnBase(cs)
    ensures ExcludesOwnBase(FoldCidr(cs, b, t, pi, carved))
  {
    var r := FoldCidr(cs, b, t, pi, carved);
    if !(b <= cs[t].base) {
      match FirstOwner(cs, b)
      case Some(o) =>
        FoldOtherOwner(cs, b, t, o, pi, carved);
      case None =>
    }
  }

  /** Folding a list of CIDRs keeps every exclusion inside its city's base. */
  lemma {:induction false} FoldAllExcludesOwnBase(cs: seq<City>, cidrs: seq<Cidr>, t: nat, pi: bool, carved: bool)
    requires t < |cs| && ExcludesOwnBase(cs)
    ensures ExcludesOwnBase(FoldAll(cs, cidrs, t, pi, carved))
    decreases |cidrs|
  {
    if cidrs != [] {
      FoldAllExcludesOwnBase(cs, cidrs[..|cidrs| - 1], t, pi, carved);
      FoldCidrExcludesOwnBase(FoldAll(cs, cidrs[..|cidrs| - 1], t, pi, carved), Block(cidrs[|cidrs| - 1]), t, pi, carved);
    }
  }

  /**
   * Folding a prefix set leaves the configuration and the bases alone and
   * only grows the working sets, by addresses of the prefix set.
   */
  lemma {:induction false} FoldAllGrows(cs: seq<City>, cidrs: seq<Cidr>, t: nat, pi: bool, carved: bool)
    requires t < |cs|
    ensures FoldedFrom(cs, FoldAll(cs, cidrs, t, pi, carved), IPSetOf(cidrs))
    decreases |cidrs|
  {
    if cidrs != [] {
      var init := cidrs[..|cidrs| - 1];
      var last := cidrs[|cidrs| - 1];
      FoldAllGrows(cs, init, t, pi, carved);
      FoldCidrGrows(FoldAll(cs, init, t, pi, carved), Block(last), t, pi, carved);
      IPSetOfAppend(init, [last]);
      assert init + [last] == cidrs;
      assert IPSetOf([last]) == Block(last) + IPSetOf([]);
    }
  }

  // ---------------------------------------------------------------------
  // Consolidation

  /** A city's final record, once the working sets are merged and deleted. */
  datatype Allocation = Allocation(
    name: string,
    country: string,
    region: string,
    base: IPSet,
    override: IPSet,
    piSpace: IPSet)

  /**
   * base = ((base | additions) - exclude) | override;
   * piSpace = piSpace | smallpiSpace | carvedSpace.
   */
  function Consolidated(c: City): (a: Allocation)
    ensures c.override <= a.base
    ensures (c.base + c.additions) - c.exclude <= a.base
    ensures a.base <= c.base + c.additions + c.override
    ensures a.base !! c.exclude - c.override
    ensures a.piSpace == c.piSpace + c.smallPiSpace + c.carvedSpace
    ensures a.name == c.name && a.country == c.country && a.region == c.region && a.override == c.override
  {
    Allocation(c.name, c.country, c.region,
               ((c.base + c.additions) - c.exclude) + c.override,
               c.override,
               c.piSpace + c.smallPiSpace + c.carvedSpace)
  }

  /**
   * A CIDR reassigned from its first owner o to the target t: after
   * consolidation it belongs to t's base and no longer to o's, unless an
   * override or an earlier exclusion of t says otherwise.
   */
  lemma Reassigned(cs: seq<City>, b: IPSet, t: nat, o: int, pi: bool)
    requires t < |cs| && !(b <= cs[t].base) && IsFirstOwner(cs, b, o)
    requires b !! cs[t].exclude && b !! cs[o].override
    ensures b <= Consolidated(FoldCidr(cs, b, t, pi, false)[t]).base
    ensures b !! Consolidated(FoldCidr(cs, b, t, pi, false)[o]).base
  {
    FoldOtherOwner(cs, b, t, o, pi, false);
  }
}
