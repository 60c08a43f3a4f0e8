/**
 * The allocation run as the program performs it: a city table updated in
 * place phase by phase. Each method is proved to compute the Phases
 * function of the same name, so the properties proved there carry over.
 */
module Engine {
  import opened Wrappers
  import opened IPSets
  import opened Routes
  import opened Cities
  import opened Phases

  /** ipset_to_list without the text form: the CIDRs of s in iteration order. */
  method IpSetToList(s: IPSet) returns (list: seq<Cidr>)
    ensures list == Cidrs(s)
    ensures IPSetOf(list) == s
    ensures Ascending(list)
    ensures Inside(list, s, 0, AddressCount)
  {
    var cidrs := Cidrs(s);
    CidrsOrdered(s);
    list := [];
    for k := 0 to |cidrs|
      invariant list == cidrs[..k]
    {
      list := list + [cidrs[k]];
    }
    assert cidrs[..|cidrs|] == cidrs;
  }

  /** A city as written to the output: its space as lists of CIDRs. */
  datatype CityOutput = CityOutput(
    name: string,
    country: string,
    region: string,
    cidrs: seq<Cidr>,
    piCidrs: seq<Cidr>)

  /** o lists the space of a as iter_cidrs yields it. */
  predicate Renders(o: CityOutput, a: Allocation)
  {
    && o.name == a.name && o.country == a.country && o.region == a.region
    && o.cidrs == Cidrs(a.base) && o.piCidrs == Cidrs(a.piSpace)
  }

  /** A rendering lists exactly the city's space, in ascending order of disjoint CIDRs. */
  lemma RenderedLists(o: CityOutput, a: Allocation)
    requires Renders(o, a)
    ensures IPSetOf(o.cidrs) == a.base && Ascending(o.cidrs) && Inside(o.cidrs, a.base, 0, AddressCount)
    ensures IPSetOf(o.piCidrs) == a.piSpace && Ascending(o.piCidrs) && Inside(o.piCidrs, a.piSpace, 0, AddressCount)
  {
    CidrsOrdered(a.base);
    CidrsOrdered(a.piSpace);
  }

  predicate RendersAll(out: seq<CityOutput>, al: seq<Allocation>)
  {
    |out| == |al| && forall i :: 0 <= i < |al| ==> Renders(out[i], al[i])
  }

  /** The rendering of city i. */
  lemma RendersAt(out: seq<CityOutput>, al: seq<Allocation>, i: int)
    requires RendersAll(out, al) && 0 <= i < |al|
    ensures out[i].country == al[i].country
    ensures IPSetOf(out[i].cidrs) == al[i].base && IPSetOf(out[i].piCidrs) == al[i].piSpace
  {
  }

  /** Every CIDR of the configuration parses. */
  predicate ConfigOk(config: seq<CityConfig>, paPrefixes: seq<Cidr>)
  {
    && (forall i :: 0 <= i < |config| ==> WellFormed(config[i]))
    && (forall k :: 0 <= k < |paPrefixes| ==> IsCidr(paPrefixes[k]))
  }

  /** The city table after the driver and the dedup. */
  function QueriedCities(config: seq<CityConfig>, paPrefixes: seq<Cidr>, replies: Replies): (cs: seq<City>)
    requires ConfigOk(config, paPrefixes)
    ensures |cs| == |config|
  {
    var initial := InitialCities(config);
    var driven := DriveAll(initial, AnswerTable(initial, Parse(paPrefixes), replies), |initial|);
    DedupCities(driven, Cidrs(SmallPiUnion(driven)))
  }

  /** The allocations a run that passes the overlap check ends with. */
  function FinalAllocations(config: seq<CityConfig>, paPrefixes: seq<Cidr>, replies: Replies): (al: seq<Allocation>)
    requires ConfigOk(config, paPrefixes)
    ensures |al| == |config|
  {
    var consolidated := ConsolidateAll(QueriedCities(config, paPrefixes, replies));
    PropagateAll(consolidated, OverrideLists(consolidated), |consolidated|)
  }

  /**
   * What the driver and the dedup guarantee: configuration and bases are
   * kept, every exclude lies in its own base, and the bases stay disjoint
   * when the overlap check passes.
   */
  lemma QueriedFacts(config: seq<CityConfig>, paPrefixes: seq<Cidr>, replies: Replies)
    requires ConfigOk(config, paPrefixes)
    ensures var q := QueriedCities(config, paPrefixes, replies);
      && (forall i :: 0 <= i < |q| ==> SameConfig(NewCity(config[i]), q[i]))
      && ExcludesOwnBase(q)
      && (!BasesOverlap(InitialCities(config)) ==> BasesDisjoint(q))
  {
    var initial := InitialCities(config);
    var ans := AnswerTable(initial, Parse(paPrefixes), replies);
    var driven := DriveAll(initial, ans, |initial|);
    var q := DedupCities(driven, Cidrs(SmallPiUnion(driven)));
    assert q == QueriedCities(config, paPrefixes, replies);
    DriveDedupKeeps(initial, ans, Cidrs(SmallPiUnion(driven)));
    if !BasesOverlap(initial) {
      NoOverlapDisjoint(initial);
    }
  }

  /** After the dedup, no CIDR of the small PI union lies wholly in a city's PI space. */
  lemma QueriedDedup(config: seq<CityConfig>, paPrefixes: seq<Cidr>, replies: Replies)
    requires ConfigOk(config, paPrefixes)
    ensures var q := QueriedCities(config, paPrefixes, replies);
      forall i, j :: 0 <= i < |q| && 0 <= j < |Cidrs(SmallPiUnion(q))| ==>
        !(Block(Cidrs(SmallPiUnion(q))[j]) <= q[i].piSpace)
  {
    var initial := InitialCities(config);
    var driven := DriveAll(initial, AnswerTable(initial, Parse(paPrefixes), replies), |initial|);
    var smalls := Cidrs(SmallPiUnion(driven));
    DedupCitiesKeepsSmall(driven, smalls);
    DedupCitiesClears(driven, smalls);
  }

  /**
   * What override propagation guarantees for the final allocations: it only
   * removes addresses, each removed address lies in another city's override,
   * and no override CIDR lies wholly in another city's base or PI space.
   */
  lemma FinalFacts(config: seq<CityConfig>, paPrefixes: seq<Cidr>, replies: Replies)
    requires ConfigOk(config, paPrefixes)
    ensures var consolidated := ConsolidateAll(QueriedCities(config, paPrefixes, replies));
      var final := FinalAllocations(config, paPrefixes, replies);
      && OnlyRemoves(consolidated, final)
      && RemovedByOverrides(consolidated, final)
      && forall i :: 0 <= i < |final| ==> OverridesCleared(final, i, Cidrs(final[i].override))
  {
    var consolidated := ConsolidateAll(QueriedCities(config, paPrefixes, replies));
    var ov := OverrideLists(consolidated);
    OverrideListsFacts(consolidated);
    PropagateOnlyRemoves(consolidated, ov, |consolidated|);
    PropagateRemovesOverrides(consolidated, ov, |consolidated|);
    PropagateClears(consolidated, ov, |consolidated|);
    var final := PropagateAll(consolidated, ov, |consolidated|);
    assert final == FinalAllocations(config, paPrefixes, replies);
    forall i | 0 <= i < |final| ensures Cidrs(final[i].override) == ov[i] {
    }
  }

  /** The scan for the first city whose base holds all of b. */
  method FindOwner(cs: seq<City>, b: IPSet) returns (owner: Option<nat>)
    ensures owner == FirstOwner(cs, b)
  {
    for o := 0 to |cs|
      invariant forall k :: 0 <= k < o ==> !(b <= cs[k].base)
    {
      if b <= cs[o].base {
        return Some(o);
      }
    }
    return None;
  }

  /** The union of all cities' small PI space. */
  method SmallPiUnionOf(cs: seq<City>) returns (small: IPSet)
    ensures small == SmallPiUnion(cs)
  {
    small := {};
    for i := 0 to |cs|
      invariant small == SmallPiUnion(cs[..i])
    {
      assert cs[..i + 1][..i] == cs[..i];
      small := small + cs[i].smallPiSpace;
    }
    assert cs[..|cs|] == cs;
  }

  /**
   * The dedup of one city's PI space: for each small PI CIDR in turn, the
   * first PI CIDR that contains it is removed.
   */
  method DedupPiSpace(piSpace: IPSet, smalls: seq<Cidr>) returns (pi: IPSet)
    ensures pi == DedupSet(piSpace, smalls)
  {
    pi := piSpace;
    for n := 0 to |smalls|
      invariant pi == DedupSet(piSpace, smalls[..n])
    {
      DedupSetStep(piSpace, smalls, n);
      var blocks := Cidrs(pi);
      var found := FindContaining(blocks, smalls[n]);
      if found.Some? {
        pi := pi - Block(blocks[found.value]);
      }
    }
    assert smalls[..|smalls|] == smalls;
  }

  /** The scan for the first of the blocks that contains the block of sc. */
  method FindContaining(blocks: seq<Cidr>, sc: Cidr) returns (found: Option<nat>)
    ensures found == FirstContaining(blocks, sc)
  {
    for k := 0 to |blocks|
      invariant forall m :: 0 <= m < k ==> !(Block(sc) <= Block(blocks[m]))
    {
      if Block(sc) <= Block(blocks[k]) {
        return Some(k);
      }
    }
    return None;
  }

  /**
   * With no device to query and no override, a run passes the configured
   * bases through unchanged and assigns no PI space.
   */
  lemma QuietRun(config: seq<CityConfig>, paPrefixes: seq<Cidr>, replies: Replies)
    requires ConfigOk(config, paPrefixes)
    requires forall i :: 0 <= i < |config| ==> config[i].override.None? && !Queried(NewCity(config[i]))
    ensures forall i :: 0 <= i < |config| ==>
      FinalAllocations(config, paPrefixes, replies)[i].base == Parse(config[i].cidrs) &&
      FinalAllocations(config, paPrefixes, replies)[i].piSpace == {}
  {
    QuietQueried(config, paPrefixes, replies);
    var consolidated := ConsolidateAll(InitialCities(config));
    QuietPropagation(consolidated);
    assert FinalAllocations(config, paPrefixes, replies) == consolidated;
  }

  /** With no city to query, the driver and the dedup leave the initial table as it is. */
  lemma QuietQueried(config: seq<CityConfig>, paPrefixes: seq<Cidr>, replies: Replies)
    requires ConfigOk(config, paPrefixes)
    requires forall i :: 0 <= i < |config| ==> !Queried(NewCity(config[i]))
    ensures QueriedCities(config, paPrefixes, replies) == InitialCities(config)
  {
    var initial := InitialCities(config);
    NothingQueried(initial, Parse(paPrefixes), replies, |initial|);
    NoSmallPi(initial);
  }

  /** With no override anywhere, propagation leaves the consolidated table as it is. */
  lemma {:induction false} QuietPropagation(al: seq<Allocation>)
    requires forall i :: 0 <= i < |al| ==> al[i].override == {}
    ensures PropagateAll(al, OverrideLists(al), |al|) == al
  {
    CidrsEmpty();
    NoOverrides(al, OverrideLists(al), |al|);
  }

  /** What a run writes: the per-city records and the per-country totals. */
  datatype Report = Report(cities: seq<CityOutput>, countries: map<string, Totals>)

  /** The city table and the state shared by the phases. */
  class Engine {
    var cities: seq<City>
    var paSpace: IPSet
    var allocations: seq<Allocation>
    var output: seq<CityOutput>

    /** The conversion loop over the configured cities. */
    constructor (config: seq<CityConfig>)
      requires forall i :: 0 <= i < |config| ==> WellFormed(config[i])
      ensures cities == InitialCities(config)
      ensures paSpace == {} && allocations == [] && output == []
    {
      var cs: seq<City> := [];
      for i := 0 to |config|
        invariant |cs| == i
        invariant forall k :: 0 <= k < i ==> cs[k] == NewCity(config[k])
      {
        cs := cs + [NewCity(config[i])];
      }
      cities := cs;
      paSpace := {};
      allocations := [];
      output := [];
    }

    /**
     * The overlap check: every CIDR of every base is tested against the
     * bases of all other cities. The error flag is raised exactly when two
     * bases share an address.
     */
    method CheckOverlap() returns (hasError: bool)
      ensures hasError <==> BasesOverlap(cities)
    {
      hasError := false;
      for i := 0 to |cities|
        invariant hasError <==> AnyClash(cities, i)
      {
        AnyClashStep(cities, i);
        var cidrs := Cidrs(cities[i].base);
        for k := 0 to |cidrs|
          invariant hasError <==> AnyClash(cities, i) || CityClashes(cities, i, k)
        {
          CityClashStep(cities, i, k);
          for j := 0 to |cities|
            invariant hasError <==> AnyClash(cities, i) || CityClashes(cities, i, k) || CidrClashes(cities, i, cidrs[k], j)
          {
            CidrClashStep(cities, i, cidrs[k], j);
            if j == i {
              continue;
            }
            if Block(cidrs[k]) <= cities[j].base {
              hasError := true;
            }
          }
        }
      }
      OverlapDetected(cities);
    }

    /** The PA-space union: paSpace becomes the set of the configured PA prefixes. */
    method LoadPaSpace(paPrefixes: seq<Cidr>)
      requires forall k :: 0 <= k < |paPrefixes| ==> IsCidr(paPrefixes[k])
      modifies this
      ensures paSpace == Parse(paPrefixes)
      ensures cities == old(cities) && allocations == old(allocations) && output == old(output)
    {
      paSpace := {};
      for i := 0 to |paPrefixes|
        invariant forall a :: a in paSpace <==> exists k :: 0 <= k < i && a in Block(Mask(paPrefixes[k]))
        invariant cities == old(cities) && allocations == old(allocations) && output == old(output)
      {
        paSpace := paSpace + Block(Mask(paPrefixes[i]));
      }
      ParseMembers(paPrefixes);
      assert forall a :: a in paSpace <==> a in Parse(paPrefixes);
    }

    /** The body of process_routes' loop for one CIDR block b. */
    method FoldCidrInPlace(b: IPSet, t: nat, pi: bool, carved: bool)
      requires t < |cities|
      modifies this
      ensures cities == FoldCidr(old(cities), b, t, pi, carved)
      ensures paSpace == old(paSpace) && allocations == old(allocations) && output == old(output)
    {
      if b <= cities[t].base {
        if carved {
          cities := cities[t := cities[t].(exclude := cities[t].exclude + b, carvedSpace := cities[t].carvedSpace + b)];
        }
        return;
      }
      var owner := FindOwner(cities, b);
      match owner
      case Some(o) =>
        cities := cities[o := cities[o].(exclude := cities[o].exclude + b)];
        if carved {
          cities := cities[t := cities[t].(carvedSpace := cities[t].carvedSpace + b)];
        } else {
          cities := cities[t := cities[t].(additions := cities[t].additions + b)];
        }
      case None =>
        if pi {
          cities := cities[t := cities[t].(piSpace := cities[t].piSpace + b)];
        } else {
          cities := cities[t := cities[t].(smallPiSpace := cities[t].smallPiSpace + b)];
        }
    }

    /**
     * process_routes: fold each CIDR of prefixSet into the table on behalf
     * of city t.
     */
    method ProcessRoutes(prefixSet: IPSet, t: nat, pi: bool, carved: bool)
      requires t < |cities|
      modifies this
      ensures cities == FoldAll(old(cities), Cidrs(prefixSet), t, pi, carved)
      ensures paSpace == old(paSpace) && allocations == old(allocations) && output == old(output)
    {
      var cidrs := Cidrs(prefixSet);
      ghost var start := cities;
      for n := 0 to |cidrs|
        invariant |cities| == |start|
        invariant cities == FoldAll(start, cidrs[..n], t, pi, carved)
        invariant paSpace == old(paSpace) && allocations == old(allocations) && output == old(output)
      {
        FoldAllStep(start, cidrs, n, t, pi, carved);
        FoldCidrInPlace(Block(cidrs[n]), t, pi, carved);
      }
      assert cidrs[..|cidrs|] == cidrs;
    }

    /** get_routes for one query: no data when the query failed. */
    method FetchRoutes(replies: Replies, q: Query, piMode: bool) returns (r: Option<Classified>)
      ensures r == GetRoutes(replies, q, piMode, paSpace)
    {
      if q !in replies {
        return None;
      }
      r := ClassifyRoutes(replies[q], piMode, paSpace);
    }

    /** One city's turn in the driver loop: the ordinary query, then the PI query. */
    method QueryCity(t: int, replies: Replies, ghost start: seq<City>, ghost ans: seq<Answers>)
      requires ans == AnswerTable(start, paSpace, replies)
      requires 0 <= t < |start| && cities == DriveAll(start, ans, t)
      modifies this
      ensures cities == DriveAll(start, ans, t + 1)
      ensures paSpace == old(paSpace) && allocations == old(allocations) && output == old(output)
    {
      DriveEvolves(start, ans, t);
      var city := cities[t];
      assert SameConfig(start[t], city);
      if city.community.None? || city.device.None? || city.community.value == [] || city.device.value == [] {
        return;
      }
      var community, device := city.community.value, city.device.value;
      var r := FetchRoutes(replies, Query(device, [community, NormalTag]), false);
      if r.Some? {
        ProcessRoutes(r.value.prefixes, t, false, false);
        ProcessRoutes(r.value.carved, t, false, true);
      }
      r := FetchRoutes(replies, Query(device, [community, PiTag]), true);
      if r.Some? {
        ProcessRoutes(r.value.prefixes, t, true, false);
        ProcessRoutes(r.value.carved, t, true, true);
      }
    }

    /** The driver loop: both query cycles and the four folds for every city. */
    method QueryCities(replies: Replies)
      modifies this
      ensures cities == DriveAll(old(cities), AnswerTable(old(cities), paSpace, replies), |old(cities)|)
      ensures paSpace == old(paSpace) && allocations == old(allocations) && output == old(output)
    {
      ghost var start := cities;
      ghost var ans := AnswerTable(start, paSpace, replies);
      var t := 0;
      while t < |cities|
        invariant 0 <= t <= |start| == |cities| == |ans|
        invariant cities == DriveAll(start, ans, t)
        invariant paSpace == old(paSpace) && allocations == old(allocations) && output == old(output)
      {
        QueryCity(t, replies, start, ans);
        t := t + 1;
      }
    }

    /** The small-PI union and the removal of every PI CIDR that contains a small PI CIDR. */
    method DedupSmallPi()
      modifies this
      ensures cities == DedupCities(old(cities), Cidrs(SmallPiUnion(old(cities))))
      ensures paSpace == old(paSpace) && allocations == old(allocations) && output == old(output)
    {
      var small := SmallPiUnionOf(cities);
      var smalls := Cidrs(small);
      ghost var start := cities;
      for i := 0 to |cities|
        invariant |cities| == |start|
        invariant forall k :: 0 <= k < i ==> cities[k] == start[k].(piSpace := DedupSet(start[k].piSpace, smalls))
        invariant forall k :: i <= k < |cities| ==> cities[k] == start[k]
        invariant paSpace == old(paSpace) && allocations == old(allocations) && output == old(output)
      {
        var pi := DedupPiSpace(cities[i].piSpace, smalls);
        cities := cities[i := cities[i].(piSpace := pi)];
      }
    }

    /** Consolidation: the final base and PI space of every city. */
    method Consolidate()
      modifies this
      ensures allocations == ConsolidateAll(cities)
      ensures cities == old(cities) && paSpace == old(paSpace) && output == old(output)
    {
      allocations := [];
      for i := 0 to |cities|
        invariant cities == old(cities) && paSpace == old(paSpace) && output == old(output)
        invariant |allocations| == i
        invariant forall k :: 0 <= k < i ==> allocations[k] == Consolidated(cities[k])
      {
        var c := cities[i];
        var base := c.base + c.additions;
        base := base - c.exclude;
        base := base + c.override;
        var pi := c.piSpace + c.smallPiSpace + c.carvedSpace;
        allocations := allocations + [Allocation(c.name, c.country, c.region, base, c.override, pi)];
      }
    }

    /** The scan over the other cities for one override block b of city i. */
    method StripOthersInPlace(i: int, b: IPSet)
      modifies this
      ensures allocations == StripOthers(old(allocations), i, b)
      ensures cities == old(cities) && paSpace == old(paSpace) && output == old(output)
    {
      ghost var start := allocations;
      for j := 0 to |allocations|
        invariant cities == old(cities) && paSpace == old(paSpace) && output == old(output)
        invariant |allocations| == |start|
        invariant forall m :: 0 <= m < j ==> allocations[m] == StripOthers(start, i, b)[m]
        invariant forall m :: j <= m < |allocations| ==> allocations[m] == start[m]
      {
        if j == i {
          continue;
        }
        if b <= allocations[j].base {
          allocations := allocations[j := allocations[j].(base := allocations[j].base - b)];
        }
        if b <= allocations[j].piSpace {
          allocations := allocations[j := allocations[j].(piSpace := allocations[j].piSpace - b)];
        }
      }
    }

    /** The loop over one city's override CIDRs, in order. */
    method StripCidrsInPlace(i: int, cidrs: seq<Cidr>)
      modifies this
      ensures allocations == StripCidrs(old(allocations), i, cidrs)
      ensures cities == old(cities) && paSpace == old(paSpace) && output == old(output)
    {
      ghost var before := allocations;
      for n := 0 to |cidrs|
        invariant allocations == StripCidrs(before, i, cidrs[..n])
        invariant cities == old(cities) && paSpace == old(paSpace) && output == old(output)
      {
        assert cidrs[..n + 1][..n] == cidrs[..n];
        StripOthersInPlace(i, Block(cidrs[n]));
      }
      assert cidrs[..|cidrs|] == cidrs;
    }

    /** The turn of city i in override propagation. */
    method PropagateTurn(i: int, ghost start: seq<Allocation>, ghost ov: seq<seq<Cidr>>)
      requires ov == OverrideLists(start)
      requires 0 <= i < |start| && allocations == PropagateAll(start, ov, i)
      modifies this
      ensures allocations == PropagateAll(start, ov, i + 1)
      ensures cities == old(cities) && paSpace == old(paSpace) && output == old(output)
    {
      PropagateKeepsOverride(start, ov, i, i);
      var cidrs := Cidrs(allocations[i].override);
      assert cidrs == ov[i];
      PropagateNext(start, ov, i);
      StripCidrsInPlace(i, cidrs);
    }

    /** Override propagation: each override CIDR is removed from every other city that holds it whole. */
    method PropagateOverrides()
      modifies this
      ensures allocations == PropagateAll(old(allocations), OverrideLists(old(allocations)), |old(allocations)|)
      ensures cities == old(cities) && paSpace == old(paSpace) && output == old(output)
    {
      ghost var start := allocations;
      ghost var ov := OverrideLists(start);
      var i := 0;
      while i < |allocations|
        invariant 0 <= i <= |start| == |allocations| == |ov|
        invariant allocations == PropagateAll(start, ov, i)
        invariant cities == old(cities) && paSpace == old(paSpace) && output == old(output)
      {
        PropagateTurn(i, start, ov);
        i := i + 1;
      }
    }

    /** The conversion for output: every city's space as CIDR lists. */
    method ToLists()
      modifies this
      ensures RendersAll(output, allocations)
      ensures cities == old(cities) && paSpace == old(paSpace) && allocations == old(allocations)
    {
      output := [];
      for i := 0 to |allocations|
        invariant cities == old(cities) && paSpace == old(paSpace) && allocations == old(allocations)
        invariant |output| == i
        invariant forall k :: 0 <= k < i ==> Renders(output[k], allocations[k])
      {
        var a := allocations[i];
        var cidrs := IpSetToList(a.base);
        var piCidrs := IpSetToList(a.piSpace);
        output := output + [CityOutput(a.name, a.country, a.region, cidrs, piCidrs)];
      }
    }

    /** The per-country union of the output lists. */
    method Countries() returns (countries: map<string, Totals>)
      requires RendersAll(output, allocations)
      ensures countries == CountryTotals(allocations)
    {
      countries := map[];
      for i := 0 to |output|
        invariant countries == CountryTotals(allocations[..i])
      {
        CountryTotalsStep(allocations, i);
        RendersAt(output, allocations, i);
        var o := output[i];
        var cidrSet := IPSetOf(o.cidrs);
        var piSet := IPSetOf(o.piCidrs);
        if o.country !in countries {
          countries := countries[o.country := Totals(cidrSet, piSet)];
        } else {
          countries := countries[o.country := Totals(countries[o.country].cidrs + cidrSet, countries[o.country].piCidrs + piSet)];
        }
      }
      assert allocations[..|allocations|] == allocations;
    }
  }

  /**
   * The whole run: nothing is written when two configured bases overlap;
   * otherwise the output renders the final allocations and the per-country
   * totals join them.
   */
  method Run(config: seq<CityConfig>, paPrefixes: seq<Cidr>, replies: Replies) returns (result: Option<Report>)
    requires ConfigOk(config, paPrefixes)
    ensures result.None? <==> BasesOverlap(InitialCities(config))
    ensures result.Some? ==> RendersAll(result.value.cities, FinalAllocations(config, paPrefixes, replies))
    ensures result.Some? ==> result.value.countries == CountryTotals(FinalAllocations(config, paPrefixes, replies))
  {
    var engine := new Engine(config);
    var hasError := engine.CheckOverlap();
    if hasError {
      return None;
    }
    engine.LoadPaSpace(paPrefixes);
    engine.QueryCities(replies);
    engine.DedupSmallPi();
    engine.Consolidate();
    engine.PropagateOverrides();
    engine.ToLists();
    var countries := engine.Countries();
    return Some(Report(engine.output, countries));
  }
}
