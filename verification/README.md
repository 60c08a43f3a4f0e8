# iplocbuild allocation engine in Dafny

iplocbuild builds an IP geolocation feed. It maps IPv4 address space to cities, taking each city's configured space and adjusting it with the BGP routes seen on the network.

This project models the allocation engine of `src/iplocbuild/cli.py`. It works on an ordered city table, in configuration order, where each city has the following:

- a configured `base`;
- an optional `override`, which always belongs to that city;
- an optional BGP community and device;
- five working sets: `additions`, `exclude`, `piSpace`, `smallPiSpace`, `carvedSpace`.

A run has these phases, each performed in place by a method of `Engine.Engine`:

1. The city table is built from the configuration.
2. The overlap check stops the run if two bases share an address.
3. The PA (provider-assigned) space is joined into one set.
4. Every city with a community and a device is queried twice: an ordinary query and a PI (provider-independent) query. Each reply is classified, including the AS-path test for PA routes in PI mode. Each classified set is folded into the table by the per-CIDR rule of `process_routes`.
5. PI CIDRs that contain a small PI CIDR are dropped.
6. The working sets are merged into the final base and PI space.
7. Override CIDRs are removed from the other cities.
8. The result is rendered as CIDR lists and joined per country.

The model works at these levels:

- **Addresses and sets.** Addresses are integers in [0, 2^32). An address set (`IPSets.IPSet`) is a set of them.
- **CIDRs.** A CIDR is a network and a prefix length. `IPSets.Block` gives the addresses a CIDR covers.
- **Containment and iteration.** netaddr's `cidr in S` is `Block(c) <= S`. `S.iter_cidrs()` is `IPSets.Cidrs(S)`: the maximal aligned blocks of `S`, in ascending order.
- **Phases.** Each phase is specified as a function on values in module `Phases`, with the fold rule in `Cities`. The properties are proved about those functions. Each `Engine` method is proved to compute its function.
- **Fixed inputs of two loops.** The driver queries each city with the community and device it had in the starting table (`Phases.AnswerTable`), and propagation walks each city's override CIDRs as taken before the loop (`Phases.OverrideLists`). This is the same as reading them at each turn: the driver never changes a community or device (`Phases.DriveEvolves`), and propagation never changes an override (`Phases.PropagateKeepsOverride`).

## Model

| member | source | states |
|---|---|---|
| IPSets.Cidrs | src/iplocbuild/cli.py:22 | iter_cidrs lists aligned networks whose union is exactly the set |
| IPSets.CidrsOrdered | src/iplocbuild/cli.py:22 | the CIDRs of iter_cidrs lie inside the set and come in ascending order, hence pairwise disjoint |
| IPSets.CidrsMaximal | src/iplocbuild/cli.py:249 | every CIDR block wholly inside a set lies inside one CIDR of its iter_cidrs |
| IPSets.Overlapping | src/iplocbuild/cli.py:189 | two CIDR blocks that share an address are nested |
| IPSets.Nesting | src/iplocbuild/cli.py:189 | a CIDR block and one with a longer prefix are nested or disjoint |
| IPSets.ParseMembers | src/iplocbuild/cli.py:175 | IPSet of a list of CIDRs holds an address exactly when one masked CIDR of the list covers it, and holds every listed network address |
| IPSets.Mask | src/iplocbuild/cli.py:83 | clearing host bits gives an aligned network of the same length that covers the original address; an aligned network is unchanged |
| IPSets.AscendingDisjoint | src/iplocbuild/cli.py:22 | CIDRs in ascending order are pairwise disjoint |
| Engine.IpSetToList | src/iplocbuild/cli.py:20-25 | the list is exactly what iter_cidrs yields for the set: its CIDRs join back to exactly the set, in ascending order, each inside the set |
| Engine.RenderedLists | src/iplocbuild/cli.py:300-305 | a rendered city lists its final base and PI space exactly, as ascending CIDRs inside them |
| AsPath.Match | src/iplocbuild/cli.py:45 | the anchored pattern matches exactly when some group end fits it, and the match ends at the largest such end (greedy, then backtracking) |
| AsPath.FirstToken | src/iplocbuild/cli.py:71 | split() gives no token exactly when the text is all whitespace; otherwise the token is the first maximal run of non-whitespace |
| AsPath.FirstTokenUnique | src/iplocbuild/cli.py:71 | the first token of a text is unique |
| AsPath.TestAsPath | src/iplocbuild/cli.py:64-73 | no match exactly when the pattern fails; no token when the group is all whitespace; otherwise the first token of the group |
| AsPath.MatchBeforeParen | src/iplocbuild/cli.py:45 | a group followed by " (" is where the match ends |
| AsPath.TestAsPathToken | src/iplocbuild/cli.py:64-73 | the first token of the matched group is what the test reports |
| AsPath.InternalOrigin | src/iplocbuild/cli.py:73-81 | "AS path: I (Originator)" yields token I |
| AsPath.ExternalOrigin | src/iplocbuild/cli.py:73-76 | "AS path: 65001 I (Originator)" yields token 65001 |
| AsPath.ExternalMatch | src/iplocbuild/cli.py:45 | on "AS path: 65001 I (Originator)" the match ends before " (" |
| AsPath.BlankGroup | src/iplocbuild/cli.py:71-73 | a whitespace-only group yields no token, which is where split()[0] raises |
| AsPath.MissingLead | src/iplocbuild/cli.py:66-69 | text without the "AS path: " lead does not match |
| Routes.Decide | src/iplocbuild/cli.py:56-83 | a kept or carved record is a well-formed CIDR shorter than /32; outside PI mode a record is only skipped as a host route, raises, or is kept |
| Routes.Gather | src/iplocbuild/cli.py:47-83 | definition: the union of the blocks of the records with a given verdict, in reply order (its meaning is stated by Routes.GatherMembers) |
| Routes.Classify | src/iplocbuild/cli.py:38-90 | definition of get_routes on a reply: no data for an empty reply or when a record raises, else the kept and carved sets (stated by Routes.ClassifiedMembers, Routes.PiMode, Routes.NonPiMode) |
| Routes.ClassifyRoutes | src/iplocbuild/cli.py:38-90 | the classification loop returns no data for an empty reply or when any record raises, otherwise the kept and carved sets |
| Routes.RaisesStep | src/iplocbuild/cli.py:56-90 | a prefix of the reply raises exactly when a shorter one raises or its last record does; one raising record makes the whole reply raise |
| Routes.GatherMembers | src/iplocbuild/cli.py:47-83 | an address is gathered exactly when some record with that verdict covers it |
| Routes.GatherWitness | src/iplocbuild/cli.py:47-83 | every gathered address comes from a record with that verdict whose block holds it |
| Routes.GatherComplete | src/iplocbuild/cli.py:47-83 | the block of every record with that verdict is gathered |
| Routes.GatherAppend | src/iplocbuild/cli.py:47-83 | gathering two runs of records one after the other is the union of gathering each |
| Routes.ClassifiedMembers | src/iplocbuild/cli.py:47-85 | prefixSet holds exactly the blocks of kept records, carvedSet exactly those of carved records |
| Routes.NonPiMode | src/iplocbuild/cli.py:56-83 | outside PI mode carvedSet is empty and every well-formed record shorter than /32 is in prefixSet |
| Routes.PiMode | src/iplocbuild/cli.py:61-83 | in PI mode prefixSet is exactly the routes outside PA space; carvedSet is exactly the PA routes whose first AS-path token is neither I nor ? |
| Routes.SkippedRecord | src/iplocbuild/cli.py:56-81 | a host route, an internal-origin PA route or an unmatched AS path has no effect on the result |
| Routes.SkippedRaises | src/iplocbuild/cli.py:56-81 | inserting a skipped record does not change whether the reply raises |
| Routes.SkippedGather | src/iplocbuild/cli.py:56-81 | inserting a skipped record does not change what is kept or carved |
| Routes.RaisingRecord | src/iplocbuild/cli.py:87-90 | one record that raises voids the whole reply |
| Cities.NewCity | src/iplocbuild/cli.py:154-175 | a new entry has the configured base, override (default empty), region (default ""), community and device, and empty working sets |
| Cities.InitialCities | src/iplocbuild/cli.py:152-175 | one entry per configured city, entry i built from configuration entry i |
| Cities.FirstOwner | src/iplocbuild/cli.py:115-128 | the scan finds the first city in table order whose base holds the block, or reports that none does |
| Cities.FoldCidr | src/iplocbuild/cli.py:99-137 | the per-CIDR rule of process_routes; keeps the table's size, and its three cases are stated by Cities.FoldOwnBase, Cities.FoldOtherOwner and Cities.FoldNoOwner |
| Cities.FoldAll | src/iplocbuild/cli.py:97-137 | process_routes over a CIDR list, one FoldCidr per CIDR in iteration order; keeps the table's size (growth stated by Cities.FoldAllGrows) |
| Cities.FoldCidrGrows | src/iplocbuild/cli.py:97-137 | one fold changes no base or configuration and grows working sets only by the block |
| Cities.FoldOwnBase | src/iplocbuild/cli.py:101-111 | a block of the target's own base is added to its exclude and carvedSpace when carved; otherwise the table is unchanged |
| Cities.FoldOtherOwner | src/iplocbuild/cli.py:113-128 | otherwise the first owner alone excludes the block, and the target gains it in carvedSpace or additions; no other city changes |
| Cities.FoldNoOwner | src/iplocbuild/cli.py:130-137 | a block in no base goes to the target's piSpace in PI mode, else to its smallPiSpace |
| Cities.UniqueOwner | src/iplocbuild/cli.py:115-128 | with disjoint bases the first owner of a block is its only owner |
| Cities.FoldCidrExcludesOwnBase | src/iplocbuild/cli.py:101-120 | a fold keeps every city's exclude inside its own base |
| Cities.FoldAllExcludesOwnBase | src/iplocbuild/cli.py:97-137 | folding a prefix set keeps every exclude inside its own base |
| Cities.FoldAllGrows | src/iplocbuild/cli.py:97-137 | folding a prefix set keeps bases and configuration and grows working sets only by addresses of the set |
| Cities.Consolidated | src/iplocbuild/cli.py:261-270 | the final base holds the override and the surviving base and additions, lies within base, additions and override, and avoids non-override exclusions; PI space is the union of the three PI sets |
| Cities.Reassigned | src/iplocbuild/cli.py:113-128 | a block taken from its first owner ends in the target's final base and not in the owner's, unless an override or exclusion intervenes |
| Phases.OverlapDetected | src/iplocbuild/cli.py:183-194 | the CIDR-containment check finds an error exactly when two distinct bases share an address |
| Phases.BasesOverlap | src/iplocbuild/cli.py:183-194 | definition of what the check guards against: two distinct cities whose bases share an address |
| Phases.AnyClash | src/iplocbuild/cli.py:183-194 | definition of the check as written: some CIDR of one base lies wholly in another city's base (equivalence stated by Phases.OverlapDetected) |
| Phases.NoOverlapDisjoint | src/iplocbuild/cli.py:193-194 | a run that passes the check has pairwise disjoint bases |
| Phases.ClashIsOverlap | src/iplocbuild/cli.py:183-194 | a CIDR of one base found inside another base means the two bases share an address |
| Phases.OverlapIsClash | src/iplocbuild/cli.py:183-194 | two bases sharing an address means the CIDR scan finds one CIDR of one base inside the other |
| Phases.Fetch | src/iplocbuild/cli.py:28-90 | a query gives no lists exactly when get_routes gives no data; otherwise the two lists cover exactly the classified prefixSet and carvedSet |
| Phases.GetRoutes | src/iplocbuild/cli.py:28-90 | definition: a query missing from the replies is a failed query with no data; otherwise Classify on its records |
| Phases.AnswersFor | src/iplocbuild/cli.py:205-233 | definition: no answers for a city without a non-empty community and device, else its ordinary and PI query |
| Phases.AnswerTable | src/iplocbuild/cli.py:205-217 | one pair of answers per city, and none for a city without a non-empty community and device |
| Phases.ApplyReply | src/iplocbuild/cli.py:226-237 | the two process_routes calls of one reply, prefixes then carved; no data leaves the table as it is; keeps the table's size |
| Phases.CityStep | src/iplocbuild/cli.py:219-237 | one driver iteration, the ordinary reply then the PI reply; keeps the table's size |
| Phases.DriveAll | src/iplocbuild/cli.py:203-237 | the driver loop over the first n cities in table order; keeps the table's size |
| Phases.ApplyReplyGrows | src/iplocbuild/cli.py:226-237 | the two folds of one reply keep bases and configuration and grow working sets only by the addresses of the reply's prefix and carved lists |
| Phases.ApplyReplyExcludes | src/iplocbuild/cli.py:226-237 | the two folds of one reply keep every exclude inside its own base |
| Phases.CityStepEvolves | src/iplocbuild/cli.py:203-237 | one driver iteration keeps every base and configuration and grows working sets only by the addresses of its two replies |
| Phases.DriveStepEvolves | src/iplocbuild/cli.py:203-237 | each iteration of the driver keeps every base and configuration of the table the earlier ones left, and only grows working sets |
| Phases.DriveEvolves | src/iplocbuild/cli.py:203-237 | the whole driver keeps every base and configuration and only grows working sets |
| Phases.CityStepExcludes | src/iplocbuild/cli.py:203-237 | one driver iteration keeps every exclude inside its own base |
| Phases.DriveExcludes | src/iplocbuild/cli.py:203-237 | after the driver every exclude lies inside its own base |
| Phases.UnqueriedCity | src/iplocbuild/cli.py:205-217 | a city without a non-empty community and device is skipped: its turn leaves the table unchanged |
| Phases.NothingQueried | src/iplocbuild/cli.py:203-217 | when no city is queried the driver leaves the table unchanged |
| Phases.SmallPiUnion | src/iplocbuild/cli.py:242-244 | the union holds each city's small PI space and nothing else |
| Phases.FirstContaining | src/iplocbuild/cli.py:248-253 | the scan finds the first PI CIDR containing or equal to the small CIDR, or none |
| Phases.DedupOne | src/iplocbuild/cli.py:248-253 | definition: the first CIDR of the PI space that contains the small CIDR is removed, if any |
| Phases.DedupSet | src/iplocbuild/cli.py:247-253 | definition: one city's PI space deduplicated against the small PI CIDRs in order |
| Phases.DedupCities | src/iplocbuild/cli.py:246-253 | every city's PI space deduplicated; keeps the table's size |
| Phases.DedupCitiesKeeps | src/iplocbuild/cli.py:246-253 | the dedup changes no configuration, base or exclude |
| Phases.DedupCitiesKeepsSmall | src/iplocbuild/cli.py:242-253 | the dedup leaves the small PI union as it was |
| Phases.DedupCitiesClears | src/iplocbuild/cli.py:246-253 | after the dedup no small PI CIDR lies wholly in any city's PI space |
| Phases.DriveDedupKeeps | src/iplocbuild/cli.py:203-253 | the driver then the dedup keep configuration and bases, keep excludes inside their own base, and keep disjoint bases disjoint |
| Phases.DedupShrinks | src/iplocbuild/cli.py:246-253 | dedup only shrinks PI space, and an address leaves only with a whole PI CIDR that contains or equals a small PI CIDR |
| Phases.DedupOneClears | src/iplocbuild/cli.py:248-253 | one pass leaves the small CIDR no longer wholly inside PI space |
| Phases.DedupClears | src/iplocbuild/cli.py:246-253 | after dedup no small PI CIDR lies wholly inside the city's PI space |
| Phases.NoSmallPi | src/iplocbuild/cli.py:242-253 | without small PI space the dedup changes nothing |
| Phases.ConsolidateAll | src/iplocbuild/cli.py:261-265 | every city is consolidated, in table order |
| Phases.Strip | src/iplocbuild/cli.py:286-293 | a block is removed only when wholly contained; otherwise the set is unchanged |
| Phases.StripOthers | src/iplocbuild/cli.py:283-293 | definition: one override block stripped from every other city's base and PI space; keeps the table's size |
| Phases.StripCidrs | src/iplocbuild/cli.py:282-293 | definition: a city's override CIDRs stripped in order; keeps the table's size |
| Phases.OverrideLists | src/iplocbuild/cli.py:282 | the iter_cidrs list of every city's override, one per city |
| Phases.PropagateAll | src/iplocbuild/cli.py:281-295 | the propagation loop over the first n cities in table order; keeps the table's size |
| Phases.OverridesExcept | src/iplocbuild/cli.py:281-295 | the union of the overrides of every city but one holds exactly their addresses |
| Phases.StripOthersFacts | src/iplocbuild/cli.py:283-293 | one override block leaves its own city alone and removes only its own addresses from the others |
| Phases.StripCidrsRemoves | src/iplocbuild/cli.py:282-293 | one city's pass only removes addresses from bases and PI spaces and leaves that city unchanged |
| Phases.StripCidrsWithin | src/iplocbuild/cli.py:282-293 | one city's pass removes only addresses of the override CIDRs it scans |
| Phases.StripOthersClears | src/iplocbuild/cli.py:283-293 | after one block's pass it lies wholly in no other city's base or PI space |
| Phases.StripCidrsClears | src/iplocbuild/cli.py:282-293 | after a city's pass none of its override CIDRs lies wholly in another city |
| Phases.ClearedStays | src/iplocbuild/cli.py:281-295 | later removals keep a cleared override CIDR cleared |
| Phases.PropagateOnlyRemoves | src/iplocbuild/cli.py:281-295 | propagation only removes addresses from bases and PI spaces and keeps names, countries, regions and overrides |
| Phases.PropagateRemovesOverrides | src/iplocbuild/cli.py:281-295 | every removed address lies in another city's override |
| Phases.PropagateClears | src/iplocbuild/cli.py:281-295 | afterwards no override CIDR of any city lies wholly in another city's base or PI space |
| Phases.NoOverrides | src/iplocbuild/cli.py:281-295 | without overrides propagation changes nothing |
| Phases.OverrideListsFacts | src/iplocbuild/cli.py:282 | each city's list of override CIDRs is made of aligned networks that together cover exactly its override |
| Phases.PropagateNext | src/iplocbuild/cli.py:281-295 | the turn of city n strips its override CIDRs from the table the earlier turns left |
| Phases.PropagateKeepsOverride | src/iplocbuild/cli.py:281-295 | every city's override is unchanged at any turn of propagation |
| Phases.CountryTotalsUnion | src/iplocbuild/cli.py:334-342 | the dictionary's keys are exactly the cities' countries, and each value is the union over that country's cities |
| Phases.CountryTotals | src/iplocbuild/cli.py:334-342 | definition: the dictionary built city by city in table order, each step AddCity |
| Phases.CountryTotalsKeys | src/iplocbuild/cli.py:334-342 | a country has an entry exactly when one of the cities belongs to it |
| Phases.CountryTotalsAt | src/iplocbuild/cli.py:334-342 | a country's entry is the union of the base and PI space of its cities |
| Phases.AddCity | src/iplocbuild/cli.py:336-342 | one step adds the city's country as a key, joins the city's sets into an existing entry or starts a new one with them, and leaves every other country alone |
| Phases.CountryTotalsStep | src/iplocbuild/cli.py:334-342 | the dictionary after one more city is that city added to the dictionary before it |
| Engine.FindOwner | src/iplocbuild/cli.py:115-128 | the first-owner scan computes FirstOwner |
| Engine.FindContaining | src/iplocbuild/cli.py:248-253 | the inner scan with break computes FirstContaining |
| Engine.SmallPiUnionOf | src/iplocbuild/cli.py:242-244 | the loop computes the small PI union |
| Engine.DedupPiSpace | src/iplocbuild/cli.py:247-253 | the nested scans with break compute one city's dedup |
| Engine.QuietRun | src/iplocbuild/cli.py:152-295 | with no device to query and no override, every city ends with its configured base and no PI space |
| Engine.QuietQueried | src/iplocbuild/cli.py:203-253 | with no city to query, the driver and the dedup leave the initial table unchanged |
| Engine.QuietPropagation | src/iplocbuild/cli.py:281-295 | with no override, propagation leaves the table unchanged |
| Engine.QueriedCities | src/iplocbuild/cli.py:152-253 | the table after the driver and the dedup, one entry per configured city |
| Engine.FinalAllocations | src/iplocbuild/cli.py:152-295 | the allocations after consolidation and propagation, one per configured city |
| Engine.QueriedFacts | src/iplocbuild/cli.py:152-253 | after the driver and the dedup every city keeps its configured fields and base, every exclude lies in its own base, and the bases are disjoint when the overlap check passes |
| Engine.QueriedDedup | src/iplocbuild/cli.py:242-253 | after the dedup no CIDR of the small PI union lies wholly in a city's PI space |
| Engine.FinalFacts | src/iplocbuild/cli.py:261-295 | the final allocations only lose addresses against the consolidated ones, every lost address lies in another city's override, and no override CIDR lies wholly in another city's final base or PI space |
| Engine.Run | src/iplocbuild/cli.py:152-342 | nothing is produced exactly when two configured bases overlap; otherwise each city's output is the iter_cidrs lists of its final allocation, and the per-country union is that of the final allocations |
| Engine.Engine.constructor | src/iplocbuild/cli.py:152-175 | the table is built from the configuration; PA space and results start empty |
| Engine.Engine.CheckOverlap | src/iplocbuild/cli.py:183-194 | the flag is raised exactly when two distinct bases share an address |
| Engine.Engine.LoadPaSpace | src/iplocbuild/cli.py:198-201 | PA space becomes the set of the configured PA prefixes; nothing else changes |
| Engine.Engine.FoldCidrInPlace | src/iplocbuild/cli.py:99-137 | the in-place body of process_routes computes FoldCidr |
| Engine.Engine.ProcessRoutes | src/iplocbuild/cli.py:93-137 | process_routes folds every CIDR of the set, in iteration order |
| Engine.Engine.FetchRoutes | src/iplocbuild/cli.py:28-90 | a failed query gives no data; otherwise the reply is classified against the current PA space |
| Engine.Engine.QueryCities | src/iplocbuild/cli.py:203-237 | the driver loop computes DriveAll over all cities |
| Engine.Engine.QueryCity | src/iplocbuild/cli.py:205-237 | one city's turn, the ordinary query and then the PI query, moves the table one step along DriveAll and changes nothing else |
| Engine.Engine.DedupSmallPi | src/iplocbuild/cli.py:242-253 | the dedup phase computes DedupCities against the CIDRs of the small PI union |
| Engine.Engine.Consolidate | src/iplocbuild/cli.py:261-276 | every city's final record is its consolidation |
| Engine.Engine.StripOthersInPlace | src/iplocbuild/cli.py:283-293 | the scan over the other cities computes StripOthers |
| Engine.Engine.PropagateOverrides | src/iplocbuild/cli.py:281-295 | the nested loops compute PropagateAll |
| Engine.Engine.PropagateTurn | src/iplocbuild/cli.py:282-293 | the turn of city i moves the allocations one step along PropagateAll and changes nothing else |
| Engine.Engine.StripCidrsInPlace | src/iplocbuild/cli.py:283-293 | the loop over one city's override CIDRs computes StripCidrs and changes nothing else |
| Engine.Engine.ToLists | src/iplocbuild/cli.py:300-305 | every city's final base and PI space become the iter_cidrs lists of those sets; nothing else changes |
| Engine.Engine.Countries | src/iplocbuild/cli.py:334-342 | the per-country dictionary built from the output lists is CountryTotals of the allocations |

## Where the model follows the code rather than its description

- **Override propagation.** It removes an override CIDR from another city only when that city holds the whole CIDR (cli.py:286 and 290 test containment, then `remove`). An override range can therefore stay partly in another city. Example: city C has base 10.0.0.0/16; A, earlier in table order than B, has override 10.0.0.0/24; B has override 10.0.0.0/23. A's pass removes 10.0.0.0/24 from C, B's later pass then finds its /23 no longer wholly in C, and 10.0.1.0/24 stays in C. The properties proved are the weaker ones the code keeps:
  - `Phases.PropagateClears`: no override CIDR lies wholly in another city;
  - `Phases.PropagateRemovesOverrides`: only override addresses are removed.
- **Dedup containment.** The dedup test `smallcidr in cidr` (cli.py:249) is non-strict, so a PI CIDR equal to a small PI CIDR is removed as well. At consolidation its addresses come back into the PI space of each city whose smallPiSpace holds them, which need not be the city that lost them.
- **Final bases.** The final bases are not proved pairwise disjoint. Two cities can each take over the same CIDR as an addition (cli.py:125), and overrides are added back unconditionally (cli.py:264).

## Left out

- Device access: the NETCONF session, the RPC and the XML lookups (cli.py:30-36, 49-50, 64). A query's route records are an input map from query to records. A query missing from the map is one that failed, which gives no data.
- Loading the configuration file (cli.py:17-18), and the command-line scaffold (cli.py:139-149), which is incomplete as written.
- Every print and the verbosity levels. They never change results.
- Writing the JSON and CSV files (cli.py:307-364). This includes the PI feed union at cli.py:327-330 and the conversion of the per-country sets back to lists (cli.py:346-348), which is `IpSetToList` again.
- Text forms. CIDRs are (network, length) pairs, not strings. The record's prefix length is an integer, so `int()` failing on non-numeric text is not modelled. A missing `as-path` element is not modelled either.
- IPv6. The source only handles IPv4.
- Regular expression classes. `\d` and `\w` are restricted to ASCII. `\s` and `split()` use Python's whitespace set.
- Key removal. The `del` of working keys (cli.py:267-276, 295, 301-304) is modelled by the `Allocation` and `CityOutput` record types, which lack those fields.
- Cities.NewCity: a configured CIDR that fails to parse is excluded by a precondition (`WellFormed`) rather than modelled as the exception it raises. The same holds for the PA prefixes (`ConfigOk`).
- The unused `country` argument of process_routes, and the duplicate-key check at cli.py:155. Configuration keys are unique, so that test always holds.
