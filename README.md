# measured: the conversion-table engine

A Dafny model of the part of the Ruby `measured` gem that turns a list of
units into a dense conversion table, together with the two small value types
that engine reads (`Measured::UnitConversion` and `Measured::Unit`).

Each unit declares at most one edge: "1 of me is f(x) of unit T". The
builder checks that these edges are free of cycles. It then produces a table
in which `table[A][B]` converts an amount in A into B. `table[A][A]` is
`SELF_CONVERSION` (`x * 1`). Every other entry is either a direct edge, used
forwards or backwards, or a chain of edges found by a depth-first search.
When two units cannot be joined, `MissingConversionPath(from, to)` is raised.
The table can be served from a cache backend.

Modules, one per concern of the source:

- `Common` (`common.dfy`): `Option`, `Result`, the error kinds, `Distinct`.
- `UnitConversions` (`unit_conversion.dfy`): `UnitConversion.parse` and the
  static and dynamic descriptors.
- `Units` (`unit.dfy`): the immutable `Unit` record.
- `TableValidator` (`conversion_table_validator.dfy`): the DFS cycle check.
  It is shared by `Measured::ConversionTableValidator` and by the builder's
  private copy, which is the same code.
- `Closures` (`conversion_fn.dfy`): the procs the builder composes, as a
  small term language (`Fn`) with an evaluator (`Apply`).
- `ConversionTable` (`conversion_table.dfy`): direct lookup, `traverse`,
  `find_conversion`, and the table `generate_table` builds, each as a
  function of the unit list.
- `ConversionPaths` (`conversion_paths.dfy`): what a traversal finds.
  It is sound and complete for simple chains of edges, and inverse pairs
  compose to inverse pairs.
- `TableProofs` (`table_proofs.dfy`): the table fold, generic in the lookup.
  It proves density, the diagonal, the two halves of each lookup, and
  first-error behaviour.
- `GeneratedTable` (`generated_table.dfy`): the same facts stated for
  `generate_table` over a unit list.
- `TableBuilder` (`table_builder.dfy`): `DynamicConversionTableBuilder` as a
  class. It holds the lookup memo `@direct_conversion_cache` as a mutable map
  and a cache backend object. Its loops are proved to compute the
  functions above.
- `Scenarios` (`scenarios.dfy`): the library's own worked examples.

## Model

| member | source | states |
|---|---|---|
| Closures.Step | lib/measured/dynamic_conversion_table_builder.rb:85-86 | the new forward proc applies the accumulated one and then the hop's; the new inverse undoes the hop first and then the accumulated one; if both inputs are mutual-inverse pairs, so is the result |
| Closures.SelfConversionIsInvolutive | lib/measured/dynamic_conversion_table_builder.rb:3 | `SELF_CONVERSION` maps every amount to itself and is its own inverse |
| ConversionTable.FindDirectFromNone | lib/measured/dynamic_conversion_table_builder.rb:63-72 | the scan from position k returns nil exactly when no later unit joins the two names |
| ConversionTable.FindDirectFromSome | lib/measured/dynamic_conversion_table_builder.rb:63-72 | a hit is the first joining unit at or after k, with its pair oriented from `from` to `to` |
| ConversionTable.FindDirectFirstMatch | lib/measured/dynamic_conversion_table_builder.rb:63-72 | `find_direct_conversion` returns nil iff no unit joins the names; otherwise it returns the pair of the first joining unit: `[amount, inverse]` when that unit is `from` targeting `to`, `[inverse, amount]` when it is `to` targeting `from` |
| ConversionTable.FindDirectFrom | lib/measured/dynamic_conversion_table_builder.rb:64-71 | the `each` over the units from position k; its meaning is stated by `FindDirectFromNone` (nil iff no unit from k on joins the names) and `FindDirectFromSome` (otherwise the first joining unit's oriented pair) |
| ConversionTable.FindDirect | lib/measured/dynamic_conversion_table_builder.rb:63-72 | `find_direct_conversion`; its meaning is stated by `FindDirectFirstMatch`: nil iff no unit joins the names, else the pair of the first joining unit, oriented from `from` to `to` |
| ConversionTable.Remove | lib/measured/dynamic_conversion_table_builder.rb:79 | `units_remaining - [from]` drops every occurrence of `from` and nothing else, and is strictly shorter when `from` was present (the traversal's termination measure) |
| ConversionTable.Conversion | lib/measured/dynamic_conversion_table_builder.rb:44-50 | the only error `find_conversion` raises is `MissingConversionPath(from, to)` |
| ConversionTable.Fill | lib/measured/dynamic_conversion_table_builder.rb:32-40 | the inner loop adds exactly the key `u` to the table; `u` is appended to the key order unless it is already a key, in which case it keeps its place |
| ConversionTable.AddUnit | lib/measured/dynamic_conversion_table_builder.rb:31-41 | one outer step adds exactly the key `u`, keeping insertion order |
| ConversionTable.Dedup | lib/measured/dynamic_conversion_table_builder.rb:31 | the key order of the hash holds every name and nothing else, with no repeats, never longer than the names, starting with the first name, and exactly the names when they have no repeats |
| ConversionTable.Build | lib/measured/dynamic_conversion_table_builder.rb:31-41 | on success the keys are the names, deduplicated, in declaration order, and every key has a row |
| ConversionPaths.RouteCons | lib/measured/dynamic_conversion_table_builder.rb:81-91 | a direct edge to an allowed name followed by a route from there is a route |
| ConversionPaths.RouteTail | lib/measured/dynamic_conversion_table_builder.rb:79-91 | a route whose first hop is not the goal continues as a route among the names left after removing that hop |
| ConversionPaths.TraverseSound | lib/measured/dynamic_conversion_table_builder.rb:78-98 | a non-nil traversal is a simple chain of direct edges from `from` that ends at `to` and never revisits a name, and its result is the composition of that chain's hops |
| ConversionPaths.EachSound | lib/measured/dynamic_conversion_table_builder.rb:81-95 | the same, for the `each` over the remaining names from position k |
| ConversionPaths.TraverseComplete | lib/measured/dynamic_conversion_table_builder.rb:78-98 | whenever such a chain exists, the traversal finds one (backtracking out of dead ends) |
| ConversionTable.Traverse | lib/measured/dynamic_conversion_table_builder.rb:78-98 | `traverse`; its meaning is stated by `TraverseSound` (a result is the composition along a simple chain from `from` to `to` through the remaining names) and `TraverseComplete` (such a chain always yields a result) |
| ConversionTable.TraverseEach | lib/measured/dynamic_conversion_table_builder.rb:81-95 | the `each` over the remaining names with its early returns; its meaning is stated by `EachSound` and `EachComplete` |
| ConversionPaths.EachComplete | lib/measured/dynamic_conversion_table_builder.rb:81-95 | the `each` finds a chain when one starts at a name at or after position k |
| ConversionPaths.ConversionFound | lib/measured/dynamic_conversion_table_builder.rb:44-50 | `find_conversion` succeeds iff there is a direct edge or a simple chain between the names, and a direct edge is preferred over any chain |
| ConversionPaths.StaticLinkIsInverse | lib/measured/unit_conversion.rb:54-58 | a static amount `a != 0` and its inverse `1/a` undo each other |
| ConversionPaths.DirectIsInverse | lib/measured/dynamic_conversion_table_builder.rb:63-72 | a direct lookup returns a mutual-inverse pair when every declared edge's procs undo each other |
| ConversionPaths.ComposeIsInverse | lib/measured/dynamic_conversion_table_builder.rb:85-86 | composing inverse pairs along a chain gives an inverse pair |
| ConversionPaths.ConversionIsInverse | lib/measured/dynamic_conversion_table_builder.rb:44-50 | every result of `find_conversion`, direct or traversed, is a mutual-inverse pair under that assumption |
| TableProofs.FillOutcome | lib/measured/dynamic_conversion_table_builder.rb:33-38 | the inner loop from position j succeeds iff every lookup `find_conversion(to: v, from: u)` for the remaining keys succeeds; on failure the error is one of those lookups' errors |
| TableProofs.AddUnitOutcome | lib/measured/dynamic_conversion_table_builder.rb:31-41 | one outer step succeeds iff the new name converts to every existing key |
| TableProofs.PairsSplit | lib/measured/dynamic_conversion_table_builder.rb:31-41 | all pairs of a list convert iff all pairs of its prefix do and the last name converts to every earlier one |
| TableProofs.BuildSucceeds | lib/measured/dynamic_conversion_table_builder.rb:31-41 | the table is built iff every earlier name `a` and later name `b` satisfy `find_conversion(to: a, from: b)` succeeding |
| TableProofs.BuildFails | lib/measured/dynamic_conversion_table_builder.rb:31-41 | a failed build reports the error of some lookup between an earlier and a later name |
| TableProofs.AddUnitDescribes | lib/measured/dynamic_conversion_table_builder.rb:31-41 | adding a new name to a complete table gives a complete table: the new row holds `u → u` and `u → v`, and each earlier row `v` gains `v → u` |
| TableProofs.BuildDescribes | lib/measured/dynamic_conversion_table_builder.rb:31-41 | for distinct names a built table is keyed by the names in order; every row is keyed by every name; the diagonal is `SELF_CONVERSION`; `rows[b][a]` and `rows[a][b]` are the two halves of one lookup |
| TableProofs.BuildStopsAtFirstError | lib/measured/dynamic_conversion_table_builder.rb:31-41 | once a prefix of the names fails, the whole table fails with the same error |
| TableProofs.FillReaches | lib/measured/dynamic_conversion_table_builder.rb:33-38 | a successful inner loop ends with the new row and the updated old rows described by the row and rows invariants |
| GeneratedTable.CycleCheckFirst | lib/measured/dynamic_conversion_table_builder.rb:28-29 | when the cycle check reports a unit, that `CycleDetected` is the result whatever the lookups would find, and a `CycleDetected` comes from nowhere else |
| GeneratedTable.GenerateSucceeds | lib/measured/dynamic_conversion_table_builder.rb:28-42 | a table is produced iff the cycle check passes and every pair of unit names is joined by an edge or a chain |
| ConversionTable.Generate | lib/measured/dynamic_conversion_table_builder.rb:28-42 | `generate_table`; its meaning is stated by `CycleCheckFirst`, `GenerateSucceeds`, `MissingPathMeansDisconnected` and `GeneratedTableEntries` (the keys are the names, the diagonal is `SELF_CONVERSION`, and each pair of entries is the two halves of one lookup) |
| GeneratedTable.MissingPathMeansDisconnected | lib/measured/dynamic_conversion_table_builder.rb:44-50 | `MissingConversionPath(from, to)` names a later unit as `from` and an earlier one as `to`, and no edge or chain joins them |
| GeneratedTable.GeneratedTableEntries | lib/measured/dynamic_conversion_table_builder.rb:31-41 | with distinct names a generated table has the names as keys in declaration order, is dense, has `SELF_CONVERSION` on the diagonal, and holds in `table[b][a]` / `table[a][b]` the forward / inverse halves of `find_conversion(to: a, from: b)` |
| GeneratedTable.GeneratedKeys | lib/measured/dynamic_conversion_table_builder.rb:31-41 | the key part of the previous row |
| GeneratedTable.GeneratedDiagonal | lib/measured/dynamic_conversion_table_builder.rb:32 | the diagonal part of the previous row |
| GeneratedTable.GeneratedPairs | lib/measured/dynamic_conversion_table_builder.rb:34-37 | the off-diagonal part of the previous row |
| GeneratedTable.EntryPair | lib/measured/dynamic_conversion_table_builder.rb:34-37 | one pair of entries of a generated table is the two halves of one lookup |
| GeneratedTable.DiagonalEntry | lib/measured/dynamic_conversion_table_builder.rb:32 | one diagonal entry is `SELF_CONVERSION` |
| GeneratedTable.KeyIsName | lib/measured/dynamic_conversion_table_builder.rb:40 | every key is a unit's name |
| GeneratedTable.RoundTrip | lib/measured/dynamic_conversion_table_builder.rb:34-37 | when every edge's procs undo each other, `table[b][a](table[a][b](x)) == x` for all keys `a`, `b` |
| GeneratedTable.SelfConversionNeedsSelfLink | lib/measured/dynamic_conversion_table_builder.rb:78-98 | a name converts to itself only through a unit declaring an edge to itself, because a traversal never returns to its start |
| GeneratedTable.GeneratedNamesAreDistinct | lib/measured/dynamic_conversion_table_builder.rb:31-41 | without self-edges a repeated unit name makes generation fail, so a generated table always comes from distinct names |
| TableBuilder.TableCache.constructor | lib/measured/dynamic_conversion_table_builder.rb:9-10 | a new backend is empty |
| TableBuilder.TableCache.Exist | lib/measured/dynamic_conversion_table_builder.rb:23 | `exist?` is true iff a table is stored |
| TableBuilder.TableCache.Read | lib/measured/dynamic_conversion_table_builder.rb:14 | `read` returns the stored table |
| TableBuilder.TableCache.Write | lib/measured/dynamic_conversion_table_builder.rb:19 | a storing backend keeps the written table; the Null backend drops it |
| TableBuilder.ConversionTableBuilder.constructor | lib/measured/dynamic_conversion_table_builder.rb:7-11 | keeps the units, starts with an empty memo, and uses the given backend or a fresh Null one |
| TableBuilder.ConversionTableBuilder.FindDirectCached | lib/measured/dynamic_conversion_table_builder.rb:52-61 | returns exactly what `find_direct_conversion` returns, nil included; afterwards the key is memoised; no stored entry is changed or removed; only `(to, from)` can be new |
| TableBuilder.ConversionTableBuilder.FindConversion | lib/measured/dynamic_conversion_table_builder.rb:44-50 | equals `Conversion` (a direct edge, else the traversal, else `MissingConversionPath(from, to)`) and keeps the memo consistent |
| TableBuilder.ConversionTableBuilder.AddRow | lib/measured/dynamic_conversion_table_builder.rb:32-40 | the in-place inner loop produces `AddUnit` for the next name |
| TableBuilder.ConversionTableBuilder.AddRows | lib/measured/dynamic_conversion_table_builder.rb:31-41 | the in-place outer loop produces `Build` over the names and stops at the first raise |
| TableBuilder.ConversionTableBuilder.GenerateTable | lib/measured/dynamic_conversion_table_builder.rb:28-42 | returns `Generate(units)`; when the cycle check fails, no lookup is made and the memo is unchanged |
| TableBuilder.ConversionTableBuilder.Cached | lib/measured/dynamic_conversion_table_builder.rb:22-24 | `cached?` is whether the backend holds a table |
| TableBuilder.ConversionTableBuilder.ToH | lib/measured/dynamic_conversion_table_builder.rb:13-16 | with a stored table, returns it untouched and makes no lookup; otherwise returns a freshly generated table; the backend never changes |
| TableBuilder.ConversionTableBuilder.UpdateCache | lib/measured/dynamic_conversion_table_builder.rb:18-20 | always regenerates; a generated table is written to the backend; an error leaves the backend as it was |
| TableValidator.GroupByName | lib/measured/conversion_table_validator.rb:7 | the graph's keys are exactly its groups' names, and every grouped index is a unit with a present target and that name |
| TableValidator.GroupKeysDistinct | lib/measured/conversion_table_validator.rb:7 | each name is a key once |
| TableValidator.GroupKeepsEdges | lib/measured/conversion_table_validator.rb:7 | every unit with a present target is in its name's group |
| TableValidator.GroupEmpty | lib/measured/conversion_table_validator.rb:7-8 | there are no keys (so the start is nil) exactly when no unit declares a present target |
| TableValidator.GroupFirstKey | lib/measured/conversion_table_validator.rb:7-8 | the first key, where the walk starts, is the name of the first unit that declares a target |
| TableValidator.GroupByNameFacts | lib/measured/conversion_table_validator.rb:7 | the four facts above together |
| TableValidator.TargetsShrink | lib/measured/conversion_table_validator.rb:18 | extending `visited` with a new target strictly shrinks the set of unvisited targets, so the walk terminates |
| TableValidator.CheckEdgesPassed | lib/measured/conversion_table_validator.rb:13-20 | when a group's `each` passes, every edge in it leads outside `visited` and the walk from its target passes |
| TableValidator.PassedWalksDoNotRepeat | lib/measured/conversion_table_validator.rb:12-21 | when the walk from `from` passes, every chain of declared edges out of `from` visits distinct names, none of them already visited |
| TableValidator.ReachableCycleIsReported | lib/measured/conversion_table_validator.rb:6-9 | a cycle reachable from the first key is always reported |
| TableValidator.CheckEdgesReportsCycle | lib/measured/conversion_table_validator.rb:13-20 | an edge is reported only when a chain leads from its target back to its source |
| TableValidator.ReportedCycleIsReal | lib/measured/conversion_table_validator.rb:15-16 | the unit carried by `CycleDetected` has an edge that closes a cycle of declared targets |
| TableValidator.ValidateNoCycles | lib/measured/conversion_table_validator.rb:6-9 | `validate_no_cycles`; its meaning is stated by `ReachableCycleIsReported` (a cycle reachable from the first key is reported) and `ReportedCycleIsReal` (a reported unit's edge closes a real cycle), with `UnreachableCycleIsMissed` showing the cycles it misses |
| TableValidator.ValidateAcyclicGraph | lib/measured/conversion_table_validator.rb:12-21 | the depth-first walk from one name; `graph[from]&.each` makes a name with no group pass (`BaseUnitEndsBranch`), and its reports are real cycles (`CheckEdgesReportsCycle`) |
| TableValidator.CheckEdges | lib/measured/conversion_table_validator.rb:13-20 | the `each` over one group's edges; an edge is reported only when its target is already visited, and it passes only when every edge leads outside the visited names and the walk from its target passes (`CheckEdgesPassed`, `CheckEdgesReportsCycle`) |
| TableValidator.NoTargetsPass | lib/measured/conversion_table_validator.rb:8 | with no declared target the start is nil and validation passes |
| TableValidator.BaseUnitEndsBranch | lib/measured/conversion_table_validator.rb:13 | reaching a name that declares no target ends that branch without error |
| Scenarios.UltimaToArcane | test/dynamic_arithmetic_test.rb:179 | 1 ultima converts to 20 arcane (direct edge `10x + 10`) |
| Scenarios.UltimaToMagicMissile | test/dynamic_arithmetic_test.rb:180 | 1 ultima converts to 200 magic_missile, through arcane |
| Scenarios.ArcaneToUltima | test/dynamic_arithmetic_test.rb:182 | 1 arcane converts to -0.9 ultima (the edge used backwards) |
| Scenarios.ArcaneToUltimaInTable | test/dynamic_arithmetic_test.rb:182 | the table's arcane → ultima entry, the inverse half of the ultima → arcane lookup, takes 1 arcane to -0.9 ultima |
| Scenarios.MagicMissileToUltima | test/dynamic_arithmetic_test.rb:186 | 200 magic_missile converts to 1 ultima; the search backs out of the fireball and ice branches first |
| Scenarios.MagicMissileToUltimaInTable | test/dynamic_arithmetic_test.rb:186 | the table's magic_missile → ultima entry, the inverse half of the ultima → magic_missile lookup, takes 200 magic_missile to 1 ultima |
| Scenarios.FireballDeadEnd | test/support/fake_system.rb:13 | fireball joins only magic_missile, so a search through it for ultima fails |
| Scenarios.IceDeadEnd | test/support/fake_system.rb:15-22 | the same for ice |
| Scenarios.MetreToMillimetre | test/dynamic_arithmetic_test.rb:119 | 1 m converts to 1000 mm along m → dm → cm → mm |
| Scenarios.MutualPairIsReported | lib/measured/conversion_table_validator.rb:15-16 | for X → Y and Y → X the walk from X reports X's edge |
| Scenarios.UnreachableCycleIsMissed | lib/measured/conversion_table_validator.rb:8 | a cycle C ⇄ D that the walk from the first key A never reaches is not reported |
| UnitConversions.UnitConversion.IsStatic | lib/measured/unit_conversion.rb:13-19 | `static?` is always the opposite of `dynamic?` |
| UnitConversions.UnitConversion.IsDynamic | lib/measured/unit_conversion.rb:13-15 | `dynamic?`; its meaning is stated by `IsStatic` (always the opposite) and `Parse` (dynamic exactly when the spec is an Array whose first element is a proc) |
| UnitConversions.UnitConversion.AmountOf | lib/measured/unit_conversion.rb:5 | `amount` is nil iff none was given; otherwise it is exactly the stored rational for a static conversion and exactly the stored proc for a dynamic one |
| UnitConversions.UnitConversion.InverseAmount | lib/measured/unit_conversion.rb:25-29 | nil without an amount; a zero static amount raises; a static inverse times the amount is 1; a dynamic inverse is the pointwise reciprocal of the proc wherever the proc is nonzero |
| UnitConversions.UnitConversion.ToS | lib/measured/unit_conversion.rb:48-52 | static: `"<amount> <unit>"` exactly when both are present, nil otherwise; dynamic: the given conversion string |
| UnitConversions.Parse | lib/measured/unit_conversion.rb:62-89 | raises `UnitError` exactly for a non-nil non-String non-Array, an Array not of size 2, or a String the parser rejects; nil gives the empty static conversion; a proc first token gives a dynamic conversion with that proc, unit and string; any other first token gives a static conversion whose amount is that token read as a rational and whose unit is the second element (as in test/unit_conversion_test.rb:13-19); a String gives the parsed amount and unit |
| UnitConversions.ParseReadsBackToS | lib/measured/unit_conversion.rb:48-52 | a complete static conversion's `to_s` parses back to the same conversion whenever the string parser reads back what rational formatting writes |
| UnitConversions.ParseNil | lib/measured/unit_conversion.rb:63-65 | `parse(nil)` is static with no amount, unit, text or inverse |
| UnitConversions.StaticInverseOfTen | test/unit_conversion_test.rb:37-39 | the inverse of a static 10 is 1/10 |
| Units.CompareStrings | lib/measured/unit.rb:49 | `String#<=>` returns -1, 0 or 1, and 0 exactly for equal strings |
| Units.CompareStringsAntisymmetric | lib/measured/unit.rb:49 | swapping the operands of `String#<=>` negates the result |
| Units.CompareNames | lib/measured/unit.rb:42 | `Array#<=>` on name lists returns -1, 0 or 1, and 0 exactly for equal lists |
| Units.CompareNamesAntisymmetric | lib/measured/unit.rb:42 | swapping the operands of `Array#<=>` negates the result |
| Units.Insert | lib/measured/unit.rb:11 | insertion adds exactly one name, as a multiset |
| Units.InsertSorted | lib/measured/unit.rb:11 | insertion into a sorted list keeps it sorted |
| Units.SortNames | lib/measured/unit.rb:11 | `sort!` yields a sorted permutation of its input |
| Units.NewUnit | lib/measured/unit.rb:8-14 | raises iff the value does not parse, and then raises parse's own `UnitError`; keeps name, aliases and system; the conversion is the parsed one; `names` is the sorted `[name] + aliases`, contains `name` and has `aliases.size + 1` entries |
| Units.BaseUnit | lib/measured/unit.rb:53-63 | a unit without a value has no conversion unit, amount, inverse amount or conversion text |
| Units.ConversionUnit | lib/measured/unit.rb:53-55 | `conversion_unit`; `TextUnitAccessors` and `ProcUnitAccessors` state that it is the unit named in the declared value, and `BaseUnit` that it is nil without one |
| Units.ConversionAmount | lib/measured/unit.rb:57-59 | `conversion_amount`; `TextUnitAccessors` states it is the parsed rational, `ProcUnitAccessors` the declared proc, `BaseUnit` nil |
| Units.InverseConversionAmount | lib/measured/unit.rb:61-63 | `inverse_conversion_amount`; `TextUnitAccessors` states it is 1/amount (ZeroDivisionError at 0), `ProcUnitAccessors` the pointwise reciprocal of the proc, `BaseUnit` nil |
| Units.TextUnitAccessors | lib/measured/unit.rb:53-63 | for a unit declared with a String that parses, the conversion unit and amount are what the parser read, and the inverse amount is 1/amount, or ZeroDivisionError for a zero amount |
| Units.ProcUnitAccessors | lib/measured/unit.rb:53-63 | for a unit declared with `[proc, unit]`, the conversion unit is that unit, the amount is that very proc, and the inverse amount is its pointwise reciprocal |
| Units.With | lib/measured/unit.rb:16-23 | the result is `Unit.new` on the overrides, each field not overridden coming from the receiver; a given non-nil value is parsed as the new conversion, while a missing or explicit nil value falls back to the receiver's conversion text, re-parsed, or, when there is no text, to a unit with the empty conversion |
| Units.WithKeepsStaticUnit | lib/measured/unit.rb:16-23 | `with` and no overrides gives back the same static unit when its text reads back |
| Units.WithDropsProc | lib/measured/unit.rb:16-23 | `with` without a new value never yields a dynamic unit, since only the conversion text is carried over |
| Units.UnitToS | lib/measured/unit.rb:25-31 | `"name (conversion)"` when a conversion text exists and is asked for, else just the name |
| Units.CompareAmounts | lib/measured/unit.rb:46 | two rationals always compare, with the sign of their difference; nil against nil is 0; nil against a rational, or anything against a proc, is nil |
| Units.Compare | lib/measured/unit.rb:40-51 | for two units, differing names give the names' nonzero comparison and equal names give the comparison of the conversion amounts, so 0 means both are equal; against a string, the name's string comparison, 0 iff the name equals it; anything else is nil |
| Units.CompareAntisymmetric | lib/measured/unit.rb:40-51 | `<=>` between units is antisymmetric and both directions are comparable or neither is |

## Left out

- `Unit#to_dynamic` is not part of this model. The builder takes units
  already normalised to a name plus an optional `Link(target, forward,
  inverse)`.
- `initialize` rewrites the caller's array in place with `map!`. Only the
  builder's own copy is modelled.
- `Measured::Parser.parse_string`, `String#to_r` and `Rational#to_s` are not
  part of this model. They are parameters (`Notation`): the string parser is
  a function that may reject its input, and rational formatting is opaque.
  So "1/2 sweet" for a 0.5 amount is not derived.
- `Unit#initialize` calls `UnitConversion.new(value)`, but `UnitConversion`
  defines only `parse`. The model builds the descriptor with `Parse`.
- `UnitConversions.Parse`: a second Array element that is not a word is
  taken as no unit, rather than kept as an arbitrary Ruby object.
- `Units.With`: `Other` stands for any value that is neither nil, a String
  nor an Array. Passing `false` as the value would fall back to the
  receiver's text in Ruby; the model has no separate `false` and parses it
  as `Other`, which raises `UnitError`.
- `Units.CompareAmounts`: a dynamic amount is a proc. Procs are compared by
  identity in Ruby, and that is not modelled; any comparison involving one
  gives nil.
- The cache backends (`Measured::Cache::Null` and the others) are storage.
  `TableCache` keeps one optional table and a flag saying whether writes are
  kept; the backend constructor arguments are not modelled.
- `traverse` calls the memoised lookup. `ConversionTable.Traverse` uses the
  direct lookup itself, which returns the same values. Only the table loop's
  own lookups fill `directCache` in the class; the entries the traversal
  would add are not recorded.
- Procs are `real -> real` functions, and composed procs are terms of `Fn`.
  Whether a declared edge's procs undo each other is an assumption
  (`AllLinksInverse`), not derived from Ruby code.
- `GeneratedTable.RoundTrip`: holds only under `AllLinksInverse` and for
  distinct names, since nothing in the source makes a conversion's inverse
  proc undo its forward proc.
- `GeneratedTable.GeneratedTableEntries`: stated for distinct unit names.
  With a repeated name, Ruby's hash reassignment keeps the key's position
  and replaces the row. The model computes that too (`ConversionTable.Fill`),
  but the entry facts are proved only for distinct names.
  `GeneratedTable.GeneratedNamesAreDistinct` shows that without self-edges a
  generated table always has distinct names.
- `CycleDetected` carries the index of the unit whose edge closed the cycle,
  rather than the unit object.
- Exceptions are `Err` values. Message text, `inspect` and `freeze` are not
  modelled.
- The unit system of a unit is an opaque identifier.
- Quantity arithmetic, `convert_to`, floats and infinities belong to the
  measurable classes, which are not part of this model. The worked examples
  are stated on the table's conversion procs.
