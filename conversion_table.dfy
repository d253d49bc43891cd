/** The pure part of `Measured::DynamicConversionTableBuilder`: the direct-edge
    lookup, the depth-first chain composition, and the table the nested loop of
    `generate_table` builds, each as a function of the unit list. */
module ConversionTable {
  import opened Common
  import opened Closures
  import TableValidator

  /** A declared edge after normalisation: "1 of me = forward(x) of target". */
  datatype Link = Link(target: string, forward: real -> real, inverse: real -> real)

  /** A unit as the builder sees it. */
  datatype DynUnit = DynUnit(name: string, link: Option<Link>)

  /** `conversion_unit` */
  function ConversionUnit(u: DynUnit): Option<string> {
    if u.link.Some? then Some(u.link.value.target) else None
  }

  /** `units.map(&:name)` */
  function Names(units: seq<DynUnit>): (r: seq<string>)
    ensures |r| == |units| && forall i | 0 <= i < |units| :: r[i] == units[i].name
  {
    seq(|units|, i requires 0 <= i < |units| => units[i].name)
  }

  /** The units as the cycle check sees them. */
  function Nodes(units: seq<DynUnit>): (r: seq<TableValidator.Node>)
    ensures |r| == |units| && forall i | 0 <= i < |units| :: r[i] == TableValidator.Node(units[i].name, ConversionUnit(units[i]))
  {
    seq(|units|, i requires 0 <= i < |units| => TableValidator.Node(units[i].name, ConversionUnit(units[i])))
  }

  /** Unit `u` is named `from` and declares `to` as its target. */
  predicate LinksTo(u: DynUnit, from: string, to: string) {
    u.name == from && u.link.Some? && u.link.value.target == to
  }

  /** Unit `u` is an edge between `from` and `to`, in either direction. */
  predicate Joins(u: DynUnit, from: string, to: string) {
    LinksTo(u, from, to) || LinksTo(u, to, from)
  }

  /** The pair `find_direct_conversion` returns for a matching unit:
      `[amount, inverse]` when it runs from `from` to `to`, `[inverse, amount]`
      when it runs the other way. */
  function DirectPair(u: DynUnit, to: string, from: string): Pair
    requires Joins(u, from, to)
  {
    if LinksTo(u, from, to) then Pair(Prim(u.link.value.forward), Prim(u.link.value.inverse))
    else Pair(Prim(u.link.value.inverse), Prim(u.link.value.forward))
  }

  /** The scan of `find_direct_conversion`, from position k on. */
  function FindDirectFrom(units: seq<DynUnit>, to: string, from: string, k: nat): Option<Pair>
    requires k <= |units|
    decreases |units| - k
  {
    if k == |units| then None
    else if Joins(units[k], from, to) then Some(DirectPair(units[k], to, from))
    else FindDirectFrom(units, to, from, k + 1)
  }

  /** `find_direct_conversion(to:, from:)`: the pair of the first unit that is
      an edge between the two names, nil when there is none. */
  function FindDirect(units: seq<DynUnit>, to: string, from: string): Option<Pair> {
    FindDirectFrom(units, to, from, 0)
  }

  lemma {:induction false} FindDirectFromNone(units: seq<DynUnit>, to: string, from: string, k: nat)
    requires k <= |units|
    ensures FindDirectFrom(units, to, from, k).None? <==> forall i | k <= i < |units| :: !Joins(units[i], from, to)
    decreases |units| - k
  {
    if k < |units| && !Joins(units[k], from, to) {
      FindDirectFromNone(units, to, from, k + 1);
    }
  }

  lemma {:induction false} FindDirectFromSome(units: seq<DynUnit>, to: string, from: string, k: nat) returns (i: nat)
    requires k <= |units| && FindDirectFrom(units, to, from, k).Some?
    ensures k <= i < |units| && Joins(units[i], from, to)
    ensures forall j | k <= j < i :: !Joins(units[j], from, to)
    ensures FindDirectFrom(units, to, from, k).value == DirectPair(units[i], to, from)
    decreases |units| - k
  {
    if Joins(units[k], from, to) {
      i := k;
    } else {
      i := FindDirectFromSome(units, to, from, k + 1);
    }
  }

  /** The scan returns the pair of the FIRST unit joining the two names, in
      the orientation that converts `from` into `to`, and nil exactly when no
      unit joins them. */
  lemma FindDirectFirstMatch(units: seq<DynUnit>, to: string, from: string)
    ensures var r := FindDirect(units, to, from);
            && (r.None? <==> forall i | 0 <= i < |units| :: !Joins(units[i], from, to))
            && (r.Some? ==> exists i :: 0 <= i < |units| && Joins(units[i], from, to)
                                        && (forall j | 0 <= j < i :: !Joins(units[j], from, to))
                                        && r.value == DirectPair(units[i], to, from))
  {
    FindDirectFromNone(units, to, from, 0);
    if FindDirect(units, to, from).Some? {
      var i := FindDirectFromSome(units, to, from, 0);
    }
  }

  /** `units_remaining - [from]`: every occurrence removed, order kept. */
  function Remove(s: seq<string>, x: string): (r: seq<string>)
    ensures forall y :: y in r <==> y in s && y != x
    ensures |r| <= |s| && (x in s ==> |r| < |s|)
  {
    if s == [] then []
    else if s[0] == x then Remove(s[1..], x)
    else [s[0]] + Remove(s[1..], x)
  }

  /** `traverse(from:, to:, units_remaining:, amount:, inverse_amount:)`: a
      depth-first search for a chain of direct edges from `from` to `to`
      through names not yet removed, composing the procs along the way. */
  function Traverse(units: seq<DynUnit>, from: string, to: string, remaining: seq<string>, acc: Pair): Option<Pair>
    decreases |Remove(remaining, from)|, 1
  {
    TraverseEach(units, from, to, Remove(remaining, from), 0, acc)
  }

  /** The `each` over the remaining names, from position k on. */
  function TraverseEach(units: seq<DynUnit>, from: string, to: string, rest: seq<string>, k: nat, acc: Pair): Option<Pair>
    requires k <= |rest|
    decreases |rest|, 0, |rest| - k
  {
    if k == |rest| then None
    else
      var name := rest[k];
      var direct := FindDirect(units, name, from);
      if direct.None? then TraverseEach(units, from, to, rest, k + 1, acc)
      else
        var next := Step(acc, direct.value);
        if name == to then Some(next)
        else
          assert name in rest;
          var result := Traverse(units, name, to, rest, next);
          if result.Some? then result else TraverseEach(units, from, to, rest, k + 1, acc)
  }

  /** `find_conversion(to:, from:)`: a direct edge, else a traversal from the
      seed `->(x) { x }`, else MissingConversionPath(from, to). */
  function Conversion(units: seq<DynUnit>, to: string, from: string): (r: Result<Pair>)
    ensures r.Err? ==> r.error == MissingConversionPath(from, to)
  {
    var direct := FindDirect(units, to, from);
    if direct.Some? then Ok(direct.value)
    else
      var found := Traverse(units, from, to, Names(units), Pair(Identity, Identity));
      if found.Some? then Ok(found.value) else Err(MissingConversionPath(from, to))
  }

  /** The table: its keys in insertion order, and each key's row. Ruby's
      Hash keeps the position of a key that is assigned again. */
  datatype Table = Table(order: seq<string>, rows: map<string, map<string, Fn>>)

  /** The rows are keyed by exactly the names in `order`. */
  ghost predicate KeysMatch(t: Table) {
    forall n :: n in t.rows <==> n in t.order
  }

  /** `find_conversion(to:, from:)` as the table loop sees it. The table
      functions take it as a parameter so that facts about the table need not
      look inside the search. */
  type ConversionFinder = (string, string) -> Result<Pair>

  function FinderOf(units: seq<DynUnit>): (find: ConversionFinder)
    ensures forall to, from :: find(to, from) == Conversion(units, to, from)
  {
    (to, from) => Conversion(units, to, from)
  }

  /** The inner `table.each` of `generate_table` for the new unit `u`, from the
      j-th existing key on: the new row gains `u → v`, the row of `v` gains
      `v → u`, both halves of one `find_conversion` result. */
  function Fill(find: ConversionFinder, t: Table, u: string, j: nat, row: map<string, Fn>,
                rows: map<string, map<string, Fn>>): (r: Result<Table>)
    requires KeysMatch(t) && j <= |t.order| && rows.Keys == t.rows.Keys
    ensures r.Ok? ==> KeysMatch(r.value) && r.value.rows.Keys == t.rows.Keys + {u}
    ensures r.Ok? ==> r.value.order == if u in t.order then t.order else t.order + [u]
    decreases |t.order| - j
  {
    if j == |t.order| then
      Ok(Table(if u in rows then t.order else t.order + [u], rows[u := row]))
    else
      var v := t.order[j];
      var conversion := find(v, u);
      if conversion.Err? then Err(conversion.error)
      else
        var p := conversion.value;
        Fill(find, t, u, j + 1, row[v := p.forward], rows[v := rows[v][u := p.inverse]])
  }

  /** One step of the outer loop: the new unit's row starts as `u → u` =
      SELF_CONVERSION and is then filled against every existing key. */
  function AddUnit(find: ConversionFinder, t: Table, u: string): (r: Result<Table>)
    requires KeysMatch(t)
    ensures r.Ok? ==> KeysMatch(r.value) && r.value.rows.Keys == t.rows.Keys + {u}
    ensures r.Ok? ==> r.value.order == if u in t.order then t.order else t.order + [u]
  {
    Fill(find, t, u, 0, map[u := SelfConversion], t.rows)
  }

  /** The names without repeats, each where it first appears. */
  function Dedup(names: seq<string>): (r: seq<string>)
    ensures forall n :: n in r <==> n in names
    ensures Distinct(r) && |r| <= |names|
    ensures names != [] ==> |r| > 0 && r[0] == names[0]
    ensures Distinct(names) ==> r == names
  {
    if names == [] then []
    else
      var last := |names| - 1;
      var d := Dedup(names[..last]);
      assert forall n :: n in names <==> n in names[..last] || n == names[last];
      if names[last] in d then d
      else
        assert Distinct(names) ==> Distinct(names[..last]) && names == names[..last] + [names[last]];
        d + [names[last]]
  }

  /** The outer `each_with_object` over the names, in declaration order. */
  function Build(find: ConversionFinder, names: seq<string>): (r: Result<Table>)
    ensures r.Ok? ==> KeysMatch(r.value)
    ensures r.Ok? ==> r.value.order == Dedup(names)
  {
    if names == [] then Ok(Table([], map[]))
    else
      var last := |names| - 1;
      var t := Build(find, names[..last]);
      assert forall n :: n in names <==> n in names[..last] || n == names[last];
      if t.Err? then t else AddUnit(find, t.value, names[last])
  }

  /** `generate_table`: the cycle check first, then the table. */
  function Generate(units: seq<DynUnit>): Result<Table> {
    var cycle := TableValidator.ValidateNoCycles(Nodes(units));
    if cycle.Some? then Err(CycleDetected(cycle.value)) else Build(FinderOf(units), Names(units))
  }
}
