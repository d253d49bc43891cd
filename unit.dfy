/** `Measured::Unit`: an immutable named unit with its aliases and its
    conversion descriptor. */
module Units {
  import opened Common
  import opened UnitConversions

  /** `String#<=>`: byte-wise comparison. Comparing code points gives the same
      order as comparing UTF-8 bytes. */
  function CompareStrings(a: string, b: string): (r: int)
    ensures -1 <= r <= 1
    ensures r == 0 <==> a == b
  {
    if a == [] then (if b == [] then 0 else -1)
    else if b == [] then 1
    else if a[0] < b[0] then -1
    else if a[0] > b[0] then 1
    else
      var r := CompareStrings(a[1..], b[1..]);
      assert r == 0 <==> a == b by {
        assert a == [a[0]] + a[1..] && b == [b[0]] + b[1..];
      }
      r
  }

  lemma {:induction false} CompareStringsAntisymmetric(a: string, b: string)
    ensures CompareStrings(b, a) == -CompareStrings(a, b)
  {
    if a != [] && b != [] && a[0] == b[0] {
      CompareStringsAntisymmetric(a[1..], b[1..]);
    }
  }

  /** `Array#<=>` on two arrays of strings: element by element, then by length. */
  function CompareNames(a: seq<string>, b: seq<string>): (r: int)
    ensures -1 <= r <= 1
    ensures r == 0 <==> a == b
  {
    if a == [] then (if b == [] then 0 else -1)
    else if b == [] then 1
    else
      var c := CompareStrings(a[0], b[0]);
      if c != 0 then c
      else
        var r := CompareNames(a[1..], b[1..]);
        assert r == 0 <==> a == b by {
          assert a == [a[0]] + a[1..] && b == [b[0]] + b[1..];
        }
        r
  }

  lemma {:induction false} CompareNamesAntisymmetric(a: seq<string>, b: seq<string>)
    ensures CompareNames(b, a) == -CompareNames(a, b)
  {
    if a != [] && b != [] {
      CompareStringsAntisymmetric(a[0], b[0]);
      if a[0] == b[0] {
        CompareNamesAntisymmetric(a[1..], b[1..]);
      }
    }
  }

  predicate Sorted(s: seq<string>) {
    forall i | 0 <= i < |s| - 1 :: CompareStrings(s[i], s[i + 1]) <= 0
  }

  /** A name no greater than the head of a sorted list extends it. */
  lemma SortedCons(a: string, s: seq<string>)
    requires Sorted(s) && (s == [] || CompareStrings(a, s[0]) <= 0)
    ensures Sorted([a] + s)
  {
    var r := [a] + s;
    forall i | 0 <= i < |r| - 1 ensures CompareStrings(r[i], r[i + 1]) <= 0 {
      if i > 0 {
        assert r[i] == s[i - 1] && r[i + 1] == s[i];
      }
    }
  }

  /** Inserting one name before the first name it does not sort after. */
  function Insert(x: string, s: seq<string>): (r: seq<string>)
    ensures multiset(r) == multiset(s) + multiset{x}
    ensures |r| == |s| + 1
    ensures r[0] == x || (s != [] && r[0] == s[0])
  {
    if s == [] then [x]
    else if CompareStrings(x, s[0]) <= 0 then [x] + s
    else
      var rest := Insert(x, s[1..]);
      assert s == [s[0]] + s[1..];
      [s[0]] + rest
  }

  /** Inserting into a sorted list keeps it sorted. */
  lemma {:induction false} InsertSorted(x: string, s: seq<string>)
    requires Sorted(s)
    ensures Sorted(Insert(x, s))
  {
    if s != [] {
      if CompareStrings(x, s[0]) <= 0 {
        SortedCons(x, s);
      } else {
        var tail := s[1..];
        assert Sorted(tail) by {
          forall i | 0 <= i < |tail| - 1 ensures CompareStrings(tail[i], tail[i + 1]) <= 0 {
            assert tail[i] == s[i + 1] && tail[i + 1] == s[i + 2];
          }
        }
        InsertSorted(x, tail);
        CompareStringsAntisymmetric(x, s[0]);
        assert tail != [] ==> CompareStrings(s[0], tail[0]) <= 0;
        SortedCons(s[0], Insert(x, tail));
      }
    }
  }

  /** `sort!` on an array of names. */
  function SortNames(s: seq<string>): (r: seq<string>)
    ensures Sorted(r)
    ensures multiset(r) == multiset(s)
    ensures |r| == |s|
  {
    if s == [] then []
    else
      assert s == [s[0]] + s[1..];
      InsertSorted(s[0], SortNames(s[1..]));
      Insert(s[0], SortNames(s[1..]))
  }

  /** The owner of a unit (`unit_system`), by identity. */
  type SystemRef = nat

  datatype Unit = Unit(
    name: string,
    aliases: seq<string>,
    names: seq<string>,
    conversion: UnitConversion,
    unitSystem: Option<SystemRef>)

  /** `Unit.new(name, aliases:, value:, unit_system:)`; the descriptor comes from
      `UnitConversion.parse(value)`, so a malformed value raises UnitError. */
  function NewUnit(name: string, aliases: seq<string>, value: Spec, unitSystem: Option<SystemRef>, nt: Notation): (r: Result<Unit>)
    ensures r.Err? <==> Parse(value, None, nt).Err?
    ensures r.Err? ==> r.error == Parse(value, None, nt).error
    ensures r.Ok? ==>
              && r.value.name == name && r.value.aliases == aliases && r.value.unitSystem == unitSystem
              && r.value.conversion == Parse(value, None, nt).value
              && Sorted(r.value.names)
              && multiset(r.value.names) == multiset([name] + aliases)
              && name in r.value.names
              && |r.value.names| == |aliases| + 1
  {
    var conversion := Parse(value, None, nt);
    if conversion.Err? then Err(conversion.error)
    else
      var names := SortNames([name] + aliases);
      assert name in multiset(names);
      Ok(Unit(name, aliases, names, conversion.value, unitSystem))
  }

  /** `conversion_unit` */
  function ConversionUnit(u: Unit): Option<string> {
    u.conversion.unit
  }

  /** `conversion_amount` */
  function ConversionAmount(u: Unit): Option<Amount> {
    u.conversion.AmountOf()
  }

  /** `inverse_conversion_amount` */
  function InverseConversionAmount(u: Unit): Result<Option<Amount>> {
    u.conversion.InverseAmount()
  }

  /** A unit declared without a value is a base unit: it names no target and
      has no amount, no inverse amount and no conversion text. */
  lemma BaseUnit(name: string, aliases: seq<string>, unitSystem: Option<SystemRef>, nt: Notation)
    ensures NewUnit(name, aliases, NoSpec, unitSystem, nt).Ok?
    ensures var u := NewUnit(name, aliases, NoSpec, unitSystem, nt).value;
            ConversionUnit(u).None? && ConversionAmount(u).None?
            && InverseConversionAmount(u) == Ok(None) && u.conversion.ToS(nt).None?
  {
  }

  /** A unit declared with a String value: its conversion unit and amount are
      what the parser read, and its inverse amount is 1/amount, raising
      ZeroDivisionError for a zero amount. */
  lemma TextUnitAccessors(name: string, aliases: seq<string>, text: string, unitSystem: Option<SystemRef>, nt: Notation)
    requires nt.parseString(text).Some?
    ensures NewUnit(name, aliases, Text(text), unitSystem, nt).Ok?
    ensures var u := NewUnit(name, aliases, Text(text), unitSystem, nt).value;
            var (amount, target) := nt.parseString(text).value;
            && ConversionUnit(u) == Some(target)
            && ConversionAmount(u) == Some(Exact(amount))
            && (amount == 0.0 ==> InverseConversionAmount(u) == Err(ZeroDivision))
            && (amount != 0.0 ==> InverseConversionAmount(u) == Ok(Some(Exact(1.0 / amount))))
  {
  }

  /** A unit declared with `[proc, unit]`: its conversion unit is the named
      unit, its amount is the proc itself and its inverse amount is the
      pointwise reciprocal of that proc. */
  lemma ProcUnitAccessors(name: string, aliases: seq<string>, f: real -> real, target: string, unitSystem: Option<SystemRef>, nt: Notation)
    ensures NewUnit(name, aliases, Tokens([Proc(f), Word(target)]), unitSystem, nt).Ok?
    ensures var u := NewUnit(name, aliases, Tokens([Proc(f), Word(target)]), unitSystem, nt).value;
            && ConversionUnit(u) == Some(target)
            && ConversionAmount(u).Some? && ConversionAmount(u).value.Lambda? && ConversionAmount(u).value.fn == f
            && InverseConversionAmount(u).Ok? && InverseConversionAmount(u).value.Some?
            && InverseConversionAmount(u).value.value.Lambda?
            && Reciprocal(InverseConversionAmount(u).value.value.fn, f)
  {
  }

  /** `with(name:, unit_system:, aliases:, value:)`: a new unit in which each
      argument left nil is taken from the receiver; the value falls back to the
      receiver's conversion text, which is parsed again. */
  function With(u: Unit, name: Option<string>, unitSystem: Option<SystemRef>, aliases: Option<seq<string>>,
                value: Option<Spec>, nt: Notation): (r: Result<Unit>)
    ensures r.Ok? ==>
              && r.value.name == name.GetOr(u.name)
              && r.value.aliases == aliases.GetOr(u.aliases)
              && r.value.unitSystem == unitSystem.Or(u.unitSystem)
    ensures value.Some? && !value.value.NoSpec? ==>
              r == NewUnit(name.GetOr(u.name), aliases.GetOr(u.aliases), value.value, unitSystem.Or(u.unitSystem), nt)
    ensures (value.None? || value.value.NoSpec?) && u.conversion.ToS(nt).Some? ==>
              r == NewUnit(name.GetOr(u.name), aliases.GetOr(u.aliases), Text(u.conversion.ToS(nt).value), unitSystem.Or(u.unitSystem), nt)
    ensures (value.None? || value.value.NoSpec?) && u.conversion.ToS(nt).None? ==>
              && r == NewUnit(name.GetOr(u.name), aliases.GetOr(u.aliases), NoSpec, unitSystem.Or(u.unitSystem), nt)
              && r.Ok? && r.value.conversion == Static(None, None)
  {
    var text := u.conversion.ToS(nt);
    var spec := if value.Some? && !value.value.NoSpec? then value.value else if text.Some? then Text(text.value) else NoSpec;
    NewUnit(name.GetOr(u.name), aliases.GetOr(u.aliases), spec, unitSystem.Or(u.unitSystem), nt)
  }

  /** Re-creating a unit with `with` and no overrides gives back the same unit
      when its static conversion reads back from its own text. */
  lemma WithKeepsStaticUnit(name: string, aliases: seq<string>, value: Spec, sys: Option<SystemRef>, nt: Notation)
    requires NewUnit(name, aliases, value, sys, nt).Ok?
    requires var c := NewUnit(name, aliases, value, sys, nt).value.conversion;
             c.Static? && c.amount.Some? && c.unit.Some?
             && nt.parseString(nt.formatRational(c.amount.value) + " " + c.unit.value) == Some((c.amount.value, c.unit.value))
    ensures var u := NewUnit(name, aliases, value, sys, nt).value;
            With(u, None, None, None, None, nt) == Ok(u)
  {
  }

  /** `with` without a new value never yields a dynamic unit: a proc is not
      carried over, only the conversion's text is re-parsed. */
  lemma WithDropsProc(u: Unit, name: Option<string>, sys: Option<SystemRef>, aliases: Option<seq<string>>, nt: Notation)
    requires u.conversion.Dynamic?
    ensures var r := With(u, name, sys, aliases, None, nt);
            r.Ok? ==> !r.value.conversion.IsDynamic()
  {
  }

  /** `to_s(with_conversion_string:)`: "name (conversion)" when the conversion
      has a text and it is asked for, the bare name otherwise. */
  function UnitToS(u: Unit, withConversionString: bool, nt: Notation): (r: string)
    ensures |r| >= |u.name| && r[..|u.name|] == u.name
    ensures r == u.name <==> !(withConversionString && u.conversion.ToS(nt).Some?)
    ensures r != u.name ==> r[|u.name|..] == " (" + u.conversion.ToS(nt).value + ")"
  {
    var text := u.conversion.ToS(nt);
    if withConversionString && text.Some? then u.name + " (" + text.value + ")" else u.name
  }

  /** What `<=>` may be handed: another unit, a string, or another object. */
  datatype Comparand = AUnit(unit: Unit) | AString(text: string) | AnotherObject

  /** `<=>` between two amounts: nil <=> nil is 0, two rationals compare by
      value, and anything else (a proc, or nil against a rational) is nil. */
  function CompareAmounts(a: Option<Amount>, b: Option<Amount>): (r: Option<int>)
    ensures r == Some(0) <==> (a.None? && b.None?) || (a.Some? && b.Some? && a.value.Exact? && b.value.Exact? && a.value.value == b.value.value)
    ensures a.Some? && b.Some? && a.value.Exact? && b.value.Exact? ==>
              && r.Some?
              && (r.value < 0 <==> a.value.value < b.value.value)
              && (r.value > 0 <==> a.value.value > b.value.value)
    ensures a.None? != b.None? ==> r.None?
    ensures (a.Some? && a.value.Lambda?) || (b.Some? && b.value.Lambda?) ==> r.None?
  {
    if a.None? && b.None? then Some(0)
    else if a.Some? && b.Some? && a.value.Exact? && b.value.Exact? then
      Some(if a.value.value < b.value.value then -1 else if a.value.value > b.value.value then 1 else 0)
    else None
  }

  /** `<=>`: for a unit, names first and the conversion amounts only when the
      names are equal; for anything else, the name against that object. */
  function Compare(u: Unit, other: Comparand): (r: Option<int>)
    ensures other.AUnit? ==>
              (r == Some(0) <==> u.names == other.unit.names && CompareAmounts(ConversionAmount(u), ConversionAmount(other.unit)) == Some(0))
    ensures other.AUnit? && u.names != other.unit.names ==> r == Some(CompareNames(u.names, other.unit.names)) && r != Some(0)
    ensures other.AUnit? && u.names == other.unit.names ==>
              r == CompareAmounts(ConversionAmount(u), ConversionAmount(other.unit))
    ensures other.AString? ==> r == Some(CompareStrings(u.name, other.text))
    ensures other.AString? ==> (r == Some(0) <==> u.name == other.text)
    ensures other.AnotherObject? ==> r.None?
  {
    match other
    case AUnit(o) =>
      var c := CompareNames(u.names, o.names);
      if c != 0 then Some(c) else CompareAmounts(ConversionAmount(u), ConversionAmount(o))
    case AString(s) => Some(CompareStrings(u.name, s))
    case AnotherObject => None
  }

  /** `<=>` between units is antisymmetric: swapping the operands negates the
      result, and an incomparable pair stays incomparable. */
  lemma {:induction false} CompareAntisymmetric(u: Unit, v: Unit)
    ensures Compare(u, AUnit(v)).Some? <==> Compare(v, AUnit(u)).Some?
    ensures Compare(u, AUnit(v)).Some? ==> Compare(v, AUnit(u)).value == -Compare(u, AUnit(v)).value
  {
    CompareNamesAntisymmetric(u.names, v.names);
  }
}
