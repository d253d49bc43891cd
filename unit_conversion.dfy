/** The conversion descriptor of one unit (`Measured::UnitConversion.parse` and the
    two descriptor classes it builds). */
module UnitConversions {
  import opened Common

  /** One element of an Array spec: an amount, a conversion proc or a word. */
  datatype Token = Number(value: real) | Proc(fn: real -> real) | Word(text: string)

  /** The raw `value:` a unit is declared with. */
  datatype Spec =
    | NoSpec                      // nil
    | Text(text: string)          // a String, handed to the string parser
    | Tokens(items: seq<Token>)   // an Array
    | Other                       // anything else

  /** The text handling that lives outside this core: the string parser
      (`Measured::Parser.parse_string`, None when it raises UnitError),
      `String#to_r`, and `Rational#to_s`. */
  datatype Notation = Notation(
    parseString: string -> Option<(real, string)>,
    readRational: string -> real,
    formatRational: real -> string)

  /** What `amount` and `inverse_amount` hand out: an exact rational or a proc. */
  datatype Amount = Exact(value: real) | Lambda(fn: real --> real)

  /** `x ↦ g(x)` is the pointwise reciprocal of `f`: defined wherever `f` is
      nonzero, and `g(x) * f(x) == 1` there. */
  ghost predicate Reciprocal(g: real --> real, f: real -> real) {
    forall x :: f(x) != 0.0 ==> g.requires(x) && g(x) * f(x) == 1.0
  }

  datatype UnitConversion =
    | Static(amount: Option<real>, unit: Option<string>)
    | Dynamic(proc: Option<real -> real>, unit: Option<string>, conversionString: Option<string>)
  {
    /** `dynamic?` */
    predicate IsDynamic() {
      Dynamic?
    }

    /** `static?`: always the opposite of `dynamic?`. */
    function IsStatic(): (b: bool)
      ensures b != IsDynamic()
    {
      match this
      case Static(_, _) => true
      case Dynamic(_, _, _) => false
    }

    /** `amount`, seen through the common Amount type. */
    function AmountOf(): (r: Option<Amount>)
      ensures r.None? <==> (if Static? then amount.None? else proc.None?)
      ensures r.Some? ==> (r.value.Exact? <==> Static?)
      ensures Static? && r.Some? ==> r.value == Exact(amount.value)
      ensures Dynamic? && r.Some? ==> r.value.Lambda? && r.value.fn == proc.value
    {
      match this
      case Static(a, _) => if a.Some? then Some(Exact(a.value)) else None
      case Dynamic(f, _, _) => if f.Some? then Some(Lambda(f.value)) else None
    }

    /** `inverse_amount`: nil without an amount; `1 / amount` for a static
        conversion (ZeroDivisionError for a zero rational); the pointwise
        reciprocal proc for a dynamic one. */
    function InverseAmount(): (r: Result<Option<Amount>>)
      ensures r.Err? <==> Static? && amount == Some(0.0)
      ensures r.Err? ==> r.error == ZeroDivision
      ensures r.Ok? ==> (r.value.None? <==> AmountOf().None?)
      ensures Static? && r.Ok? && r.value.Some? ==>
                r.value.value.Exact? && r.value.value.value * amount.value == 1.0
      ensures Dynamic? && r.Ok? && r.value.Some? ==>
                r.value.value.Lambda? && Reciprocal(r.value.value.fn, proc.value)
    {
      match this
      case Static(a, _) =>
        if a.None? then Ok(None)
        else if a.value == 0.0 then Err(ZeroDivision)
        else Ok(Some(Exact(1.0 / a.value)))
      case Dynamic(f, _, _) =>
        if f.None? then Ok(None)
        else
          var amount := f.value;
          var inverse := x requires amount(x) != 0.0 => 1.0 / amount(x);
          assert Reciprocal(inverse, amount) by {
            forall x ensures amount(x) != 0.0 ==> inverse.requires(x) && inverse(x) * amount(x) == 1.0 {
              if amount(x) != 0.0 {
                assert inverse(x) == 1.0 / amount(x);
              }
            }
          }
          Ok(Some(Lambda(inverse)))
    }

    /** `to_s`: "<amount> <unit>" for a static conversion holding both, the
        given conversion string for a dynamic one, nil otherwise. */
    function ToS(nt: Notation): (r: Option<string>)
      ensures Static? ==> (r.Some? <==> amount.Some? && unit.Some?)
      ensures Static? && r.Some? ==>
                r.value == nt.formatRational(amount.value) + " " + unit.value
      ensures Dynamic? ==> r == conversionString
    {
      match this
      case Static(a, u) =>
        if a.Some? && u.Some? then Some(nt.formatRational(a.value) + " " + u.value) else None
      case Dynamic(_, _, s) => s
    }
  }

  /** The unit named by the second element of an Array spec. */
  function UnitName(t: Token): Option<string> {
    if t.Word? then Some(t.text) else None
  }

  /** `tokens[0].to_r` for a first element that is not a proc. */
  function ToRational(t: Token, nt: Notation): real
    requires !t.Proc?
  {
    if t.Number? then t.value else nt.readRational(t.text)
  }

  /** `UnitConversion.parse(tokens, conversion_string:)`. */
  function Parse(tokens: Spec, conversionString: Option<string>, nt: Notation): (r: Result<UnitConversion>)
    ensures r.Err? <==>
              || tokens.Other?
              || (tokens.Tokens? && |tokens.items| != 2)
              || (tokens.Text? && nt.parseString(tokens.text).None?)
    ensures r.Err? ==> r.error == UnitError
    ensures tokens.NoSpec? ==> r == Ok(Static(None, None))
    ensures r.Ok? ==> (r.value.IsDynamic() <==> tokens.Tokens? && tokens.items[0].Proc?)
    ensures r.Ok? && r.value.IsDynamic() ==>
              && r.value.proc == Some(tokens.items[0].fn)
              && r.value.unit == UnitName(tokens.items[1])
              && r.value.conversionString == conversionString
    ensures r.Ok? && tokens.Text? ==>
              r.value == Static(Some(nt.parseString(tokens.text).value.0), Some(nt.parseString(tokens.text).value.1))
    ensures r.Ok? && tokens.Tokens? && !tokens.items[0].Proc? ==>
              r.value == Static(Some(ToRational(tokens.items[0], nt)), UnitName(tokens.items[1]))
  {
    match tokens
    case NoSpec => Ok(Static(None, None))
    case Other => Err(UnitError)
    case Text(s) =>
      var parsed := nt.parseString(s);
      if parsed.None? then Err(UnitError) else Ok(Static(Some(parsed.value.0), Some(parsed.value.1)))
    case Tokens(items) =>
      if |items| != 2 then Err(UnitError)
      else if items[0].Proc? then Ok(Dynamic(Some(items[0].fn), UnitName(items[1]), conversionString))
      else Ok(Static(Some(ToRational(items[0], nt)), UnitName(items[1])))
  }

  /** Rendering a complete static conversion and parsing the text back gives the
      same conversion, whenever the string parser reads back what `Rational#to_s`
      writes. */
  lemma ParseReadsBackToS(c: UnitConversion, nt: Notation)
    requires c.Static? && c.amount.Some? && c.unit.Some?
    requires nt.parseString(nt.formatRational(c.amount.value) + " " + c.unit.value)
             == Some((c.amount.value, c.unit.value))
    ensures c.ToS(nt).Some? && Parse(Text(c.ToS(nt).value), None, nt) == Ok(c)
  {
  }

  /** `parse(nil)` is the base-unit descriptor: no amount, no unit, no text,
      no inverse. */
  lemma ParseNil(cs: Option<string>, nt: Notation)
    ensures Parse(NoSpec, cs, nt).Ok?
    ensures var c := Parse(NoSpec, cs, nt).value;
            c.IsStatic() && c.AmountOf().None? && c.unit.None?
            && c.ToS(nt).None? && c.InverseAmount() == Ok(None)
  {
  }

  /** A static amount and its inverse multiply to one: `10` has inverse `1/10`. */
  lemma StaticInverseOfTen(nt: Notation)
    ensures Static(Some(10.0), Some("Cake")).InverseAmount() == Ok(Some(Exact(0.1)))
  {
  }
}
