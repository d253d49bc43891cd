/** The conversion procs the table builder hands out, kept as terms so that a
    composed conversion can be inspected and compared. */
module Closures {

  datatype Fn =
    | SelfConversion          // SELF_CONVERSION, `x * Rational(1, 1)`
    | Identity                // the seed `->(x) { x }` of a traversal
    | Prim(f: real -> real)   // a unit's own forward or inverse proc
    | Then(first: Fn, next: Fn)   // `->(x) { next.call first.call(x) }`

  /** `call` */
  function Apply(c: Fn, x: real): real {
    match c
    case SelfConversion => x * 1.0
    case Identity => x
    case Prim(f) => f(x)
    case Then(first, next) => Apply(next, Apply(first, x))
  }

  /** A conversion and the conversion back. */
  datatype Pair = Pair(forward: Fn, inverse: Fn)

  /** `g` undoes `f` on every amount. */
  ghost predicate Undoes(g: Fn, f: Fn) {
    forall x :: Apply(g, Apply(f, x)) == x
  }

  ghost predicate MutualInverse(p: Pair) {
    Undoes(p.inverse, p.forward) && Undoes(p.forward, p.inverse)
  }

  /** One hop of a traversal: the forward proc applies the accumulated
      conversion and then the hop's; the inverse undoes the hop first and then
      the accumulated conversion, so inverse pairs compose to an inverse pair. */
  function Step(acc: Pair, hop: Pair): (r: Pair)
    ensures forall x :: Apply(r.forward, x) == Apply(hop.forward, Apply(acc.forward, x))
    ensures forall x :: Apply(r.inverse, x) == Apply(acc.inverse, Apply(hop.inverse, x))
    ensures MutualInverse(acc) && MutualInverse(hop) ==> MutualInverse(r)
  {
    Pair(Then(acc.forward, hop.forward), Then(hop.inverse, acc.inverse))
  }

  /** The identity of a table's diagonal is its own inverse. */
  lemma SelfConversionIsInvolutive()
    ensures MutualInverse(Pair(SelfConversion, SelfConversion))
    ensures forall x :: Apply(SelfConversion, x) == x
  {
  }
}
