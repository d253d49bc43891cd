/** What `find_conversion` finds: a direct edge, or a simple chain of direct
    edges whose procs `traverse` composes in path order. */
module ConversionPaths {
  import opened Common
  import opened Closures
  import opened ConversionTable

  /** Every consecutive pair of names along `from, hops...` has a direct edge. */
  ghost predicate IsChain(units: seq<DynUnit>, from: string, hops: seq<string>)
    decreases |hops|
  {
    hops == [] || (FindDirect(units, hops[0], from).Some? && IsChain(units, hops[0], hops[1..]))
  }

  /** The pair a traversal along `hops` builds from the seed `acc`. */
  ghost function Compose(units: seq<DynUnit>, from: string, hops: seq<string>, acc: Pair): Pair
    requires IsChain(units, from, hops)
    decreases |hops|
  {
    if hops == [] then acc
    else Compose(units, hops[0], hops[1..], Step(acc, FindDirect(units, hops[0], from).value))
  }

  /** A simple chain of direct edges from `from` that ends at `to` and only
      passes through names in `allowed`. */
  ghost predicate Route(units: seq<DynUnit>, from: string, to: string, hops: seq<string>, allowed: seq<string>) {
    hops != [] && hops[|hops| - 1] == to && IsChain(units, from, hops) && Distinct(hops)
    && forall h | h in hops :: h in allowed
  }

  /** Some simple chain joins `from` to `to` through the other names. */
  ghost predicate Connected(units: seq<DynUnit>, from: string, to: string) {
    exists hops :: Route(units, from, to, hops, Remove(Names(units), from))
  }

  /** Prepending a hop to a route keeps it a route. */
  lemma RouteCons(units: seq<DynUnit>, from: string, name: string, to: string, tail: seq<string>, rest: seq<string>)
    requires FindDirect(units, name, from).Some? && name in rest
    requires Route(units, name, to, tail, Remove(rest, name))
    ensures Route(units, from, to, [name] + tail, rest)
  {
    var hops := [name] + tail;
    assert hops[1..] == tail;
    forall i, j | 0 <= i < j < |hops| ensures hops[i] != hops[j] {
      if i == 0 {
        assert hops[j] == tail[j - 1] && tail[j - 1] in tail;
      } else {
        assert hops[i] == tail[i - 1] && hops[j] == tail[j - 1];
      }
    }
  }

  /** Dropping the first hop of a route leaves a route from that hop that
      avoids it. */
  lemma RouteTail(units: seq<DynUnit>, from: string, to: string, hops: seq<string>, rest: seq<string>)
    requires Route(units, from, to, hops, rest) && hops[0] != to
    ensures |hops| >= 2 && Route(units, hops[0], to, hops[1..], Remove(rest, hops[0]))
  {
    var tail := hops[1..];
    forall m | 0 <= m < |tail| ensures tail[m] in Remove(rest, hops[0]) {
      assert tail[m] == hops[m + 1] && hops[m + 1] in hops;
      assert hops[0] != hops[m + 1];
    }
    forall i, j | 0 <= i < j < |tail| ensures tail[i] != tail[j] {
      assert hops[i + 1] != hops[j + 1];
    }
  }

  /** A non-nil `traverse` result is the composition along a simple chain that
      ends at `to`, avoids `from` and stays within `units_remaining`. */
  lemma {:induction false} TraverseSound(units: seq<DynUnit>, from: string, to: string, remaining: seq<string>, acc: Pair)
    returns (hops: seq<string>)
    requires Traverse(units, from, to, remaining, acc).Some?
    ensures Route(units, from, to, hops, Remove(remaining, from))
    ensures Traverse(units, from, to, remaining, acc) == Some(Compose(units, from, hops, acc))
    decreases |Remove(remaining, from)|, 1
  {
    hops := EachSound(units, from, to, Remove(remaining, from), 0, acc);
  }

  lemma {:induction false} EachSound(units: seq<DynUnit>, from: string, to: string, rest: seq<string>, k: nat, acc: Pair)
    returns (hops: seq<string>)
    requires k <= |rest| && TraverseEach(units, from, to, rest, k, acc).Some?
    ensures Route(units, from, to, hops, rest)
    ensures TraverseEach(units, from, to, rest, k, acc) == Some(Compose(units, from, hops, acc))
    decreases |rest|, 0, |rest| - k
  {
    var name := rest[k];
    var direct := FindDirect(units, name, from);
    if direct.None? {
      hops := EachSound(units, from, to, rest, k + 1, acc);
    } else {
      var next := Step(acc, direct.value);
      assert name in rest;
      if name == to {
        hops := [name];
        assert hops[1..] == [];
      } else if Traverse(units, name, to, rest, next).Some? {
        var tail := TraverseSound(units, name, to, rest, next);
        RouteCons(units, from, name, to, tail, rest);
        hops := [name] + tail;
        assert hops[1..] == tail;
      } else {
        hops := EachSound(units, from, to, rest, k + 1, acc);
      }
    }
  }

  /** Conversely, `traverse` finds something whenever such a chain exists. */
  lemma {:induction false} TraverseComplete(units: seq<DynUnit>, from: string, to: string, remaining: seq<string>, acc: Pair,
                                            hops: seq<string>)
    requires Route(units, from, to, hops, Remove(remaining, from))
    ensures Traverse(units, from, to, remaining, acc).Some?
    decreases |Remove(remaining, from)|, 1
  {
    var rest := Remove(remaining, from);
    assert hops[0] in rest;
    var m :| 0 <= m < |rest| && rest[m] == hops[0];
    EachComplete(units, from, to, rest, 0, acc, hops, m);
  }

  lemma {:induction false} EachComplete(units: seq<DynUnit>, from: string, to: string, rest: seq<string>, k: nat, acc: Pair,
                                        hops: seq<string>, m: nat)
    requires Route(units, from, to, hops, rest)
    requires k <= m < |rest| && rest[m] == hops[0]
    ensures TraverseEach(units, from, to, rest, k, acc).Some?
    decreases |rest|, 0, |rest| - k
  {
    if k < m {
      EachComplete(units, from, to, rest, k + 1, acc, hops, m);
    } else {
      var name := rest[k];
      assert FindDirect(units, name, from).Some?;
      if name != to {
        RouteTail(units, from, to, hops, rest);
        var next := Step(acc, FindDirect(units, name, from).value);
        assert name in rest;
        TraverseComplete(units, name, to, rest, next, hops[1..]);
      }
    }
  }

  /** `find_conversion` succeeds exactly when the two names share a direct
      edge or are joined by a simple chain through the other unit names; the
      direct edge wins when there is one, and a failure is
      MissingConversionPath(from, to). */
  lemma ConversionFound(units: seq<DynUnit>, to: string, from: string)
    ensures Conversion(units, to, from).Ok? <==>
              FindDirect(units, to, from).Some? || Connected(units, from, to)
    ensures FindDirect(units, to, from).Some? ==> Conversion(units, to, from) == Ok(FindDirect(units, to, from).value)
  {
    var seed := Pair(Identity, Identity);
    var routed := Connected(units, from, to);
    if FindDirect(units, to, from).None? {
      if routed {
        var hops :| Route(units, from, to, hops, Remove(Names(units), from));
        TraverseComplete(units, from, to, Names(units), seed, hops);
      }
      if Traverse(units, from, to, Names(units), seed).Some? {
        var hops := TraverseSound(units, from, to, Names(units), seed);
        assert routed;
      }
    }
  }

  /** Every declared edge's inverse undoes its forward and vice versa. */
  ghost predicate LinkInverse(l: Link) {
    forall x :: l.inverse(l.forward(x)) == x && l.forward(l.inverse(x)) == x
  }

  ghost predicate AllLinksInverse(units: seq<DynUnit>) {
    forall i | 0 <= i < |units| && units[i].link.Some? :: LinkInverse(units[i].link.value)
  }

  /** A static edge `1 me = a target` with a ≠ 0, normalised to the procs
      `x * a` and `x * (1/a)`, satisfies the hypothesis. */
  lemma StaticLinkIsInverse(target: string, a: real)
    requires a != 0.0
    ensures LinkInverse(Link(target, x => x * a, x => x * (1.0 / a)))
  {
    var l := Link(target, x => x * a, x => x * (1.0 / a));
    forall x ensures l.inverse(l.forward(x)) == x && l.forward(l.inverse(x)) == x {
      calc {
        x * a * (1.0 / a);
        x * (a * (1.0 / a));
        x;
      }
    }
  }

  lemma DirectIsInverse(units: seq<DynUnit>, to: string, from: string)
    requires AllLinksInverse(units)
    ensures FindDirect(units, to, from).Some? ==> MutualInverse(FindDirect(units, to, from).value)
  {
    FindDirectFirstMatch(units, to, from);
  }

  /** Composing mutually inverse hops keeps forward and inverse mutually
      inverse, whatever the chain's length. */
  lemma {:induction false} ComposeIsInverse(units: seq<DynUnit>, from: string, hops: seq<string>, acc: Pair)
    requires AllLinksInverse(units) && IsChain(units, from, hops) && MutualInverse(acc)
    ensures MutualInverse(Compose(units, from, hops, acc))
    decreases |hops|
  {
    if hops != [] {
      DirectIsInverse(units, hops[0], from);
      ComposeIsInverse(units, hops[0], hops[1..], Step(acc, FindDirect(units, hops[0], from).value));
    }
  }

  /** Both halves of any `find_conversion` result undo each other. */
  lemma ConversionIsInverse(units: seq<DynUnit>, to: string, from: string)
    requires AllLinksInverse(units)
    ensures Conversion(units, to, from).Ok? ==> MutualInverse(Conversion(units, to, from).value)
  {
    DirectIsInverse(units, to, from);
    if FindDirect(units, to, from).None? && Conversion(units, to, from).Ok? {
      var hops := TraverseSound(units, from, to, Names(units), Pair(Identity, Identity));
      ComposeIsInverse(units, from, hops, Pair(Identity, Identity));
    }
  }
}
