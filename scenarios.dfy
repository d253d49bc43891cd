/** The worked unit systems of the library's own examples, with the amounts
    they are documented to convert to. */
module Scenarios {
  import opened Common
  import opened Closures
  import opened ConversionTable
  import TableValidator

  /** The dynamic magic system: magic_missile is the base, fireball is 2/3
      of it, ice is twice it, arcane ten times it, and ultima is ten arcane
      plus ten. */
  function MagicUnits(): seq<DynUnit> {
    [ DynUnit("magic_missile", None),
      DynUnit("fireball", Some(Link("magic_missile", x => x * (2.0 / 3.0), x => x * (3.0 / 2.0)))),
      DynUnit("ice", Some(Link("magic_missile", x => 2.0 * x, x => x * (1.0 / 2.0)))),
      DynUnit("arcane", Some(Link("magic_missile", x => 10.0 * x, x => x * (1.0 / 10.0)))),
      DynUnit("ultima", Some(Link("arcane", x => 10.0 * x + 10.0, x => (x - 10.0) * (1.0 / 10.0)))) ]
  }

  /** The dynamic length system: mm is the base and each larger unit is ten
      of the one below. */
  function LengthUnits(): seq<DynUnit> {
    [ DynUnit("mm", None),
      DynUnit("cm", Some(Link("mm", x => 10.0 * x, x => x * (1.0 / 10.0)))),
      DynUnit("dm", Some(Link("cm", x => x * 10.0, x => x * (1.0 / 10.0)))),
      DynUnit("m", Some(Link("dm", x => x * 10.0, x => x * (1.0 / 10.0)))) ]
  }

  /** 1 ultima is 20 arcane through ultima's own edge. */
  lemma UltimaToArcane()
    ensures var c := Conversion(MagicUnits(), "arcane", "ultima");
            c.Ok? && Apply(c.value.forward, 1.0) == 20.0
  {
    var units := MagicUnits();
    assert Joins(units[4], "ultima", "arcane");
    assert FindDirect(units, "arcane", "ultima") == Some(DirectPair(units[4], "arcane", "ultima"));
  }

  /** The table's arcane → ultima entry is the inverse half of the
      ultima → arcane lookup, and it takes 1 arcane to -0.9 ultima. */
  lemma ArcaneToUltimaInTable()
    ensures var c := Conversion(MagicUnits(), "arcane", "ultima");
            c.Ok? && Apply(c.value.inverse, 1.0) == -0.9
  {
    var units := MagicUnits();
    assert Joins(units[4], "ultima", "arcane");
    assert FindDirect(units, "arcane", "ultima") == Some(DirectPair(units[4], "arcane", "ultima"));
  }

  /** Removing a name that occurs once drops just that entry. */
  lemma RemoveOnce(a: seq<string>, x: string, b: seq<string>)
    requires x !in a && x !in b
    ensures Remove(a + [x] + b, x) == a + b
    decreases |a|
  {
    if a == [] {
      assert ([x] + b)[1..] == b;
      RemoveAbsent(b, x);
    } else {
      assert (a + [x] + b)[1..] == a[1..] + [x] + b;
      RemoveOnce(a[1..], x, b);
      assert a + b == [a[0]] + (a[1..] + b);
    }
  }

  lemma RemoveAbsent(s: seq<string>, x: string)
    requires x !in s
    ensures Remove(s, x) == s
  {
    if s != [] {
      RemoveAbsent(s[1..], x);
      assert s == [s[0]] + s[1..];
    }
  }

  /** One step of the traversal's scan, by the outcome of its lookup. */
  lemma EachStep(units: seq<DynUnit>, from: string, to: string, rest: seq<string>, k: nat, acc: Pair)
    requires k < |rest|
    ensures FindDirect(units, rest[k], from).None? ==>
              TraverseEach(units, from, to, rest, k, acc) == TraverseEach(units, from, to, rest, k + 1, acc)
    ensures FindDirect(units, rest[k], from).Some? && rest[k] == to ==>
              TraverseEach(units, from, to, rest, k, acc) == Some(Step(acc, FindDirect(units, rest[k], from).value))
    ensures FindDirect(units, rest[k], from).Some? && rest[k] != to ==>
              var deeper := Traverse(units, rest[k], to, rest, Step(acc, FindDirect(units, rest[k], from).value));
              TraverseEach(units, from, to, rest, k, acc)
                == if deeper.Some? then deeper else TraverseEach(units, from, to, rest, k + 1, acc)
  {
  }

  /** The direct lookups the magic traversal from ultima performs. */
  lemma MagicLookups()
    ensures FindDirect(MagicUnits(), "magic_missile", "ultima").None?
    ensures FindDirect(MagicUnits(), "fireball", "ultima").None?
    ensures FindDirect(MagicUnits(), "ice", "ultima").None?
  {
    FindDirectFirstMatch(MagicUnits(), "magic_missile", "ultima");
    FindDirectFirstMatch(MagicUnits(), "fireball", "ultima");
    FindDirectFirstMatch(MagicUnits(), "ice", "ultima");
  }

  lemma MagicEdges()
    ensures FindDirect(MagicUnits(), "arcane", "ultima") == Some(DirectPair(MagicUnits()[4], "arcane", "ultima"))
    ensures FindDirect(MagicUnits(), "magic_missile", "arcane") == Some(DirectPair(MagicUnits()[3], "magic_missile", "arcane"))
    ensures FindDirect(MagicUnits(), "fireball", "magic_missile") == Some(DirectPair(MagicUnits()[1], "fireball", "magic_missile"))
    ensures FindDirect(MagicUnits(), "ice", "magic_missile") == Some(DirectPair(MagicUnits()[2], "ice", "magic_missile"))
    ensures FindDirect(MagicUnits(), "arcane", "magic_missile") == Some(DirectPair(MagicUnits()[3], "arcane", "magic_missile"))
    ensures FindDirect(MagicUnits(), "ultima", "arcane") == Some(DirectPair(MagicUnits()[4], "ultima", "arcane"))
  {
    var units := MagicUnits();
    assert Joins(units[1], "magic_missile", "fireball");
    assert Joins(units[2], "magic_missile", "ice");
    assert Joins(units[3], "magic_missile", "arcane");
    assert Joins(units[4], "arcane", "ultima");
  }

  /** From arcane the magic_missile scan of the ultima traversal ends at once. */
  lemma ArcaneReachesMagicMissile(acc: Pair)
    ensures Traverse(MagicUnits(), "arcane", "magic_missile", ["magic_missile", "fireball", "ice", "arcane"], acc)
            == Some(Step(acc, DirectPair(MagicUnits()[3], "magic_missile", "arcane")))
  {
    RemoveOnce(["magic_missile", "fireball", "ice"], "arcane", []);
    assert ["magic_missile", "fireball", "ice"] + ["arcane"] + [] == ["magic_missile", "fireball", "ice", "arcane"];
    assert ["magic_missile", "fireball", "ice"] + [] == ["magic_missile", "fireball", "ice"];
    MagicEdges();
    EachStep(MagicUnits(), "arcane", "magic_missile", ["magic_missile", "fireball", "ice"], 0, acc);
  }

  lemma MagicNamesWithout()
    ensures Names(MagicUnits()) == ["magic_missile", "fireball", "ice", "arcane", "ultima"]
    ensures Remove(Names(MagicUnits()), "ultima") == ["magic_missile", "fireball", "ice", "arcane"]
    ensures Remove(Names(MagicUnits()), "magic_missile") == ["fireball", "ice", "arcane", "ultima"]
  {
    var rest := ["magic_missile", "fireball", "ice", "arcane"];
    RemoveOnce(rest, "ultima", []);
    assert Names(MagicUnits()) == rest + ["ultima"] + [];
    assert rest + [] == rest;
    var rest' := ["fireball", "ice", "arcane", "ultima"];
    RemoveOnce([], "magic_missile", rest');
    assert Names(MagicUnits()) == [] + ["magic_missile"] + rest';
  }

  /** The scan from ultima skips magic_missile, fireball and ice, which it
      shares no edge with, and succeeds through arcane. */
  lemma UltimaScan(seed: Pair)
    ensures TraverseEach(MagicUnits(), "ultima", "magic_missile", ["magic_missile", "fireball", "ice", "arcane"], 0, seed)
            == Some(Step(Step(seed, DirectPair(MagicUnits()[4], "arcane", "ultima")),
                         DirectPair(MagicUnits()[3], "magic_missile", "arcane")))
  {
    var units := MagicUnits();
    var rest := ["magic_missile", "fireball", "ice", "arcane"];
    MagicLookups();
    MagicEdges();
    ArcaneReachesMagicMissile(Step(seed, DirectPair(units[4], "arcane", "ultima")));
    EachStep(units, "ultima", "magic_missile", rest, 3, seed);
    EachStep(units, "ultima", "magic_missile", rest, 2, seed);
    EachStep(units, "ultima", "magic_missile", rest, 1, seed);
    EachStep(units, "ultima", "magic_missile", rest, 0, seed);
  }

  /** No unit joins magic_missile and ultima, so the lookup is the
      traversal ultima → arcane → magic_missile. */
  lemma UltimaFound()
    ensures Conversion(MagicUnits(), "magic_missile", "ultima")
            == Ok(Step(Step(Pair(Identity, Identity), DirectPair(MagicUnits()[4], "arcane", "ultima")),
                       DirectPair(MagicUnits()[3], "magic_missile", "arcane")))
  {
    MagicNamesWithout();
    MagicLookups();
    UltimaScan(Pair(Identity, Identity));
  }

  /** 1 ultima is 200 magic_missile, through arcane. */
  lemma UltimaToMagicMissile()
    ensures var c := Conversion(MagicUnits(), "magic_missile", "ultima");
            c.Ok? && Apply(c.value.forward, 1.0) == 200.0
  {
    var units := MagicUnits();
    UltimaFound();
    var first := Step(Pair(Identity, Identity), DirectPair(units[4], "arcane", "ultima"));
    assert Apply(first.forward, 1.0) == 10.0 * 1.0 + 10.0;
    assert Apply(Step(first, DirectPair(units[3], "magic_missile", "arcane")).forward, 1.0) == 10.0 * 20.0;
  }

  /** The table's magic_missile → ultima entry is the inverse half of the
      ultima → magic_missile lookup, and it takes 200 magic_missile to 1 ultima. */
  lemma MagicMissileToUltimaInTable()
    ensures var c := Conversion(MagicUnits(), "magic_missile", "ultima");
            c.Ok? && Apply(c.value.inverse, 200.0) == 1.0
  {
    var units := MagicUnits();
    UltimaFound();
    var first := Step(Pair(Identity, Identity), DirectPair(units[4], "arcane", "ultima"));
    assert Apply(first.inverse, 20.0) == (20.0 - 10.0) * (1.0 / 10.0);
    assert Apply(Step(first, DirectPair(units[3], "magic_missile", "arcane")).inverse, 200.0) == Apply(first.inverse, 200.0 * (1.0 / 10.0));
  }

  /** 1 arcane is -0.9 ultima, through the inverse of ultima's own edge. */
  lemma ArcaneToUltima()
    ensures var c := Conversion(MagicUnits(), "ultima", "arcane");
            c.Ok? && Apply(c.value.forward, 1.0) == -0.9
  {
    MagicEdges();
  }

  lemma FireballLookups()
    ensures FindDirect(MagicUnits(), "ice", "fireball").None?
    ensures FindDirect(MagicUnits(), "arcane", "fireball").None?
    ensures FindDirect(MagicUnits(), "ultima", "fireball").None?
  {
    FindDirectFirstMatch(MagicUnits(), "ice", "fireball");
    FindDirectFirstMatch(MagicUnits(), "arcane", "fireball");
    FindDirectFirstMatch(MagicUnits(), "ultima", "fireball");
  }

  lemma IceLookups()
    ensures FindDirect(MagicUnits(), "fireball", "ice").None?
    ensures FindDirect(MagicUnits(), "arcane", "ice").None?
    ensures FindDirect(MagicUnits(), "ultima", "ice").None?
  {
    FindDirectFirstMatch(MagicUnits(), "fireball", "ice");
    FindDirectFirstMatch(MagicUnits(), "arcane", "ice");
    FindDirectFirstMatch(MagicUnits(), "ultima", "ice");
  }

  lemma ArcaneLookups()
    ensures FindDirect(MagicUnits(), "fireball", "arcane").None?
    ensures FindDirect(MagicUnits(), "ice", "arcane").None?
    ensures FindDirect(MagicUnits(), "ultima", "magic_missile").None?
  {
    FindDirectFirstMatch(MagicUnits(), "fireball", "arcane");
    FindDirectFirstMatch(MagicUnits(), "ice", "arcane");
    FindDirectFirstMatch(MagicUnits(), "ultima", "magic_missile");
  }

  lemma MagicRestWithout()
    ensures Remove(["fireball", "ice", "arcane", "ultima"], "fireball") == ["ice", "arcane", "ultima"]
    ensures Remove(["fireball", "ice", "arcane", "ultima"], "ice") == ["fireball", "arcane", "ultima"]
    ensures Remove(["fireball", "ice", "arcane", "ultima"], "arcane") == ["fireball", "ice", "ultima"]
  {
    RemoveOnce([], "fireball", ["ice", "arcane", "ultima"]);
    assert [] + ["fireball"] + ["ice", "arcane", "ultima"] == ["fireball", "ice", "arcane", "ultima"];
    RemoveOnce(["fireball"], "ice", ["arcane", "ultima"]);
    assert ["fireball"] + ["ice"] + ["arcane", "ultima"] == ["fireball", "ice", "arcane", "ultima"];
    RemoveOnce(["fireball", "ice"], "arcane", ["ultima"]);
    assert ["fireball", "ice"] + ["arcane"] + ["ultima"] == ["fireball", "ice", "arcane", "ultima"];
  }

  /** Fireball only joins magic_missile, already left behind, so the
      traversal backs out of it. */
  lemma FireballDeadEnd(acc: Pair)
    ensures Traverse(MagicUnits(), "fireball", "ultima", ["fireball", "ice", "arcane", "ultima"], acc).None?
  {
    var units := MagicUnits();
    var rest := ["ice", "arcane", "ultima"];
    MagicRestWithout();
    FireballLookups();
    EachStep(units, "fireball", "ultima", rest, 2, acc);
    EachStep(units, "fireball", "ultima", rest, 1, acc);
    EachStep(units, "fireball", "ultima", rest, 0, acc);
  }

  /** Ice likewise joins only magic_missile. */
  lemma IceDeadEnd(acc: Pair)
    ensures Traverse(MagicUnits(), "ice", "ultima", ["fireball", "ice", "arcane", "ultima"], acc).None?
  {
    var units := MagicUnits();
    var rest := ["fireball", "arcane", "ultima"];
    MagicRestWithout();
    IceLookups();
    EachStep(units, "ice", "ultima", rest, 2, acc);
    EachStep(units, "ice", "ultima", rest, 1, acc);
    EachStep(units, "ice", "ultima", rest, 0, acc);
  }

  /** From arcane the scan reaches ultima over ultima's own edge. */
  lemma ArcaneReachesUltima(acc: Pair)
    ensures Traverse(MagicUnits(), "arcane", "ultima", ["fireball", "ice", "arcane", "ultima"], acc)
            == Some(Step(acc, DirectPair(MagicUnits()[4], "ultima", "arcane")))
  {
    var units := MagicUnits();
    var rest := ["fireball", "ice", "ultima"];
    MagicRestWithout();
    ArcaneLookups();
    MagicEdges();
    EachStep(units, "arcane", "ultima", rest, 2, acc);
    EachStep(units, "arcane", "ultima", rest, 1, acc);
    EachStep(units, "arcane", "ultima", rest, 0, acc);
  }

  /** The scan from magic_missile tries fireball and ice first, backs out of
      both, and succeeds through arcane. */
  lemma MagicMissileScan(seed: Pair)
    ensures TraverseEach(MagicUnits(), "magic_missile", "ultima", ["fireball", "ice", "arcane", "ultima"], 0, seed)
            == Some(Step(Step(seed, DirectPair(MagicUnits()[3], "arcane", "magic_missile")),
                         DirectPair(MagicUnits()[4], "ultima", "arcane")))
  {
    var units := MagicUnits();
    var rest := ["fireball", "ice", "arcane", "ultima"];
    MagicEdges();
    FireballDeadEnd(Step(seed, DirectPair(units[1], "fireball", "magic_missile")));
    IceDeadEnd(Step(seed, DirectPair(units[2], "ice", "magic_missile")));
    ArcaneReachesUltima(Step(seed, DirectPair(units[3], "arcane", "magic_missile")));
    EachStep(units, "magic_missile", "ultima", rest, 2, seed);
    EachStep(units, "magic_missile", "ultima", rest, 1, seed);
    EachStep(units, "magic_missile", "ultima", rest, 0, seed);
  }

  /** 200 magic_missile is 1 ultima: the traversal backs out of the fireball
      and ice branches and goes magic_missile → arcane → ultima. */
  lemma MagicMissileToUltima()
    ensures var c := Conversion(MagicUnits(), "ultima", "magic_missile");
            c.Ok? && Apply(c.value.forward, 200.0) == 1.0
  {
    var units := MagicUnits();
    MagicNamesWithout();
    ArcaneLookups();
    var seed := Pair(Identity, Identity);
    MagicMissileScan(seed);
    var found := Step(Step(seed, DirectPair(units[3], "arcane", "magic_missile")), DirectPair(units[4], "ultima", "arcane"));
    assert Apply(found.forward, 200.0) == (200.0 * (1.0 / 10.0) - 10.0) * (1.0 / 10.0);
  }

  lemma LengthNames()
    ensures Names(LengthUnits()) == ["mm", "cm", "dm", "m"]
    ensures Remove(Names(LengthUnits()), "m") == ["mm", "cm", "dm"]
    ensures Remove(["mm", "cm", "dm"], "dm") == ["mm", "cm"]
    ensures Remove(["mm", "cm"], "cm") == ["mm"]
  {
    RemoveOnce(["mm", "cm", "dm"], "m", []);
    assert ["mm", "cm", "dm"] + ["m"] + [] == ["mm", "cm", "dm", "m"];
    assert ["mm", "cm", "dm"] + [] == ["mm", "cm", "dm"];
    RemoveOnce(["mm", "cm"], "dm", []);
    assert ["mm", "cm"] + ["dm"] + [] == ["mm", "cm", "dm"];
    assert ["mm", "cm"] + [] == ["mm", "cm"];
    RemoveOnce(["mm"], "cm", []);
    assert ["mm"] + ["cm"] + [] == ["mm", "cm"];
    assert ["mm"] + [] == ["mm"];
  }

  lemma LengthLookups()
    ensures FindDirect(LengthUnits(), "mm", "m").None?
    ensures FindDirect(LengthUnits(), "cm", "m").None?
    ensures FindDirect(LengthUnits(), "mm", "dm").None?
  {
    FindDirectFirstMatch(LengthUnits(), "mm", "m");
    FindDirectFirstMatch(LengthUnits(), "cm", "m");
    FindDirectFirstMatch(LengthUnits(), "mm", "dm");
  }

  lemma LengthEdges()
    ensures FindDirect(LengthUnits(), "dm", "m") == Some(DirectPair(LengthUnits()[3], "dm", "m"))
    ensures FindDirect(LengthUnits(), "cm", "dm") == Some(DirectPair(LengthUnits()[2], "cm", "dm"))
    ensures FindDirect(LengthUnits(), "mm", "cm") == Some(DirectPair(LengthUnits()[1], "mm", "cm"))
  {
    var units := LengthUnits();
    assert Joins(units[1], "cm", "mm");
    assert Joins(units[2], "dm", "cm");
    assert Joins(units[3], "m", "dm");
  }

  /** The inner part of the m → mm traversal: dm reaches mm through cm. */
  lemma DecimetreReachesMillimetre(acc: Pair)
    ensures Traverse(LengthUnits(), "dm", "mm", ["mm", "cm", "dm"], acc)
            == Some(Step(Step(acc, DirectPair(LengthUnits()[2], "cm", "dm")),
                         DirectPair(LengthUnits()[1], "mm", "cm")))
  {
    var units := LengthUnits();
    LengthNames();
    LengthLookups();
    LengthEdges();
    var acc' := Step(acc, DirectPair(units[2], "cm", "dm"));
    EachStep(units, "cm", "mm", ["mm"], 0, acc');
    EachStep(units, "dm", "mm", ["mm", "cm"], 1, acc);
    EachStep(units, "dm", "mm", ["mm", "cm"], 0, acc);
  }

  /** 1 m is 1000 mm, over m → dm → cm → mm. */
  lemma MetreToMillimetre()
    ensures var c := Conversion(LengthUnits(), "mm", "m");
            c.Ok? && Apply(c.value.forward, 1.0) == 1000.0
  {
    var units := LengthUnits();
    var rest := ["mm", "cm", "dm"];
    var seed := Pair(Identity, Identity);
    LengthNames();
    LengthLookups();
    LengthEdges();
    DecimetreReachesMillimetre(Step(seed, DirectPair(units[3], "dm", "m")));
    EachStep(units, "m", "mm", rest, 2, seed);
    EachStep(units, "m", "mm", rest, 1, seed);
    EachStep(units, "m", "mm", rest, 0, seed);
    var found := Step(Step(Step(seed, DirectPair(units[3], "dm", "m")), DirectPair(units[2], "cm", "dm")),
                      DirectPair(units[1], "mm", "cm"));
    assert Apply(found.forward, 1.0) == 10.0 * ((1.0 * 10.0) * 10.0);
  }

  /** A one-letter name is never blank. */
  lemma LetterIsPresent(c: char)
    requires 'A' <= c <= 'Z'
    ensures TableValidator.Present(Some([c]))
  {
    assert [c][0] == c;
  }

  lemma MutualPairGraph()
    ensures TableValidator.GroupByName([TableValidator.Node("X", Some("Y")), TableValidator.Node("Y", Some("X"))])
            == TableValidator.Graph(["X", "Y"], map["X" := [0], "Y" := [1]])
  {
    var nodes := [TableValidator.Node("X", Some("Y")), TableValidator.Node("Y", Some("X"))];
    LetterIsPresent('X');
    LetterIsPresent('Y');
    assert nodes[..1] == [nodes[0]];
    assert [nodes[0]][..0] == [];
  }

  /** The walk's second step: from Y, having seen Y, back to X and on
      to Y again, where X's edge is reported. */
  lemma MutualPairFromY()
    ensures var nodes := [TableValidator.Node("X", Some("Y")), TableValidator.Node("Y", Some("X"))];
            var g := TableValidator.Graph(["X", "Y"], map["X" := [0], "Y" := [1]]);
            g == TableValidator.GroupByName(nodes) &&
            TableValidator.ValidateAcyclicGraph(nodes, g, Some("Y"), ["Y"]) == Some(0)
  {
    var nodes := [TableValidator.Node("X", Some("Y")), TableValidator.Node("Y", Some("X"))];
    var g := TableValidator.Graph(["X", "Y"], map["X" := [0], "Y" := [1]]);
    MutualPairGraph();
    LetterIsPresent('X');
    LetterIsPresent('Y');
    assert ["Y"] + ["X"] == ["Y", "X"];
    assert TableValidator.CheckEdges(nodes, g, [0], 0, ["Y", "X"]) == Some(0);
    assert TableValidator.ValidateAcyclicGraph(nodes, g, Some("X"), ["Y", "X"]) == Some(0);
    assert TableValidator.CheckEdges(nodes, g, [1], 0, ["Y"]) == Some(0);
  }

  /** Two units each declared in terms of the other: the walk from X goes
      to Y, back to X, and reports X's edge when it meets Y again. */
  lemma MutualPairIsReported()
    ensures TableValidator.ValidateNoCycles([TableValidator.Node("X", Some("Y")), TableValidator.Node("Y", Some("X"))]) == Some(0)
  {
    var nodes := [TableValidator.Node("X", Some("Y")), TableValidator.Node("Y", Some("X"))];
    var g := TableValidator.Graph(["X", "Y"], map["X" := [0], "Y" := [1]]);
    MutualPairFromY();
    LetterIsPresent('Y');
    assert [] + ["Y"] == ["Y"];
    assert TableValidator.CheckEdges(nodes, g, [0], 0, []) == Some(0);
  }

  lemma SplitCycleGraph()
    ensures TableValidator.GroupByName([TableValidator.Node("A", Some("B")), TableValidator.Node("C", Some("D")),
                                        TableValidator.Node("D", Some("C"))])
            == TableValidator.Graph(["A", "C", "D"], map["A" := [0], "C" := [1], "D" := [2]])
  {
    var nodes := [TableValidator.Node("A", Some("B")), TableValidator.Node("C", Some("D")), TableValidator.Node("D", Some("C"))];
    LetterIsPresent('B');
    LetterIsPresent('C');
    LetterIsPresent('D');
    assert nodes[..2] == [nodes[0], nodes[1]];
    assert [nodes[0], nodes[1]][..1] == [nodes[0]];
    assert [nodes[0]][..0] == [];
    assert TableValidator.GroupByName([nodes[0]]) == TableValidator.Graph(["A"], map["A" := [0]]);
    assert TableValidator.GroupByName([nodes[0], nodes[1]]) == TableValidator.Graph(["A", "C"], map["A" := [0], "C" := [1]]);
  }

  /** A cycle that the walk from the first key never reaches is not
      reported: A leads to B, which has no edge, and C ⇄ D is left alone. */
  lemma UnreachableCycleIsMissed()
    ensures TableValidator.ValidateNoCycles([TableValidator.Node("A", Some("B")), TableValidator.Node("C", Some("D")),
                                             TableValidator.Node("D", Some("C"))]) == None
  {
    var nodes := [TableValidator.Node("A", Some("B")), TableValidator.Node("C", Some("D")), TableValidator.Node("D", Some("C"))];
    var g := TableValidator.Graph(["A", "C", "D"], map["A" := [0], "C" := [1], "D" := [2]]);
    SplitCycleGraph();
    LetterIsPresent('B');
    assert [] + ["B"] == ["B"];
    assert TableValidator.ValidateAcyclicGraph(nodes, g, Some("B"), ["B"]) == None;
    assert TableValidator.CheckEdges(nodes, g, [0], 1, []) == None;
    assert TableValidator.CheckEdges(nodes, g, [0], 0, []) == None;
  }
}
