/** The promises `generate_table` makes about the table it returns, stated
    over the unit list. */
module GeneratedTable {
  import opened Common
  import opened Closures
  import opened ConversionTable
  import opened ConversionPaths
  import opened TableProofs
  import TableValidator

  /** Two names are joined by a direct edge or by a simple chain. */
  ghost predicate Joined(units: seq<DynUnit>, from: string, to: string) {
    FindDirect(units, to, from).Some? || Connected(units, from, to)
  }

  /** The cycle check runs before any lookup: when it reports a unit, that
      is the error, whatever the lookups would have found; and a
      CycleDetected error comes from nowhere else. */
  lemma CycleCheckFirst(units: seq<DynUnit>)
    ensures var cycle := TableValidator.ValidateNoCycles(Nodes(units));
            && (cycle.Some? ==> Generate(units) == Err(CycleDetected(cycle.value)))
            && (Generate(units).Err? && Generate(units).error.CycleDetected? ==> cycle.Some?)
  {
    var find := FinderOf(units);
    BuildFails(find, Names(units));
  }

  /** The table is produced exactly when the cycle check passes and every
      pair of unit names is joined. */
  lemma GenerateSucceeds(units: seq<DynUnit>)
    ensures Generate(units).Ok? <==>
              && TableValidator.ValidateNoCycles(Nodes(units)).None?
              && forall i, j | 0 <= i < j < |units| :: Joined(units, units[j].name, units[i].name)
  {
    var names := Names(units);
    BuildSucceeds(FinderOf(units), names);
    forall i, j | 0 <= i < j < |units|
      ensures Conversion(units, names[i], names[j]).Ok? <==> Joined(units, units[j].name, units[i].name)
    {
      ConversionFound(units, names[i], names[j]);
    }
  }

  /** A MissingConversionPath(from, to) names two units, the later one as
      `from`, that share no edge and no chain of edges. */
  lemma MissingPathMeansDisconnected(units: seq<DynUnit>)
    ensures Generate(units).Err? && Generate(units).error.MissingConversionPath? ==>
              var e := Generate(units).error;
              && (exists i, j | 0 <= i < j < |units| :: units[j].name == e.from && units[i].name == e.to)
              && !Joined(units, e.from, e.to)
  {
    var names := Names(units);
    var find := FinderOf(units);
    if Generate(units).Err? && Generate(units).error.MissingConversionPath? {
      var e := Generate(units).error;
      BuildFails(find, names);
      var i, j :| 0 <= i < j < |names| && find(names[i], names[j]) == Err(e);
      ConversionFound(units, names[i], names[j]);
    }
  }

  /** A generated table is the fold over the unit names, and describes them. */
  lemma GeneratedDescribes(units: seq<DynUnit>)
    requires Distinct(Names(units))
    ensures Generate(units).Ok? ==>
              && Generate(units) == Build(FinderOf(units), Names(units))
              && Describes(FinderOf(units), Names(units), Generate(units).value)
  {
    BuildDescribes(FinderOf(units), Names(units));
  }

  lemma GeneratedKeys(units: seq<DynUnit>)
    requires Distinct(Names(units))
    ensures Generate(units).Ok? ==>
              var t := Generate(units).value;
              && t.order == Names(units)
              && (forall n :: n in t.rows <==> n in Names(units))
              && (forall a, n | a in t.rows :: n in t.rows[a] <==> n in Names(units))
  {
    GeneratedDescribes(units);
  }

  lemma GeneratedDiagonal(units: seq<DynUnit>)
    requires Distinct(Names(units))
    ensures Generate(units).Ok? ==>
              var t := Generate(units).value;
              var names := Names(units);
              forall k | 0 <= k < |names| ::
                names[k] in t.rows && names[k] in t.rows[names[k]] && t.rows[names[k]][names[k]] == SelfConversion
  {
    GeneratedDescribes(units);
  }

  lemma GeneratedPairs(units: seq<DynUnit>)
    requires Distinct(Names(units))
    ensures Generate(units).Ok? ==>
              var t := Generate(units).value;
              var names := Names(units);
              forall i, j | 0 <= i < j < |names| ::
                && Conversion(units, names[i], names[j]).Ok?
                && names[i] in t.rows && names[j] in t.rows
                && names[i] in t.rows[names[j]] && names[j] in t.rows[names[i]]
                && t.rows[names[j]][names[i]] == Conversion(units, names[i], names[j]).value.forward
                && t.rows[names[i]][names[j]] == Conversion(units, names[i], names[j]).value.inverse
  {
    GeneratedDescribes(units);
    if Generate(units).Ok? {
      var t := Generate(units).value;
      var find := FinderOf(units);
      var names := Names(units);
      forall i, j | 0 <= i < j < |names|
        ensures && Conversion(units, names[i], names[j]).Ok?
                && names[i] in t.rows && names[j] in t.rows
                && names[i] in t.rows[names[j]] && names[j] in t.rows[names[i]]
                && t.rows[names[j]][names[i]] == Conversion(units, names[i], names[j]).value.forward
                && t.rows[names[i]][names[j]] == Conversion(units, names[i], names[j]).value.inverse
      {
        EntryAt(find, t, i, j);
        assert find(names[i], names[j]) == Conversion(units, names[i], names[j]);
      }
    }
  }

  /** With distinct unit names, a generated table is keyed by the names in
      declaration order, every row is keyed by every name, `table[a][a]` is
      SELF_CONVERSION, and for an earlier name `a` and a later name `b`,
      `table[b][a]` and `table[a][b]` are the forward and inverse halves of
      find_conversion(to: a, from: b). */
  lemma GeneratedTableEntries(units: seq<DynUnit>)
    requires Distinct(Names(units))
    ensures Generate(units).Ok? ==>
              var t := Generate(units).value;
              var names := Names(units);
              && t.order == names
              && (forall n :: n in t.rows <==> n in names)
              && (forall a, n | a in t.rows :: n in t.rows[a] <==> n in names)
              && (forall k | 0 <= k < |names| ::
                    names[k] in t.rows && names[k] in t.rows[names[k]] && t.rows[names[k]][names[k]] == SelfConversion)
              && (forall i, j | 0 <= i < j < |names| ::
                    && Conversion(units, names[i], names[j]).Ok?
                    && names[i] in t.rows && names[j] in t.rows
                    && names[i] in t.rows[names[j]] && names[j] in t.rows[names[i]]
                    && t.rows[names[j]][names[i]] == Conversion(units, names[i], names[j]).value.forward
                    && t.rows[names[i]][names[j]] == Conversion(units, names[i], names[j]).value.inverse)
  {
    GeneratedKeys(units);
    GeneratedDiagonal(units);
    GeneratedPairs(units);
  }

  /** One pair of entries of a generated table, for an earlier name at `i`
      and a later one at `j`. */
  lemma EntryPair(units: seq<DynUnit>, i: nat, j: nat)
    requires Distinct(Names(units)) && Generate(units).Ok? && i < j < |units|
    ensures var t := Generate(units).value;
            var c := Conversion(units, units[i].name, units[j].name);
            && c.Ok?
            && units[i].name in t.rows && units[j].name in t.rows
            && units[j].name in t.rows[units[i].name] && units[i].name in t.rows[units[j].name]
            && t.rows[units[j].name][units[i].name] == c.value.forward
            && t.rows[units[i].name][units[j].name] == c.value.inverse
  {
    GeneratedTableEntries(units);
    var names := Names(units);
    assert names[i] == units[i].name && names[j] == units[j].name;
  }

  /** The diagonal entry of a generated table converts a name to itself. */
  lemma DiagonalEntry(units: seq<DynUnit>, i: nat)
    requires Distinct(Names(units)) && Generate(units).Ok? && i < |units|
    ensures var t := Generate(units).value;
            && units[i].name in t.rows && units[i].name in t.rows[units[i].name]
            && t.rows[units[i].name][units[i].name] == SelfConversion
  {
    GeneratedTableEntries(units);
    assert Names(units)[i] == units[i].name;
  }

  /** Every key of a generated table is a unit's name. */
  lemma KeyIsName(units: seq<DynUnit>, a: string) returns (i: nat)
    requires Distinct(Names(units)) && Generate(units).Ok? && a in Generate(units).value.rows
    ensures i < |units| && units[i].name == a
  {
    GeneratedTableEntries(units);
    var names := Names(units);
    i :| 0 <= i < |names| && names[i] == a;
  }

  /** When every declared edge's procs undo each other, converting an amount
      from `a` to `b` with the table and back again gives the amount back. */
  lemma RoundTrip(units: seq<DynUnit>, a: string, b: string, x: real)
    requires Distinct(Names(units)) && AllLinksInverse(units)
    ensures Generate(units).Ok? && a in Generate(units).value.rows && b in Generate(units).value.rows ==>
              var t := Generate(units).value;
              && b in t.rows[a] && a in t.rows[b]
              && Apply(t.rows[b][a], Apply(t.rows[a][b], x)) == x
  {
    if Generate(units).Ok? && a in Generate(units).value.rows && b in Generate(units).value.rows {
      var i := KeyIsName(units, a);
      var j := KeyIsName(units, b);
      if i < j {
        EntryPair(units, i, j);
        ConversionIsInverse(units, a, b);
      } else if j < i {
        EntryPair(units, j, i);
        ConversionIsInverse(units, b, a);
      } else {
        DiagonalEntry(units, i);
      }
    }
  }

  /** No unit declares an edge to itself. */
  ghost predicate NoSelfLinks(units: seq<DynUnit>) {
    forall i | 0 <= i < |units| :: !LinksTo(units[i], units[i].name, units[i].name)
  }

  /** A name converts to itself only through a unit declaring an edge to
      itself: a traversal never returns to its start. */
  lemma SelfConversionNeedsSelfLink(units: seq<DynUnit>, n: string)
    ensures Conversion(units, n, n).Ok? ==> exists i | 0 <= i < |units| :: LinksTo(units[i], n, n)
  {
    ConversionFound(units, n, n);
    FindDirectFirstMatch(units, n, n);
  }

  /** So without self-edges a repeated unit name makes generation fail, and
      a generated table always comes from distinct names. */
  lemma GeneratedNamesAreDistinct(units: seq<DynUnit>)
    requires NoSelfLinks(units)
    ensures Generate(units).Ok? ==> Distinct(Names(units))
  {
    var names := Names(units);
    if Generate(units).Ok? {
      GenerateSucceeds(units);
      forall i, j | 0 <= i < j < |names| ensures names[i] != names[j] {
        BuildSucceeds(FinderOf(units), names);
        SelfConversionNeedsSelfLink(units, names[i]);
      }
    }
  }
}
