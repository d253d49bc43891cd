/** `Measured::DynamicConversionTableBuilder` as an object: the units it was
    given, its cache backend, and the memo of direct-edge lookups it fills
    while generating the table. */
module TableBuilder {
  import opened Common
  import opened Closures
  import opened ConversionTable
  import TableProofs
  import TableValidator

  /** A cache backend answering `exist?`, `read` and `write`. The default
      backend, Measured::Cache::Null, stores nothing. */
  class TableCache {
    const stores: bool
    var contents: Option<Table>

    /** An empty backend; `stores` is false for the Null backend. */
    constructor (stores: bool)
      ensures this.stores == stores && contents.None?
    {
      this.stores := stores;
      contents := None;
    }

    /** `exist?` */
    method Exist() returns (b: bool)
      ensures b <==> contents.Some?
    {
      b := contents.Some?;
    }

    /** `read`: the stored table, nil when there is none. */
    method Read() returns (t: Option<Table>)
      ensures t == contents
    {
      t := contents;
    }

    /** `write(table)`: a storing backend keeps the table, Null drops it. */
    method Write(t: Table)
      modifies this
      ensures contents == if stores then Some(t) else old(contents)
    {
      if stores {
        contents := Some(t);
      }
    }
  }

  class ConversionTableBuilder {
    const units: seq<DynUnit>
    const cache: TableCache
    /** `@direct_conversion_cache[to][from]`, nil results included. */
    var directCache: map<string, map<string, Option<Pair>>>

    /** Every memoised entry is what the direct lookup returns. */
    ghost predicate Valid()
      reads this
    {
      forall to, from | to in directCache && from in directCache[to] :: directCache[to][from] == FindDirect(units, to, from)
    }

    /** Every entry memoised before is still there, unchanged. */
    twostate predicate Kept()
      reads this
    {
      forall to, from | to in old(directCache) && from in old(directCache)[to] ::
        to in directCache && from in directCache[to] && directCache[to][from] == old(directCache)[to][from]
    }

    /** `initialize(units, cache:)` with units already in normalised form; a
        missing cache option selects the Null backend. */
    constructor (units: seq<DynUnit>, cache: Option<TableCache>)
      ensures this.units == units && directCache == map[] && Valid()
      ensures cache.Some? ==> this.cache == cache.value
      ensures cache.None? ==> fresh(this.cache) && !this.cache.stores && this.cache.contents.None?
    {
      this.units := units;
      if cache.Some? {
        this.cache := cache.value;
      } else {
        this.cache := new TableCache(false);
      }
      directCache := map[];
    }

    /** `find_direct_conversion_cached(to:, from:)`: the memoised entry when
        the key is present (nil included), else the scan, stored. */
    method FindDirectCached(to: string, from: string) returns (r: Option<Pair>)
      requires Valid()
      modifies this
      ensures Valid() && Kept()
      ensures r == FindDirect(units, to, from)
      ensures to in directCache && from in directCache[to]
      ensures forall t, f | t in directCache && f in directCache[t] ::
                (t in old(directCache) && f in old(directCache)[t]) || (t == to && f == from)
    {
      if to !in directCache {
        directCache := directCache[to := map[]];
      }
      if from in directCache[to] {
        r := directCache[to][from];
      } else {
        r := FindDirect(units, to, from);
        directCache := directCache[to := directCache[to][from := r]];
      }
    }

    /** `find_conversion(to:, from:)`: the memoised direct edge, else the
        traversal, else MissingConversionPath(from, to). */
    method FindConversion(to: string, from: string) returns (r: Result<Pair>)
      requires Valid()
      modifies this
      ensures Valid() && Kept()
      ensures r == Conversion(units, to, from)
    {
      var direct := FindDirectCached(to, from);
      if direct.Some? {
        r := Ok(direct.value);
      } else {
        var found := Traverse(units, from, to, Names(units), Pair(Identity, Identity));
        r := if found.Some? then Ok(found.value) else Err(MissingConversionPath(from, to));
      }
    }

    /** One pass of the outer loop of `generate_table` for the name `u`: a
        new row starting with SELF_CONVERSION, filled against every existing
        key while that key's row gains the inverse. */
    method AddRow(table: Table, u: string) returns (r: Result<Table>)
      requires Valid() && KeysMatch(table)
      modifies this
      ensures Valid() && Kept()
      ensures r == AddUnit(FinderOf(units), table, u)
    {
      ghost var find := FinderOf(units);
      var row := map[u := SelfConversion];
      var rows := table.rows;
      var j := 0;
      while j < |table.order|
        invariant 0 <= j <= |table.order| && rows.Keys == table.rows.Keys
        invariant Valid() && Kept()
        invariant Fill(find, table, u, j, row, rows) == AddUnit(find, table, u)
      {
        var v := table.order[j];
        var conversion := FindConversion(v, u);
        if conversion.Err? {
          return Err(conversion.error);
        }
        row := row[v := conversion.value.forward];
        rows := rows[v := rows[v][u := conversion.value.inverse]];
        j := j + 1;
      }
      r := Ok(Table(if u in rows then table.order else table.order + [u], rows[u := row]));
    }

    /** The outer loop of `generate_table`: one row per name, in order,
        stopping at the first failed lookup. */
    method AddRows(names: seq<string>) returns (r: Result<Table>)
      requires Valid()
      modifies this
      ensures Valid() && Kept()
      ensures r == Build(FinderOf(units), names)
    {
      ghost var find := FinderOf(units);
      var table := Table([], map[]);
      var i := 0;
      while i < |names|
        invariant 0 <= i <= |names|
        invariant Valid() && Kept()
        invariant Build(find, names[..i]) == Ok(table)
      {
        TableProofs.BuildNext(find, names, i);
        var next := AddRow(table, names[i]);
        if next.Err? {
          TableProofs.BuildStopsAtFirstError(find, names, i + 1);
          return next;
        }
        table := next.value;
        i := i + 1;
      }
      assert names[..i] == names;
      r := Ok(table);
    }

    /** `generate_table`: the cycle check before any lookup, then one row
        per name in declaration order. */
    method GenerateTable() returns (r: Result<Table>)
      requires Valid()
      modifies this
      ensures Valid() && Kept()
      ensures r == Generate(units)
      ensures TableValidator.ValidateNoCycles(Nodes(units)).Some? ==> directCache == old(directCache)
    {
      var cycle := TableValidator.ValidateNoCycles(Nodes(units));
      if cycle.Some? {
        return Err(CycleDetected(cycle.value));
      }
      r := AddRows(Names(units));
    }

    /** `cached?` */
    method Cached() returns (b: bool)
      ensures b <==> cache.contents.Some?
    {
      b := cache.Exist();
    }

    /** `to_h`: the stored table, untouched, when the backend has one;
        otherwise a freshly generated table, which is not stored. */
    method ToH() returns (r: Result<Table>)
      requires Valid()
      modifies this
      ensures Valid() && Kept()
      ensures old(cache.contents).Some? ==> r == Ok(old(cache.contents).value) && directCache == old(directCache)
      ensures old(cache.contents).None? ==> r == Generate(units)
      ensures cache.contents == old(cache.contents)
    {
      var cached := Cached();
      if cached {
        var stored := cache.Read();
        return Ok(stored.value);
      }
      r := GenerateTable();
    }

    /** `update_cache`: always regenerates; a generated table is written to
        the backend, an error leaves the backend as it was. */
    method UpdateCache() returns (r: Result<Table>)
      requires Valid()
      modifies this, cache
      ensures Valid() && Kept()
      ensures r == Generate(units)
      ensures cache.contents == if r.Ok? && cache.stores then Some(r.value) else old(cache.contents)
    {
      r := GenerateTable();
      if r.Ok? {
        cache.Write(r.value);
      }
    }
  }
}
