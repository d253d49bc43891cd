/** What the generated table holds: when it is produced at all, which error
    stops it otherwise, and what each of its entries converts. */
module TableProofs {
  import opened Common
  import opened Closures
  import opened ConversionTable
  import opened ConversionPaths
  import TableValidator

  /** The inner loop succeeds exactly when every remaining key converts to
      the new unit; otherwise it stops with the error of one of them. */
  lemma {:induction false} FillOutcome(find: ConversionFinder, t: Table, u: string, j: nat, row: map<string, Fn>,
                                       rows: map<string, map<string, Fn>>)
    requires KeysMatch(t) && j <= |t.order| && rows.Keys == t.rows.Keys
    ensures Fill(find, t, u, j, row, rows).Ok? <==>
              forall m | j <= m < |t.order| :: find(t.order[m], u).Ok?
    ensures Fill(find, t, u, j, row, rows).Err? ==>
              exists m | j <= m < |t.order| :: find(t.order[m], u) == Err(Fill(find, t, u, j, row, rows).error)
    decreases |t.order| - j
  {
    if j < |t.order| {
      var v := t.order[j];
      var conversion := find(v, u);
      if conversion.Ok? {
        var p := conversion.value;
        FillOutcome(find, t, u, j + 1, row[v := p.forward], rows[v := rows[v][u := p.inverse]]);
      }
    }
  }

  /** A new unit is added exactly when every existing key converts to it. */
  lemma AddUnitOutcome(find: ConversionFinder, t: Table, u: string, names: seq<string>)
    requires KeysMatch(t) && forall n :: n in t.order <==> n in names
    ensures AddUnit(find, t, u).Ok? <==> forall i | 0 <= i < |names| :: find(names[i], u).Ok?
    ensures AddUnit(find, t, u).Err? ==>
              exists i | 0 <= i < |names| :: find(names[i], u) == Err(AddUnit(find, t, u).error)
  {
    FillOutcome(find, t, u, 0, map[u := SelfConversion], t.rows);
    if AddUnit(find, t, u).Err? {
      var m :| 0 <= m < |t.order| && find(t.order[m], u) == Err(AddUnit(find, t, u).error);
      assert t.order[m] in names;
    }
    if forall m | 0 <= m < |t.order| :: find(t.order[m], u).Ok? {
      forall i | 0 <= i < |names| ensures find(names[i], u).Ok? {
        assert names[i] in t.order;
      }
    }
  }

  /** Every earlier name converts to every later one. */
  ghost predicate AllPairsConvert(find: ConversionFinder, names: seq<string>) {
    forall i, j | 0 <= i < j < |names| :: find(names[i], names[j]).Ok?
  }

  lemma PairsSplit(find: ConversionFinder, names: seq<string>)
    requires names != []
    ensures var prefix := names[..|names| - 1];
            AllPairsConvert(find, names) <==>
              AllPairsConvert(find, prefix) && forall i | 0 <= i < |prefix| :: find(prefix[i], names[|names| - 1]).Ok?
  {
    var last := |names| - 1;
    var prefix := names[..last];
    if AllPairsConvert(find, prefix) && forall i | 0 <= i < |prefix| :: find(prefix[i], names[last]).Ok? {
      forall i, j | 0 <= i < j < |names| ensures find(names[i], names[j]).Ok? {
        assert names[i] == prefix[i];
        if j < last {
          assert names[j] == prefix[j];
        }
      }
    }
    if AllPairsConvert(find, names) {
      forall i, j | 0 <= i < j < |prefix| ensures find(prefix[i], prefix[j]).Ok? {
        assert names[i] == prefix[i] && names[j] == prefix[j];
      }
      forall i | 0 <= i < |prefix| ensures find(prefix[i], names[last]).Ok? {
        assert names[i] == prefix[i];
      }
    }
  }

  /** `generate_table` minus the cycle check returns a table exactly when
      every pair of names (earlier one as `to`, later one as `from`)
      converts. */
  lemma {:induction false} BuildSucceeds(find: ConversionFinder, names: seq<string>)
    ensures Build(find, names).Ok? <==> AllPairsConvert(find, names)
  {
    if names != [] {
      var last := |names| - 1;
      var prefix := names[..last];
      BuildSucceeds(find, prefix);
      PairsSplit(find, names);
      if Build(find, prefix).Ok? {
        AddUnitOutcome(find, Build(find, prefix).value, names[last], prefix);
      }
    }
  }

  /** Otherwise it raises the error of such a pair: MissingConversionPath
      from the later name to the earlier one. */
  lemma {:induction false} BuildFails(find: ConversionFinder, names: seq<string>)
    ensures Build(find, names).Err? ==>
              exists i, j | 0 <= i < j < |names| :: find(names[i], names[j]) == Err(Build(find, names).error)
  {
    if names != [] && Build(find, names).Err? {
      var last := |names| - 1;
      var prefix := names[..last];
      var t := Build(find, prefix);
      BuildFails(find, prefix);
      if t.Err? {
        var i, j :| 0 <= i < j < |prefix| && find(prefix[i], prefix[j]) == Err(t.error);
        assert names[i] == prefix[i] && names[j] == prefix[j];
      } else {
        AddUnitOutcome(find, t.value, names[last], prefix);
        var i :| 0 <= i < |prefix| && find(prefix[i], names[last]) == Err(AddUnit(find, t.value, names[last]).error);
        assert names[i] == prefix[i];
      }
    }
  }

  /** Every row is keyed by exactly the table's keys. */
  ghost predicate Square(t: Table) {
    KeysMatch(t) && forall a, n | a in t.rows :: n in t.rows[a] <==> n in t.order
  }

  /** The entries for distinct names: the identity on the diagonal, and for
      each earlier name `a` and later name `b` the two halves of
      find_conversion(to: a, from: b) in `rows[b][a]` and `rows[a][b]`. */
  ghost predicate Entries(find: ConversionFinder, t: Table)
    requires Square(t)
  {
    && (forall k | 0 <= k < |t.order| :: t.rows[t.order[k]][t.order[k]] == SelfConversion)
    && (forall i, j | 0 <= i < j < |t.order| ::
          && find(t.order[i], t.order[j]).Ok?
          && t.rows[t.order[j]][t.order[i]] == find(t.order[i], t.order[j]).value.forward
          && t.rows[t.order[i]][t.order[j]] == find(t.order[i], t.order[j]).value.inverse)
  }

  ghost predicate Describes(find: ConversionFinder, names: seq<string>, t: Table) {
    t.order == names && Square(t) && Entries(find, t)
  }

  /** The new row after the first j existing keys: the identity for `u`, and
      the forward half of find_conversion(to: v, from: u) for each of those
      keys `v`. */
  ghost predicate RowState(find: ConversionFinder, t: Table, u: string, j: nat, row: map<string, Fn>)
    requires j <= |t.order|
  {
    && u in row && row[u] == SelfConversion
    && (forall n | n in row :: n == u || n in t.order)
    && (forall m | 0 <= m < j :: t.order[m] in row && find(t.order[m], u).Ok?
                                && row[t.order[m]] == find(t.order[m], u).value.forward)
  }

  /** The existing rows keep their keys, plus possibly `u`. */
  ghost predicate RowsKeys(t: Table, u: string, rows: map<string, map<string, Fn>>) {
    && (forall v :: v in rows <==> v in t.rows)
    && (forall v, n | v in rows && n in rows[v] :: v in t.rows && (n in t.rows[v] || n == u))
  }

  /** The existing entries are untouched. */
  ghost predicate RowsFrame(t: Table, rows: map<string, map<string, Fn>>) {
    forall v, n | v in t.rows && n in t.rows[v] :: v in rows && n in rows[v] && rows[v][n] == t.rows[v][n]
  }

  /** The first j existing keys' rows hold the inverse half for `u`. */
  ghost predicate RowsDone(find: ConversionFinder, t: Table, u: string, j: nat, rows: map<string, map<string, Fn>>)
    requires j <= |t.order|
  {
    forall m | 0 <= m < j :: t.order[m] in rows && u in rows[t.order[m]] && find(t.order[m], u).Ok?
                             && rows[t.order[m]][u] == find(t.order[m], u).value.inverse
  }

  /** The existing rows after the first j existing keys: those keys' rows
      gained the inverse half for `u`, and nothing else changed. */
  ghost predicate RowsState(find: ConversionFinder, t: Table, u: string, j: nat, rows: map<string, map<string, Fn>>)
    requires j <= |t.order|
  {
    RowsKeys(t, u, rows) && RowsFrame(t, rows) && RowsDone(find, t, u, j, rows)
  }

  ghost predicate FillState(find: ConversionFinder, t: Table, u: string, j: nat, row: map<string, Fn>,
                            rows: map<string, map<string, Fn>>)
    requires j <= |t.order|
  {
    RowState(find, t, u, j, row) && RowsState(find, t, u, j, rows)
  }

  lemma FillStateStart(find: ConversionFinder, t: Table, u: string)
    requires Square(t) && u !in t.order
    ensures FillState(find, t, u, 0, map[u := SelfConversion], t.rows)
  {
  }

  lemma RowStep(find: ConversionFinder, t: Table, u: string, j: nat, row: map<string, Fn>)
    requires u !in t.order && Distinct(t.order)
    requires j < |t.order| && RowState(find, t, u, j, row)
    requires find(t.order[j], u).Ok?
    ensures RowState(find, t, u, j + 1, row[t.order[j] := find(t.order[j], u).value.forward])
  {
    var v := t.order[j];
    forall m | 0 <= m < j ensures t.order[m] != v {
    }
  }

  lemma RowsKeysStep(t: Table, u: string, v: string, e: Fn, rows: map<string, map<string, Fn>>)
    requires RowsKeys(t, u, rows) && v in t.rows
    ensures RowsKeys(t, u, rows[v := rows[v][u := e]])
  {
  }

  lemma RowsFrameStep(t: Table, u: string, v: string, e: Fn, rows: map<string, map<string, Fn>>)
    requires RowsFrame(t, rows) && v in t.rows && v in rows && u !in t.rows[v]
    ensures RowsFrame(t, rows[v := rows[v][u := e]])
  {
  }

  lemma RowsDoneStep(find: ConversionFinder, t: Table, u: string, j: nat, rows: map<string, map<string, Fn>>)
    requires Distinct(t.order) && j < |t.order| && RowsDone(find, t, u, j, rows)
    requires t.order[j] in rows && find(t.order[j], u).Ok?
    ensures var v := t.order[j];
            RowsDone(find, t, u, j + 1, rows[v := rows[v][u := find(v, u).value.inverse]])
  {
    var v := t.order[j];
    forall m | 0 <= m < j ensures t.order[m] != v {
    }
  }

  lemma RowsStep(find: ConversionFinder, t: Table, u: string, j: nat, rows: map<string, map<string, Fn>>)
    requires Square(t) && u !in t.order && Distinct(t.order)
    requires j < |t.order| && RowsState(find, t, u, j, rows)
    requires find(t.order[j], u).Ok?
    ensures var v := t.order[j];
            RowsState(find, t, u, j + 1, rows[v := rows[v][u := find(v, u).value.inverse]])
  {
    var v := t.order[j];
    assert v in t.rows && v in rows && u !in t.rows[v];
    RowsKeysStep(t, u, v, find(v, u).value.inverse, rows);
    RowsFrameStep(t, u, v, find(v, u).value.inverse, rows);
    RowsDoneStep(find, t, u, j, rows);
  }

  /** The new row is keyed by the old keys and `u`. */
  lemma NewRowKeys(find: ConversionFinder, t: Table, u: string, row: map<string, Fn>, n: string)
    requires RowState(find, t, u, |t.order|, row)
    ensures n in row <==> n in t.order + [u]
  {
    if n in t.order {
      var m :| 0 <= m < |t.order| && t.order[m] == n;
    }
  }

  /** An existing row gained exactly the key `u`. */
  lemma OldRowKeys(find: ConversionFinder, t: Table, u: string, rows: map<string, map<string, Fn>>, a: string, n: string)
    requires Square(t) && a in t.rows
    requires RowsState(find, t, u, |t.order|, rows)
    ensures a in rows && (n in rows[a] <==> n in t.order + [u])
  {
    var m :| 0 <= m < |t.order| && t.order[m] == a;
    assert u in rows[t.order[m]];
  }

  lemma FillStateDoneKeys(find: ConversionFinder, t: Table, u: string, row: map<string, Fn>,
                          rows: map<string, map<string, Fn>>)
    requires Square(t) && u !in t.order
    requires FillState(find, t, u, |t.order|, row, rows)
    ensures Square(Table(t.order + [u], rows[u := row]))
  {
    var r := Table(t.order + [u], rows[u := row]);
    forall a, n | a in r.rows ensures n in r.rows[a] <==> n in r.order {
      if a == u {
        NewRowKeys(find, t, u, row, n);
      } else {
        OldRowKeys(find, t, u, rows, a, n);
      }
    }
  }

  /** The diagonal of the grown table. */
  lemma FillStateDoneDiagonal(find: ConversionFinder, t: Table, u: string, row: map<string, Fn>,
                              rows: map<string, map<string, Fn>>, k: nat)
    requires Square(t) && Entries(find, t) && u !in t.order
    requires FillState(find, t, u, |t.order|, row, rows)
    requires Square(Table(t.order + [u], rows[u := row])) && k < |t.order| + 1
    ensures var order := t.order + [u];
            rows[u := row][order[k]][order[k]] == SelfConversion
  {
    if k < |t.order| {
      assert (t.order + [u])[k] == t.order[k];
    }
  }

  /** An off-diagonal pair of entries of the grown table. */
  lemma FillStateDonePair(find: ConversionFinder, t: Table, u: string, row: map<string, Fn>,
                          rows: map<string, map<string, Fn>>, i: nat, j: nat)
    requires Square(t) && Entries(find, t) && u !in t.order
    requires FillState(find, t, u, |t.order|, row, rows)
    requires Square(Table(t.order + [u], rows[u := row])) && i < j < |t.order| + 1
    ensures var order := t.order + [u];
            var r := rows[u := row];
            && find(order[i], order[j]).Ok?
            && r[order[j]][order[i]] == find(order[i], order[j]).value.forward
            && r[order[i]][order[j]] == find(order[i], order[j]).value.inverse
  {
    var order := t.order + [u];
    assert order[i] == t.order[i];
    if j < |t.order| {
      assert order[j] == t.order[j];
    }
  }

  lemma FillStateDone(find: ConversionFinder, t: Table, u: string, row: map<string, Fn>,
                      rows: map<string, map<string, Fn>>)
    requires Square(t) && Entries(find, t) && u !in t.order
    requires FillState(find, t, u, |t.order|, row, rows)
    ensures Square(Table(t.order + [u], rows[u := row]))
    ensures Entries(find, Table(t.order + [u], rows[u := row]))
  {
    FillStateDoneKeys(find, t, u, row, rows);
    var order := t.order + [u];
    var r := Table(order, rows[u := row]);
    forall k | 0 <= k < |order| ensures r.rows[order[k]][order[k]] == SelfConversion {
      FillStateDoneDiagonal(find, t, u, row, rows, k);
    }
    forall i, j | 0 <= i < j < |order|
      ensures && find(order[i], order[j]).Ok?
              && r.rows[order[j]][order[i]] == find(order[i], order[j]).value.forward
              && r.rows[order[i]][order[j]] == find(order[i], order[j]).value.inverse
    {
      FillStateDonePair(find, t, u, row, rows, i, j);
    }
  }

  /** One successful pass of the inner loop, and what it keeps. */
  lemma FillStep(find: ConversionFinder, t: Table, u: string, j: nat,
                 row: map<string, Fn>, rows: map<string, map<string, Fn>>)
    requires Square(t) && u !in t.order && Distinct(t.order)
    requires j < |t.order| && rows.Keys == t.rows.Keys
    requires Fill(find, t, u, j, row, rows).Ok?
    ensures var v := t.order[j];
            && find(v, u).Ok?
            && var p := find(v, u).value;
            && v in rows
            && Fill(find, t, u, j, row, rows) == Fill(find, t, u, j + 1, row[v := p.forward], rows[v := rows[v][u := p.inverse]])
            && (RowState(find, t, u, j, row) ==> RowState(find, t, u, j + 1, row[v := p.forward]))
            && (RowsState(find, t, u, j, rows) ==> RowsState(find, t, u, j + 1, rows[v := rows[v][u := p.inverse]]))
  {
    var v := t.order[j];
    if RowState(find, t, u, j, row) {
      RowStep(find, t, u, j, row);
    }
    if RowsState(find, t, u, j, rows) {
      RowsStep(find, t, u, j, rows);
    }
  }

  /** A successful inner loop ends in the state RowState and RowsState
      describe for all existing keys. */
  lemma {:induction false} FillReaches(find: ConversionFinder, t: Table, u: string, j: nat,
                                       row: map<string, Fn>, rows: map<string, map<string, Fn>>)
    returns (row': map<string, Fn>, rows': map<string, map<string, Fn>>)
    requires Square(t) && u !in t.order && Distinct(t.order)
    requires j <= |t.order| && rows.Keys == t.rows.Keys
    requires Fill(find, t, u, j, row, rows).Ok?
    ensures Fill(find, t, u, j, row, rows) == Ok(Table(t.order + [u], rows'[u := row']))
    ensures RowState(find, t, u, j, row) ==> RowState(find, t, u, |t.order|, row')
    ensures RowsState(find, t, u, j, rows) ==> RowsState(find, t, u, |t.order|, rows')
    decreases |t.order| - j
  {
    if j == |t.order| {
      row', rows' := row, rows;
    } else {
      var v := t.order[j];
      FillStep(find, t, u, j, row, rows);
      var p := find(v, u).value;
      row', rows' := FillReaches(find, t, u, j + 1, row[v := p.forward], rows[v := rows[v][u := p.inverse]]);
    }
  }

  /** Adding a new name to a table that already describes its keys keeps it
      describing them. */
  lemma AddUnitDescribes(find: ConversionFinder, t: Table, u: string)
    requires Square(t) && Entries(find, t) && u !in t.order && Distinct(t.order)
    requires AddUnit(find, t, u).Ok?
    ensures AddUnit(find, t, u).value.order == t.order + [u]
    ensures Square(AddUnit(find, t, u).value) && Entries(find, AddUnit(find, t, u).value)
  {
    FillStateStart(find, t, u);
    var row, rows := FillReaches(find, t, u, 0, map[u := SelfConversion], t.rows);
    FillStateDone(find, t, u, row, rows);
  }

  /** One off-diagonal pair of entries of a described table. */
  lemma EntryAt(find: ConversionFinder, t: Table, i: nat, j: nat)
    requires Square(t) && Entries(find, t) && i < j < |t.order|
    ensures var a := t.order[i];
            var b := t.order[j];
            && find(a, b).Ok?
            && a in t.rows && b in t.rows && a in t.rows[b] && b in t.rows[a]
            && t.rows[b][a] == find(a, b).value.forward
            && t.rows[a][b] == find(a, b).value.inverse
  {
  }

  /** For distinct names the table generated without a cycle check is keyed
      by the names in order, every row is keyed by every name, and its entries
      are the identity on the diagonal and, in both directions, the halves of
      one find_conversion elsewhere. */
  lemma {:induction false} BuildDescribes(find: ConversionFinder, names: seq<string>)
    requires Distinct(names)
    ensures Build(find, names).Ok? ==> Describes(find, names, Build(find, names).value)
  {
    if names != [] && Build(find, names).Ok? {
      var last := |names| - 1;
      var prefix := names[..last];
      var u := names[last];
      assert Distinct(prefix);
      BuildDescribes(find, prefix);
      var t := Build(find, prefix).value;
      assert u !in prefix;
      AddUnitDescribes(find, t, u);
      assert names == prefix + [u];
    }
  }

  /** One more name: the outer loop either has already failed or adds that
      name's row. */
  lemma BuildNext(find: ConversionFinder, names: seq<string>, i: nat)
    requires i < |names|
    ensures var t := Build(find, names[..i]);
            Build(find, names[..i + 1]) == if t.Err? then t else AddUnit(find, t.value, names[i])
  {
    assert names[..i + 1][..i] == names[..i];
  }

  /** Once a prefix of the names fails, the whole table fails with the same
      error: the outer loop stops at the first raise. */
  lemma {:induction false} BuildStopsAtFirstError(find: ConversionFinder, names: seq<string>, k: nat)
    requires k <= |names| && Build(find, names[..k]).Err?
    ensures Build(find, names) == Build(find, names[..k])
    decreases |names| - k
  {
    if k < |names| {
      var prefix := names[..|names| - 1];
      assert prefix[..k] == names[..k];
      BuildStopsAtFirstError(find, prefix, k);
    } else {
      assert names[..k] == names;
    }
  }
}
