/**
 * The copy check: `verify` in datahoser.py.
 *
 * Reflection and the ORM are replaced by data. A source table is its name,
 * its column names, its primary-key column names (`None` when the table has
 * no primary key) and its rows; a destination table is its column names and
 * its rows; a row maps column names to values of any type with equality.
 * The destination database maps table names to tables.
 */
module Verification {
  import opened Basics

  const VERIFICATION_SUCCESS: int := 1
  const VERIFICATION_FATAL: int := 2
  const VERIFICATION_DIFF: int := 3

  type Row<V> = map<string, V>

  datatype SourceTable<V> = SourceTable(name: string, columns: seq<string>, primaryKey: Option<seq<string>>, rows: seq<Row<V>>)

  datatype DestTable<V> = DestTable(columns: set<string>, rows: seq<Row<V>>)

  /** The "{} rows out of {} verified identical" figures of one table. */
  datatype Tally = Tally(table: string, verified: nat, total: nat)

  /**
   * How `verify` ends: it returns a code (with the tallies it logged), or
   * `dest_query.one()` raises because the key of source row `row` of `table`
   * matched `matches` destination rows instead of one.
   */
  datatype Report = Returned(code: int, tallies: seq<Tally>) | Raised(table: string, row: nat, matches: nat)

  /** The row loop of one table: verified rows so far, or the row whose lookup raised. */
  datatype RowScan = Counted(verified: nat) | Failed(row: nat, matches: nat)

  // ---------------------------------------------------------------------
  // Well-formed data: every row carries the columns of its table
  // ---------------------------------------------------------------------

  predicate RowHas<V>(row: Row<V>, cols: seq<string>) {
    forall j :: 0 <= j < |cols| ==> cols[j] in row
  }

  predicate SourceWellFormed<V>(t: SourceTable<V>) {
    forall k :: 0 <= k < |t.rows| ==> RowHas(t.rows[k], t.columns)
  }

  predicate DestWellFormed<V>(d: DestTable<V>) {
    forall k :: 0 <= k < |d.rows| ==> d.columns <= d.rows[k].Keys
  }

  predicate WellFormed<V>(src: seq<SourceTable<V>>, dest: map<string, DestTable<V>>) {
    && (forall i :: 0 <= i < |src| ==> SourceWellFormed(src[i]))
    && (forall name :: name in dest ==> DestWellFormed(dest[name]))
  }

  /** The rows a query on table `name` sees in the destination; none if the table is absent. */
  function DestRows<V>(dest: map<string, DestTable<V>>, name: string): seq<Row<V>> {
    if name in dest then dest[name].rows else []
  }

  // ---------------------------------------------------------------------
  // Phase 1: structure
  // ---------------------------------------------------------------------

  /**
   * Every column of `t` exists in the destination table of the same name.
   * The table itself is only looked up while checking a column, so a source
   * table without columns passes even when the destination lacks it.
   */
  predicate TableStructureOk<V>(t: SourceTable<V>, dest: map<string, DestTable<V>>) {
    |t.columns| > 0 ==>
      && t.name in dest
      && forall j :: 0 <= j < |t.columns| ==> t.columns[j] in dest[t.name].columns
  }

  predicate StructureOk<V>(src: seq<SourceTable<V>>, dest: map<string, DestTable<V>>) {
    forall i :: 0 <= i < |src| ==> TableStructureOk(src[i], dest)
  }

  /** The first pair of loops of `verify`; `false` is its early `return VERIFICATION_FATAL`. */
  method CheckStructure<V>(src: seq<SourceTable<V>>, dest: map<string, DestTable<V>>) returns (ok: bool)
    ensures ok == StructureOk(src, dest)
  {
    for i := 0 to |src|
      invariant forall k :: 0 <= k < i ==> TableStructureOk(src[k], dest)
    {
      var t := src[i];
      for j := 0 to |t.columns|
        invariant j > 0 ==> t.name in dest
        invariant forall l :: 0 <= l < j ==> t.columns[l] in dest[t.name].columns
      {
        if t.name !in dest {
          // destination table missing
          return false;
        }
        if t.columns[j] !in dest[t.name].columns {
          // destination column missing
          return false;
        }
      }
    }
    return true;
  }

  // ---------------------------------------------------------------------
  // Phase 2: looking a row up by its primary key
  // ---------------------------------------------------------------------

  /** `a` and `b` both carry every column of `cols`, with equal values. */
  predicate AgreeOn<V(==)>(cols: seq<string>, a: Row<V>, b: Row<V>) {
    forall j :: 0 <= j < |cols| ==> cols[j] in a && cols[j] in b && a[cols[j]] == b[cols[j]]
  }

  /** The destination rows whose `key` columns equal those of `row`, in table order. */
  function Matches<V(==)>(rows: seq<Row<V>>, key: seq<string>, row: Row<V>): (r: seq<Row<V>>)
    ensures |r| <= |rows|
  {
    if rows == [] then []
    else (if AgreeOn(key, rows[0], row) then [rows[0]] else []) + Matches(rows[1..], key, row)
  }

  /** One `filter(column == value)` of the query: the rows whose column `c` equals that of `row`. */
  function Filter<V(==)>(rows: seq<Row<V>>, c: string, row: Row<V>): seq<Row<V>> {
    if rows == [] then []
    else (if c in rows[0] && c in row && rows[0][c] == row[c] then [rows[0]] else []) + Filter(rows[1..], c, row)
  }

  /*
   * `MatchCount` and `FirstMatch` are the length and the head of `Matches`
   * (lemma `MatchesCount`), computed without building the sequence. The row
   * outcome is stated with them because reasoning about the length of a
   * filtered sequence inside loop invariants is costly for the verifier.
   */

  /** The number of destination rows the lookup of `row` finds: the length of `Matches`. */
  function MatchCount<V(==)>(rows: seq<Row<V>>, key: seq<string>, row: Row<V>): nat {
    if rows == [] then 0 else (if AgreeOn(key, rows[0], row) then 1 else 0) + MatchCount(rows[1..], key, row)
  }

  /** The first destination row the lookup of `row` finds: the head of `Matches`. */
  function FirstMatch<V(==)>(rows: seq<Row<V>>, key: seq<string>, row: Row<V>): Row<V>
    requires MatchCount(rows, key, row) > 0
  {
    if AgreeOn(key, rows[0], row) then rows[0] else FirstMatch(rows[1..], key, row)
  }

  /** `MatchCount` and `FirstMatch` are the length and the head of the lookup result. */
  lemma {:induction false} MatchesCount<V>(rows: seq<Row<V>>, key: seq<string>, row: Row<V>)
    ensures |Matches(rows, key, row)| == MatchCount(rows, key, row)
    ensures MatchCount(rows, key, row) > 0 ==> Matches(rows, key, row)[0] == FirstMatch(rows, key, row)
  {
    if rows != [] {
      MatchesCount(rows[1..], key, row);
    }
  }

  lemma {:induction false} MatchesNoKey<V>(rows: seq<Row<V>>, row: Row<V>)
    ensures Matches(rows, [], row) == rows
  {
    if rows != [] {
      MatchesNoKey(rows[1..], row);
    }
  }

  /** Filtering on one more key column refines the match on the key so far. */
  lemma {:induction false} FilterRefines<V>(rows: seq<Row<V>>, key: seq<string>, c: string, row: Row<V>)
    ensures Filter(Matches(rows, key, row), c, row) == Matches(rows, key + [c], row)
  {
    if rows != [] {
      FilterRefines(rows[1..], key, c, row);
      var x := rows[0];
      var k := key + [c];
      assert AgreeOn(k, x, row) <==> AgreeOn(key, x, row) && c in x && c in row && x[c] == row[c] by {
        assert k[|key|] == c;
        assert forall j :: 0 <= j < |key| ==> k[j] == key[j];
      }
      FilterAppend(if AgreeOn(key, x, row) then [x] else [], Matches(rows[1..], key, row), c, row);
    }
  }

  lemma {:induction false} FilterAppend<V>(a: seq<Row<V>>, b: seq<Row<V>>, c: string, row: Row<V>)
    ensures Filter(a + b, c, row) == Filter(a, c, row) + Filter(b, c, row)
  {
    if a != [] {
      assert (a + b)[1..] == a[1..] + b;
      FilterAppend(a[1..], b, c, row);
    } else {
      assert a + b == b;
    }
  }

  /**
   * The query of `verify` for one source row: start from the whole table and
   * add one equality filter per primary-key column.
   */
  method LookupRow<V(==)>(rows: seq<Row<V>>, key: seq<string>, row: Row<V>) returns (found: seq<Row<V>>)
    ensures found == Matches(rows, key, row)
  {
    found := rows;
    MatchesNoKey(rows, row);
    for j := 0 to |key|
      invariant found == Matches(rows, key[..j], row)
    {
      FilterRefines(rows, key[..j], key[j], row);
      assert key[..j + 1] == key[..j] + [key[j]];
      found := Filter(found, key[j], row);
    }
    assert key[..|key|] == key;
  }

  /** The rows a lookup finds are rows of the table, so they carry its columns. */
  lemma {:induction false} MatchesKeepColumns<V>(rows: seq<Row<V>>, key: seq<string>, row: Row<V>, columns: seq<string>)
    requires forall k :: 0 <= k < |rows| ==> RowHas(rows[k], columns)
    ensures forall k :: 0 <= k < |Matches(rows, key, row)| ==> RowHas(Matches(rows, key, row)[k], columns)
  {
    if rows != [] {
      MatchesKeepColumns(rows[1..], key, row, columns);
      var head := if AgreeOn(key, rows[0], row) then [rows[0]] else [];
      var tail := Matches(rows[1..], key, row);
      forall k | 0 <= k < |head + tail| ensures RowHas((head + tail)[k], columns) {
        if k < |head| {
          assert (head + tail)[k] == rows[0];
        } else {
          assert (head + tail)[k] == tail[k - |head|];
        }
      }
    }
  }

  /**
   * The column loop of `verify`: compares every column and does not stop at
   * the first difference (each one is logged).
   */
  method CompareRow<V(==)>(columns: seq<string>, source: Row<V>, dest: Row<V>) returns (mismatch: bool)
    requires RowHas(source, columns) && RowHas(dest, columns)
    ensures mismatch == !AgreeOn(columns, dest, source)
  {
    mismatch := false;
    for j := 0 to |columns|
      invariant mismatch <==> exists l :: 0 <= l < j && dest[columns[l]] != source[columns[l]]
    {
      if dest[columns[j]] != source[columns[j]] {
        mismatch := true;
      }
    }
  }

  // ---------------------------------------------------------------------
  // Phase 2: one table
  // ---------------------------------------------------------------------

  /** The lookup of `row` finds exactly one destination row, so `.one()` returns. */
  predicate Unique<V(==)>(destRows: seq<Row<V>>, key: seq<string>, row: Row<V>) {
    MatchCount(destRows, key, row) == 1
  }

  /** `row` finds its single destination row and agrees with it on every column. */
  predicate RowVerified<V(==)>(columns: seq<string>, key: seq<string>, destRows: seq<Row<V>>, row: Row<V>) {
    Unique(destRows, key, row) && AgreeOn(columns, FirstMatch(destRows, key, row), row)
  }

  /** What happens to one source row: `.one()` raises, or the row is compared with its match. */
  datatype RowCheck = Raises(matches: nat) | Compared(agrees: bool)

  function CheckRow<V(==)>(columns: seq<string>, key: seq<string>, destRows: seq<Row<V>>, row: Row<V>): RowCheck {
    var count := MatchCount(destRows, key, row);
    if count != 1 then Raises(count) else Compared(AgreeOn(columns, FirstMatch(destRows, key, row), row))
  }

  /** The row loop of one table over its first `n` source rows. */
  function ScanRows<V(==)>(columns: seq<string>, key: seq<string>, rows: seq<Row<V>>, destRows: seq<Row<V>>, n: nat): (r: RowScan)
    requires n <= |rows|
    ensures r.Counted? ==> r.verified <= n
    ensures r.Failed? ==> r.row < n
  {
    if n == 0 then Counted(0)
    else
      match ScanRows(columns, key, rows, destRows, n - 1)
      case Failed(i, m) => Failed(i, m)
      case Counted(v) =>
        match CheckRow(columns, key, destRows, rows[n - 1])
        case Raises(m) => Failed(n - 1, m)
        case Compared(agrees) => Counted(if agrees then v + 1 else v)
  }

  /**
   * What the row loop establishes: it completes exactly when every lookup is
   * unique, counts every row when exactly every row agrees, and otherwise
   * stops at the first row whose lookup is not unique.
   */
  lemma {:induction false} ScanRowsSpec<V>(columns: seq<string>, key: seq<string>, rows: seq<Row<V>>, destRows: seq<Row<V>>, n: nat)
    requires n <= |rows|
    ensures ScanRows(columns, key, rows, destRows, n).Counted? <==>
      forall k :: 0 <= k < n ==> Unique(destRows, key, rows[k])
    ensures ScanRows(columns, key, rows, destRows, n) == Counted(n) <==>
      forall k :: 0 <= k < n ==> RowVerified(columns, key, destRows, rows[k])
    ensures ScanRows(columns, key, rows, destRows, n).Failed? ==>
      && ScanRows(columns, key, rows, destRows, n).matches == MatchCount(destRows, key, rows[ScanRows(columns, key, rows, destRows, n).row])
      && !Unique(destRows, key, rows[ScanRows(columns, key, rows, destRows, n).row])
      && forall k :: 0 <= k < ScanRows(columns, key, rows, destRows, n).row ==> Unique(destRows, key, rows[k])
  {
    if n > 0 {
      ScanRowsSpec(columns, key, rows, destRows, n - 1);
    }
  }

  /** How many of the first `n` source rows are verified: unique lookup, all columns agree. */
  function VerifiedRows<V(==)>(columns: seq<string>, key: seq<string>, rows: seq<Row<V>>, destRows: seq<Row<V>>, n: nat): nat
    requires n <= |rows|
  {
    if n == 0 then 0
    else VerifiedRows(columns, key, rows, destRows, n - 1) + (if RowVerified(columns, key, destRows, rows[n - 1]) then 1 else 0)
  }

  /**
   * A completed row loop counts exactly the verified rows: the figure of the
   * "{} rows out of {} verified identical" line.
   */
  lemma {:induction false} ScanCountsVerifiedRows<V>(columns: seq<string>, key: seq<string>, rows: seq<Row<V>>, destRows: seq<Row<V>>, n: nat)
    requires n <= |rows|
    ensures ScanRows(columns, key, rows, destRows, n).Counted? ==>
      ScanRows(columns, key, rows, destRows, n).verified == VerifiedRows(columns, key, rows, destRows, n)
  {
    if n > 0 {
      ScanCountsVerifiedRows(columns, key, rows, destRows, n - 1);
    }
  }

  /** One more row: the lookup raises, or the count grows by one when the row agrees. */
  lemma ScanRowsNext<V>(columns: seq<string>, key: seq<string>, rows: seq<Row<V>>, destRows: seq<Row<V>>, i: nat, v: nat, check: RowCheck)
    requires i < |rows| && ScanRows(columns, key, rows, destRows, i) == Counted(v)
    requires check == CheckRow(columns, key, destRows, rows[i])
    ensures ScanRows(columns, key, rows, destRows, i + 1) ==
      if check.Raises? then Failed(i, check.matches) else Counted(if check.agrees then v + 1 else v)
  {
  }

  /** Once a lookup has raised, later rows change nothing. */
  lemma {:induction false} ScanRowsStaysFailed<V>(columns: seq<string>, key: seq<string>, rows: seq<Row<V>>, destRows: seq<Row<V>>, n: nat, m: nat)
    requires n <= m <= |rows|
    requires ScanRows(columns, key, rows, destRows, n).Failed?
    ensures ScanRows(columns, key, rows, destRows, m) == ScanRows(columns, key, rows, destRows, n)
  {
    if m > n {
      ScanRowsStaysFailed(columns, key, rows, destRows, n, m - 1);
    }
  }

  /** The body of the row loop of `verify`: look the row up, take the one match, compare. */
  method VerifyRow<V(==)>(columns: seq<string>, key: seq<string>, destRows: seq<Row<V>>, row: Row<V>) returns (check: RowCheck)
    requires RowHas(row, columns)
    requires forall k :: 0 <= k < |destRows| ==> RowHas(destRows[k], columns)
    ensures check == CheckRow(columns, key, destRows, row)
  {
    var found := LookupRow(destRows, key, row);
    MatchesCount(destRows, key, row);
    if |found| != 1 {
      // dest_query.one() raises
      return Raises(|found|);
    }
    MatchesKeepColumns(destRows, key, row, columns);
    var mismatch := CompareRow(columns, row, found[0]);
    return Compared(!mismatch);
  }

  /**
   * The body of the table loop of `verify` for a table with primary key
   * `key`: it also reports whether a row differed, which sets the result to
   * VERIFICATION_DIFF.
   */
  method VerifyTable<V(==)>(columns: seq<string>, key: seq<string>, rows: seq<Row<V>>, destRows: seq<Row<V>>)
    returns (r: RowScan, differs: bool)
    requires forall k :: 0 <= k < |rows| ==> RowHas(rows[k], columns)
    requires forall k :: 0 <= k < |destRows| ==> RowHas(destRows[k], columns)
    ensures r == ScanRows(columns, key, rows, destRows, |rows|)
    ensures differs <==> r.Counted? && r.verified < |rows|
  {
    var verified := 0;
    differs := false;
    for i := 0 to |rows|
      invariant ScanRows(columns, key, rows, destRows, i) == Counted(verified)
      invariant differs <==> verified < i
    {
      var check := VerifyRow(columns, key, destRows, rows[i]);
      ScanRowsNext(columns, key, rows, destRows, i, verified, check);
      if check.Raises? {
        ScanRowsStaysFailed(columns, key, rows, destRows, i + 1, |rows|);
        return Failed(i, check.matches), false;
      }
      if check.agrees {
        verified := verified + 1;
      } else {
        differs := true;
      }
    }
    r := Counted(verified);
  }

  // ---------------------------------------------------------------------
  // Phase 2: all tables, and verify
  // ---------------------------------------------------------------------

  /** The data phase over the first `n` source tables; tables without a primary key are skipped. */
  function DataPhase<V(==)>(src: seq<SourceTable<V>>, dest: map<string, DestTable<V>>, n: nat): (r: Report)
    requires n <= |src|
    ensures r.Returned? ==> r.code == VERIFICATION_SUCCESS || r.code == VERIFICATION_DIFF
    ensures r.Returned? ==> forall k :: 0 <= k < |r.tallies| ==> r.tallies[k].verified <= r.tallies[k].total
  {
    if n == 0 then Returned(VERIFICATION_SUCCESS, [])
    else
      var prev := DataPhase(src, dest, n - 1);
      var t := src[n - 1];
      if prev.Raised? || t.primaryKey.None? then prev
      else
        match ScanRows(t.columns, t.primaryKey.value, t.rows, DestRows(dest, t.name), |t.rows|)
        case Failed(i, m) => Raised(t.name, i, m)
        case Counted(v) =>
          Returned(if v < |t.rows| then VERIFICATION_DIFF else prev.code, prev.tallies + [Tally(t.name, v, |t.rows|)])
  }

  /** One more table: skipped without a primary key, otherwise its row loop raises or adds a tally. */
  lemma DataPhaseNext<V>(src: seq<SourceTable<V>>, dest: map<string, DestTable<V>>, i: nat, code: int, tallies: seq<Tally>)
    requires i < |src| && DataPhase(src, dest, i) == Returned(code, tallies)
    ensures src[i].primaryKey.None? ==> DataPhase(src, dest, i + 1) == Returned(code, tallies)
    ensures src[i].primaryKey.Some? ==>
      var scan := ScanRows(src[i].columns, src[i].primaryKey.value, src[i].rows, DestRows(dest, src[i].name), |src[i].rows|);
      DataPhase(src, dest, i + 1) ==
        if scan.Failed? then Raised(src[i].name, scan.row, scan.matches)
        else Returned(if scan.verified < |src[i].rows| then VERIFICATION_DIFF else code,
                      tallies + [Tally(src[i].name, scan.verified, |src[i].rows|)])
  {
  }

  /** Once a lookup has raised, later tables change nothing. */
  lemma {:induction false} DataPhaseStaysRaised<V>(src: seq<SourceTable<V>>, dest: map<string, DestTable<V>>, n: nat, m: nat)
    requires n <= m <= |src|
    requires DataPhase(src, dest, n).Raised?
    ensures DataPhase(src, dest, m) == DataPhase(src, dest, n)
  {
    if m > n {
      DataPhaseStaysRaised(src, dest, n, m - 1);
    }
  }

  /** What `verify` returns or raises. */
  function VerifyReport<V(==)>(src: seq<SourceTable<V>>, dest: map<string, DestTable<V>>): Report {
    if !StructureOk(src, dest) then Returned(VERIFICATION_FATAL, []) else DataPhase(src, dest, |src|)
  }

  /** Every destination row of a table that passed phase 1 carries the source table's columns. */
  lemma DestRowsHaveColumns<V>(t: SourceTable<V>, dest: map<string, DestTable<V>>)
    requires TableStructureOk(t, dest)
    requires forall name :: name in dest ==> DestWellFormed(dest[name])
    ensures forall k :: 0 <= k < |DestRows(dest, t.name)| ==> RowHas(DestRows(dest, t.name)[k], t.columns)
  {
    if t.name in dest {
      forall k | 0 <= k < |dest[t.name].rows| ensures RowHas(dest[t.name].rows[k], t.columns) {
        assert dest[t.name].columns <= dest[t.name].rows[k].Keys;
      }
    }
  }

  /** verify. */
  method Verify<V(==)>(src: seq<SourceTable<V>>, dest: map<string, DestTable<V>>) returns (r: Report)
    requires WellFormed(src, dest)
    ensures r == VerifyReport(src, dest)
  {
    var ok := CheckStructure(src, dest);
    if !ok {
      return Returned(VERIFICATION_FATAL, []);
    }
    var retval := VERIFICATION_SUCCESS;
    var tallies: seq<Tally> := [];
    for i := 0 to |src|
      invariant DataPhase(src, dest, i) == Returned(retval, tallies)
    {
      var t := src[i];
      DataPhaseNext(src, dest, i, retval, tallies);
      if t.primaryKey.Some? {
        assert SourceWellFormed(t) && TableStructureOk(t, dest);
        DestRowsHaveColumns(t, dest);
        var scan, differs := VerifyTable(t.columns, t.primaryKey.value, t.rows, DestRows(dest, t.name));
        if scan.Failed? {
          DataPhaseStaysRaised(src, dest, i + 1, |src|);
          return Raised(t.name, scan.row, scan.matches);
        }
        if differs {
          retval := VERIFICATION_DIFF;
        }
        tallies := tallies + [Tally(t.name, scan.verified, |t.rows|)];
      }
    }
    return Returned(retval, tallies);
  }

  // ---------------------------------------------------------------------
  // What the result means
  // ---------------------------------------------------------------------

  /** Every row of `t` finds exactly one destination row (trivially so without a primary key). */
  predicate TableUnique<V(==)>(t: SourceTable<V>, dest: map<string, DestTable<V>>) {
    t.primaryKey.Some? ==>
      forall k :: 0 <= k < |t.rows| ==> Unique(DestRows(dest, t.name), t.primaryKey.value, t.rows[k])
  }

  /** Every row of `t` finds its destination row and agrees with it (trivially so without a primary key). */
  predicate TableVerified<V(==)>(t: SourceTable<V>, dest: map<string, DestTable<V>>) {
    t.primaryKey.Some? ==>
      forall k :: 0 <= k < |t.rows| ==> RowVerified(t.columns, t.primaryKey.value, DestRows(dest, t.name), t.rows[k])
  }

  /** The data phase over `src[..n]` returns exactly when every lookup in it is unique. */
  lemma {:induction false} DataPhaseReturns<V>(src: seq<SourceTable<V>>, dest: map<string, DestTable<V>>, n: nat)
    requires n <= |src|
    ensures DataPhase(src, dest, n).Returned? <==> forall i :: 0 <= i < n ==> TableUnique(src[i], dest)
  {
    if n > 0 {
      DataPhaseReturns(src, dest, n - 1);
      var t := src[n - 1];
      if t.primaryKey.Some? {
        ScanRowsSpec(t.columns, t.primaryKey.value, t.rows, DestRows(dest, t.name), |t.rows|);
      }
    }
  }

  /** The data phase over `src[..n]` returns VERIFICATION_SUCCESS exactly when every row in it agrees. */
  lemma {:induction false} DataPhaseSucceeds<V>(src: seq<SourceTable<V>>, dest: map<string, DestTable<V>>, n: nat)
    requires n <= |src|
    ensures DataPhase(src, dest, n).Returned? && DataPhase(src, dest, n).code == VERIFICATION_SUCCESS <==>
      forall i :: 0 <= i < n ==> TableVerified(src[i], dest)
  {
    if n > 0 {
      DataPhaseSucceeds(src, dest, n - 1);
      var t := src[n - 1];
      if t.primaryKey.Some? {
        ScanRowsSpec(t.columns, t.primaryKey.value, t.rows, DestRows(dest, t.name), |t.rows|);
      }
    }
  }

  /**
   * VERIFICATION_FATAL comes back exactly when some source table with columns
   * is missing from the destination or one of its columns is.
   */
  lemma FatalExactlyOnMissingStructure<V>(src: seq<SourceTable<V>>, dest: map<string, DestTable<V>>)
    ensures VerifyReport(src, dest).Returned? && VerifyReport(src, dest).code == VERIFICATION_FATAL <==>
      exists i :: 0 <= i < |src| && |src[i].columns| > 0 &&
        (src[i].name !in dest || exists j :: 0 <= j < |src[i].columns| && src[i].columns[j] !in dest[src[i].name].columns)
  {
    if StructureOk(src, dest) {
      assert VerifyReport(src, dest) == DataPhase(src, dest, |src|);
    }
  }

  /** A fatal result is decided before any row is compared: it logs no tallies. */
  lemma FatalComparesNoRows<V>(src: seq<SourceTable<V>>, dest: map<string, DestTable<V>>)
    requires !StructureOk(src, dest)
    ensures VerifyReport(src, dest) == Returned(VERIFICATION_FATAL, [])
  {
  }

  /**
   * VERIFICATION_SUCCESS comes back exactly when the structure matches and
   * every row of every table with a primary key finds one destination row by
   * its key and agrees with it on every column.
   */
  lemma SuccessExactlyWhenAllRowsAgree<V>(src: seq<SourceTable<V>>, dest: map<string, DestTable<V>>)
    ensures VerifyReport(src, dest).Returned? && VerifyReport(src, dest).code == VERIFICATION_SUCCESS <==>
      StructureOk(src, dest) && forall i :: 0 <= i < |src| ==> TableVerified(src[i], dest)
  {
    DataPhaseSucceeds(src, dest, |src|);
  }

  /**
   * VERIFICATION_DIFF comes back exactly when the structure matches, every
   * lookup is unique, and some row differs from its destination row.
   */
  lemma DiffExactlyWhenSomeRowDiffers<V>(src: seq<SourceTable<V>>, dest: map<string, DestTable<V>>)
    ensures VerifyReport(src, dest).Returned? && VerifyReport(src, dest).code == VERIFICATION_DIFF <==>
      && StructureOk(src, dest)
      && (forall i :: 0 <= i < |src| ==> TableUnique(src[i], dest))
      && !(forall i :: 0 <= i < |src| ==> TableVerified(src[i], dest))
  {
    DataPhaseReturns(src, dest, |src|);
    DataPhaseSucceeds(src, dest, |src|);
  }

  /**
   * A source row without a destination row is not a difference: once the
   * structure matches, `verify` raises instead of returning.
   */
  lemma MissingRowRaises<V>(src: seq<SourceTable<V>>, dest: map<string, DestTable<V>>, i: nat, k: nat)
    requires StructureOk(src, dest)
    requires i < |src| && src[i].primaryKey.Some? && k < |src[i].rows|
    requires Matches(DestRows(dest, src[i].name), src[i].primaryKey.value, src[i].rows[k]) == []
    ensures VerifyReport(src, dest).Raised?
  {
    DataPhaseReturns(src, dest, |src|);
    MatchesCount(DestRows(dest, src[i].name), src[i].primaryKey.value, src[i].rows[k]);
    assert !TableUnique(src[i], dest);
  }

  /** The data phase raises at the first row, in table-then-row order, whose lookup is not unique. */
  lemma {:induction false} RaisedAt<V>(src: seq<SourceTable<V>>, dest: map<string, DestTable<V>>, n: nat) returns (i: nat)
    requires n <= |src| && DataPhase(src, dest, n).Raised?
    ensures i < n && src[i].primaryKey.Some? && src[i].name == DataPhase(src, dest, n).table
    ensures forall l :: 0 <= l < i ==> TableUnique(src[l], dest)
    ensures var t, r := src[i], DataPhase(src, dest, n);
      && r.row < |t.rows|
      && r.matches == |Matches(DestRows(dest, t.name), t.primaryKey.value, t.rows[r.row])|
      && r.matches != 1
      && forall k :: 0 <= k < r.row ==> Unique(DestRows(dest, t.name), t.primaryKey.value, t.rows[k])
  {
    if DataPhase(src, dest, n - 1).Raised? {
      i := RaisedAt(src, dest, n - 1);
    } else {
      i := n - 1;
      DataPhaseReturns(src, dest, n - 1);
      var t := src[i];
      ScanRowsSpec(t.columns, t.primaryKey.value, t.rows, DestRows(dest, t.name), |t.rows|);
    }
    var t, r := src[i], DataPhase(src, dest, n);
    MatchesCount(DestRows(dest, t.name), t.primaryKey.value, t.rows[r.row]);
  }

  /**
   * When `verify` raises, the structure matched and the error names the first
   * source row, in table-then-row order, whose key matched no destination row
   * or several.
   */
  lemma RaisedOnFirstBadLookup<V>(src: seq<SourceTable<V>>, dest: map<string, DestTable<V>>) returns (i: nat)
    requires VerifyReport(src, dest).Raised?
    ensures StructureOk(src, dest)
    ensures i < |src| && src[i].primaryKey.Some? && src[i].name == VerifyReport(src, dest).table
    ensures forall l :: 0 <= l < i ==> TableUnique(src[l], dest)
    ensures var t, r := src[i], VerifyReport(src, dest);
      && r.row < |t.rows|
      && r.matches == |Matches(DestRows(dest, t.name), t.primaryKey.value, t.rows[r.row])|
      && r.matches != 1
      && forall k :: 0 <= k < r.row ==> Unique(DestRows(dest, t.name), t.primaryKey.value, t.rows[k])
  {
    i := RaisedAt(src, dest, |src|);
  }

  // ---------------------------------------------------------------------
  // A faithful copy verifies
  // ---------------------------------------------------------------------

  /** Every row carries the key, and no two rows share its values: a primary key. */
  predicate KeyedRows<V(==)>(rows: seq<Row<V>>, key: seq<string>) {
    && (forall k :: 0 <= k < |rows| ==> RowHas(rows[k], key))
    && (forall a, b :: 0 <= a < |rows| && 0 <= b < |rows| && a != b ==> !AgreeOn(key, rows[a], rows[b]))
  }

  lemma {:induction false} MatchesNone<V>(rows: seq<Row<V>>, key: seq<string>, row: Row<V>)
    requires forall x :: 0 <= x < |rows| ==> !AgreeOn(key, rows[x], row)
    ensures Matches(rows, key, row) == []
  {
    if rows != [] {
      assert !AgreeOn(key, rows[0], row);
      MatchesNone(rows[1..], key, row);
    }
  }

  /** A lookup whose key only row `k` agrees with finds exactly that row. */
  lemma {:induction false} MatchesOnly<V>(rows: seq<Row<V>>, key: seq<string>, row: Row<V>, k: nat)
    requires k < |rows| && AgreeOn(key, rows[k], row)
    requires forall x :: 0 <= x < |rows| && x != k ==> !AgreeOn(key, rows[x], row)
    ensures Matches(rows, key, row) == [rows[k]]
  {
    if k == 0 {
      MatchesNone(rows[1..], key, row);
    } else {
      assert !AgreeOn(key, rows[0], row);
      MatchesOnly(rows[1..], key, row, k - 1);
    }
  }

  /**
   * A destination that holds every source table, with at least its columns
   * and exactly its rows, verifies with VERIFICATION_SUCCESS.
   */
  lemma IdenticalCopyVerifies<V>(src: seq<SourceTable<V>>, dest: map<string, DestTable<V>>)
    requires forall i :: 0 <= i < |src| ==> SourceWellFormed(src[i])
    requires forall i :: 0 <= i < |src| && src[i].primaryKey.Some? ==> KeyedRows(src[i].rows, src[i].primaryKey.value)
    requires forall i :: 0 <= i < |src| ==> src[i].name in dest && dest[src[i].name].rows == src[i].rows
    requires forall i, j :: 0 <= i < |src| && 0 <= j < |src[i].columns| ==> src[i].columns[j] in dest[src[i].name].columns
    ensures VerifyReport(src, dest).Returned? && VerifyReport(src, dest).code == VERIFICATION_SUCCESS
  {
    forall i | 0 <= i < |src| ensures TableVerified(src[i], dest) {
      var t := src[i];
      if t.primaryKey.Some? {
        forall k | 0 <= k < |t.rows| ensures RowVerified(t.columns, t.primaryKey.value, DestRows(dest, t.name), t.rows[k]) {
          assert RowHas(t.rows[k], t.primaryKey.value);
          MatchesOnly(t.rows, t.primaryKey.value, t.rows[k], k);
          MatchesCount(t.rows, t.primaryKey.value, t.rows[k]);
          assert RowHas(t.rows[k], t.columns);
        }
      }
    }
    SuccessExactlyWhenAllRowsAgree(src, dest);
  }
}
