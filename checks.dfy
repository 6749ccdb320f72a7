/**
 * The pre-copy checks of checks.py: SQLite keeps index names in one
 * namespace for the whole database, so a source whose tables share an index
 * name cannot be created there.
 */
module Checks {
  import opened Basics

  /** A reflected table: its name and the names of its indexes, in order. */
  datatype Table = Table(name: string, indexes: seq<string>)

  /** The outcome of a check: it returns, or raises InvalidDB naming the repeated index. */
  datatype CheckResult = Valid | InvalidDB(index: string)

  /** Every index name of `tables`, table after table. */
  function AllIndexes(tables: seq<Table>): seq<string> {
    if tables == [] then [] else AllIndexes(tables[..|tables| - 1]) + tables[|tables| - 1].indexes
  }

  /** `s[j]` is the first element of `s` that repeats an earlier one. */
  predicate FirstRepeatAt(s: seq<string>, j: int) {
    0 <= j < |s| && s[j] in s[..j] && Distinct(s[..j])
  }

  /** Only one position can be the first repeat. */
  lemma FirstRepeatUnique(s: seq<string>, j1: int, j2: int)
    requires FirstRepeatAt(s, j1) && FirstRepeatAt(s, j2)
    ensures j1 == j2
  {
  }

  /** A sequence with a repeat is not free of repetitions. */
  lemma RepeatNotDistinct(s: seq<string>, j: int)
    requires 0 <= j < |s| && s[j] in s[..j]
    ensures !Distinct(s)
  {
    var a :| 0 <= a < j && s[..j][a] == s[j];
    assert s[a] == s[j];
  }

  /**
   * check_sqlite_indexes. It scans the index names table after table,
   * keeping the names seen so far in `seen`, and raises on the first name it
   * has seen before. `seen` is returned so its final contents can be stated.
   */
  method CheckSqliteIndexes(tables: seq<Table>) returns (r: CheckResult, seen: seq<string>)
    ensures Distinct(seen)
    ensures r.Valid? <==> Distinct(AllIndexes(tables))
    ensures r.Valid? ==> seen == AllIndexes(tables)
    ensures r.InvalidDB? ==>
      && FirstRepeatAt(AllIndexes(tables), |seen|)
      && seen == AllIndexes(tables)[..|seen|]
      && r.index == AllIndexes(tables)[|seen|]
  {
    seen := [];
    for i := 0 to |tables|
      invariant seen == AllIndexes(tables[..i])
      invariant Distinct(seen)
    {
      assert tables[..i + 1][..i] == tables[..i];
      var indexes := tables[i].indexes;
      for j := 0 to |indexes|
        invariant seen == AllIndexes(tables[..i]) + indexes[..j]
        invariant Distinct(seen)
      {
        var name := indexes[j];
        if name !in seen {
          DistinctSnoc(seen, name);
          assert indexes[..j + 1] == indexes[..j] + [name];
          seen := seen + [name];
        } else {
          // a name seen before: raise InvalidDB naming it
          RaisedAt(tables, i, j, seen);
          r := InvalidDB(name);
          return;
        }
      }
      assert indexes[..|indexes|] == indexes;
    }
    assert tables[..|tables|] == tables;
    r := Valid;
  }

  /** Where the scan raises, `seen` is the prefix of all index names before the repeated one. */
  lemma RaisedAt(tables: seq<Table>, i: nat, j: nat, seen: seq<string>)
    requires i < |tables| && j < |tables[i].indexes|
    requires seen == AllIndexes(tables[..i]) + tables[i].indexes[..j]
    requires Distinct(seen) && tables[i].indexes[j] in seen
    ensures |seen| < |AllIndexes(tables)|
    ensures seen == AllIndexes(tables)[..|seen|]
    ensures AllIndexes(tables)[|seen|] == tables[i].indexes[j]
    ensures FirstRepeatAt(AllIndexes(tables), |seen|)
    ensures !Distinct(AllIndexes(tables))
  {
    var upTo := AllIndexes(tables[..i + 1]);
    assert tables[..i + 1][..i] == tables[..i];
    assert upTo == AllIndexes(tables[..i]) + tables[i].indexes;
    AllIndexesPrefix(tables, i + 1);
    var all := AllIndexes(tables);
    assert all[..|upTo|] == upTo;
    assert upTo[..|seen|] == seen;
    assert all[..|seen|] == seen;
    assert all[|seen|] == upTo[|seen|] == tables[i].indexes[j];
    RepeatNotDistinct(all, |seen|);
  }

  /** The index names of the first `n` tables begin the list of all of them. */
  lemma {:induction false} AllIndexesPrefix(tables: seq<Table>, n: nat)
    requires n <= |tables|
    ensures |AllIndexes(tables[..n])| <= |AllIndexes(tables)|
    ensures AllIndexes(tables)[..|AllIndexes(tables[..n])|] == AllIndexes(tables[..n])
    decreases |tables| - n
  {
    if n < |tables| {
      AllIndexesPrefix(tables, n + 1);
      assert tables[..n + 1][..n] == tables[..n];
      var a := AllIndexes(tables[..n]);
      var b := AllIndexes(tables[..n + 1]);
      assert b == a + tables[n].indexes;
      assert b[..|a|] == a;
    } else {
      assert tables[..n] == tables;
    }
  }

  /** check_create runs check_sqlite_indexes and nothing else. */
  method CheckCreate(tables: seq<Table>) returns (r: CheckResult)
    ensures r.Valid? <==> Distinct(AllIndexes(tables))
    ensures r.InvalidDB? ==> exists j :: FirstRepeatAt(AllIndexes(tables), j) && r.index == AllIndexes(tables)[j]
  {
    var seen;
    r, seen := CheckSqliteIndexes(tables);
  }

  /**
   * The two checks cannot disagree: any two results meeting the contract of
   * check_sqlite_indexes are the same result.
   */
  lemma CheckResultDetermined(tables: seq<Table>, r1: CheckResult, r2: CheckResult)
    requires r1.Valid? <==> Distinct(AllIndexes(tables))
    requires r1.InvalidDB? ==> exists j :: FirstRepeatAt(AllIndexes(tables), j) && r1.index == AllIndexes(tables)[j]
    requires r2.Valid? <==> Distinct(AllIndexes(tables))
    requires r2.InvalidDB? ==> exists j :: FirstRepeatAt(AllIndexes(tables), j) && r2.index == AllIndexes(tables)[j]
    ensures r1 == r2
  {
    if r1.InvalidDB? {
      var j1 :| FirstRepeatAt(AllIndexes(tables), j1) && r1.index == AllIndexes(tables)[j1];
      var j2 :| FirstRepeatAt(AllIndexes(tables), j2) && r2.index == AllIndexes(tables)[j2];
      FirstRepeatUnique(AllIndexes(tables), j1, j2);
    }
  }

  /** Two tables that share an index name fail the check, whichever tables they are. */
  lemma SharedIndexFails(tables: seq<Table>, a: nat, b: nat, x: nat, y: nat)
    requires a < b < |tables| && x < |tables[a].indexes| && y < |tables[b].indexes|
    requires tables[a].indexes[x] == tables[b].indexes[y]
    ensures !Distinct(AllIndexes(tables))
  {
    var p := IndexPosition(tables, a, x);
    var q := IndexPosition(tables, b, y);
    assert p < q by {
      assert tables[..a + 1][..a] == tables[..a];
      assert AllIndexes(tables[..a + 1]) == AllIndexes(tables[..a]) + tables[a].indexes;
      AllIndexesPrefix(tables[..b], a + 1);
      assert tables[..b][..a + 1] == tables[..a + 1];
    }
  }

  /** The position in the list of all index names of index `x` of table `a`. */
  lemma IndexPosition(tables: seq<Table>, a: nat, x: nat) returns (p: nat)
    requires a < |tables| && x < |tables[a].indexes|
    ensures p < |AllIndexes(tables)| && AllIndexes(tables)[p] == tables[a].indexes[x]
    ensures p == |AllIndexes(tables[..a])| + x
  {
    var before := AllIndexes(tables[..a]);
    assert tables[..a + 1][..a] == tables[..a];
    assert AllIndexes(tables[..a + 1]) == before + tables[a].indexes;
    AllIndexesPrefix(tables, a + 1);
    p := |before| + x;
    assert AllIndexes(tables)[..|AllIndexes(tables[..a + 1])|][p] == AllIndexes(tables[..a + 1])[p];
  }

  /** Repeating a name inside one table fails the check too. */
  lemma RepeatWithinTableFails(tables: seq<Table>, a: nat, x: nat, y: nat)
    requires a < |tables| && x < y < |tables[a].indexes|
    requires tables[a].indexes[x] == tables[a].indexes[y]
    ensures !Distinct(AllIndexes(tables))
  {
    var p := IndexPosition(tables, a, x);
    var q := IndexPosition(tables, a, y);
  }
}
