/**
 * Insert order for the copy: `sort_mappers` in datahoser.py.
 *
 * The reflected classes become plain data: a table name and, for each of
 * its foreign-key constraints, the name of the table that constraint refers
 * to. The dictionary `classlist` is split in two: the map `fks` from table
 * name to referred tables (the values, which the source never changes) and
 * the sequence `pending` of the names still in the dictionary, in iteration
 * order (its keys, which the source deletes one by one).
 */
module InsertOrder {
  import opened Basics

  /** One mapped class: its table name and one referred table per foreign-key constraint. */
  datatype Mapper = Mapper(name: string, referred: seq<string>)

  /**
   * What the resolver ends with. `Sorted` is the source's normal return.
   * `Stuck` stands for the endless loop the source enters when a whole pass
   * moves no table: `order` and `pending` are the state it would repeat forever.
   */
  datatype Resolution = Sorted(order: seq<string>) | Stuck(order: seq<string>, pending: seq<string>)

  /** The automap artefact the resolver drops before it starts. */
  const MODULE_REGISTRY: string := "_sa_module_registry"

  // ---------------------------------------------------------------------
  // dict(classes)
  // ---------------------------------------------------------------------

  function NameSet(classes: seq<Mapper>): set<string> {
    set m | m in classes :: m.name
  }

  /** Entry `i` is the last one in `classes` with its name. */
  predicate LastWithName(classes: seq<Mapper>, i: int)
    requires 0 <= i < |classes|
  {
    forall j :: i < j < |classes| ==> classes[j].name != classes[i].name
  }

  /** `dict(classes)`: one key per name; a later pair with the same name overwrites an earlier one. */
  function ClassDict(classes: seq<Mapper>): (d: map<string, seq<string>>)
    ensures d.Keys == NameSet(classes)
    ensures forall i :: 0 <= i < |classes| && LastWithName(classes, i) ==>
      d[classes[i].name] == classes[i].referred
  {
    if classes == [] then map[]
    else
      var init, m := classes[..|classes| - 1], classes[|classes| - 1];
      assert classes == init + [m];
      var d := ClassDict(init)[m.name := m.referred];
      assert forall i :: 0 <= i < |init| && LastWithName(classes, i) ==> LastWithName(init, i) && classes[i] == init[i];
      d
  }

  /** The keys of `dict(classes)` in the order they were first inserted. */
  function KeyOrder(classes: seq<Mapper>): (names: seq<string>)
    ensures Distinct(names)
    ensures forall k :: k in names <==> k in NameSet(classes)
  {
    if classes == [] then []
    else
      var init, m := classes[..|classes| - 1], classes[|classes| - 1];
      assert classes == init + [m];
      var prev := KeyOrder(init);
      if m.name in prev then prev else prev + [m.name]
  }

  /** `classlist` once the registry entry is deleted: every table the resolver has to place. */
  function Classlist(classes: seq<Mapper>): (fks: map<string, seq<string>>)
    ensures MODULE_REGISTRY !in fks
    ensures forall k :: k in fks <==> k in NameSet(classes) && k != MODULE_REGISTRY
  {
    ClassDict(classes) - {MODULE_REGISTRY}
  }

  // ---------------------------------------------------------------------
  // Readiness of one table
  // ---------------------------------------------------------------------

  /**
   * `list.remove(x)`: drop the first occurrence of `x`. Python raises
   * ValueError when `x` is absent; sort_mappers only calls it after checking
   * `x in` the list, so that case is never reached and is left unchanged here.
   */
  function RemoveFirst(s: seq<string>, x: string): seq<string> {
    if s == [] then []
    else if s[0] == x then s[1..]
    else [s[0]] + RemoveFirst(s[1..], x)
  }

  /** `list.remove(x)` takes away exactly one `x` when there is one, and nothing else. */
  lemma {:induction false} RemoveFirstCount(s: seq<string>, x: string)
    ensures multiset(RemoveFirst(s, x)) == multiset(s) - multiset{x}
  {
    if s != [] {
      assert s == [s[0]] + s[1..];
      if s[0] != x {
        RemoveFirstCount(s[1..], x);
      }
    }
  }

  lemma {:induction false} RemoveFirstAbsent(s: seq<string>, x: string)
    requires x !in s
    ensures RemoveFirst(s, x) == s
  {
    if s != [] {
      RemoveFirstAbsent(s[1..], x);
    }
  }

  lemma DistinctTail(s: seq<string>)
    requires Distinct(s) && s != []
    ensures Distinct(s[1..]) && s[0] !in s[1..]
  {
    forall i, j | 0 <= i < j < |s[1..]| ensures s[1..][i] != s[1..][j] {
      assert s[1..][i] == s[i + 1] && s[1..][j] == s[j + 1];
    }
    forall k | 0 <= k < |s[1..]| ensures s[1..][k] != s[0] {
      assert s[1..][k] == s[k + 1];
    }
  }

  lemma {:induction false} RemoveFirstDistinct(s: seq<string>, x: string)
    requires Distinct(s)
    ensures Distinct(RemoveFirst(s, x)) && x !in RemoveFirst(s, x)
  {
    if s != [] {
      DistinctTail(s);
      if s[0] != x {
        var rest := RemoveFirst(s[1..], x);
        RemoveFirstDistinct(s[1..], x);
        assert s[0] !in rest by {
          RemoveFirstCount(s[1..], x);
          assert multiset(rest)[s[0]] <= multiset(s[1..])[s[0]];
        }
        DistinctCons(s[0], rest);
      }
    }
  }

  /**
   * The tables `name` must wait for: its referred tables with one reference
   * to itself taken out (`foreign_tables.remove(name)` drops only one).
   */
  function Deps(name: string, referred: seq<string>): seq<string> {
    if name in referred then RemoveFirst(referred, name) else referred
  }

  /** `set(names).issubset(set(order))`. */
  predicate IsSubset(names: seq<string>, order: seq<string>) {
    forall r :: r in names ==> r in order
  }

  /** Every table `name` waits for is already in `order`. */
  predicate Ready(name: string, referred: seq<string>, order: seq<string>) {
    IsSubset(Deps(name, referred), order)
  }

  /** Every pending table is still blocked by `order`. */
  predicate AllBlocked(fks: map<string, seq<string>>, pending: seq<string>, order: seq<string>) {
    forall x :: x in pending ==> x in fks && !Ready(x, fks[x], order)
  }

  /**
   * A valid insert order: no table twice, only known tables, and every table
   * comes after all the tables it waits for.
   */
  predicate ValidOrder(fks: map<string, seq<string>>, order: seq<string>) {
    && Distinct(order)
    && (forall x :: x in order ==> x in fks)
    && (forall i :: 0 <= i < |order| ==> Ready(order[i], fks[order[i]], order[..i]))
  }

  // ---------------------------------------------------------------------
  // One pass over the pending tables
  // ---------------------------------------------------------------------

  /**
   * `order` after one pass has scanned the first `n` names of `snap`, the
   * snapshot of the pending names taken when the pass started. The order
   * grows while the pass runs, so a table placed earlier in the pass can let
   * a later one through in the same pass.
   */
  function PassUpTo(fks: map<string, seq<string>>, snap: seq<string>, n: nat, order: seq<string>): seq<string>
    requires n <= |snap|
    requires forall k :: 0 <= k < |snap| ==> snap[k] in fks
  {
    if n == 0 then order
    else
      var prev := PassUpTo(fks, snap, n - 1, order);
      var name := snap[n - 1];
      if name !in prev && Ready(name, fks[name], prev) then prev + [name] else prev
  }

  /** `order` after a whole pass over `snap`. */
  function PassOrder(fks: map<string, seq<string>>, snap: seq<string>, order: seq<string>): seq<string>
    requires forall k :: 0 <= k < |snap| ==> snap[k] in fks
  {
    PassUpTo(fks, snap, |snap|, order)
  }

  /** The names among the first `n` of `s` that `o` does not hold, in their order in `s`. */
  function UnplacedUpTo(s: seq<string>, n: nat, o: seq<string>): (r: seq<string>)
    requires n <= |s|
    ensures |r| <= n
  {
    if n == 0 then []
    else
      var prev := UnplacedUpTo(s, n - 1, o);
      if s[n - 1] in o then prev else prev + [s[n - 1]]
  }

  /** The names of `s` that `o` does not hold: what `classlist` keeps once `o` is placed. */
  function Unplaced(s: seq<string>, o: seq<string>): seq<string> {
    UnplacedUpTo(s, |s|, o)
  }

  /** The test in the body of the `for` loop of sort_mappers. */
  method CanInsert(name: string, referred: seq<string>, order: seq<string>) returns (ready: bool)
    ensures ready == Ready(name, referred, order)
  {
    if |referred| == 0 {
      // a table without foreign keys can go in at any time
      ready := true;
    } else {
      var foreign := referred;
      if name in foreign {
        // a reference to the table itself never blocks it
        foreign := RemoveFirst(foreign, name);
      }
      ready := IsSubset(foreign, order);
    }
  }

  /**
   * One pass of the `for` loop of sort_mappers over a snapshot of the
   * pending names (Python 2 `items()` returns a copy).
   */
  method ScanPass(fks: map<string, seq<string>>, pending: seq<string>, order: seq<string>)
    returns (pending': seq<string>, order': seq<string>)
    requires forall k :: 0 <= k < |pending| ==> pending[k] in fks
    requires Distinct(pending)
    requires forall k :: 0 <= k < |pending| ==> pending[k] !in order
    ensures order' == PassOrder(fks, pending, order)
    ensures pending' == Unplaced(pending, order')
  {
    var snapshot := pending;
    pending', order' := pending, order;
    var i := 0;
    while i < |snapshot|
      invariant 0 <= i <= |snapshot|
      invariant order' == PassUpTo(fks, snapshot, i, order)
      invariant pending' == UnplacedUpTo(snapshot, i, order') + snapshot[i..]
      invariant forall k :: i <= k < |snapshot| ==> snapshot[k] !in order'
    {
      var name := snapshot[i];
      var ready := CanInsert(name, fks[name], order');
      if ready {
        PlaceStep(snapshot, i, order');
        if name !in order' {
          order' := order' + [name];
        }
        if name in pending' {
          pending' := RemoveFirst(pending', name);
        }
      } else {
        KeepStep(snapshot, i, order');
      }
      i := i + 1;
    }
  }

  /** Leaving `snap[i]` pending keeps the shape of `pending` that ScanPass maintains. */
  lemma KeepStep(snap: seq<string>, i: nat, o: seq<string>)
    requires i < |snap| && snap[i] !in o
    ensures UnplacedUpTo(snap, i, o) + snap[i..] == UnplacedUpTo(snap, i + 1, o) + snap[i + 1..]
  {
    assert snap[i..] == [snap[i]] + snap[i + 1..];
  }

  /** Placing `snap[i]` keeps the shape of `pending` that ScanPass maintains. */
  lemma PlaceStep(snap: seq<string>, i: nat, o: seq<string>)
    requires i < |snap| && Distinct(snap)
    ensures RemoveFirst(UnplacedUpTo(snap, i, o) + snap[i..], snap[i])
         == UnplacedUpTo(snap, i + 1, o + [snap[i]]) + snap[i + 1..]
    ensures forall k :: i < k < |snap| ==> snap[k] != snap[i]
  {
    var u := UnplacedUpTo(snap, i, o);
    UnplacedUpToWithin(snap, i, o);
    assert snap[i] !in u;
    assert u + snap[i..] == u + [snap[i]] + snap[i + 1..];
    RemoveFirstSkips(u, snap[i], snap[i + 1..]);
    UnplacedIgnoresNew(snap, i, o, snap[i]);
  }

  lemma {:induction false} UnplacedUpToWithin(s: seq<string>, n: nat, o: seq<string>)
    requires n <= |s|
    ensures forall x :: x in UnplacedUpTo(s, n, o) ==> exists k :: 0 <= k < n && s[k] == x
  {
    if n > 0 {
      UnplacedUpToWithin(s, n - 1, o);
    }
  }

  lemma {:induction false} RemoveFirstSkips(a: seq<string>, x: string, b: seq<string>)
    requires x !in a
    ensures RemoveFirst(a + [x] + b, x) == a + b
  {
    if a != [] {
      assert (a + [x] + b)[1..] == a[1..] + [x] + b;
      RemoveFirstSkips(a[1..], x, b);
      assert a + b == [a[0]] + (a[1..] + b);
    }
  }

  lemma {:induction false} UnplacedIgnoresNew(s: seq<string>, n: nat, o: seq<string>, x: string)
    requires n <= |s|
    requires forall k :: 0 <= k < n ==> s[k] != x
    ensures UnplacedUpTo(s, n, o + [x]) == UnplacedUpTo(s, n, o)
  {
    if n > 0 {
      UnplacedIgnoresNew(s, n - 1, o, x);
    }
  }

  // ---------------------------------------------------------------------
  // Facts about list.remove and the prefix of unplaced names
  // ---------------------------------------------------------------------

  lemma RemoveFirstMembers(s: seq<string>, x: string)
    ensures forall y :: y != x ==> (y in RemoveFirst(s, x) <==> y in s)
    ensures forall y :: y in RemoveFirst(s, x) ==> y in s
  {
    RemoveFirstCount(s, x);
    forall y ensures y in RemoveFirst(s, x) <==> multiset(RemoveFirst(s, x))[y] > 0 {}
    forall y ensures y in s <==> multiset(s)[y] > 0 {}
  }

  lemma {:induction false} UnplacedUpToSpec(s: seq<string>, n: nat, o: seq<string>)
    requires n <= |s|
    ensures forall x :: x in UnplacedUpTo(s, n, o) <==> x in s[..n] && x !in o
    ensures Distinct(s) ==> Distinct(UnplacedUpTo(s, n, o))
    ensures |UnplacedUpTo(s, n, o)| == n ==> forall k :: 0 <= k < n ==> s[k] !in o
  {
    if n > 0 {
      UnplacedUpToSpec(s, n - 1, o);
      var prev := UnplacedUpTo(s, n - 1, o);
      assert s[..n] == s[..n - 1] + [s[n - 1]];
      if Distinct(s) && s[n - 1] !in o {
        assert s[n - 1] !in s[..n - 1] by {
          var pre := s[..n - 1];
          forall k | 0 <= k < |pre| ensures pre[k] != s[n - 1] {
            assert pre[k] == s[k];
          }
        }
        DistinctSnoc(prev, s[n - 1]);
      }
    }
  }

  lemma UnplacedSpec(s: seq<string>, o: seq<string>)
    ensures forall x :: x in Unplaced(s, o) <==> x in s && x !in o
    ensures Distinct(s) ==> Distinct(Unplaced(s, o))
    ensures |Unplaced(s, o)| <= |s|
    ensures |Unplaced(s, o)| == |s| ==> forall k :: 0 <= k < |s| ==> s[k] !in o
  {
    UnplacedUpToSpec(s, |s|, o);
    assert s[..|s|] == s;
  }

  // ---------------------------------------------------------------------
  // What one pass does
  // ---------------------------------------------------------------------

  /** A pass only appends to `order`, and only names it scanned. */
  lemma {:induction false} PassExtends(fks: map<string, seq<string>>, snap: seq<string>, n: nat, order: seq<string>)
    requires n <= |snap|
    requires forall k :: 0 <= k < |snap| ==> snap[k] in fks
    ensures |PassUpTo(fks, snap, n, order)| >= |order|
    ensures PassUpTo(fks, snap, n, order)[..|order|] == order
    ensures forall k :: |order| <= k < |PassUpTo(fks, snap, n, order)| ==> PassUpTo(fks, snap, n, order)[k] in snap[..n]
  {
    if n > 0 {
      PassExtends(fks, snap, n - 1, order);
      var prev := PassUpTo(fks, snap, n - 1, order);
      assert snap[..n] == snap[..n - 1] + [snap[n - 1]];
      var r := PassUpTo(fks, snap, n, order);
      if r != prev {
        assert r == prev + [snap[n - 1]];
        assert r[..|order|] == prev[..|order|];
        forall k | |order| <= k < |r| ensures r[k] in snap[..n] {
          if k < |prev| {
            assert r[k] == prev[k];
          }
        }
      }
    }
  }

  /** Appending a ready table that is not yet placed keeps the order valid. */
  lemma AppendValid(fks: map<string, seq<string>>, order: seq<string>, name: string)
    requires ValidOrder(fks, order)
    requires name in fks && name !in order && Ready(name, fks[name], order)
    ensures ValidOrder(fks, order + [name])
  {
    var r := order + [name];
    DistinctSnoc(order, name);
    forall i | 0 <= i < |r| ensures Ready(r[i], fks[r[i]], r[..i]) {
      if i < |order| {
        assert r[..i] == order[..i] && r[i] == order[i];
      } else {
        assert r[..i] == order;
      }
    }
  }

  /** Invariant of the resolver: a pass keeps the order valid. */
  lemma {:induction false} PassKeepsValid(fks: map<string, seq<string>>, snap: seq<string>, n: nat, order: seq<string>)
    requires n <= |snap|
    requires forall k :: 0 <= k < |snap| ==> snap[k] in fks
    requires ValidOrder(fks, order)
    ensures ValidOrder(fks, PassUpTo(fks, snap, n, order))
  {
    if n > 0 {
      PassKeepsValid(fks, snap, n - 1, order);
      var prev := PassUpTo(fks, snap, n - 1, order);
      var name := snap[n - 1];
      if name !in prev && Ready(name, fks[name], prev) {
        AppendValid(fks, prev, name);
      }
    }
  }

  /** A pass from a state where every scanned table is blocked changes nothing. */
  lemma {:induction false} BlockedPassIsIdentity(fks: map<string, seq<string>>, snap: seq<string>, n: nat, order: seq<string>)
    requires n <= |snap|
    requires forall k :: 0 <= k < |snap| ==> snap[k] in fks
    requires forall k :: 0 <= k < n ==> snap[k] in order || !Ready(snap[k], fks[snap[k]], order)
    ensures PassUpTo(fks, snap, n, order) == order
  {
    if n > 0 {
      BlockedPassIsIdentity(fks, snap, n - 1, order);
    }
  }

  /** Conversely, a pass that appends nothing found every scanned table blocked. */
  lemma {:induction false} StalledPassIsBlocked(fks: map<string, seq<string>>, snap: seq<string>, n: nat, order: seq<string>)
    requires n <= |snap|
    requires forall k :: 0 <= k < |snap| ==> snap[k] in fks
    requires PassUpTo(fks, snap, n, order) == order
    ensures forall k :: 0 <= k < n ==> snap[k] in order || !Ready(snap[k], fks[snap[k]], order)
  {
    if n > 0 {
      PassExtends(fks, snap, n - 1, order);
      var prev := PassUpTo(fks, snap, n - 1, order);
      assert |prev| <= |order|;
      assert prev == order by {
        assert prev[..|order|] == order;
      }
      StalledPassIsBlocked(fks, snap, n - 1, order);
    }
  }

  /** A table without foreign keys is placed by the pass that first scans it. */
  lemma {:induction false} UnconstrainedPlacedWhenScanned(fks: map<string, seq<string>>, snap: seq<string>, n: nat, order: seq<string>, k: nat)
    requires n <= |snap|
    requires forall i :: 0 <= i < |snap| ==> snap[i] in fks
    requires k < n && fks[snap[k]] == []
    ensures snap[k] in PassUpTo(fks, snap, n, order)
  {
    if k < n - 1 {
      UnconstrainedPlacedWhenScanned(fks, snap, n - 1, order, k);
      PassExtends(fks, snap, n - 1, order);
      var prev := PassUpTo(fks, snap, n - 1, order);
      assert snap[k] in prev;
    } else {
      var prev := PassUpTo(fks, snap, n - 1, order);
      assert Ready(snap[k], fks[snap[k]], prev);
    }
  }

  /** `pending` holds, once each, exactly the known tables not in `order`. */
  predicate Partition(fks: map<string, seq<string>>, pending: seq<string>, order: seq<string>) {
    && Distinct(pending)
    && (forall x :: x in pending ==> x in fks && x !in order)
    && (forall x :: x in fks ==> x in pending || x in order)
  }

  /**
   * What the resolver needs from one pass: it keeps the order valid and the
   * partition between placed and pending tables, never grows the pending
   * list, and when it removes nothing it appended nothing and left every
   * pending table blocked.
   */
  lemma PassStep(fks: map<string, seq<string>>, pending: seq<string>, order: seq<string>)
    requires forall k :: 0 <= k < |pending| ==> pending[k] in fks
    requires ValidOrder(fks, order) && Partition(fks, pending, order)
    ensures ValidOrder(fks, PassOrder(fks, pending, order))
    ensures Partition(fks, Unplaced(pending, PassOrder(fks, pending, order)), PassOrder(fks, pending, order))
    ensures |Unplaced(pending, PassOrder(fks, pending, order))| <= |pending|
    ensures |Unplaced(pending, PassOrder(fks, pending, order))| == |pending| ==>
      && PassOrder(fks, pending, order) == order
      && AllBlocked(fks, Unplaced(pending, order), order)
  {
    var order' := PassOrder(fks, pending, order);
    PassKeepsValid(fks, pending, |pending|, order);
    PassExtends(fks, pending, |pending|, order);
    UnplacedSpec(pending, order');
    assert pending[..|pending|] == pending;
    forall x | x in fks && x !in order' ensures x in pending {
      assert order'[..|order|] == order;
    }
    if |Unplaced(pending, order')| == |pending| {
      assert |order'| == |order|;
      assert order' == order'[..|order|];
      StalledPassIsBlocked(fks, pending, |pending|, order);
      forall x | x in pending ensures !Ready(x, fks[x], order) {
        var k :| 0 <= k < |pending| && pending[k] == x;
      }
    }
  }

  // ---------------------------------------------------------------------
  // sort_mappers
  // ---------------------------------------------------------------------

  /** Every foreign key refers to a table that is itself being copied. */
  predicate Closed(fks: map<string, seq<string>>) {
    forall t, r :: t in fks && r in fks[t] ==> r in fks
  }

  /** `rank` strictly decreases along every dependency. */
  ghost predicate Ranked(fks: map<string, seq<string>>, rank: string -> nat) {
    forall t, r :: t in fks && r in Deps(t, fks[t]) ==> rank(r) < rank(t)
  }

  /** The dependencies (foreign keys minus one self-reference) have no cycle. */
  ghost predicate Acyclic(fks: map<string, seq<string>>) {
    exists rank: string -> nat :: Ranked(fks, rank)
  }

  /**
   * The state before the first pass: `fks` is `classlist` without the
   * registry, and `names` its keys in iteration order, as many as there are
   * tables.
   */
  predicate StartState(classes: seq<Mapper>, fks: map<string, seq<string>>, names: seq<string>) {
    && fks == Classlist(classes)
    && Partition(fks, names, [])
    && |names| == |fks|
  }

  /** Deleting the registry from the dictionary and from its key order yields the start state. */
  lemma RegistryDropped(classes: seq<Mapper>)
    ensures var d := ClassDict(classes);
      && (MODULE_REGISTRY in d ==> StartState(classes, d - {MODULE_REGISTRY}, RemoveFirst(KeyOrder(classes), MODULE_REGISTRY)))
      && (MODULE_REGISTRY !in d ==> StartState(classes, d, KeyOrder(classes)))
  {
    var d := ClassDict(classes);
    var names := KeyOrder(classes);
    var fks := d;
    if MODULE_REGISTRY in d {
      fks := d - {MODULE_REGISTRY};
      RemoveFirstDistinct(names, MODULE_REGISTRY);
      RemoveFirstMembers(names, MODULE_REGISTRY);
      names := RemoveFirst(names, MODULE_REGISTRY);
    }
    assert fks == Classlist(classes);
    assert Elements(names) == fks.Keys;
    DistinctCardinality(names);
  }

  /**
   * sort_mappers. The source loops `while True` and only leaves when
   * `classlist` is empty; when a whole pass removes nothing, every later pass
   * repeats it and the source never returns. The model stops there with
   * `Stuck` and the state that would repeat. `passes` counts the passes of
   * the outer loop.
   */
  method SortMappers(classes: seq<Mapper>) returns (result: Resolution, passes: nat)
    ensures ValidOrder(Classlist(classes), result.order)
    ensures result.Sorted? ==> forall k :: k in result.order <==> k in Classlist(classes)
    ensures result.Stuck? ==>
      && result.pending != []
      && Partition(Classlist(classes), result.pending, result.order)
      && AllBlocked(Classlist(classes), result.pending, result.order)
    ensures result.Sorted? <==> Closed(Classlist(classes)) && Acyclic(Classlist(classes))
    ensures 1 <= passes && (passes <= |Classlist(classes)| || passes == 1)
  {
    var fks := ClassDict(classes);
    var pending := KeyOrder(classes);
    if MODULE_REGISTRY in fks {
      fks := fks - {MODULE_REGISTRY};
      pending := RemoveFirst(pending, MODULE_REGISTRY);
    }
    RegistryDropped(classes);
    ghost var total := |pending|;
    var order: seq<string> := [];
    passes := 0;
    while true
      invariant fks == Classlist(classes)
      invariant ValidOrder(fks, order) && Partition(fks, pending, order)
      invariant total == |fks|
      invariant passes == 0 ==> |pending| == total
      invariant passes > 0 ==> pending != [] && passes + |pending| <= total
      decreases |pending|
    {
      PendingKnown(fks, pending, order);
      var pending', order' := ScanPass(fks, pending, order);
      PassStep(fks, pending, order);
      passes := passes + 1;
      if |pending'| == 0 {
        result := Sorted(order');
        Completed(fks, order');
        return;
      }
      if |pending'| == |pending| {
        result := Stuck(order', pending');
        BlockedMeansCycleOrDangling(fks, pending', order');
        return;
      }
      pending, order := pending', order';
    }
  }

  /** The pending names meet what ScanPass asks of them. */
  lemma PendingKnown(fks: map<string, seq<string>>, pending: seq<string>, order: seq<string>)
    requires Partition(fks, pending, order)
    ensures forall k :: 0 <= k < |pending| ==> pending[k] in fks && pending[k] !in order
  {
  }

  // ---------------------------------------------------------------------
  // When the resolver terminates
  // ---------------------------------------------------------------------

  /** The position of the first `x` in `s`. */
  function Position(s: seq<string>, x: string): (p: nat)
    requires x in s
    ensures p < |s| && s[p] == x
  {
    if s[0] == x then 0 else 1 + Position(s[1..], x)
  }

  /** In a sequence without repetitions, the element at `j` is first found at `j`. */
  lemma PositionOf(s: seq<string>, j: nat)
    requires Distinct(s) && j < |s|
    ensures Position(s, s[j]) == j
  {
  }

  lemma DepsWithin(t: string, referred: seq<string>)
    ensures forall r :: r in Deps(t, referred) ==> r in referred
    ensures forall r :: r in referred && r != t ==> r in Deps(t, referred)
  {
    RemoveFirstMembers(referred, t);
  }

  /** In a valid order every table a placed table waits for is placed before it. */
  lemma DependencyPrecedes(fks: map<string, seq<string>>, order: seq<string>, t: string, r: string)
    requires ValidOrder(fks, order)
    requires t in order && r in Deps(t, fks[t])
    ensures r in order && Position(order, r) < Position(order, t)
  {
    var i := Position(order, t);
    assert Ready(order[i], fks[order[i]], order[..i]);
    assert r in order[..i];
    var j :| 0 <= j < i && order[..i][j] == r;
    PositionOf(order, j);
  }

  /** The position of `x` in `order`, and 0 for a table not in it. */
  function OrderRank(order: seq<string>, x: string): nat {
    if x in order then Position(order, x) else 0
  }

  /** A valid order that holds every table ranks the dependencies by position. */
  lemma OrderIsRanking(fks: map<string, seq<string>>, order: seq<string>)
    requires ValidOrder(fks, order)
    requires forall k :: k in fks ==> k in order
    ensures Ranked(fks, x => OrderRank(order, x))
  {
    forall t, r | t in fks && r in Deps(t, fks[t]) ensures OrderRank(order, r) < OrderRank(order, t) {
      DependencyPrecedes(fks, order, t, r);
    }
  }

  /** A valid order that holds every table leaves no foreign key outside the tables. */
  lemma OrderIsClosed(fks: map<string, seq<string>>, order: seq<string>)
    requires ValidOrder(fks, order)
    requires forall k :: k in fks ==> k in order
    ensures Closed(fks)
  {
    forall t, r | t in fks && r in fks[t] ensures r in fks {
      DepsWithin(t, fks[t]);
      if r != t {
        DependencyPrecedes(fks, order, t, r);
      }
    }
  }

  /**
   * A valid order that holds every table proves the tables closed under
   * foreign keys and acyclic: ranking each table by its position works.
   */
  lemma SortedIsAcyclic(fks: map<string, seq<string>>, order: seq<string>)
    requires ValidOrder(fks, order)
    requires forall k :: k in fks ==> k in order
    ensures Closed(fks) && Acyclic(fks)
  {
    OrderIsRanking(fks, order);
    OrderIsClosed(fks, order);
  }

  /** An empty pending list means the order holds exactly the known tables, which then form no cycle. */
  lemma Completed(fks: map<string, seq<string>>, order: seq<string>)
    requires ValidOrder(fks, order) && Partition(fks, [], order)
    ensures forall k :: k in order <==> k in fks
    ensures Closed(fks) && Acyclic(fks)
  {
    SortedIsAcyclic(fks, order);
  }
  /** Some table of a non-empty set has the least rank. */
  lemma {:induction false} LowestRank(s: seq<string>, rank: string -> nat) returns (p: string)
    requires s != []
    ensures p in s && forall q :: q in s ==> rank(p) <= rank(q)
  {
    if |s| == 1 {
      p := s[0];
    } else {
      var p' := LowestRank(s[1..], rank);
      p := if rank(s[0]) <= rank(p') then s[0] else p';
      forall q | q in s ensures rank(p) <= rank(q) {
        if q != s[0] {
          assert q in s[1..];
        }
      }
    }
  }

  /**
   * With every foreign key inside the copied tables and no cycle, some
   * pending table is ready: the one of least rank waits only for tables of
   * lower rank, which are all placed.
   */
  lemma AcyclicNeverBlocked(fks: map<string, seq<string>>, pending: seq<string>, order: seq<string>)
    requires Closed(fks) && Acyclic(fks)
    requires pending != [] && Partition(fks, pending, order)
    ensures !AllBlocked(fks, pending, order)
  {
    var rank :| Ranked(fks, rank);
    var p := LowestRank(pending, rank);
    DepsWithin(p, fks[p]);
    forall r | r in Deps(p, fks[p]) ensures r in order {
      assert r in fks;
      assert rank(r) < rank(p);
    }
    assert Ready(p, fks[p], order);
  }

  /**
   * The resolver only gets stuck on a foreign key to a table outside the
   * copy or on a cycle of dependencies (two self-references count as one).
   */
  lemma BlockedMeansCycleOrDangling(fks: map<string, seq<string>>, pending: seq<string>, order: seq<string>)
    requires pending != [] && Partition(fks, pending, order)
    ensures AllBlocked(fks, pending, order) ==> !(Closed(fks) && Acyclic(fks))
  {
    if Closed(fks) && Acyclic(fks) {
      AcyclicNeverBlocked(fks, pending, order);
    }
  }

  /** The names of `s[..n]` are all still unplaced when `o` holds none of them. */
  lemma {:induction false} UnplacedDisjoint(s: seq<string>, n: nat, o: seq<string>)
    requires n <= |s|
    requires forall k :: 0 <= k < n ==> s[k] !in o
    ensures UnplacedUpTo(s, n, o) == s[..n]
  {
    if n > 0 {
      UnplacedDisjoint(s, n - 1, o);
      assert s[..n] == s[..n - 1] + [s[n - 1]];
    }
  }

  /**
   * The state the resolver reports as stuck is a fixed point of a pass: the
   * pass appends nothing and deletes nothing, so `while True` would repeat it
   * forever.
   */
  lemma StuckRepeats(fks: map<string, seq<string>>, pending: seq<string>, order: seq<string>)
    requires Partition(fks, pending, order) && AllBlocked(fks, pending, order)
    ensures forall k :: 0 <= k < |pending| ==> pending[k] in fks
    ensures PassOrder(fks, pending, order) == order
    ensures Unplaced(pending, PassOrder(fks, pending, order)) == pending
  {
    PendingKnown(fks, pending, order);
    BlockedPassIsIdentity(fks, pending, |pending|, order);
    UnplacedDisjoint(pending, |pending|, order);
  }

  // ---------------------------------------------------------------------
  // Foreign keys and the order
  // ---------------------------------------------------------------------

  /** In a valid order, every table a foreign key of a placed table names, other than itself, comes first. */
  lemma ForeignKeyPrecedes(fks: map<string, seq<string>>, order: seq<string>, t: string, r: string)
    requires ValidOrder(fks, order)
    requires t in order && r in fks[t] && r != t
    ensures r in order && Position(order, r) < Position(order, t)
  {
    DepsWithin(t, fks[t]);
    DependencyPrecedes(fks, order, t, r);
  }

  /** With at most one reference to itself, a table waits exactly for its other referred tables. */
  lemma SelfReferenceIgnored(t: string, referred: seq<string>, order: seq<string>)
    requires multiset(referred)[t] <= 1
    ensures Ready(t, referred, order) <==> forall r :: r in referred && r != t ==> r in order
  {
    DepsWithin(t, referred);
    if t in referred {
      RemoveFirstCount(referred, t);
      assert multiset(Deps(t, referred))[t] == 0;
    }
  }

  /** `remove` drops one self-reference only: with two, the table waits for itself. */
  lemma DoubleSelfReferenceBlocks(t: string, referred: seq<string>, order: seq<string>)
    requires multiset(referred)[t] >= 2 && t !in order
    ensures !Ready(t, referred, order)
  {
    RemoveFirstCount(referred, t);
    assert t in Deps(t, referred) by {
      assert multiset(Deps(t, referred))[t] >= 1;
    }
  }

  /** So a table with two constraints on itself never enters a valid order. */
  lemma DoubleSelfReferenceNeverPlaced(fks: map<string, seq<string>>, order: seq<string>, t: string)
    requires ValidOrder(fks, order)
    requires t in fks && multiset(fks[t])[t] >= 2
    ensures t !in order
  {
    if t in order {
      var i := Position(order, t);
      assert t !in order[..i] by {
        forall k | 0 <= k < i ensures order[..i][k] != t {
          assert order[..i][k] == order[k];
        }
      }
      DoubleSelfReferenceBlocks(t, fks[t], order[..i]);
    }
  }

  /** A table whose foreign key names a table outside the copy never enters a valid order. */
  lemma DanglingReferenceNeverPlaced(fks: map<string, seq<string>>, order: seq<string>, t: string, r: string)
    requires ValidOrder(fks, order)
    requires t in fks && r in fks[t] && r != t && r !in fks
    ensures t !in order
  {
    if t in order {
      ForeignKeyPrecedes(fks, order, t, r);
    }
  }

  /** Two tables that refer to each other never enter a valid order. */
  lemma MutualReferenceNeverPlaced(fks: map<string, seq<string>>, order: seq<string>, t: string, u: string)
    requires ValidOrder(fks, order)
    requires t in fks && u in fks && t != u && u in fks[t] && t in fks[u]
    ensures t !in order && u !in order
  {
    if t in order {
      ForeignKeyPrecedes(fks, order, t, u);
      ForeignKeyPrecedes(fks, order, u, t);
    } else if u in order {
      ForeignKeyPrecedes(fks, order, u, t);
    }
  }
}
