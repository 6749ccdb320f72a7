/**
 * The two string helpers of datahoser.py: `get_db_name`, which names the
 * destination database after the source, and `make_primary_key_logline`,
 * which puts a `{key}` field per primary-key column into a log line.
 */
module Naming {
  import opened Basics

  const SQLITE: string := "sqlite"

  // ---------------------------------------------------------------------
  // Splitting at a separator
  // ---------------------------------------------------------------------

  /** The index of the first `c` in `s`. */
  function IndexOf(s: string, c: char): (i: nat)
    requires c in s
    ensures i < |s| && s[i] == c && c !in s[..i]
  {
    if s[0] == c then 0
    else
      var i := 1 + IndexOf(s[1..], c);
      assert s[..i] == [s[0]] + s[1..][..i - 1];
      i
  }

  /** The index of the last `c` in `s`. */
  function LastIndexOf(s: string, c: char): (i: nat)
    requires c in s
    ensures i < |s| && s[i] == c && c !in s[i + 1..]
  {
    if s[|s| - 1] == c then |s| - 1
    else
      var i := LastIndexOf(s[..|s| - 1], c);
      assert s[i + 1..] == s[..|s| - 1][i + 1..] + [s[|s| - 1]];
      i
  }

  /**
   * `s.split(sep)`, which is also `s.rsplit(sep)` when no limit is given:
   * the pieces between the separators, first to last.
   */
  function Split(s: string, sep: char): (pieces: seq<string>)
    ensures |pieces| >= 1
    ensures forall k :: 0 <= k < |pieces| ==> sep !in pieces[k]
    decreases |s|
  {
    if sep !in s then [s]
    else
      var i := IndexOf(s, sep);
      [s[..i]] + Split(s[i + 1..], sep)
  }

  /** `sep.join(pieces)`. */
  function Join(pieces: seq<string>, sep: char): string
    requires |pieces| >= 1
  {
    if |pieces| == 1 then pieces[0] else pieces[0] + [sep] + Join(pieces[1..], sep)
  }

  /** Joining the pieces of a split gives the text back. */
  lemma {:induction false} JoinSplit(s: string, sep: char)
    ensures Join(Split(s, sep), sep) == s
    decreases |s|
  {
    if sep in s {
      var i := IndexOf(s, sep);
      var rest := Split(s[i + 1..], sep);
      assert Split(s, sep) == [s[..i]] + rest;
      assert ([s[..i]] + rest)[1..] == rest;
      JoinSplit(s[i + 1..], sep);
      assert s == s[..i] + [sep] + s[i + 1..];
    }
  }

  /** The first piece of a split is the text before the first separator. */
  lemma FirstPiece(s: string, sep: char)
    requires sep in s
    ensures Split(s, sep)[0] == s[..IndexOf(s, sep)]
  {
  }

  // ---------------------------------------------------------------------
  // get_db_name
  // ---------------------------------------------------------------------

  /**
   * get_db_name, as written: for sqlite, `database.rsplit('.')[0]`. With a
   * '.' in the name the result is the text before the FIRST '.'; otherwise
   * the name is kept.
   */
  function DbName(engineName: string, database: string): (r: string)
    ensures engineName == SQLITE && '.' in database ==>
      && |r| < |database|
      && r == database[..|r|]
      && database[|r|] == '.'
      && '.' !in r
    ensures !(engineName == SQLITE && '.' in database) ==> r == database
  {
    if engineName == SQLITE then
      if '.' in database then
        FirstPiece(database, '.');
        Split(database, '.')[0]
      else database
    else database
  }

  /**
   * get_db_name as evidently intended: drop the file extension only, the
   * text after the LAST '.'.
   */
  function DbNameWithoutExtension(engineName: string, database: string): (r: string)
    ensures engineName == SQLITE && '.' in database ==>
      exists ext :: '.' !in ext && database == r + ['.'] + ext
    ensures !(engineName == SQLITE && '.' in database) ==> r == database
  {
    if engineName == SQLITE && '.' in database then
      var i := LastIndexOf(database, '.');
      assert database == database[..i] + ['.'] + database[i + 1..];
      database[..i]
    else database
  }

  /** On a name with a single '.', both versions agree. */
  lemma SingleDotAgrees(database: string, i: nat)
    requires i < |database| && database[i] == '.'
    requires '.' !in database[..i] && '.' !in database[i + 1..]
    ensures DbName(SQLITE, database) == DbNameWithoutExtension(SQLITE, database)
  {
    FirstPiece(database, '.');
  }

  /**
   * As written, a sqlite file "a.b.db" gives the database name "a": the
   * split cuts at the first '.', not at the extension. A path through a
   * dotted directory loses everything from that directory on in the same way.
   */
  lemma DbNameCutsAtFirstDot()
    ensures DbName(SQLITE, "a.b.db") == "a"
  {
    var d := "a.b.db";
    var r := DbName(SQLITE, d);
    assert d[0] == 'a' && d[1] == '.';
    assert |r| <= 1;
    assert r == d[..1];
  }

  /** As intended, the same file gives "a.b". */
  lemma DbNameWithoutExtensionKeepsInnerDots()
    ensures DbNameWithoutExtension(SQLITE, "a.b.db") == "a.b"
  {
  }

  // ---------------------------------------------------------------------
  // make_primary_key_logline
  // ---------------------------------------------------------------------

  /** `'%s: {%s}, ' % (key, key)`: a key name and a format field named after it. */
  function Field(key: string): string {
    key + ": {" + key + "}, "
  }

  /** The `keystring` accumulated over `keys`, in order. */
  function KeyFields(keys: seq<string>): string {
    if keys == [] then "" else KeyFields(keys[..|keys| - 1]) + Field(keys[|keys| - 1])
  }

  /** The fields of two key lists, one after the other, are the fields of the joined list. */
  lemma {:induction false} KeyFieldsAppend(a: seq<string>, b: seq<string>)
    ensures KeyFields(a + b) == KeyFields(a) + KeyFields(b)
    decreases |b|
  {
    if b != [] {
      var b' := b[..|b| - 1];
      assert (a + b)[..|a + b| - 1] == a + b';
      KeyFieldsAppend(a, b');
    } else {
      assert a + b == a;
    }
  }

  lemma KeyFieldsSingle(key: string)
    ensures KeyFields([key]) == Field(key)
  {
    assert [key][..0] == [];
  }

  /** The field of each key sits, in key order, between the fields of the keys around it. */
  lemma KeyFieldsAt(before: seq<string>, key: string, after: seq<string>)
    ensures KeyFields(before + [key] + after) == KeyFields(before) + Field(key) + KeyFields(after)
  {
    KeyFieldsAppend(before + [key], after);
    KeyFieldsAppend(before, [key]);
    KeyFieldsSingle(key);
  }

  /**
   * `line % arg` for one string argument. `%%` stands for '%', the first
   * `%s` for `arg`; `None` is the error Python raises: no `%s` to take the
   * argument, a second `%s` without one, a lone trailing '%', or a
   * conversion other than `s` and `%`.
   */
  function Format(line: string, arg: string, used: bool): (r: Option<string>)
    ensures '%' !in line ==> r == if used then Some(line) else None
    decreases |line|
  {
    if line == [] then (if used then Some([]) else None)
    else if line[0] != '%' then
      var rest := Format(line[1..], arg, used);
      assert used && '%' !in line ==> [line[0]] + line[1..] == line;
      Prepend([line[0]], rest)
    else if |line| == 1 then None
    else if line[1] == '%' then Prepend("%", Format(line[2..], arg, used))
    else if line[1] == 's' && !used then Prepend(arg, Format(line[2..], arg, true))
    else None
  }

  function Prepend(s: string, r: Option<string>): Option<string> {
    if r.Some? then Some(s + r.value) else None
  }

  /** A line whose only '%' opens a `%s` gets the argument in its place. */
  lemma {:induction false} FormatOnePlaceholder(pre: string, post: string, arg: string)
    requires '%' !in pre && '%' !in post
    ensures Format(pre + "%s" + post, arg, false) == Some(pre + arg + post)
  {
    if pre == [] {
      assert pre + "%s" + post == "%s" + post;
      assert ("%s" + post)[0] == '%' && ("%s" + post)[1] == 's';
      assert pre + arg + post == arg + post;
      assert ("%s" + post)[2..] == post;
    } else {
      assert (pre + "%s" + post)[1..] == pre[1..] + "%s" + post;
      FormatOnePlaceholder(pre[1..], post, arg);
      assert pre + arg + post == [pre[0]] + (pre[1..] + arg + post);
    }
  }

  /** make_primary_key_logline: accumulate one field per key, then format the line with them. */
  method MakePrimaryKeyLogline(keys: seq<string>, line: string) returns (r: Option<string>)
    ensures r == Format(line, KeyFields(keys), false)
  {
    var keystring := "";
    for i := 0 to |keys|
      invariant keystring == KeyFields(keys[..i])
    {
      assert keys[..i + 1][..i] == keys[..i];
      keystring := keystring + Field(keys[i]);
    }
    assert keys[..|keys|] == keys;
    r := Format(line, keystring, false);
  }

  /** With no keys the placeholder is replaced by nothing. */
  lemma NoKeysInsertNothing(pre: string, post: string)
    requires '%' !in pre && '%' !in post
    ensures Format(pre + "%s" + post, KeyFields([]), false) == Some(pre + post)
  {
    FormatOnePlaceholder(pre, post, "");
    assert KeyFields([]) == "";
    assert pre + "" + post == pre + post;
  }
}
