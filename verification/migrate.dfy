/**
 * The API's migration runner (apps/api/scripts/migrate.ts): a migration
 * file's text is cut into statements at every `;` whose trailing white
 * space holds a line break; the `.sql` files are taken in collation order,
 * those already recorded in `schema_migrations` are skipped, and each of
 * the others runs in a transaction of its own together with the insert of
 * its record, so that a file is either applied and recorded or leaves no
 * trace.
 */
module Migrate {
  import opened Wrappers
  import opened Text
  import opened Sorting

  // ------------------------------------------------------------ statement splitting

  /** The length of the run of white space (`\s`) that begins `s`. */
  function SpaceRun(s: string): (n: nat)
    ensures n <= |s| && AllSpace(s[..n])
    ensures n < |s| ==> !IsJsSpace(s[n])
  {
    if |s| > 0 && IsJsSpace(s[0]) then
      var n := 1 + SpaceRun(s[1..]);
      assert s[..n] == [s[0]] + s[1..][..n - 1];
      n
    else 0
  }

  /** The last line break among the first `n` characters. */
  function LastNewline(s: string, n: nat): (r: Option<nat>)
    requires n <= |s|
    ensures r.Some? ==> r.value < n && s[r.value] == '\n' && forall j :: r.value < j < n ==> s[j] != '\n'
    ensures r.None? ==> forall j :: 0 <= j < n ==> s[j] != '\n'
  {
    if n == 0 then None
    else if s[n - 1] == '\n' then Some(n - 1)
    else LastNewline(s, n - 1)
  }

  /**
   * The length of the match of `/;\s*\n/` at the start of `s`: the `;`,
   * then white space up to and including the last line break of the white
   * space run that follows (the greedy `\s*` gives back just enough for the
   * `\n`).
   */
  function MatchAt(s: string): (r: Option<nat>)
    ensures r.Some? ==> 2 <= r.value <= |s| && s[0] == ';' && s[r.value - 1] == '\n' && AllSpace(s[1..r.value])
  {
    if |s| == 0 || s[0] != ';' then None
    else
      var t := s[1..];
      var run := SpaceRun(t);
      match LastNewline(t, run)
      case None => None
      case Some(j) =>
        assert s[1..j + 2] == t[..run][..j + 1];
        Some(j + 2)
  }

  /** The first match at or after `i`: its position and length. */
  function FirstMatch(s: string, i: nat): (r: Option<(nat, nat)>)
    requires i <= |s|
    ensures r.Some? ==> i <= r.value.0 && r.value.0 + r.value.1 <= |s| && MatchAt(s[r.value.0..]) == Some(r.value.1)
    ensures r.Some? ==> forall k :: i <= k < r.value.0 ==> MatchAt(s[k..]).None?
    ensures r.None? ==> forall k :: i <= k < |s| ==> MatchAt(s[k..]).None?
    decreases |s| - i
  {
    if i == |s| then None
    else match MatchAt(s[i..])
      case Some(n) => Some((i, n))
      case None => FirstMatch(s, i + 1)
  }

  /** `sql.split(/;\s*\n/)`: the text between matches, always at least one piece. */
  function SplitAtBreaks(s: string): (r: seq<string>)
    ensures |r| >= 1
    decreases |s|
  {
    match FirstMatch(s, 0)
    case None => [s]
    case Some((j, n)) => [s[..j]] + SplitAtBreaks(s[j + n..])
  }

  /** A statement is closed with `;` unless it already is. */
  function Terminate(s: string): (r: string)
    ensures EndsWith(r, ";")
  {
    if EndsWith(s, ";") then s else s + ";"
  }

  function TerminateAll(pieces: seq<string>): (r: seq<string>)
    ensures |r| == |pieces| && forall i :: 0 <= i < |pieces| ==> r[i] == Terminate(pieces[i])
  {
    if |pieces| == 0 then [] else [Terminate(pieces[0])] + TerminateAll(pieces[1..])
  }

  /** A statement as the runner executes it: non-empty, no white space at either end, closed with `;`. */
  predicate Statement(s: string) {
    |s| > 0 && NoSpaceAtEnds(s) && EndsWith(s, ";")
  }

  /** `splitSqlStatements` */
  function SplitSqlStatements(sql: string): (r: seq<string>)
    ensures forall i :: 0 <= i < |r| ==> Statement(r[i])
  {
    var pieces := TrimAndDropEmpty(SplitAtBreaks(sql));
    var r := TerminateAll(pieces);
    forall i | 0 <= i < |r| ensures Statement(r[i]) {
      assert pieces[i] in pieces;
      TerminatedStatement(pieces[i]);
    }
    r
  }

  lemma TerminatedStatement(p: string)
    requires |p| > 0 && NoSpaceAtEnds(p)
    ensures Statement(Terminate(p))
  {
    if !EndsWith(p, ";") {
      assert (p + ";")[0] == p[0];
    }
  }

  // ------------------------------------------------------------ the round trip

  /**
   * A statement that splitting gives back unchanged: at least one character
   * before its closing `;`, neither white space nor another `;` just before
   * it, no white space at the start, and no `;` inside followed by white
   * space with a line break.
   */
  predicate Clean(s: string) {
    && |s| >= 2 && s[|s| - 1] == ';'
    && !IsJsSpace(s[0]) && !IsJsSpace(s[|s| - 2]) && s[|s| - 2] != ';'
    && forall k :: 0 <= k < |s| ==> MatchAt(s[k..]).None?
  }

  /** A white-space run stops at the first character that is not white space, whatever follows. */
  lemma {:induction false} SpaceRunStops(u: string, y: string)
    requires SpaceRun(u) < |u|
    ensures SpaceRun(u + y) == SpaceRun(u)
    decreases |u|
  {
    if IsJsSpace(u[0]) {
      assert (u + y)[1..] == u[1..] + y;
      SpaceRunStops(u[1..], y);
    }
  }

  lemma {:induction false} LastNewlineOfPrefix(u: string, y: string, n: nat)
    requires n <= |u|
    ensures LastNewline(u + y, n) == LastNewline(u, n)
    decreases n
  {
    if n > 0 {
      LastNewlineOfPrefix(u, y, n - 1);
    }
  }

  /** A match at a `;` is decided before the first character that is not white space after it. */
  lemma MatchDecidedEarly(x: string, y: string)
    requires |x| >= 1 && SpaceRun(x[1..]) < |x[1..]|
    ensures MatchAt(x + y) == MatchAt(x)
  {
    var t := x[1..];
    assert (x + y)[1..] == t + y;
    assert (x + y)[0] == x[0];
    SpaceRunStops(t, y);
    LastNewlineOfPrefix(t, y, SpaceRun(t));
  }

  /** Inside a clean statement followed by anything, no match starts before its closing `;`. */
  lemma NoMatchInside(a: string, y: string, k: nat)
    requires Clean(a) && k < |a| - 1
    ensures MatchAt((a + y)[k..]) == MatchAt(a[k..])
  {
    var x := a[k..];
    assert (a + y)[k..] == x + y;
    if x[0] == ';' {
      var t := x[1..];
      assert t[|t| - 1] == ';';
      assert !IsJsSpace(t[|t| - 1]);
      assert !AllSpace(t);
      MatchDecidedEarly(x, y);
    }
  }

  /** The text after a clean statement's closing `;` breaks there, and the match is `;` and the line break. */
  lemma BreakAtEnd(a: string, rest: string)
    requires Clean(a) && |rest| > 0 && !IsJsSpace(rest[0])
    ensures MatchAt((a + "\n" + rest)[|a| - 1..]) == Some(2)
  {
    var x := (a + "\n" + rest)[|a| - 1..];
    assert x == [';', '\n'] + rest;
    var t := x[1..];
    assert t == ['\n'] + rest;
    assert t[1..] == rest;
    assert SpaceRun(t[1..]) == 0;
    assert SpaceRun(t) == 1;
  }

  lemma NoEarlierBreak(a: string, rest: string)
    requires Clean(a)
    ensures forall k :: 0 <= k < |a| - 1 ==> MatchAt((a + "\n" + rest)[k..]).None?
  {
    var y := "\n" + rest;
    assert a + "\n" + rest == a + y;
    forall k | 0 <= k < |a| - 1 ensures MatchAt((a + y)[k..]).None? {
      NoMatchInside(a, y, k);
    }
  }

  /** Where the text of clean statements, one per line, first breaks: at the end of the first. */
  lemma FirstBreak(a: string, rest: string)
    requires Clean(a) && |rest| > 0 && !IsJsSpace(rest[0])
    ensures FirstMatch(a + "\n" + rest, 0) == Some((|a| - 1, 2))
  {
    BreakAtEnd(a, rest);
    NoEarlierBreak(a, rest);
    FirstMatchAt(a + "\n" + rest, 0, |a| - 1);
  }

  /** When no match comes before `j` and one is at `j`, that is the first. */
  lemma {:induction false} FirstMatchAt(s: string, i: nat, j: nat)
    requires i <= j < |s| && MatchAt(s[j..]).Some?
    requires forall k :: i <= k < j ==> MatchAt(s[k..]).None?
    ensures FirstMatch(s, i) == Some((j, MatchAt(s[j..]).value))
    decreases j - i
  {
    if i < j {
      FirstMatchAt(s, i + 1, j);
    }
  }

  /** A single clean statement holds no break. */
  lemma NoBreakIn(a: string)
    requires Clean(a)
    ensures SplitAtBreaks(a) == [a]
  {
    assert FirstMatch(a, 0).None?;
  }

  /** A statement without its closing character. */
  function Opening(s: string): string {
    if |s| == 0 then s else s[..|s| - 1]
  }

  /** The pieces a split of clean statements, one per line, should give: each without its `;`, the last whole. */
  function Pieces(stmts: seq<string>): (r: seq<string>)
    requires |stmts| >= 1
    ensures |r| == |stmts|
  {
    if |stmts| == 1 then [stmts[0]] else [Opening(stmts[0])] + Pieces(stmts[1..])
  }

  /** Splitting a clean statement and the lines after it gives its opening, then the split of the rest. */
  lemma SplitStep(a: string, rest: string)
    requires Clean(a) && |rest| > 0 && !IsJsSpace(rest[0])
    ensures SplitAtBreaks(a + "\n" + rest) == [Opening(a)] + SplitAtBreaks(rest)
  {
    var text := a + "\n" + rest;
    FirstBreak(a, rest);
    assert text[|a| - 1 + 2..] == rest;
    assert text[..|a| - 1] == a[..|a| - 1];
  }

  /** Clean statements, one per line, split into their pieces. */
  lemma {:induction false} SplitJoinedPieces(stmts: seq<string>)
    requires |stmts| >= 1 && forall i :: 0 <= i < |stmts| ==> Clean(stmts[i])
    ensures SplitAtBreaks(Join(stmts, '\n')) == Pieces(stmts)
    decreases |stmts|
  {
    if |stmts| == 1 {
      NoBreakIn(stmts[0]);
    } else {
      var rest := Join(stmts[1..], '\n');
      assert Clean(stmts[1]);
      JoinStartsWithFirst(stmts[1..], '\n');
      SplitStep(stmts[0], rest);
      assert forall i :: 0 <= i < |stmts[1..]| ==> Clean(stmts[1..][i]) by {
        forall i | 0 <= i < |stmts[1..]| ensures Clean(stmts[1..][i]) { assert stmts[1..][i] == stmts[i + 1]; }
      }
      SplitJoinedPieces(stmts[1..]);
    }
  }

  /** The pieces of clean statements are already trimmed and non-empty. */
  lemma {:induction false} PiecesTrimmed(stmts: seq<string>)
    requires |stmts| >= 1 && forall i :: 0 <= i < |stmts| ==> Clean(stmts[i])
    ensures forall i :: 0 <= i < |Pieces(stmts)| ==> |Pieces(stmts)[i]| > 0 && NoSpaceAtEnds(Pieces(stmts)[i])
    decreases |stmts|
  {
    var a := stmts[0];
    assert Clean(a);
    var o := Opening(a);
    assert |o| > 0 && NoSpaceAtEnds(o) by {
      assert o[0] == a[0] && o[|o| - 1] == a[|a| - 2];
    }
    if |stmts| > 1 {
      assert forall i :: 0 <= i < |stmts[1..]| ==> Clean(stmts[1..][i]) by {
        forall i | 0 <= i < |stmts[1..]| ensures Clean(stmts[1..][i]) { assert stmts[1..][i] == stmts[i + 1]; }
      }
      PiecesTrimmed(stmts[1..]);
      var p := Pieces(stmts);
      assert p == [o] + Pieces(stmts[1..]);
      forall i | 0 <= i < |p| ensures |p[i]| > 0 && NoSpaceAtEnds(p[i]) {
        if i > 0 {
          assert p[i] == Pieces(stmts[1..])[i - 1];
        }
      }
    } else {
      assert NoSpaceAtEnds(a) by { assert a[|a| - 1] == ';'; }
    }
  }

  /** Closing each piece with `;` gives the statements back. */
  lemma {:induction false} PiecesTerminated(stmts: seq<string>)
    requires |stmts| >= 1 && forall i :: 0 <= i < |stmts| ==> Clean(stmts[i])
    ensures TerminateAll(Pieces(stmts)) == stmts
    decreases |stmts|
  {
    var a := stmts[0];
    assert Clean(a);
    if |stmts| == 1 {
      assert EndsWith(a, ";");
    } else {
      var o := Opening(a);
      assert !EndsWith(o, ";") by { assert o[|o| - 1] == a[|a| - 2]; }
      assert o + ";" == a;
      assert forall i :: 0 <= i < |stmts[1..]| ==> Clean(stmts[1..][i]) by {
        forall i | 0 <= i < |stmts[1..]| ensures Clean(stmts[1..][i]) { assert stmts[1..][i] == stmts[i + 1]; }
      }
      PiecesTerminated(stmts[1..]);
      assert TerminateAll(Pieces(stmts)) == [Terminate(o)] + TerminateAll(Pieces(stmts[1..]));
    }
  }

  /** Clean statements written one per line split back into the same statements. */
  lemma SplitJoinedStatements(stmts: seq<string>)
    requires |stmts| >= 1 && forall i :: 0 <= i < |stmts| ==> Clean(stmts[i])
    ensures SplitSqlStatements(Join(stmts, '\n')) == stmts
  {
    SplitJoinedPieces(stmts);
    PiecesTrimmed(stmts);
    TrimAndDropEmptyKeeps(Pieces(stmts));
    PiecesTerminated(stmts);
  }

  lemma JoinStartsWithFirst(pieces: seq<string>, sep: char)
    requires |pieces| >= 1 && |pieces[0]| > 0
    ensures |Join(pieces, sep)| > 0 && Join(pieces, sep)[0] == pieces[0][0]
  {
  }

  // ------------------------------------------------------------ which files run

  function SqlFiles(files: seq<string>): (r: seq<string>)
    ensures forall f :: f in r <==> f in files && EndsWith(f, ".sql")
  {
    if |files| == 0 then []
    else (if EndsWith(files[0], ".sql") then [files[0]] else []) + SqlFiles(files[1..])
  }

  function NotApplied(files: seq<string>, applied: set<string>): (r: seq<string>)
    ensures forall f :: f in r <==> f in files && f !in applied
  {
    if |files| == 0 then []
    else (if files[0] in applied then [] else [files[0]]) + NotApplied(files[1..], applied)
  }

  /**
   * The files the loop applies, in order: the `.sql` files of the directory
   * sorted by `before` (`localeCompare`), less those recorded already.
   */
  function Pending(files: seq<string>, applied: set<string>, before: (string, string) -> bool): (r: seq<string>)
    requires TotalPreorder(before)
  {
    NotApplied(SortBy(SqlFiles(files), before), applied)
  }

  /** Only `.sql` files that are not recorded run, each `.sql` file not recorded runs, and they run in sorted order. */
  lemma PendingFiles(files: seq<string>, applied: set<string>, before: (string, string) -> bool)
    requires TotalPreorder(before)
    ensures var r := Pending(files, applied, before);
      && (forall f :: f in r <==> f in files && EndsWith(f, ".sql") && f !in applied)
      && SortedBy(r, before)
  {
    var sorted := SortBy(SqlFiles(files), before);
    forall f ensures f in sorted <==> f in SqlFiles(files) {
      assert f in sorted <==> f in multiset(sorted);
    }
    NotAppliedKeepsOrder(sorted, applied, before);
  }

  lemma {:induction false} NotAppliedKeepsOrder(files: seq<string>, applied: set<string>, before: (string, string) -> bool)
    requires SortedBy(files, before)
    ensures SortedBy(NotApplied(files, applied), before)
    decreases |files|
  {
    if |files| > 0 {
      var tail := files[1..];
      assert SortedBy(tail, before) by {
        forall i, j | 0 <= i < j < |tail| ensures before(tail[i], tail[j]) {
          assert tail[i] == files[i + 1] && tail[j] == files[j + 1];
        }
      }
      NotAppliedKeepsOrder(tail, applied, before);
      if files[0] !in applied {
        forall y | y in NotApplied(tail, applied) ensures before(files[0], y) {
          var k :| 0 <= k < |tail| && tail[k] == y;
          assert files[k + 1] == y;
        }
        ConsSorted(files[0], NotApplied(tail, applied), before);
      }
    }
  }

  // ------------------------------------------------------------ applying files

  /** The database: its data, of any type, and the `schema_migrations` records in insertion order. */
  datatype Db<D> = Db(data: D, migrations: seq<string>)

  /** After the loop: the database, the files committed in order, and the file that failed, if one did. */
  datatype Run<D> = Run(db: Db<D>, committed: seq<string>, failed: Option<string>)

  /** Statements executed one after another; the first that fails ends the run. */
  function Execute<D>(data: D, stmts: seq<string>, exec: (D, string) -> Option<D>): Option<D>
  {
    if |stmts| == 0 then Some(data)
    else match exec(data, stmts[0])
      case None => None
      case Some(d) => Execute(d, stmts[1..], exec)
  }

  /** Running two lists of statements is running the first, then the second on what it left. */
  lemma {:induction false} ExecuteAppend<D>(data: D, a: seq<string>, b: seq<string>, exec: (D, string) -> Option<D>)
    ensures Execute(data, a + b, exec) == match Execute(data, a, exec)
      case Some(d) => Execute(d, b, exec)
      case None => None
    decreases |a|
  {
    if |a| > 0 {
      assert (a + b)[0] == a[0];
      assert (a + b)[1..] == a[1..] + b;
      match exec(data, a[0])
      case None =>
      case Some(d) => ExecuteAppend(d, a[1..], b, exec);
    } else {
      assert a + b == b;
    }
  }

  /** Every statement of the files, in file order. */
  function AllStatements(files: seq<string>, script: string -> seq<string>): seq<string> {
    if |files| == 0 then [] else script(files[0]) + AllStatements(files[1..], script)
  }

  /**
   * The loop over the pending files: each file's statements and its record
   * commit together; on the first failure the transaction rolls back and
   * the loop stops.
   */
  function ApplyEach<D>(db: Db<D>, pending: seq<string>, script: string -> seq<string>, exec: (D, string) -> Option<D>): (r: Run<D>)
    ensures r.db.migrations == db.migrations + r.committed
    decreases |pending|
  {
    if |pending| == 0 then Run(db, [], None)
    else
      var f := pending[0];
      match Execute(db.data, script(f), exec)
      case None => Run(db, [], Some(f))
      case Some(d) =>
        var rest := ApplyEach(Db(d, db.migrations + [f]), pending[1..], script, exec);
        Run(rest.db, [f] + rest.committed, rest.failed)
  }

  /** The loop commits a prefix of the pending files, in order, and stops at the file that failed, if any. */
  lemma {:induction false} ApplyEachInOrder<D>(db: Db<D>, pending: seq<string>, script: string -> seq<string>, exec: (D, string) -> Option<D>)
    ensures var r := ApplyEach(db, pending, script, exec);
      && |r.committed| <= |pending| && r.committed == pending[..|r.committed|]
      && (r.failed.Some? ==> |r.committed| < |pending| && r.failed.value == pending[|r.committed|])
      && (r.failed.None? ==> r.committed == pending)
    decreases |pending|
  {
    if |pending| > 0 {
      var f := pending[0];
      match Execute(db.data, script(f), exec)
      case None =>
      case Some(d) =>
        var next := Db(d, db.migrations + [f]);
        ApplyEachInOrder(next, pending[1..], script, exec);
        var rest := ApplyEach(next, pending[1..], script, exec);
        assert pending == [f] + pending[1..];
        assert pending[..1 + |rest.committed|] == [f] + pending[1..][..|rest.committed|];
    }
  }

  /**
   * All or nothing per file: the data after the loop is what running the
   * committed files' statements, and nothing of the failed file's, makes.
   */
  lemma {:induction false} ApplyEachIsCommittedStatements<D>(db: Db<D>, pending: seq<string>, script: string -> seq<string>, exec: (D, string) -> Option<D>)
    ensures var r := ApplyEach(db, pending, script, exec);
      Execute(db.data, AllStatements(r.committed, script), exec) == Some(r.db.data)
    decreases |pending|
  {
    var r := ApplyEach(db, pending, script, exec);
    if |pending| > 0 {
      var f := pending[0];
      var stmts := script(f);
      match Execute(db.data, stmts, exec)
      case None =>
        assert r.committed == [];
      case Some(d) =>
        var next := Db(d, db.migrations + [f]);
        ApplyEachIsCommittedStatements(next, pending[1..], script, exec);
        var rest := ApplyEach(next, pending[1..], script, exec);
        assert r.committed == [f] + rest.committed;
        assert AllStatements(r.committed, script) == stmts + AllStatements(rest.committed, script);
        ExecuteAppend(db.data, stmts, AllStatements(rest.committed, script), exec);
    }
  }

  /** The failed file's statements could not all run on the data its predecessors left. */
  lemma {:induction false} FailedFileFails<D>(db: Db<D>, pending: seq<string>, script: string -> seq<string>, exec: (D, string) -> Option<D>)
    ensures var r := ApplyEach(db, pending, script, exec);
      r.failed.Some? ==> Execute(r.db.data, script(r.failed.value), exec).None?
    decreases |pending|
  {
    if |pending| > 0 {
      var f := pending[0];
      match Execute(db.data, script(f), exec)
      case None =>
      case Some(d) =>
        FailedFileFails(Db(d, db.migrations + [f]), pending[1..], script, exec);
    }
  }

  /** The statements of a migration file, given the directory's contents. */
  function FileStatements(read: string -> string): string -> seq<string> {
    f => SplitSqlStatements(read(f))
  }

  /** The migration run: the pending files, applied one transaction each; `read` gives a file's text. */
  function Migrate<D>(db: Db<D>, files: seq<string>, before: (string, string) -> bool, read: string -> string, exec: (D, string) -> Option<D>): (r: Run<D>)
    requires TotalPreorder(before)
    ensures forall f :: f in r.committed ==> f in files && EndsWith(f, ".sql") && f !in db.migrations
    ensures r.db.migrations == db.migrations + r.committed
  {
    var pending := Pending(files, Recorded(db), before);
    var r := ApplyEach(db, pending, FileStatements(read), exec);
    PendingFiles(files, Recorded(db), before);
    ApplyEachInOrder(db, pending, FileStatements(read), exec);
    forall f | f in r.committed ensures f in pending {
      var k :| 0 <= k < |r.committed| && r.committed[k] == f;
      assert pending[..|r.committed|][k] == f;
    }
    r
  }

  /** `new Set(rows.map(r => r.filename))` */
  function Recorded<D>(db: Db<D>): (r: set<string>)
    ensures forall f :: f in r <==> f in db.migrations
  {
    set f | f in db.migrations
  }
}
