/**
 * The rendering rules of `supper/__main__.py`: the `.csv` suffix of the
 * output path, the normalisation of the configured user names, and the
 * rows of the seating-plan table.
 */
module Seating {
  import Text

  const DAY_NAMES: seq<string> := ["Monday", "Tuesday", "Wednesday", "Thursday", "Friday"]

  /* ------------------------------------------------------------ output path */

  /**
   * The extension rule of `format_output_path`, applied to the already
   * formatted path: `.csv` is appended unless the text after the last `.`
   * is exactly `csv` (case-sensitive; a path without `.` is its own last piece).
   */
  function WithCsvExtension(path: string): (r: string)
    ensures r == path || r == path + ".csv"
    ensures r == path + ".csv" <==> Text.LastPiece(path, '.') != "csv"
    ensures Text.LastPiece(r, '.') == "csv"
  {
    if Text.LastPiece(path, '.') != "csv" then
      Text.LastPieceAfterSeparator(path, "csv", '.');
      assert path + ".csv" == path + ['.'] + "csv";
      path + ".csv"
    else
      path
  }

  /** Applying the rule to its own result changes nothing. */
  lemma WithCsvExtensionIdempotent(path: string)
    ensures WithCsvExtension(WithCsvExtension(path)) == WithCsvExtension(path)
  {
  }

  /** A bare `csv` is taken as already carrying the extension. */
  lemma BareCsvIsKept()
    ensures WithCsvExtension("csv") == "csv"
  {
    Text.SplitWithoutSeparator("csv", '.');
  }

  /** A last piece other than `csv` gets the extension appended after it. */
  lemma OtherExtensionGetsCsv(stem: string, ext: string)
    requires '.' !in ext && ext != "csv"
    ensures WithCsvExtension(stem + ['.'] + ext) == stem + ['.'] + ext + ".csv"
  {
    Text.LastPieceAfterSeparator(stem, ext, '.');
  }

  /** The comparison is case-sensitive, so a `.CSV` path gets a second extension. */
  lemma UpperCaseCsvGetsExtension(stem: string)
    ensures WithCsvExtension(stem + ".CSV") == stem + ".CSV.csv"
  {
    var ext := "CSV";
    assert ext != "csv" by { assert ext[0] != "csv"[0]; }
    assert '.' !in ext;
    OtherExtensionGetsCsv(stem, ext);
    var path := stem + ".CSV";
    assert path == stem + ['.'] + ext by {
      assert ".CSV" == ['.'] + ext;
    }
    assert path + ".csv" == stem + ".CSV.csv" by {
      assert ".CSV" + ".csv" == ".CSV.csv";
    }
  }

  /** A path without any `.` is its own last piece and gets the extension. */
  lemma NoDotGetsCsv(path: string)
    requires '.' !in path && path != "csv"
    ensures WithCsvExtension(path) == path + ".csv"
  {
    Text.SplitWithoutSeparator(path, '.');
  }

  /* ---------------------------------------------------------- user names */

  /** Ascending in Python's string order. */
  predicate Sorted(s: seq<string>)
  {
    forall i, j :: 0 <= i < j < |s| ==> Text.StrLe(s[i], s[j])
  }

  /** Inserts `x` before the first element it does not follow. */
  function Insert(x: string, s: seq<string>): (r: seq<string>)
    requires Sorted(s)
    ensures Sorted(r)
    ensures multiset(r) == multiset(s) + multiset{x}
    ensures |r| == |s| + 1
    decreases |s|
  {
    if |s| == 0 then [x]
    else if Text.StrLe(x, s[0]) then
      assert forall j :: 0 <= j < |s| ==> Text.StrLe(x, s[j]) by {
        forall j | 0 <= j < |s|
          ensures Text.StrLe(x, s[j])
        {
          if j > 0 {
            Text.StrLeTransitive(x, s[0], s[j]);
          }
        }
      }
      [x] + s
    else
      Text.StrLeTotal(x, s[0]);
      var rest := Insert(x, s[1..]);
      assert s == [s[0]] + s[1..];
      var r := [s[0]] + rest;
      assert forall j :: 0 <= j < |rest| ==> Text.StrLe(s[0], rest[j]) by {
        forall j | 0 <= j < |rest|
          ensures Text.StrLe(s[0], rest[j])
        {
          assert rest[j] in multiset(rest);
          assert rest[j] == x || rest[j] in multiset(s[1..]);
          if rest[j] != x {
            var k :| 0 <= k < |s[1..]| && s[1..][k] == rest[j];
          }
        }
      }
      r
  }

  /** Insertion sort: Python's `sorted` on a list of strings. */
  function SortStrings(s: seq<string>): (r: seq<string>)
    ensures Sorted(r)
    ensures multiset(r) == multiset(s)
    ensures |r| == |s|
    decreases |s|
  {
    if |s| == 0 then []
    else
      assert s == [s[0]] + s[1..];
      Insert(s[0], SortStrings(s[1..]))
  }

  /** Each user name lower-cased, in order. */
  function LowerAll(users: seq<string>): (r: seq<string>)
    ensures |r| == |users|
    ensures forall i :: 0 <= i < |users| ==> r[i] == Text.Lower(users[i])
  {
    seq(|users|, i requires 0 <= i < |users| => Text.Lower(users[i]))
  }

  /**
   * `sorted([x.lower() for x in users])`: an ascending permutation of the
   * lower-cased names; duplicates are kept.
   */
  function NormaliseUsers(users: seq<string>): (r: seq<string>)
    ensures Sorted(r)
    ensures multiset(r) == multiset(LowerAll(users))
    ensures |r| == |users|
    ensures forall x :: x in r ==> Text.IsLower(x)
  {
    var r := SortStrings(LowerAll(users));
    assert forall x :: x in r ==> x in multiset(LowerAll(users));
    r
  }

  /** Two ascending sequences with the same elements are the same sequence. */
  lemma {:induction false} SortedPermutationsAreEqual(a: seq<string>, b: seq<string>)
    requires Sorted(a) && Sorted(b)
    requires multiset(a) == multiset(b)
    ensures a == b
    decreases |a|
  {
    assert |a| == |multiset(a)| == |multiset(b)| == |b|;
    if |a| > 0 {
      SameLeastElement(a, b);
      assert a == [a[0]] + a[1..] && b == [b[0]] + b[1..];
      assert multiset(a[1..]) == multiset(a) - multiset{a[0]};
      assert multiset(b[1..]) == multiset(b) - multiset{b[0]};
      SortedTail(a);
      SortedTail(b);
      SortedPermutationsAreEqual(a[1..], b[1..]);
    }
  }

  lemma SortedTail(a: seq<string>)
    requires Sorted(a) && |a| > 0
    ensures Sorted(a[1..])
  {
    forall i, j | 0 <= i < j < |a| - 1
      ensures Text.StrLe(a[1..][i], a[1..][j])
    {
      assert Text.StrLe(a[i + 1], a[j + 1]);
    }
  }

  /** The first element of a non-empty ascending sequence is determined by its elements. */
  lemma SameLeastElement(a: seq<string>, b: seq<string>)
    requires Sorted(a) && Sorted(b) && |a| > 0 && |b| > 0
    requires multiset(a) == multiset(b)
    ensures a[0] == b[0]
  {
    assert a[0] in multiset(b) && b[0] in multiset(a);
    var i :| 0 <= i < |b| && b[i] == a[0];
    var j :| 0 <= j < |a| && a[j] == b[0];
    Text.StrLeReflexive(a[0]);
    Text.StrLeReflexive(b[0]);
    assert Text.StrLe(b[0], a[0]) by {
      if i > 0 {
        assert Text.StrLe(b[0], b[i]);
      }
    }
    assert Text.StrLe(a[0], b[0]) by {
      if j > 0 {
        assert Text.StrLe(a[0], a[j]);
      }
    }
    Text.StrLeAntisymmetric(a[0], b[0]);
  }

  /** Normalising an already normalised list gives it back. */
  lemma NormaliseUsersIdempotent(users: seq<string>)
    ensures NormaliseUsers(NormaliseUsers(users)) == NormaliseUsers(users)
  {
    var once := NormaliseUsers(users);
    assert LowerAll(once) == once;
    SortedPermutationsAreEqual(NormaliseUsers(once), once);
  }

  /* -------------------------------------------------------------- table */

  /** The seating-plan table: a header and one row per user. */
  datatype Table = Table(header: seq<string>, rows: seq<seq<string>>)

  /**
   * One user's row: in each day's column the user's name, or an empty cell
   * when the user is in that day's out-of-office list.
   */
  function UserRow(ooo: seq<seq<string>>, user: string): (row: seq<string>)
    requires |ooo| >= |DAY_NAMES|
    ensures |row| == |DAY_NAMES|
    ensures forall i :: 0 <= i < |row| ==> row[i] == "" || row[i] == user
    ensures user != "" ==> forall i :: 0 <= i < |row| ==> (row[i] == "" <==> user in ooo[i])
  {
    seq(|DAY_NAMES|, i requires 0 <= i < |DAY_NAMES| => if user !in ooo[i] then user else "")
  }

  /** `create_ooo_csv` without the file: the header and the rows, one per user in order. */
  method CreateOooCsv(ooo: seq<seq<string>>, users: seq<string>) returns (table: Table)
    requires |ooo| >= |DAY_NAMES|
    ensures table.header == ["Monday", "Tuesday", "Wednesday", "Thursday", "Friday"]
    ensures |table.rows| == |users|
    ensures forall k :: 0 <= k < |users| ==> |table.rows[k]| == |DAY_NAMES|
    ensures forall k, i :: 0 <= k < |users| && 0 <= i < |DAY_NAMES| ==>
      table.rows[k][i] == "" || table.rows[k][i] == users[k]
    ensures forall k, i :: 0 <= k < |users| && 0 <= i < |DAY_NAMES| && users[k] != "" ==>
      (table.rows[k][i] == "" <==> users[k] in ooo[i])
  {
    var rows: seq<seq<string>> := [];
    var k := 0;
    while k < |users|
      invariant 0 <= k <= |users|
      invariant |rows| == k
      invariant forall j :: 0 <= j < k ==> rows[j] == UserRow(ooo, users[j])
    {
      rows := rows + [UserRow(ooo, users[k])];
      k := k + 1;
    }
    table := Table(DAY_NAMES, rows);
  }

  /** Changing one day's list can only change that day's column. */
  lemma SlotAffectsOnlyItsColumn(ooo: seq<seq<string>>, ooo': seq<seq<string>>, user: string, d: int)
    requires |ooo| == |ooo'| >= |DAY_NAMES| && 0 <= d < |DAY_NAMES|
    requires forall i :: 0 <= i < |ooo| && i != d ==> ooo[i] == ooo'[i]
    ensures forall i :: 0 <= i < |DAY_NAMES| && i != d ==> UserRow(ooo, user)[i] == UserRow(ooo', user)[i]
  {
  }

  /** Only membership matters: lists with the same names, repeated or not, give the same row. */
  lemma RowDependsOnlyOnMembership(ooo: seq<seq<string>>, ooo': seq<seq<string>>, user: string)
    requires |ooo| >= |DAY_NAMES| && |ooo'| >= |DAY_NAMES|
    requires forall i, x :: 0 <= i < |DAY_NAMES| ==> (x in ooo[i] <==> x in ooo'[i])
    ensures UserRow(ooo, user) == UserRow(ooo', user)
  {
  }

  /** Bob out on Tuesday: Alice's row is full, Bob's row is blank on Tuesday only. */
  lemma BobOutOnTuesday()
    ensures var ooo := [[], ["bob"], [], [], []];
      && UserRow(ooo, "alice") == ["alice", "alice", "alice", "alice", "alice"]
      && UserRow(ooo, "bob") == ["bob", "", "bob", "bob", "bob"]
  {
    assert "alice" != "bob" by { assert "alice"[0] != "bob"[0]; }
  }
}
