/** Tables as the survey scripts see them: a list of column names and rows of cells
    laid out in column order (a pandas DataFrame without its index). */
module Frames {

  datatype Option<T> = None | Some(value: T)

  /** One cell: an integer, a decimal (exact), a text, or the missing marker (pandas NA/NaN). */
  datatype Cell = Num(n: int) | Dec(x: real) | Str(s: string) | Missing

  /** A row holds one cell per column, in the order of the table's column list. */
  type Row = seq<Cell>

  datatype Frame = Frame(columns: seq<string>, rows: seq<Row>)

  /** What makes a script stop: a KeyError on absent columns, or a failed conversion. */
  datatype Error =
    | MissingColumns(names: seq<string>)
    | NotInteger(column: string)
    | NotNumeric(column: string)
    | NotBinnable(column: string)
    | NotBitwise(column: string)

  datatype Result<T> = Ok(value: T) | Err(error: Error)

  /** Every row has exactly `width` cells. */
  predicate Rect(rows: seq<Row>, width: nat)
  {
    forall i :: 0 <= i < |rows| ==> |rows[i]| == width
  }

  /** A frame is rectangular: every row has one cell per column. */
  predicate WellFormed(f: Frame)
  {
    Rect(f.rows, |f.columns|)
  }

  predicate NoDup<T(==)>(s: seq<T>)
  {
    forall i, j :: 0 <= i < j < |s| ==> s[i] != s[j]
  }

  /** Positions listed in strictly increasing order. */
  predicate Increasing(s: seq<nat>)
  {
    forall i, j :: 0 <= i < j < |s| ==> s[i] < s[j]
  }

  /** A list with no members is empty. */
  lemma NoMembers(a: seq<nat>)
    requires forall p :: p !in a
    ensures a == []
  {
    forall p ensures multiset(a)[p] == 0 {
      assert p !in a;
    }
    assert multiset(a) == multiset{};
  }

  /** Two increasing position lists with the same members are the same list. */
  lemma {:induction false} IncreasingUnique(a: seq<nat>, b: seq<nat>)
    requires Increasing(a) && Increasing(b)
    requires forall p :: p in a <==> p in b
    ensures a == b
  {
    if a == [] || b == [] {
      NoMembers(a);
      NoMembers(b);
    } else {
      assert a[0] == b[0] by {
        assert b[0] in a && a[0] in b;
      }
      forall p ensures p in a[1..] <==> p in b[1..] {
        if p in a[1..] {
          var k :| 1 <= k < |a| && a[k] == p;
          assert p in b && p != b[0];
        }
        if p in b[1..] {
          var k :| 1 <= k < |b| && b[k] == p;
          assert p in a && p != a[0];
        }
      }
      IncreasingUnique(a[1..], b[1..]);
      assert a == [a[0]] + a[1..] && b == [b[0]] + b[1..];
    }
  }

  /** pandas column lookup: the position of the first column called `name`, or |cols| when there is none. */
  function IndexOf(cols: seq<string>, name: string): (r: nat)
    ensures r <= |cols|
    ensures name !in cols[..r]
    ensures r < |cols| <==> name in cols
    ensures r < |cols| ==> cols[r] == name
  {
    if cols == [] then 0
    else if cols[0] == name then 0
    else
      var r := 1 + IndexOf(cols[1..], name);
      assert cols[..r] == [cols[0]] + cols[1..][..r - 1];
      r
  }

  /** In a list without repeated names, a name is found where it is. */
  lemma IndexOfUnique(cols: seq<string>, name: string, j: nat)
    requires NoDup(cols) && j < |cols| && cols[j] == name
    ensures IndexOf(cols, name) == j
  {
  }

  /** The cells of `row` at the listed positions, in the listed order. */
  function Project(row: Row, pos: seq<nat>): (r: Row)
    requires forall k :: 0 <= k < |pos| ==> pos[k] < |row|
    ensures |r| == |pos|
    ensures forall k :: 0 <= k < |pos| ==> r[k] == row[pos[k]]
  {
    seq(|pos|, k requires 0 <= k < |pos| => row[pos[k]])
  }

  /** `Project` applied to every row. */
  function ProjectRows(rows: seq<Row>, width: nat, pos: seq<nat>): (r: seq<Row>)
    requires Rect(rows, width)
    requires forall k :: 0 <= k < |pos| ==> pos[k] < width
    ensures |r| == |rows| && Rect(r, |pos|)
    ensures forall i :: 0 <= i < |rows| ==> r[i] == Project(rows[i], pos)
  {
    seq(|rows|, i requires 0 <= i < |rows| => Project(rows[i], pos))
  }

  /** pandas `dropna()`: keep, in order, the rows that hold no missing cell. */
  function DropMissing(rows: seq<Row>): (r: seq<Row>)
    ensures |r| <= |rows|
    ensures forall k :: 0 <= k < |r| ==> r[k] in rows && Missing !in r[k]
  {
    if rows == [] then []
    else if Missing in rows[0] then DropMissing(rows[1..])
    else [rows[0]] + DropMissing(rows[1..])
  }

  /** Dropping rows works row by row and keeps the order of what is left. */
  lemma {:induction false} DropMissingAppend(a: seq<Row>, b: seq<Row>)
    ensures DropMissing(a + b) == DropMissing(a) + DropMissing(b)
  {
    if a != [] {
      assert (a + b)[1..] == a[1..] + b;
      DropMissingAppend(a[1..], b);
    } else {
      assert a + b == b;
    }
  }

  /** A row is dropped exactly when it holds a missing cell. */
  lemma DropMissingSingle(row: Row)
    ensures DropMissing([row]) == if Missing in row then [] else [row]
  {
    assert [row][1..] == [];
  }

  /** Every complete row survives the drop. */
  lemma {:induction false} DropMissingKeeps(rows: seq<Row>, i: nat)
    requires i < |rows| && Missing !in rows[i]
    ensures rows[i] in DropMissing(rows)
  {
    if i > 0 {
      DropMissingKeeps(rows[1..], i - 1);
    }
  }

  /** A table without missing cells is left as it is. */
  lemma {:induction false} DropMissingComplete(rows: seq<Row>)
    requires forall i :: 0 <= i < |rows| ==> Missing !in rows[i]
    ensures DropMissing(rows) == rows
  {
    if rows != [] {
      DropMissingComplete(rows[1..]);
    }
  }

  /** Rows kept by the drop have the width of the table they came from. */
  lemma DropMissingRect(rows: seq<Row>, width: nat)
    requires Rect(rows, width)
    ensures Rect(DropMissing(rows), width)
  {
  }

  /** The positions from `lo` up to, not including, `hi`. */
  function Range(lo: nat, hi: nat): (r: seq<nat>)
    requires lo <= hi
    ensures |r| == hi - lo
    ensures forall k :: 0 <= k < |r| ==> r[k] == lo + k
    decreases hi - lo
  {
    if lo == hi then [] else Range(lo, hi - 1) + [hi - 1]
  }

  /** The positions below `n` whose name is not in `drop`: pandas `drop(columns=...)`. */
  function KeptPositions(cols: seq<string>, drop: set<string>, n: nat): (r: seq<nat>)
    requires n <= |cols|
    ensures forall k :: 0 <= k < |r| ==> r[k] < n
  {
    if n == 0 then []
    else KeptPositions(cols, drop, n - 1) + (if cols[n - 1] in drop then [] else [n - 1])
  }

  /** The kept positions are listed in order, and a position is listed exactly when its
      name is not dropped. */
  lemma {:induction false} KeptPositionsSpec(cols: seq<string>, drop: set<string>, n: nat)
    requires n <= |cols|
    ensures Increasing(KeptPositions(cols, drop, n))
    ensures forall p: nat :: p in KeptPositions(cols, drop, n) <==> p < n && cols[p] !in drop
  {
    if n > 0 {
      KeptPositionsSpec(cols, drop, n - 1);
      var prev := KeptPositions(cols, drop, n - 1);
      assert forall k :: 0 <= k < |prev| ==> prev[k] in prev;
    }
  }

  /** Over a stretch of columns none of which is dropped, every position is kept. */
  lemma {:induction false} KeptRange(cols: seq<string>, drop: set<string>, lo: nat, hi: nat)
    requires lo <= hi <= |cols|
    requires forall k :: lo <= k < hi ==> cols[k] !in drop
    ensures KeptPositions(cols, drop, hi) == KeptPositions(cols, drop, lo) + Range(lo, hi)
    decreases hi - lo
  {
    if hi > lo {
      KeptRange(cols, drop, lo, hi - 1);
    }
  }

  /** Dropping the one column at `j` keeps every other position. */
  lemma DropOne(cols: seq<string>, drop: set<string>, j: nat)
    requires j < |cols| && cols[j] in drop
    requires forall k :: 0 <= k < |cols| && k != j ==> cols[k] !in drop
    ensures KeptPositions(cols, drop, |cols|) == Range(0, j) + Range(j + 1, |cols|)
  {
    KeptRange(cols, drop, 0, j);
    KeptRange(cols, drop, j + 1, |cols|);
  }

  /** The column names with the names in `drop` removed; the others stay, in their order and
      as often as they occur. */
  function DropNames(cols: seq<string>, drop: set<string>): (r: seq<string>)
    ensures forall k :: 0 <= k < |r| ==> r[k] in cols && r[k] !in drop
    ensures var pos := KeptPositions(cols, drop, |cols|);
            |r| == |pos| && forall k :: 0 <= k < |pos| ==> r[k] == cols[pos[k]]
  {
    var pos := KeptPositions(cols, drop, |cols|);
    KeptPositionsSpec(cols, drop, |cols|);
    assert forall k :: 0 <= k < |pos| ==> pos[k] in pos;
    seq(|pos|, k requires 0 <= k < |pos| => cols[pos[k]])
  }

  /** A name survives the drop exactly when it is a column and not one of the dropped names. */
  lemma DropNamesSpec(cols: seq<string>, drop: set<string>)
    ensures forall c :: c in DropNames(cols, drop) <==> c in cols && c !in drop
  {
    var pos := KeptPositions(cols, drop, |cols|);
    var r := DropNames(cols, drop);
    KeptPositionsSpec(cols, drop, |cols|);
    forall c | c in cols && c !in drop ensures c in r {
      var p := IndexOf(cols, c);
      assert p in pos;
      var k :| 0 <= k < |pos| && pos[k] == p;
      assert r[k] == c;
    }
  }

  /** Positions below `n` are kept or not whatever follows them. */
  lemma {:induction false} KeptPositionsPrefix(cols: seq<string>, more: seq<string>, drop: set<string>, n: nat)
    requires n <= |cols|
    ensures KeptPositions(cols + more, drop, n) == KeptPositions(cols, drop, n)
  {
    if n > 0 {
      KeptPositionsPrefix(cols, more, drop, n - 1);
      assert (cols + more)[n - 1] == cols[n - 1];
    }
  }

  /** Dropping names from a list extended by one name: that name stays last unless it is dropped. */
  lemma DropNamesSnoc(cols: seq<string>, x: string, drop: set<string>)
    ensures DropNames(cols + [x], drop) == DropNames(cols, drop) + (if x in drop then [] else [x])
  {
    var all := cols + [x];
    KeptPositionsPrefix(cols, [x], drop, |cols|);
    assert all[|cols|] == x;
    var pos := KeptPositions(cols, drop, |cols|);
    assert KeptPositions(all, drop, |all|) == pos + (if x in drop then [] else [|cols|]);
  }

  /** A name not dropped remains exactly as often as it occurs; a dropped name never remains. */
  lemma {:induction false} DropNamesCount(cols: seq<string>, drop: set<string>)
    ensures forall c :: multiset(DropNames(cols, drop))[c] == if c in drop then 0 else multiset(cols)[c]
    decreases |cols|
  {
    if cols != [] {
      var init := cols[..|cols| - 1];
      var x := cols[|cols| - 1];
      assert cols == init + [x];
      DropNamesCount(init, drop);
      DropNamesSnoc(init, x, drop);
    }
  }
}
