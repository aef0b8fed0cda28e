/** The feature binner of MINIPROJECT/binner.py: `preprocess_data` turns BMI into four classes,
    the mental- and physical-health day counts into six classes each, and merges the Fruits and
    Veggies flags into one column. Every step is a column expression, applied here as a
    function of each row. */
module Binner {
  import opened Frames

  /** A bin edge: a number, or one of the infinities pandas accepts as outer edges. */
  datatype Edge = NegInf | At(x: real) | PosInf

  /** The edge `e` lies strictly below `x`. */
  predicate Below(e: Edge, x: real)
  {
    e.NegInf? || (e.At? && e.x < x)
  }

  /** `x` does not lie above the edge `e`. */
  predicate NotAbove(x: real, e: Edge)
  {
    e.PosInf? || (e.At? && x <= e.x)
  }

  /** Edge `a` lies strictly below edge `b`. */
  predicate EdgeLess(a: Edge, b: Edge)
  {
    match a
    case NegInf => !b.NegInf?
    case At(x) => b.PosInf? || (b.At? && x < b.x)
    case PosInf => false
  }

  /** pandas demands strictly increasing bins. */
  predicate Ascending(edges: seq<Edge>)
  {
    forall i, j :: 0 <= i < j < |edges| ==> EdgeLess(edges[i], edges[j])
  }

  /** `x` lies in bin `k`, the right-closed interval (edges[k], edges[k+1]]. */
  predicate InBin(x: real, edges: seq<Edge>, k: nat)
  {
    k + 1 < |edges| && Below(edges[k], x) && NotAbove(x, edges[k + 1])
  }

  /** The first bin from `k` on that holds `x`. */
  function CutFrom(x: real, edges: seq<Edge>, k: nat): (r: Option<nat>)
    ensures r.Some? ==> k <= r.value && InBin(x, edges, r.value)
    ensures r.Some? ==> forall j :: k <= j < r.value ==> !InBin(x, edges, j)
    ensures r.None? ==> forall j :: k <= j ==> !InBin(x, edges, j)
    decreases |edges| - k
  {
    if k + 1 >= |edges| then None
    else if InBin(x, edges, k) then Some(k)
    else CutFrom(x, edges, k + 1)
  }

  /** `pd.cut(x, bins=edges, labels=[0, 1, ...])` (right-closed): the label of the bin holding
      `x`, or nothing (NaN) when no bin does. */
  function Cut(x: real, edges: seq<Edge>): (r: Option<nat>)
    ensures r.Some? <==> exists k :: InBin(x, edges, k)
    ensures r.Some? ==> InBin(x, edges, r.value)
  {
    CutFrom(x, edges, 0)
  }

  /** With increasing edges, no value lies in two bins. */
  lemma BinUnique(x: real, edges: seq<Edge>, j: nat, k: nat)
    requires Ascending(edges) && InBin(x, edges, j) && InBin(x, edges, k)
    ensures j == k
  {
  }

  /** With increasing edges, the cut is the one bin that holds `x`. */
  lemma CutExact(x: real, edges: seq<Edge>, k: nat)
    requires Ascending(edges) && InBin(x, edges, k)
    ensures Cut(x, edges) == Some(k)
  {
    var r := Cut(x, edges);
    BinUnique(x, edges, r.value, k);
  }

  /** With increasing edges, a larger value never lands in a lower bin. */
  lemma CutMonotone(x: real, y: real, edges: seq<Edge>)
    requires Ascending(edges) && x <= y && Cut(x, edges).Some? && Cut(y, edges).Some?
    ensures Cut(x, edges).value <= Cut(y, edges).value
  {
  }

  /** Line 17. */
  const BmiEdges: seq<Edge> := [NegInf, At(18.5), At(25.0), At(30.0), PosInf]

  /** Lines 24 and 31: the mental- and physical-health columns share these edges. */
  const HealthEdges: seq<Edge> := [NegInf, At(5.0), At(10.0), At(15.0), At(20.0), At(25.0), At(30.0)]

  lemma BmiEdgesAscending()
    ensures Ascending(BmiEdges)
  {
  }

  lemma HealthEdgesAscending()
    ensures Ascending(HealthEdges)
  {
  }

  /** Lines 15-19: BMI at most 18.5 is class 0, up to 25 class 1, up to 30 class 2, above 30
      class 3; every BMI has a class. */
  lemma BmiBins(x: real)
    ensures Cut(x, BmiEdges) == Some(if x <= 18.5 then 0 else if x <= 25.0 then 1 else if x <= 30.0 then 2 else 3)
  {
    BmiEdgesAscending();
    var k := if x <= 18.5 then 0 else if x <= 25.0 then 1 else if x <= 30.0 then 2 else 3;
    assert InBin(x, BmiEdges, k);
    CutExact(x, BmiEdges, k);
  }

  /** The boundaries belong to the bin below them: 18.5 is class 0 and 25 class 1; 32.4 is class 3. */
  lemma BmiExamples()
    ensures Cut(18.5, BmiEdges) == Some(0) && Cut(18.6, BmiEdges) == Some(1)
    ensures Cut(25.0, BmiEdges) == Some(1) && Cut(30.0, BmiEdges) == Some(2)
    ensures Cut(32.4, BmiEdges) == Some(3)
  {
    BmiBins(18.5);
    BmiBins(18.6);
    BmiBins(25.0);
    BmiBins(30.0);
    BmiBins(32.4);
  }

  /** The BMI class never decreases as BMI grows. */
  lemma BmiMonotone(x: real, y: real)
    requires x <= y
    ensures Cut(x, BmiEdges).value <= Cut(y, BmiEdges).value
  {
    BmiBins(x);
    BmiBins(y);
  }

  /** Lines 22-33: a day count of at most 30 falls in the 5-day bin k with 5k < x <= 5(k+1)
      (the first bin also takes everything below), and one above 30 falls in none. */
  lemma HealthBins(x: real)
    ensures x <= 30.0 <==> Cut(x, HealthEdges).Some?
    ensures x <= 30.0 ==> var k := Cut(x, HealthEdges).value;
      k <= 5 && (k == 0 || 5.0 * k as real < x) && x <= 5.0 * (k + 1) as real
  {
    HealthEdgesAscending();
    if x <= 30.0 {
      var k := if x <= 5.0 then 0 else if x <= 10.0 then 1 else if x <= 15.0 then 2
               else if x <= 20.0 then 3 else if x <= 25.0 then 4 else 5;
      assert InBin(x, HealthEdges, k);
      CutExact(x, HealthEdges, k);
    } else {
      forall k: nat | k + 1 < |HealthEdges| ensures !InBin(x, HealthEdges, k) {
        if k + 1 < 6 {
          assert EdgeLess(HealthEdges[k + 1], HealthEdges[6]);
        }
      }
    }
  }

  /** The health class never decreases as the day count grows. */
  lemma HealthMonotone(x: real, y: real)
    requires x <= y <= 30.0
    ensures Cut(x, HealthEdges).value <= Cut(y, HealthEdges).value
  {
    HealthBins(x);
    HealthBins(y);
    HealthEdgesAscending();
    CutMonotone(x, y, HealthEdges);
  }

  /** The number a cell holds, if it holds one. */
  function Value(c: Cell): (r: Option<real>)
    ensures r.Some? <==> c.Num? || c.Dec?
  {
    match c
    case Num(n) => Some(n as real)
    case Dec(x) => Some(x)
    case _ => None
  }

  /** `pd.cut(...).astype(int)` on one cell: text and missing cells, and numbers outside every
      bin, have no class, and make the cast fail. */
  function BinCell(c: Cell, edges: seq<Edge>): (r: Option<nat>)
    ensures r.Some? <==> Value(c).Some? && exists k :: InBin(Value(c).value, edges, k)
    ensures r.Some? ==> InBin(Value(c).value, edges, r.value)
  {
    match Value(c)
    case None => None
    case Some(x) => Cut(x, edges)
  }

  /** Every cell of column `j` has a class. */
  predicate Binnable(rows: seq<Row>, j: nat, edges: seq<Edge>)
  {
    forall i :: 0 <= i < |rows| ==> j < |rows[i]| && BinCell(rows[i][j], edges).Some?
  }

  /** `after` is `before` with the number in column `j` replaced by the label of its bin. */
  predicate BinnedAt(before: Row, after: Row, j: nat, edges: seq<Edge>)
  {
    && |after| == |before| && j < |before|
    && (forall k :: 0 <= k < |before| && k != j ==> after[k] == before[k])
    && Value(before[j]).Some? && after[j].Num? && after[j].n >= 0
    && InBin(Value(before[j]).value, edges, after[j].n)
  }

  function BinRows(rows: seq<Row>, width: nat, j: nat, edges: seq<Edge>): (r: seq<Row>)
    requires Rect(rows, width) && j < width && Binnable(rows, j, edges)
    ensures |r| == |rows| && Rect(r, width)
    ensures forall i :: 0 <= i < |rows| ==> BinnedAt(rows[i], r[i], j, edges)
  {
    seq(|rows|, i requires 0 <= i < |rows| => rows[i][j := Num(BinCell(rows[i][j], edges).value)])
  }

  /** One of lines 15-33: `data[name] = pd.cut(data[name], ...).astype(int)`. An absent column
      is a KeyError; a cell without a class makes the cast fail. */
  function BinColumn(f: Frame, name: string, edges: seq<Edge>): (r: Result<Frame>)
    requires WellFormed(f)
    ensures r.Err? <==> name !in f.columns || !Binnable(f.rows, IndexOf(f.columns, name), edges)
    ensures r.Err? ==> r.error == if name !in f.columns then MissingColumns([name]) else NotBinnable(name)
    ensures r.Ok? ==> r.value.columns == f.columns && |r.value.rows| == |f.rows| && WellFormed(r.value)
    ensures r.Ok? ==> forall i :: 0 <= i < |f.rows| ==>
              BinnedAt(f.rows[i], r.value.rows[i], IndexOf(f.columns, name), edges)
  {
    var j := IndexOf(f.columns, name);
    if j == |f.columns| then Err(MissingColumns([name]))
    else if !Binnable(f.rows, j, edges) then Err(NotBinnable(name))
    else Ok(Frame(f.columns, BinRows(f.rows, |f.columns|, j, edges)))
  }

  /** numpy's `|` on int64 columns: bitwise OR in two's complement, here on unbounded integers,
      which agree with int64 on every pair of int64 values. On the flags 0 and 1 it is logical
      or: the result is 1 exactly when either flag is 1. */
  function Or(a: int, b: int): (r: int)
    ensures (a == 0 || a == 1) && (b == 0 || b == 1) ==> r == if a == 1 || b == 1 then 1 else 0
    decreases Size(a) + Size(b)
  {
    if Size(a) == 0 && Size(b) == 0 then (if a == -1 || b == -1 then -1 else 0)
    else
      HalfShrinks(a);
      HalfShrinks(b);
      2 * Or(a / 2, b / 2) + (if a % 2 == 1 || b % 2 == 1 then 1 else 0)
  }

  /** How far `a` is from the all-zeros or all-ones bit pattern it ends in. */
  function Size(a: int): nat
  {
    if a == 0 || a == -1 then 0 else if a < 0 then -a else a
  }

  lemma HalfShrinks(a: int)
    ensures Size(a / 2) <= Size(a)
    ensures Size(a) > 0 ==> Size(a / 2) < Size(a)
  {
  }

  /** Bit `i` of `a` in two's complement. */
  predicate Bit(a: int, i: nat)
    decreases i
  {
    if i == 0 then a % 2 == 1 else Bit(a / 2, i - 1)
  }

  /** The lowest bit of an OR and the OR of the rest. */
  lemma OrStep(a: int, b: int)
    ensures Or(a, b) % 2 == (if a % 2 == 1 || b % 2 == 1 then 1 else 0)
    ensures Or(a, b) / 2 == Or(a / 2, b / 2)
  {
    if Size(a) == 0 && Size(b) == 0 {
      assert a / 2 == a && b / 2 == b;
    }
  }

  /** Every bit of `a | b` is set exactly when it is set in `a` or in `b`. */
  lemma {:induction false} OrBits(a: int, b: int, i: nat)
    ensures Bit(Or(a, b), i) <==> Bit(a, i) || Bit(b, i)
    decreases i
  {
    OrStep(a, b);
    if i > 0 {
      OrBits(a / 2, b / 2, i - 1);
    }
  }

  const FruitsColumn := "Fruits"
  const VeggiesColumn := "Veggies"
  const MergedColumn := "Fruits_Veggies"

  /** Every cell of column `j` is an integer: the column has an integer dtype. */
  predicate Integers(rows: seq<Row>, j: nat)
  {
    forall i :: 0 <= i < |rows| ==> j < |rows[i]| && rows[i][j].Num?
  }

  /** The merged flag of one row. */
  function Merge(row: Row, fruits: nat, veggies: nat): (r: Cell)
    requires fruits < |row| && veggies < |row| && row[fruits].Num? && row[veggies].Num?
    ensures r.Num?
  {
    Num(Or(row[fruits].n, row[veggies].n))
  }

  /** `after` is `before` with `fruits | veggies` written at position `t`: over an existing
      column, or in a new last one when `t` is the old width. */
  predicate MergedAt(before: Row, after: Row, t: nat, fruits: nat, veggies: nat)
  {
    && fruits < |before| && veggies < |before| && before[fruits].Num? && before[veggies].Num?
    && t <= |before| && |after| == (if t < |before| then |before| else |before| + 1)
    && (forall k :: 0 <= k < |before| && k != t ==> after[k] == before[k])
    && after[t] == Num(Or(before[fruits].n, before[veggies].n))
  }

  /** Line 38: `data['Fruits_Veggies'] = data['Fruits'] | data['Veggies']`, overwriting the
      column if there is one and appending it otherwise. An absent flag column is a KeyError;
      a column that is not all integers (a missing cell makes it float) cannot be or-ed. */
  function MergeFlags(f: Frame): (r: Result<Frame>)
    requires WellFormed(f)
    ensures r.Err? <==> FruitsColumn !in f.columns || VeggiesColumn !in f.columns
                        || !Integers(f.rows, IndexOf(f.columns, FruitsColumn))
                        || !Integers(f.rows, IndexOf(f.columns, VeggiesColumn))
    ensures r.Err? ==> (r.error ==
              if FruitsColumn !in f.columns then MissingColumns([FruitsColumn])
              else if VeggiesColumn !in f.columns then MissingColumns([VeggiesColumn])
              else if !Integers(f.rows, IndexOf(f.columns, FruitsColumn)) then NotBitwise(FruitsColumn)
              else NotBitwise(VeggiesColumn))
    ensures r.Ok? ==> |r.value.rows| == |f.rows| && WellFormed(r.value)
    ensures r.Ok? ==> r.value.columns == if MergedColumn in f.columns then f.columns else f.columns + [MergedColumn]
    ensures r.Ok? ==> forall i :: 0 <= i < |f.rows| ==>
              MergedAt(f.rows[i], r.value.rows[i], IndexOf(f.columns, MergedColumn),
                       IndexOf(f.columns, FruitsColumn), IndexOf(f.columns, VeggiesColumn))
  {
    var fruits := IndexOf(f.columns, FruitsColumn);
    var veggies := IndexOf(f.columns, VeggiesColumn);
    var t := IndexOf(f.columns, MergedColumn);
    if fruits == |f.columns| then Err(MissingColumns([FruitsColumn]))
    else if veggies == |f.columns| then Err(MissingColumns([VeggiesColumn]))
    else if !Integers(f.rows, fruits) then Err(NotBitwise(FruitsColumn))
    else if !Integers(f.rows, veggies) then Err(NotBitwise(VeggiesColumn))
    else
      var rows := MergedRows(f.rows, |f.columns|, t, fruits, veggies);
      Ok(Frame(if t < |f.columns| then f.columns else f.columns + [MergedColumn], rows))
  }

  /** Every row with the merged flag written at `t` (appended when `t` is the width). */
  function MergedRows(rows: seq<Row>, width: nat, t: nat, fruits: nat, veggies: nat): (r: seq<Row>)
    requires Rect(rows, width) && t <= width && fruits < width && veggies < width
    requires Integers(rows, fruits) && Integers(rows, veggies)
    ensures |r| == |rows| && Rect(r, if t < width then width else width + 1)
    ensures forall i :: 0 <= i < |rows| ==> MergedAt(rows[i], r[i], t, fruits, veggies)
  {
    seq(|rows|, i requires 0 <= i < |rows| =>
      if t < width then rows[i][t := Merge(rows[i], fruits, veggies)]
      else rows[i] + [Merge(rows[i], fruits, veggies)])
  }

  const FlagColumns: set<string> := {FruitsColumn, VeggiesColumn}

  /** Line 41: `drop(columns=['Fruits', 'Veggies'], errors='ignore')` removes every column of
      either name, and nothing when there is none. */
  function DropFlags(f: Frame): (r: Frame)
    requires WellFormed(f)
    ensures WellFormed(r) && |r.rows| == |f.rows| && r.columns == DropNames(f.columns, FlagColumns)
    ensures FruitsColumn !in r.columns && VeggiesColumn !in r.columns
  {
    var pos := KeptPositions(f.columns, FlagColumns, |f.columns|);
    Frame(DropNames(f.columns, FlagColumns), ProjectRows(f.rows, |f.columns|, pos))
  }

  /** Column `k` after the drop is the column at the `k`-th kept position before it. */
  lemma DropFlagsAt(f: Frame, i: nat, k: nat)
    requires WellFormed(f) && i < |f.rows| && k < |DropFlags(f).columns|
    ensures var pos := KeptPositions(f.columns, FlagColumns, |f.columns|);
      && k < |pos| && pos[k] < |f.columns|
      && DropFlags(f).columns[k] == f.columns[pos[k]]
      && DropFlags(f).rows[i][k] == f.rows[i][pos[k]]
  {
  }

  /** Lines 3-43: `preprocess_data`, the first failure ending it. */
  function PreprocessData(f: Frame): (r: Result<Frame>)
    requires WellFormed(f)
    ensures r.Ok? ==> WellFormed(r.value) && |r.value.rows| == |f.rows|
    ensures r.Ok? ==> FruitsColumn !in r.value.columns && VeggiesColumn !in r.value.columns
  {
    match BinColumn(f, "BMI", BmiEdges)
    case Err(e) => Err(e)
    case Ok(f1) =>
      match BinColumn(f1, "MentHlth", HealthEdges)
      case Err(e) => Err(e)
      case Ok(f2) =>
        match BinColumn(f2, "PhysHlth", HealthEdges)
        case Err(e) => Err(e)
        case Ok(f3) =>
          match MergeFlags(f3)
          case Err(e) => Err(e)
          case Ok(f4) => Ok(DropFlags(f4))
  }

  /** Why `preprocess_data` stops, read off the frame it is given: the steps run in the order
      BMI, MentHlth, PhysHlth, flags, and the first step whose column is absent or unusable
      raises. */
  function FirstProblem(f: Frame): (r: Option<Error>)
  {
    var cols := f.columns;
    if "BMI" !in cols then Some(MissingColumns(["BMI"]))
    else if !Binnable(f.rows, IndexOf(cols, "BMI"), BmiEdges) then Some(NotBinnable("BMI"))
    else if "MentHlth" !in cols then Some(MissingColumns(["MentHlth"]))
    else if !Binnable(f.rows, IndexOf(cols, "MentHlth"), HealthEdges) then Some(NotBinnable("MentHlth"))
    else if "PhysHlth" !in cols then Some(MissingColumns(["PhysHlth"]))
    else if !Binnable(f.rows, IndexOf(cols, "PhysHlth"), HealthEdges) then Some(NotBinnable("PhysHlth"))
    else if FruitsColumn !in cols then Some(MissingColumns([FruitsColumn]))
    else if VeggiesColumn !in cols then Some(MissingColumns([VeggiesColumn]))
    else if !Integers(f.rows, IndexOf(cols, FruitsColumn)) then Some(NotBitwise(FruitsColumn))
    else if !Integers(f.rows, IndexOf(cols, VeggiesColumn)) then Some(NotBitwise(VeggiesColumn))
    else None
  }

  /** A step that bins one column leaves every other column as it was, so a later step sees
      the cells of the frame it started from. */
  lemma BinKeeps(f: Frame, name: string, edges: seq<Edge>, j: nat, later: seq<Edge>)
    requires WellFormed(f) && BinColumn(f, name, edges).Ok? && j < |f.columns| && f.columns[j] != name
    ensures Binnable(BinColumn(f, name, edges).value.rows, j, later) <==> Binnable(f.rows, j, later)
    ensures Integers(BinColumn(f, name, edges).value.rows, j) <==> Integers(f.rows, j)
    ensures forall i :: 0 <= i < |f.rows| ==> BinColumn(f, name, edges).value.rows[i][j] == f.rows[i][j]
  {
    var g := BinColumn(f, name, edges).value;
    assert forall i :: 0 <= i < |f.rows| ==> g.rows[i][j] == f.rows[i][j];
  }

  /** `preprocess_data` fails exactly when the frame it is given has a problem, and with the
      error of the first one. */
  lemma PreprocessErrors(f: Frame)
    requires WellFormed(f)
    ensures PreprocessData(f).Err? <==> FirstProblem(f).Some?
    ensures PreprocessData(f).Err? ==> PreprocessData(f).error == FirstProblem(f).value
  {
    var cols := f.columns;
    var f1 := BinColumn(f, "BMI", BmiEdges);
    if f1.Ok? {
      var g1 := f1.value;
      if "MentHlth" in cols {
        BinKeeps(f, "BMI", BmiEdges, IndexOf(cols, "MentHlth"), HealthEdges);
      }
      var f2 := BinColumn(g1, "MentHlth", HealthEdges);
      if f2.Ok? {
        var g2 := f2.value;
        if "PhysHlth" in cols {
          BinKeeps(f, "BMI", BmiEdges, IndexOf(cols, "PhysHlth"), HealthEdges);
          BinKeeps(g1, "MentHlth", HealthEdges, IndexOf(cols, "PhysHlth"), HealthEdges);
        }
        var f3 := BinColumn(g2, "PhysHlth", HealthEdges);
        if f3.Ok? {
          var g3 := f3.value;
          if FruitsColumn in cols {
            var j := IndexOf(cols, FruitsColumn);
            BinKeeps(f, "BMI", BmiEdges, j, []);
            BinKeeps(g1, "MentHlth", HealthEdges, j, []);
            BinKeeps(g2, "PhysHlth", HealthEdges, j, []);
          }
          if VeggiesColumn in cols {
            var j := IndexOf(cols, VeggiesColumn);
            BinKeeps(f, "BMI", BmiEdges, j, []);
            BinKeeps(g1, "MentHlth", HealthEdges, j, []);
            BinKeeps(g2, "PhysHlth", HealthEdges, j, []);
          }
        }
      }
    }
  }

  /** The columns `preprocess_data` returns: those it was given, with Fruits_Veggies added at the
      end unless it was already there, and without Fruits and Veggies. */
  lemma PreprocessColumns(f: Frame)
    requires WellFormed(f) && PreprocessData(f).Ok?
    ensures PreprocessData(f).value.columns ==
              DropNames(if MergedColumn in f.columns then f.columns else f.columns + [MergedColumn], FlagColumns)
    ensures forall c :: c in PreprocessData(f).value.columns <==> (c in f.columns || c == MergedColumn) && c !in FlagColumns
  {
    var cols := if MergedColumn in f.columns then f.columns else f.columns + [MergedColumn];
    DropNamesSpec(cols, FlagColumns);
  }

  /** `cell` is the label `pd.cut` gives the number in column `j` of `row`. */
  predicate BinnedFrom(row: Row, j: nat, edges: seq<Edge>, cell: Cell)
  {
    j < |row| && Value(row[j]).Some? && Cut(Value(row[j]).value, edges).Some?
    && cell == Num(Cut(Value(row[j]).value, edges).value)
  }

  /** `cell` is the `|` of the integer flags in columns `fruits` and `veggies` of `row`. */
  predicate MergedFrom(row: Row, fruits: nat, veggies: nat, cell: Cell)
  {
    fruits < |row| && veggies < |row| && row[fruits].Num? && row[veggies].Num?
    && cell == Num(Or(row[fruits].n, row[veggies].n))
  }

  /** A label found by the bin test is the label `pd.cut` gives. */
  lemma BinnedExact(before: Row, after: Row, j: nat, edges: seq<Edge>)
    requires Ascending(edges) && BinnedAt(before, after, j, edges)
    ensures BinnedFrom(before, j, edges, after[j])
  {
    CutExact(Value(before[j]).value, edges, after[j].n);
  }

  /** The four steps on one row, cell by cell: `r1`..`r4` are the row after each step, and
      `b`, `m`, `h`, `fi`, `vi`, `t` where BMI, MentHlth, PhysHlth, the flags and the merged
      column sit (`t` is the width when there is no merged column yet). */
  lemma StagesRow(cols: seq<string>, row: Row, r1: Row, r2: Row, r3: Row, r4: Row,
                  b: nat, m: nat, h: nat, fi: nat, vi: nat, t: nat, p: nat)
    requires NoDup(cols) && |row| == |cols|
    requires b < |cols| && cols[b] == "BMI" && m < |cols| && cols[m] == "MentHlth"
    requires h < |cols| && cols[h] == "PhysHlth"
    requires fi < |cols| && cols[fi] == FruitsColumn && vi < |cols| && cols[vi] == VeggiesColumn
    requires (t < |cols| && cols[t] == MergedColumn) || (t == |cols| && MergedColumn !in cols)
    requires BinnedAt(row, r1, b, BmiEdges) && BinnedAt(r1, r2, m, HealthEdges) && BinnedAt(r2, r3, h, HealthEdges)
    requires MergedAt(r3, r4, t, fi, vi)
    requires p < |r4|
    ensures var c := if p < |cols| then cols[p] else MergedColumn;
      && (c == "BMI" ==> BinnedFrom(row, b, BmiEdges, r4[p]))
      && (c == "MentHlth" ==> BinnedFrom(row, m, HealthEdges, r4[p]))
      && (c == "PhysHlth" ==> BinnedFrom(row, h, HealthEdges, r4[p]))
      && (c == MergedColumn ==> MergedFrom(row, fi, vi, r4[p]))
      && (c != "BMI" && c != "MentHlth" && c != "PhysHlth" && c != MergedColumn ==> r4[p] == row[p])
  {
    BmiEdgesAscending();
    HealthEdgesAscending();
    assert r3[fi] == r2[fi] == r1[fi] == row[fi];
    assert r3[vi] == r2[vi] == r1[vi] == row[vi];
    var c := if p < |cols| then cols[p] else MergedColumn;
    if c == "BMI" {
      assert p == b;
      assert r4[b] == r3[b] == r2[b] == r1[b];
      BinnedExact(row, r1, b, BmiEdges);
    } else if c == "MentHlth" {
      assert p == m;
      assert r4[m] == r3[m] == r2[m] && r1[m] == row[m];
      BinnedExact(r1, r2, m, HealthEdges);
    } else if c == "PhysHlth" {
      assert p == h;
      assert r4[h] == r3[h] && r2[h] == r1[h] == row[h];
      BinnedExact(r2, r3, h, HealthEdges);
    } else if c == MergedColumn {
      assert p == t;
    } else {
      assert p != b && p != m && p != h && p != t;
      assert r4[p] == r3[p] == r2[p] == r1[p] == row[p];
    }
  }

  /** One cell of the frame `preprocess_data` returns, by the name of its column: BMI,
      MentHlth and PhysHlth hold the label of their bin, Fruits_Veggies the `|` of the row's
      two flags, and every other column the cell it held before. */
  lemma PreprocessRow(f: Frame, i: nat, k: nat)
    requires WellFormed(f) && NoDup(f.columns) && PreprocessData(f).Ok?
    requires i < |f.rows| && k < |PreprocessData(f).value.columns|
    ensures var out := PreprocessData(f).value;
      var c := out.columns[k];
      var cell := out.rows[i][k];
      && (c == "BMI" ==> BinnedFrom(f.rows[i], IndexOf(f.columns, "BMI"), BmiEdges, cell))
      && (c == "MentHlth" ==> BinnedFrom(f.rows[i], IndexOf(f.columns, "MentHlth"), HealthEdges, cell))
      && (c == "PhysHlth" ==> BinnedFrom(f.rows[i], IndexOf(f.columns, "PhysHlth"), HealthEdges, cell))
      && (c == MergedColumn ==>
            MergedFrom(f.rows[i], IndexOf(f.columns, FruitsColumn), IndexOf(f.columns, VeggiesColumn), cell))
      && (c != "BMI" && c != "MentHlth" && c != "PhysHlth" && c != MergedColumn ==>
            c in f.columns && cell == f.rows[i][IndexOf(f.columns, c)])
  {
    var cols := f.columns;
    var g1 := BinColumn(f, "BMI", BmiEdges).value;
    var g2 := BinColumn(g1, "MentHlth", HealthEdges).value;
    var g3 := BinColumn(g2, "PhysHlth", HealthEdges).value;
    var g4 := MergeFlags(g3).value;
    var out := PreprocessData(f).value;
    assert out == DropFlags(g4);
    DropFlagsAt(g4, i, k);
    var p := KeptPositions(g4.columns, FlagColumns, |g4.columns|)[k];
    assert g4.columns[p] == if p < |cols| then cols[p] else MergedColumn;
    StagesRow(cols, f.rows[i], g1.rows[i], g2.rows[i], g3.rows[i], g4.rows[i],
              IndexOf(cols, "BMI"), IndexOf(cols, "MentHlth"), IndexOf(cols, "PhysHlth"),
              IndexOf(cols, FruitsColumn), IndexOf(cols, VeggiesColumn), IndexOf(cols, MergedColumn), p);
    if p < |cols| {
      IndexOfUnique(cols, cols[p], p);
    }
  }
}
