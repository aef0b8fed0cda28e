/** The survey cleaner of MINIPROJECT/convertor.py, as pure definitions: the column lists,
    the name cleaning, the sentinel and recode maps, the priority label and, composed from
    them, the table the script writes. The step-by-step script itself is ConvertorScript. */
module Convertor {
  import opened Frames

  // ---------------------------------------------------------------------------
  // Column names
  // ---------------------------------------------------------------------------

  /** The raw columns the script asks for, in its order; CVDSTRK3 is asked for twice. */
  const ColumnsToSelect: seq<string> :=
    ["TOLDHI2", "_BMI5", "CVDSTRK3", "DIABETE3", "_TOTINDA",
     "_FRTLT1", "_VEGLT1", "_RFDRHV5", "GENHLTH", "MENTHLTH", "PHYSHLTH",
     "DIFFWALK", "SEX", "EDUCA", "INCOME2",
     "_RFSMOK3", "_INCOMG", "_AGE_G", "BPMEDS", "CVDCRHD4", "CVDINFR4", "CVDSTRK3"]

  /** The selected columns once duplicates are gone (and after name cleaning, which keeps them). */
  const Selected: seq<string> :=
    ["TOLDHI2", "_BMI5", "CVDSTRK3", "DIABETE3", "_TOTINDA",
     "_FRTLT1", "_VEGLT1", "_RFDRHV5", "GENHLTH", "MENTHLTH", "PHYSHLTH",
     "DIFFWALK", "SEX", "EDUCA", "INCOME2",
     "_RFSMOK3", "_INCOMG", "_AGE_G", "BPMEDS", "CVDCRHD4", "CVDINFR4"]

  const StatusColumn: string := "Heart_Disease_Status"

  /** The three raw indicators the label is derived from; they are dropped afterwards. */
  const Indicators: set<string> := {"CVDCRHD4", "CVDINFR4", "CVDSTRK3"}

  /** The columns after the label is added, the indicators dropped and the names made friendly. */
  const Renamed: seq<string> :=
    ["HighChol", "BMI", "Diabetes", "PhysActivity", "Fruits", "Veggies",
     "HvyAlcoholConsump", "GenHlth", "MentHlth", "PhysHlth", "DiffWalk", "Sex",
     "Education", "Income", "Current_Smoker", "Income_Category", "Age_Group",
     "On_BP_Medication", "Heart_Disease_Status"]

  /** The columns of the table the script finally writes: Renamed without Income. */
  const Final: seq<string> :=
    ["HighChol", "BMI", "Diabetes", "PhysActivity", "Fruits", "Veggies",
     "HvyAlcoholConsump", "GenHlth", "MentHlth", "PhysHlth", "DiffWalk", "Sex",
     "Education", "Current_Smoker", "Income_Category", "Age_Group",
     "On_BP_Medication", "Heart_Disease_Status"]

  /** The raw-to-friendly renaming; a name it does not list keeps its name. */
  const FriendlyNames: map<string, string> := map[
    "TOLDHI2" := "HighChol", "_BMI5" := "BMI", "CVDSTRK3" := "Stroke",
    "DIABETE3" := "Diabetes", "_TOTINDA" := "PhysActivity", "_FRTLT1" := "Fruits",
    "_VEGLT1" := "Veggies", "_RFDRHV5" := "HvyAlcoholConsump", "GENHLTH" := "GenHlth",
    "MENTHLTH" := "MentHlth", "PHYSHLTH" := "PhysHlth", "DIFFWALK" := "DiffWalk",
    "SEX" := "Sex", "EDUCA" := "Education", "INCOME2" := "Income",
    "_RFSMOK3" := "Current_Smoker", "_INCOMG" := "Income_Category",
    "_AGE_G" := "Age_Group", "BPMEDS" := "On_BP_Medication"]

  /** The requested names the source table does not have, each listed once, in the order of
      their first request: the names pandas' KeyError reports. */
  function Absent(cols: seq<string>, wanted: seq<string>): (r: seq<string>)
    ensures forall w :: w in r <==> w in wanted && w !in cols
    ensures NoDup(r)
    ensures forall i, j :: 0 <= i < j < |r| ==> IndexOf(wanted, r[i]) < IndexOf(wanted, r[j])
  {
    AbsentBelow(cols, wanted, |wanted|)
  }

  /** The absent names among the first `n` requests, each at its first request. */
  function AbsentBelow(cols: seq<string>, wanted: seq<string>, n: nat): (r: seq<string>)
    requires n <= |wanted|
    ensures forall w :: w in r <==> w in wanted[..n] && w !in cols
    ensures forall k :: 0 <= k < |r| ==> IndexOf(wanted, r[k]) < n
    ensures forall i, j :: 0 <= i < j < |r| ==> IndexOf(wanted, r[i]) < IndexOf(wanted, r[j])
  {
    if n == 0 then []
    else
      var w := wanted[n - 1];
      assert wanted[..n] == wanted[..n - 1] + [w];
      if w in cols || w in wanted[..n - 1] then AbsentBelow(cols, wanted, n - 1)
      else
        assert IndexOf(wanted, w) == n - 1;
        AbsentBelow(cols, wanted, n - 1) + [w]
  }

  /** Where each requested column sits in the source table. */
  function SelectPositions(cols: seq<string>, wanted: seq<string>): (r: seq<nat>)
    requires forall w :: w in wanted ==> w in cols
    ensures |r| == |wanted|
    ensures forall k :: 0 <= k < |wanted| ==> r[k] < |cols| && cols[r[k]] == wanted[k]
  {
    seq(|wanted|, k requires 0 <= k < |wanted| => IndexOf(cols, wanted[k]))
  }

  /** The positions below `n` whose name does not occur earlier: pandas keeps the columns
      that `columns.duplicated()` does not mark. */
  function FirstPositions(cols: seq<string>, n: nat): (r: seq<nat>)
    requires n <= |cols|
    ensures forall k :: 0 <= k < |r| ==> r[k] < n
  {
    if n == 0 then []
    else FirstPositions(cols, n - 1) + (if cols[n - 1] in cols[..n - 1] then [] else [n - 1])
  }

  /** The first positions are listed in order. */
  lemma {:induction false} FirstPositionsIncreasing(cols: seq<string>, n: nat)
    requires n <= |cols|
    ensures Increasing(FirstPositions(cols, n))
  {
    if n > 0 {
      FirstPositionsIncreasing(cols, n - 1);
      var prev := FirstPositions(cols, n - 1);
      var r := FirstPositions(cols, n);
      assert r == prev + (if cols[n - 1] in cols[..n - 1] then [] else [n - 1]);
      forall i, j | 0 <= i < j < |r| ensures r[i] < r[j] {
        if j >= |prev| {
          assert r[i] == prev[i] < n - 1;
        }
      }
    }
  }

  /** A position is listed exactly when its name does not occur before it. */
  lemma {:induction false} FirstPositionsMembers(cols: seq<string>, n: nat)
    requires n <= |cols|
    ensures forall p: nat :: p in FirstPositions(cols, n) <==> p < n && cols[p] !in cols[..p]
  {
    if n > 0 {
      FirstPositionsMembers(cols, n - 1);
      var prev := FirstPositions(cols, n - 1);
      var last: seq<nat> := if cols[n - 1] in cols[..n - 1] then [] else [n - 1];
      assert FirstPositions(cols, n) == prev + last;
      forall p: nat ensures p in prev + last <==> p < n && cols[p] !in cols[..p] {
        if p < n - 1 {
          assert p !in last;
        } else if p == n - 1 {
          assert p !in prev;
        } else {
          assert p !in prev && p !in last;
        }
      }
    }
  }

  /** The first positions are listed in order, and a position is listed exactly when its name
      does not occur before it. */
  lemma FirstPositionsSpec(cols: seq<string>, n: nat)
    requires n <= |cols|
    ensures Increasing(FirstPositions(cols, n))
    ensures forall p: nat :: p in FirstPositions(cols, n) <==> p < n && cols[p] !in cols[..p]
  {
    FirstPositionsIncreasing(cols, n);
    FirstPositionsMembers(cols, n);
  }

  /** Over a stretch of columns whose names have not occurred before, every position is kept. */
  lemma {:induction false} FirstRange(cols: seq<string>, lo: nat, hi: nat)
    requires lo <= hi <= |cols|
    requires forall k :: lo <= k < hi ==> cols[k] !in cols[..k]
    ensures FirstPositions(cols, hi) == FirstPositions(cols, lo) + Range(lo, hi)
    decreases hi - lo
  {
    if hi > lo {
      FirstRange(cols, lo, hi - 1);
    }
  }

  /** The column list with later repetitions of a name removed: the names at the first
      positions, in their order. */
  function Dedup(cols: seq<string>): (r: seq<string>)
    ensures forall k :: 0 <= k < |r| ==> r[k] in cols
    ensures var pos := FirstPositions(cols, |cols|);
            |r| == |pos| && forall k :: 0 <= k < |pos| ==> r[k] == cols[pos[k]]
  {
    var pos := FirstPositions(cols, |cols|);
    assert forall k :: 0 <= k < |pos| ==> pos[k] in pos;
    seq(|pos|, k requires 0 <= k < |pos| => cols[pos[k]])
  }

  /** After de-duplication every name appears exactly once. */
  lemma DedupKeepsFirst(cols: seq<string>)
    ensures NoDup(Dedup(cols))
    ensures forall c :: c in Dedup(cols) <==> c in cols
  {
    var pos := FirstPositions(cols, |cols|);
    var r := Dedup(cols);
    FirstPositionsSpec(cols, |cols|);
    assert forall k :: 0 <= k < |pos| ==> pos[k] in pos;
    forall c | c in cols ensures c in r {
      var p := IndexOf(cols, c);
      assert p in pos;
      var k :| 0 <= k < |pos| && pos[k] == p;
      assert r[k] == c;
    }
    forall i, j | 0 <= i < j < |r| ensures r[i] != r[j] {
      assert pos[i] < pos[j] && cols[..pos[j]][pos[i]] == r[i];
    }
  }

  /** The de-duplicated names come in the order of their first occurrences. */
  lemma DedupOrder(cols: seq<string>)
    ensures forall i, j :: 0 <= i < j < |Dedup(cols)| ==> IndexOf(cols, Dedup(cols)[i]) < IndexOf(cols, Dedup(cols)[j])
  {
    var pos := FirstPositions(cols, |cols|);
    var r := Dedup(cols);
    FirstPositionsSpec(cols, |cols|);
    assert forall k :: 0 <= k < |pos| ==> pos[k] in pos;
    assert forall k :: 0 <= k < |r| ==> IndexOf(cols, r[k]) == pos[k];
  }

  /** The first positions are the only increasing list of exactly the first occurrences. */
  lemma FirstPositionsUnique(cols: seq<string>, pos: seq<nat>)
    requires Increasing(pos)
    requires forall p: nat :: p in pos <==> p < |cols| && cols[p] !in cols[..p]
    ensures pos == FirstPositions(cols, |cols|)
  {
    FirstPositionsSpec(cols, |cols|);
    IncreasingUnique(pos, FirstPositions(cols, |cols|));
  }

  /** pandas `rename(columns=FriendlyNames)` on one name. */
  function Friendly(name: string): (r: string)
    ensures name in FriendlyNames ==> r == FriendlyNames[name]
    ensures name !in FriendlyNames ==> r == name
  {
    if name in FriendlyNames then FriendlyNames[name] else name
  }

  function RenameAll(cols: seq<string>): (r: seq<string>)
    ensures |r| == |cols|
    ensures forall k :: 0 <= k < |cols| ==> r[k] == Friendly(cols[k])
  {
    seq(|cols|, k requires 0 <= k < |cols| => Friendly(cols[k]))
  }

  /** The characters Python's `str.strip()` removes (those `str.isspace()` accepts). */
  predicate IsWhitespace(c: char)
  {
    c == ' ' || ('\t' <= c <= '\r') || ('\U{1C}' <= c <= '\U{1F}') || c == '\U{85}' || c == '\U{A0}'
    || c == '\U{1680}' || ('\U{2000}' <= c <= '\U{200A}') || c == '\U{2028}' || c == '\U{2029}'
    || c == '\U{202F}' || c == '\U{205F}' || c == '\U{3000}'
  }

  /** `s` without its leading whitespace. */
  function StripLeading(s: string): (r: string)
    ensures |r| <= |s| && r == s[|s| - |r|..]
    ensures r == [] || !IsWhitespace(r[0])
    ensures forall k :: 0 <= k < |s| - |r| ==> IsWhitespace(s[k])
  {
    if s != [] && IsWhitespace(s[0]) then StripLeading(s[1..]) else s
  }

  /** `s` without its trailing whitespace. */
  function StripTrailing(s: string): (r: string)
    ensures |r| <= |s| && r == s[..|r|]
    ensures r == [] || !IsWhitespace(r[|r| - 1])
    ensures forall k :: |r| <= k < |s| ==> IsWhitespace(s[k])
  {
    if s != [] && IsWhitespace(s[|s| - 1]) then StripTrailing(s[..|s| - 1]) else s
  }

  /** `s` with every space character taken out, everything else kept in order. */
  function RemoveSpaces(s: string): (r: string)
    ensures ' ' !in r
    ensures multiset(r) == multiset(s)[' ' := 0]
    ensures s != [] && s[0] != ' ' ==> r != [] && r[0] == s[0]
  {
    if s == [] then []
    else
      assert s == [s[0]] + s[1..];
      if s[0] == ' ' then RemoveSpaces(s[1..])
      else [s[0]] + RemoveSpaces(s[1..])
  }

  /** Taking spaces out of a concatenation takes them out of each part. */
  lemma {:induction false} RemoveSpacesAppend(a: string, b: string)
    ensures RemoveSpaces(a + b) == RemoveSpaces(a) + RemoveSpaces(b)
  {
    if a != [] {
      assert (a + b)[1..] == a[1..] + b;
      RemoveSpacesAppend(a[1..], b);
    } else {
      assert a + b == b;
    }
  }

  /** A last character that is not a space stays last. */
  lemma RemoveSpacesLast(s: string)
    requires s != [] && s[|s| - 1] != ' '
    ensures RemoveSpaces(s) != [] && RemoveSpaces(s)[|RemoveSpaces(s)| - 1] == s[|s| - 1]
  {
    var last := s[|s| - 1];
    assert s == s[..|s| - 1] + [last];
    RemoveSpacesAppend(s[..|s| - 1], [last]);
    assert RemoveSpaces([last]) == [last] by {
      assert [last][1..] == [];
    }
  }

  /** A text with no space character is left alone. */
  lemma {:induction false} RemoveSpacesNone(s: string)
    requires ' ' !in s
    ensures RemoveSpaces(s) == s
  {
    if s != [] {
      RemoveSpacesNone(s[1..]);
    }
  }

  /** pandas `str.strip().str.replace(' ', '')` on one column name: the name without its
      surrounding whitespace, with its inner spaces taken out. */
  function CleanName(s: string): (r: string)
    ensures r == RemoveSpaces(StripTrailing(StripLeading(s)))
    ensures ' ' !in r
    ensures r == [] || (!IsWhitespace(r[0]) && !IsWhitespace(r[|r| - 1]))
  {
    StripEnds(s);
    RemoveSpacesEnds(StripTrailing(StripLeading(s)));
    RemoveSpaces(StripTrailing(StripLeading(s)))
  }

  /** A stripped text neither starts nor ends with whitespace. */
  lemma StripEnds(s: string)
    ensures var t := StripTrailing(StripLeading(s));
            t == [] || (!IsWhitespace(t[0]) && !IsWhitespace(t[|t| - 1]))
  {
    var u := StripLeading(s);
    var t := StripTrailing(u);
    if t != [] {
      assert t[0] == u[0];
    }
  }

  /** Taking spaces out keeps a text free of whitespace at either end. */
  lemma RemoveSpacesEnds(t: string)
    requires t == [] || (!IsWhitespace(t[0]) && !IsWhitespace(t[|t| - 1]))
    ensures var r := RemoveSpaces(t);
            r == [] || (!IsWhitespace(r[0]) && !IsWhitespace(r[|r| - 1]))
  {
    if t != [] {
      RemoveSpacesLast(t);
    }
  }

  /** A name with no space and no whitespace at either end comes out of cleaning unchanged. */
  lemma CleanNameFixed(s: string)
    requires ' ' !in s
    requires s == [] || (!IsWhitespace(s[0]) && !IsWhitespace(s[|s| - 1]))
    ensures CleanName(s) == s
  {
    assert StripLeading(s) == s;
    assert StripTrailing(s) == s;
    RemoveSpacesNone(s);
  }

  /** Cleaning a cleaned name changes nothing. */
  lemma CleanNameIdempotent(s: string)
    ensures CleanName(CleanName(s)) == CleanName(s)
  {
    CleanNameFixed(CleanName(s));
  }

  // ---------------------------------------------------------------------------
  // Cell values
  // ---------------------------------------------------------------------------

  /** The integer a cell stands for when pandas compares it with an integer key. */
  function Key(c: Cell): (r: Option<int>)
    ensures r.Some? <==> c.Num? || (c.Dec? && c.x.Floor as real == c.x)
    ensures c.Num? ==> r == Some(c.n)
    ensures c.Dec? && r.Some? ==> r.value as real == c.x
  {
    match c
    case Num(n) => Some(n)
    case Dec(x) => if x.Floor as real == x then Some(x.Floor) else None
    case _ => None
  }

  /** pandas `cell == k` for an integer `k`. */
  predicate Matches(c: Cell, k: int)
  {
    Key(c) == Some(k)
  }

  /** The texts the script treats as "no answer". */
  const SentinelTexts: set<string> :=
    {"7", "9", "BLANK", "Don\U{2019}t know/Not sure", "Refused", "Missing"}

  /** The values line 31 replaces with the missing marker: the codes 77 and 99 and the texts. */
  predicate IsSentinel(c: Cell): (r: bool)
    ensures c.Missing? ==> !r
    ensures c.Num? ==> (r <==> c.n == 77 || c.n == 99)
    ensures c.Dec? ==> (r <==> c.x == 77.0 || c.x == 99.0)
    ensures c.Str? ==> (r <==> c.s in SentinelTexts)
  {
    Matches(c, 77) || Matches(c, 99) || (c.Str? && c.s in SentinelTexts)
  }

  /** A recode map from original codes to their new values (the missing marker included). */
  type Codes = map<int, Cell>

  /** pandas `replace(codes)` on one cell: a listed code is looked up once, in the original value. */
  function Recode(c: Cell, codes: Codes): (r: Cell)
    ensures Key(c).Some? && Key(c).value in codes ==> r == codes[Key(c).value]
    ensures Key(c).None? || Key(c).value !in codes ==> r == c
  {
    match Key(c)
    case Some(k) => if k in codes then codes[k] else c
    case None => c
  }

  const CholesterolCodes: Codes := map[2 := Num(0), 1 := Num(1)]
  const SmokerCodes: Codes := map[1 := Num(0), 2 := Num(1)]
  const BpMedsCodes: Codes := map[1 := Num(1), 2 := Num(0)]
  const NoDaysCodes: Codes := map[88 := Num(0)]
  const PhysActivityCodes: Codes := map[2 := Num(0), 9 := Missing]
  const UnsureOrRefused: Codes := map[7 := Missing, 9 := Missing]
  const DiabetesCodes: Codes := map[2 := Num(1), 3 := Num(0), 4 := Num(0), 7 := Missing, 9 := Missing]
  const YesNoRefused: Codes := map[2 := Num(0), 9 := Missing]
  const AlcoholCodes: Codes := map[1 := Num(0), 2 := Num(1), 9 := Missing]
  const DiffWalkCodes: Codes := map[2 := Num(0), 7 := Missing, 9 := Missing]
  const SexCodes: Codes := map[1 := Num(0), 2 := Num(1)]
  const Refused: Codes := map[9 := Missing]
  const IncomeCodes: Codes := map[77 := Missing, 99 := Missing]

  /** pandas `cell == 1`. */
  predicate IsOne(c: Cell)
  {
    Matches(c, 1)
  }

  /** The outcome label: 3 stroke, 2 myocardial infarction, 1 coronary heart disease, 4 healthy;
      a stroke outranks an infarction, which outranks coronary disease. */
  function Priority(stroke: Cell, infarction: Cell, coronary: Cell): (r: int)
    ensures 1 <= r <= 4
    ensures r == 3 <==> IsOne(stroke)
    ensures r == 2 <==> !IsOne(stroke) && IsOne(infarction)
    ensures r == 1 <==> !IsOne(stroke) && !IsOne(infarction) && IsOne(coronary)
    ensures r == 4 <==> !IsOne(stroke) && !IsOne(infarction) && !IsOne(coronary)
  {
    if IsOne(stroke) then 3
    else if IsOne(infarction) then 2
    else if IsOne(coronary) then 1
    else 4
  }

  /** numpy `astype(int)` on one cell: integers stay, decimals are truncated toward zero,
      text and the missing marker cannot be converted. */
  function AsInt(c: Cell): (r: Option<int>)
    ensures r.Some? <==> c.Num? || c.Dec?
    ensures c.Num? ==> r == Some(c.n)
    ensures c.Dec? && c.x >= 0.0 ==> r.value as real <= c.x < r.value as real + 1.0
    ensures c.Dec? && c.x < 0.0 ==> r.value as real - 1.0 < c.x <= r.value as real
  {
    match c
    case Num(n) => Some(n)
    case Dec(x) => Some(if x >= 0.0 then x.Floor else -((-x).Floor))
    case _ => None
  }

  /** A cell divided by 100, as pandas divides a numeric column (the missing marker stays). */
  function Hundredth(c: Cell): (r: Cell)
    requires !c.Str?
    ensures c.Num? ==> r == Dec(c.n as real / 100.0)
    ensures c.Dec? ==> r == Dec(c.x / 100.0)
    ensures c == Missing ==> r == Missing
  {
    match c
    case Num(n) => Dec(n as real / 100.0)
    case Dec(x) => Dec(x / 100.0)
    case _ => c
  }

  // ---------------------------------------------------------------------------
  // Passes over the rows
  // ---------------------------------------------------------------------------

  /** Line 31 on one row: every sentinel becomes the missing marker, every other cell stays. */
  function BlankRow(row: Row): (r: Row)
    ensures |r| == |row|
    ensures forall k :: 0 <= k < |row| ==> r[k] == if IsSentinel(row[k]) then Missing else row[k]
  {
    seq(|row|, k requires 0 <= k < |row| => if IsSentinel(row[k]) then Missing else row[k])
  }

  /** Line 31 on the table. */
  function BlankSentinels(rows: seq<Row>): (r: seq<Row>)
    ensures |r| == |rows|
    ensures forall i :: 0 <= i < |rows| ==> r[i] == BlankRow(rows[i])
  {
    seq(|rows|, i requires 0 <= i < |rows| => BlankRow(rows[i]))
  }

  /** A row that survives lines 31-33: no cell is missing and none is a sentinel. */
  predicate Clean(row: Row)
  {
    forall k :: 0 <= k < |row| ==> row[k] != Missing && !IsSentinel(row[k])
  }

  /** The clean rows, in their original order: what lines 31-33 are meant to leave. */
  function KeepClean(rows: seq<Row>): (r: seq<Row>)
    ensures |r| <= |rows|
    ensures forall m :: 0 <= m < |r| ==> r[m] in rows && Clean(r[m])
  {
    if rows == [] then []
    else (if Clean(rows[0]) then [rows[0]] else []) + KeepClean(rows[1..])
  }

  /** Every clean row is kept. */
  lemma {:induction false} KeepCleanKeeps(rows: seq<Row>, i: nat)
    requires i < |rows| && Clean(rows[i])
    ensures rows[i] in KeepClean(rows)
  {
    if i > 0 {
      KeepCleanKeeps(rows[1..], i - 1);
    }
  }

  /** A table of clean rows is left exactly as it is, order included. */
  lemma {:induction false} KeepCleanAll(rows: seq<Row>)
    requires forall i :: 0 <= i < |rows| ==> Clean(rows[i])
    ensures KeepClean(rows) == rows
  {
    if rows != [] {
      KeepCleanAll(rows[1..]);
    }
  }

  /** Blanking a row leaves a missing cell exactly when the row is not clean, and leaves
      a clean row unchanged. */
  lemma BlankRowClean(row: Row)
    ensures Missing in BlankRow(row) <==> !Clean(row)
    ensures Clean(row) ==> BlankRow(row) == row
  {
    var b := BlankRow(row);
    if !Clean(row) {
      var k :| 0 <= k < |row| && (row[k] == Missing || IsSentinel(row[k]));
      assert b[k] == Missing;
    }
  }

  /** Lines 31-33: replacing the sentinels and then dropping incomplete rows keeps exactly
      the clean rows, unchanged and in order. */
  lemma {:induction false} BlankThenDrop(rows: seq<Row>)
    ensures DropMissing(BlankSentinels(rows)) == KeepClean(rows)
  {
    if rows != [] {
      var b := BlankSentinels(rows);
      assert b == [BlankRow(rows[0])] + BlankSentinels(rows[1..]);
      DropMissingAppend([BlankRow(rows[0])], BlankSentinels(rows[1..]));
      DropMissingSingle(BlankRow(rows[0]));
      BlankRowClean(rows[0]);
      BlankThenDrop(rows[1..]);
    }
  }

  /** `df[col] = df[col].replace(codes)` where `col` sits at position `j`. */
  function RecodeColumn(rows: seq<Row>, width: nat, j: nat, codes: Codes): (r: seq<Row>)
    requires Rect(rows, width) && j < width
    ensures |r| == |rows| && Rect(r, width)
    ensures forall i :: 0 <= i < |rows| ==> r[i] == rows[i][j := Recode(rows[i][j], codes)]
  {
    seq(|rows|, i requires 0 <= i < |rows| => rows[i][j := Recode(rows[i][j], codes)])
  }

  /** One `df[col] = df[col].replace(codes)` line: the column's position and its map. */
  datatype Step = Step(at: nat, codes: Codes)

  /** A run of recode lines, applied in order. */
  function RecodeAll(rows: seq<Row>, width: nat, steps: seq<Step>): (r: seq<Row>)
    requires Rect(rows, width) && forall k :: 0 <= k < |steps| ==> steps[k].at < width
    ensures |r| == |rows| && Rect(r, width)
    decreases |steps|
  {
    if steps == [] then rows
    else RecodeAll(RecodeColumn(rows, width, steps[0].at, steps[0].codes), width, steps[1..])
  }

  /** No line of the run touches column `c`. */
  predicate Untouched(steps: seq<Step>, c: nat)
  {
    forall k :: 0 <= k < |steps| ==> steps[k].at != c
  }

  /** A column no line touches comes through the run unchanged. */
  lemma {:induction false} RecodeAllKeeps(rows: seq<Row>, width: nat, steps: seq<Step>, c: nat)
    requires Rect(rows, width) && forall k :: 0 <= k < |steps| ==> steps[k].at < width
    requires c < width && Untouched(steps, c)
    ensures forall i :: 0 <= i < |rows| ==> RecodeAll(rows, width, steps)[i][c] == rows[i][c]
    decreases |steps|
  {
    if steps != [] {
      RecodeAllKeeps(RecodeColumn(rows, width, steps[0].at, steps[0].codes), width, steps[1..], c);
    }
  }
  /** No two lines of a run address the same column. */
  predicate DistinctColumns(steps: seq<Step>)
  {
    forall j, k :: 0 <= j < k < |steps| ==> steps[j].at != steps[k].at
  }

  /** The table of the first line of the run addressing column `c`; the empty table when
      none does. */
  function CodesFor(steps: seq<Step>, c: nat): Codes
    decreases |steps|
  {
    if steps == [] then map[]
    else if steps[0].at == c then steps[0].codes
    else CodesFor(steps[1..], c)
  }

  /** A column no line addresses gets the empty table. */
  lemma {:induction false} CodesForUntouched(steps: seq<Step>, c: nat)
    requires Untouched(steps, c)
    ensures CodesFor(steps, c) == map[]
    decreases |steps|
  {
    if steps != [] {
      assert Untouched(steps[1..], c) by {
        forall k | 0 <= k < |steps| - 1 ensures steps[1..][k].at != c {
          assert steps[1..][k] == steps[k + 1];
        }
      }
      CodesForUntouched(steps[1..], c);
    }
  }

  /** A column line `t` addresses, and no line before it, gets line `t`'s table. */
  lemma {:induction false} CodesForAt(steps: seq<Step>, t: nat, c: nat)
    requires t < |steps| && steps[t].at == c
    requires forall k :: 0 <= k < t ==> steps[k].at != c
    ensures CodesFor(steps, c) == steps[t].codes
    decreases t
  {
    if t > 0 {
      CodesForAt(steps[1..], t - 1, c);
    }
  }

  /** A run whose lines address distinct columns acts cell by cell: each cell goes through the
      table of the line addressing its column, and a column no line addresses keeps its cells. */
  lemma {:induction false} RecodeAllAt(rows: seq<Row>, width: nat, steps: seq<Step>, i: nat, c: nat)
    requires Rect(rows, width) && forall k :: 0 <= k < |steps| ==> steps[k].at < width
    requires DistinctColumns(steps) && i < |rows| && c < width
    ensures RecodeAll(rows, width, steps)[i][c] == Recode(rows[i][c], CodesFor(steps, c))
    decreases |steps|
  {
    if steps != [] {
      var rest := steps[1..];
      assert forall k :: 0 <= k < |rest| ==> rest[k] == steps[k + 1];
      var next := RecodeColumn(rows, width, steps[0].at, steps[0].codes);
      RecodeAllAt(next, width, rest, i, c);
      if steps[0].at == c {
        CodesForUntouched(rest, c);
      }
    }
  }


  /** Every cell outside column `skip` is an integer or the missing marker. */
  predicate IntsOrMissing(rows: seq<Row>, width: nat, skip: nat)
  {
    Rect(rows, width) &&
    forall i, k :: 0 <= i < |rows| && 0 <= k < width && k != skip ==> rows[i][k].Num? || rows[i][k] == Missing
  }

  /** Projecting columns keeps a table of integers and missing markers so, as long as only
      the position `skip` of the result can come from the column `from` that may hold others. */
  lemma ProjectInts(rows: seq<Row>, width: nat, pos: seq<nat>, from: nat, skip: nat)
    requires IntsOrMissing(rows, width, from)
    requires forall k :: 0 <= k < |pos| ==> pos[k] < width && (pos[k] == from ==> k == skip)
    ensures IntsOrMissing(ProjectRows(rows, width, pos), |pos|, skip)
  {
    var r: seq<Row> := ProjectRows(rows, width, pos);
    forall i, k | 0 <= i < |r| && 0 <= k < |pos| && k != skip ensures r[i][k].Num? || r[i][k] == Missing {
      assert r[i][k] == rows[i][pos[k]];
    }
  }

  /** A recode map whose new values are integers or the missing marker. */
  predicate IntCodes(codes: Codes)
  {
    forall k :: k in codes ==> codes[k].Num? || codes[k] == Missing
  }

  /** A run of such maps, none on column `skip`, keeps a table of integers and missing
      markers so. */
  lemma {:induction false} RecodeAllInts(rows: seq<Row>, width: nat, steps: seq<Step>, skip: nat)
    requires forall k :: 0 <= k < |steps| ==> steps[k].at < width && IntCodes(steps[k].codes)
    requires IntsOrMissing(rows, width, skip) && Untouched(steps, skip)
    ensures IntsOrMissing(RecodeAll(rows, width, steps), width, skip)
    decreases |steps|
  {
    if steps != [] {
      var next := RecodeColumn(rows, width, steps[0].at, steps[0].codes);
      assert IntsOrMissing(next, width, skip);
      RecodeAllInts(next, width, steps[1..], skip);
    }
  }

  /** Lines 44-49: a label column is added after the others, holding the priority label
      of each row's stroke, infarction and coronary indicators. */
  function WithStatus(rows: seq<Row>, width: nat, stroke: nat, infarction: nat, coronary: nat): (r: seq<Row>)
    requires Rect(rows, width) && stroke < width && infarction < width && coronary < width
    ensures |r| == |rows| && Rect(r, width + 1)
    ensures forall i :: 0 <= i < |rows| ==>
              r[i] == rows[i] + [Num(Priority(rows[i][stroke], rows[i][infarction], rows[i][coronary]))]
  {
    seq(|rows|, i requires 0 <= i < |rows| =>
      rows[i] + [Num(Priority(rows[i][stroke], rows[i][infarction], rows[i][coronary]))])
  }

  /** Whether the cast loop gets through column `k`: it skips BMI, and otherwise every cell converts. */
  predicate Castable(cols: seq<string>, rows: seq<Row>, k: nat)
    requires Rect(rows, |cols|) && k < |cols|
  {
    cols[k] == "BMI" || forall i :: 0 <= i < |rows| ==> AsInt(rows[i][k]).Some?
  }

  /** The first column at or after `k` on which the cast loop fails, or |cols| if none. */
  function FirstUncastable(cols: seq<string>, rows: seq<Row>, k: nat): (r: nat)
    requires Rect(rows, |cols|) && k <= |cols|
    ensures k <= r <= |cols|
    ensures forall q :: k <= q < r ==> Castable(cols, rows, q)
    ensures r < |cols| ==> !Castable(cols, rows, r)
    decreases |cols| - k
  {
    if k == |cols| then k
    else if Castable(cols, rows, k) then FirstUncastable(cols, rows, k + 1)
    else k
  }

  /** One row after the cast loop: every column but BMI holds its integer value. */
  function CastRow(cols: seq<string>, row: Row): (r: Row)
    requires |row| == |cols|
    ensures |r| == |row|
    ensures forall k :: 0 <= k < |row| ==>
              r[k] == if cols[k] == "BMI" || AsInt(row[k]).None? then row[k] else Num(AsInt(row[k]).value)
  {
    seq(|row|, k requires 0 <= k < |row| =>
      if cols[k] == "BMI" || AsInt(row[k]).None? then row[k] else Num(AsInt(row[k]).value))
  }

  /** Lines 86-90 and 116-120: `astype(int)` on every column except BMI, column by column;
      the first column holding a value that does not convert stops the script. */
  function CastColumns(cols: seq<string>, rows: seq<Row>): (r: Result<seq<Row>>)
    requires Rect(rows, |cols|)
    ensures r.Ok? <==> forall k :: 0 <= k < |cols| ==> Castable(cols, rows, k)
    ensures r.Err? ==> var k := FirstUncastable(cols, rows, 0);
              k < |cols| && r.error == NotInteger(cols[k]) && !Castable(cols, rows, k)
    ensures r.Ok? ==> |r.value| == |rows| && Rect(r.value, |cols|)
    ensures r.Ok? ==> forall i, k :: 0 <= i < |rows| && 0 <= k < |cols| && cols[k] != "BMI" ==>
              AsInt(rows[i][k]).Some? && r.value[i][k] == Num(AsInt(rows[i][k]).value)
    ensures r.Ok? ==> forall i, k :: 0 <= i < |rows| && 0 <= k < |cols| && cols[k] == "BMI" ==>
              r.value[i][k] == rows[i][k]
  {
    var k := FirstUncastable(cols, rows, 0);
    if k < |cols| then Err(NotInteger(cols[k]))
    else
      assert forall i, q :: 0 <= i < |rows| && 0 <= q < |cols| && cols[q] != "BMI" ==> AsInt(rows[i][q]).Some? by {
        forall i, q | 0 <= i < |rows| && 0 <= q < |cols| && cols[q] != "BMI" ensures AsInt(rows[i][q]).Some? {
          assert Castable(cols, rows, q);
        }
      }
      Ok(seq(|rows|, i requires 0 <= i < |rows| => CastRow(cols, rows[i])))
  }

  /** Line 95: `df['BMI'] / 100`; a text cell in the column makes the division fail. */
  function ScaleColumn(rows: seq<Row>, width: nat, j: nat, name: string): (r: Result<seq<Row>>)
    requires Rect(rows, width) && j < width
    ensures r.Err? <==> exists i :: 0 <= i < |rows| && rows[i][j].Str?
    ensures r.Err? ==> r.error == NotNumeric(name)
    ensures r.Ok? ==> |r.value| == |rows| && Rect(r.value, width)
    ensures r.Ok? ==> forall i :: 0 <= i < |rows| ==> r.value[i] == rows[i][j := Hundredth(rows[i][j])]
  {
    if exists i :: 0 <= i < |rows| && rows[i][j].Str? then Err(NotNumeric(name))
    else Ok(seq(|rows|, i requires 0 <= i < |rows| => rows[i][j := Hundredth(rows[i][j])]))
  }

  // ---------------------------------------------------------------------------
  // Layouts of the fixed column lists
  // ---------------------------------------------------------------------------

  /** Where the script's named columns sit in the selected table (lines 37-49). */
  const RawChol: nat := 0
  const RawBmi: nat := 1
  const RawStroke: nat := 2
  const RawMentHlth: nat := 9
  const RawPhysHlth: nat := 10
  const RawSmoker: nat := 15
  const RawBpMeds: nat := 18
  const RawCoronary: nat := 19
  const RawInfarction: nat := 20

  /** Where the script's named columns sit in the renamed table (lines 93-107). */
  const HighCholAt: nat := 0
  const BmiAt: nat := 1
  const DiabetesAt: nat := 2
  const PhysActivityAt: nat := 3
  const FruitsAt: nat := 4
  const VeggiesAt: nat := 5
  const AlcoholAt: nat := 6
  const GenHlthAt: nat := 7
  const MentHlthAt: nat := 8
  const PhysHlthAt: nat := 9
  const DiffWalkAt: nat := 10
  const SexAt: nat := 11
  const EducationAt: nat := 12
  const IncomeAt: nat := 13
  const SmokerAt: nat := 14
  const IncomeCategoryAt: nat := 15
  const AgeGroupAt: nat := 16
  const BpMedicationAt: nat := 17
  const StatusAt: nat := 18

  /** Where the script's named columns sit in the final table (lines 108-111). */
  const SmokerOut: nat := 13
  const IncomeCategoryOut: nat := 14
  const BpMedicationOut: nat := 16
  const AgeGroupOut: nat := 15
  const StatusOut: nat := 17

  lemma SelectedDistinctHead()
    ensures forall i, j :: 0 <= i < 7 && i < j < 21 ==> Selected[i] != Selected[j]
  {
  }

  lemma SelectedDistinctMiddle()
    ensures forall i, j :: 7 <= i < 14 && i < j < 21 ==> Selected[i] != Selected[j]
  {
  }

  lemma SelectedDistinctTail()
    ensures forall i, j :: 14 <= i < j < 21 ==> Selected[i] != Selected[j]
  {
  }

  lemma SelectedNoDup()
    ensures NoDup(Selected)
  {
    SelectedDistinctHead();
    SelectedDistinctMiddle();
    SelectedDistinctTail();
  }

  lemma RenamedDistinctHead()
    ensures forall i, j :: 0 <= i < 7 && i < j < 19 ==> Renamed[i] != Renamed[j]
  {
  }

  lemma RenamedDistinctMiddle()
    ensures forall i, j :: 7 <= i < 13 && i < j < 19 ==> Renamed[i] != Renamed[j]
  {
  }

  lemma RenamedDistinctTail()
    ensures forall i, j :: 13 <= i < j < 19 ==> Renamed[i] != Renamed[j]
  {
  }

  lemma RenamedNoDup()
    ensures NoDup(Renamed)
  {
    RenamedDistinctHead();
    RenamedDistinctMiddle();
    RenamedDistinctTail();
  }

  /** Where each written column was in the renamed table. */
  lemma FinalFromRenamed()
    ensures |Final| == |Renamed| - 1
    ensures forall k :: 0 <= k < |Final| ==> Final[k] == Renamed[if k < IncomeAt then k else k + 1]
  {
    FinalHead();
    FinalMiddle();
    FinalTail();
  }

  lemma FinalNoDup()
    ensures NoDup(Final)
  {
    RenamedNoDup();
    FinalFromRenamed();
    forall i, j | 0 <= i < j < |Final| ensures Final[i] != Final[j] {
      var a := if i < IncomeAt then i else i + 1;
      var b := if j < IncomeAt then j else j + 1;
      assert a < b && Renamed[a] != Renamed[b];
    }
  }

  /** The positions above hold the names the script uses; with the lists free of repeats,
      `IndexOfUnique` turns each into the column pandas finds by that name. */
  lemma SelectedLayout()
    ensures |Selected| == 21
    ensures Selected[RawChol] == "TOLDHI2" && Selected[RawBmi] == "_BMI5"
    ensures Selected[RawStroke] == "CVDSTRK3"
    ensures Selected[RawMentHlth] == "MENTHLTH" && Selected[RawPhysHlth] == "PHYSHLTH"
    ensures Selected[RawSmoker] == "_RFSMOK3" && Selected[RawBpMeds] == "BPMEDS"
    ensures Selected[RawCoronary] == "CVDCRHD4" && Selected[RawInfarction] == "CVDINFR4"
  {
  }

  lemma RenamedWidth()
    ensures |Renamed| == 19
  {
  }

  lemma FinalWidth()
    ensures |Final| == 18
  {
  }

  lemma RenamedLayout()
    ensures |Renamed| == 19
    ensures Renamed[HighCholAt] == "HighChol" && Renamed[BmiAt] == "BMI"
    ensures Renamed[DiabetesAt] == "Diabetes" && Renamed[PhysActivityAt] == "PhysActivity"
    ensures Renamed[FruitsAt] == "Fruits" && Renamed[VeggiesAt] == "Veggies"
    ensures Renamed[AlcoholAt] == "HvyAlcoholConsump" && Renamed[GenHlthAt] == "GenHlth"
    ensures Renamed[MentHlthAt] == "MentHlth" && Renamed[PhysHlthAt] == "PhysHlth"
    ensures Renamed[DiffWalkAt] == "DiffWalk" && Renamed[SexAt] == "Sex"
    ensures Renamed[EducationAt] == "Education" && Renamed[IncomeAt] == "Income"
    ensures Renamed[SmokerAt] == "Current_Smoker" && Renamed[IncomeCategoryAt] == "Income_Category"
    ensures Renamed[BpMedicationAt] == "On_BP_Medication" && Renamed[StatusAt] == StatusColumn
  {
  }

  lemma FinalLayout()
    ensures |Final| == 18
    ensures Final[BmiAt] == "BMI" && Final[SmokerOut] == "Current_Smoker"
    ensures Final[IncomeCategoryOut] == "Income_Category"
    ensures Final[BpMedicationOut] == "On_BP_Medication" && Final[StatusOut] == StatusColumn
  {
  }

  /** The request is the selected list followed by a second CVDSTRK3. */
  lemma RequestLayout()
    ensures |ColumnsToSelect| == |Selected| + 1
    ensures ColumnsToSelect[..|Selected|] == Selected && ColumnsToSelect[|Selected|] == Selected[RawStroke]
  {
  }

  /** In a list whose first `n` names are distinct, none of them occurs before itself. */
  lemma DistinctPrefix(cols: seq<string>, n: nat)
    requires n <= |cols| && NoDup(cols[..n])
    ensures forall k :: 0 <= k < n ==> cols[k] !in cols[..k]
  {
    forall k | 0 <= k < n ensures cols[k] !in cols[..k] {
      forall q | 0 <= q < k ensures cols[q] != cols[k] {
        assert cols[..n][q] == cols[q] && cols[..n][k] == cols[k];
      }
    }
  }

  /** The positions `~columns.duplicated()` keeps in the request: all but the last. */
  lemma DedupPositions()
    ensures FirstPositions(ColumnsToSelect, |ColumnsToSelect|) == Range(0, |Selected|)
  {
    var cts := ColumnsToSelect;
    RequestLayout();
    SelectedNoDup();
    assert cts[..21] == Selected;
    DistinctPrefix(cts, 21);
    FirstRange(cts, 0, 21);
    assert cts[..21][RawStroke] == cts[21];
  }

  /** De-duplicating the request gives the selected list. */
  lemma DedupSelected()
    ensures Dedup(ColumnsToSelect) == Selected
  {
    DedupPositions();
    RequestLayout();
    var d := Dedup(ColumnsToSelect);
    assert |d| == |Selected|;
    forall k | 0 <= k < |Selected| ensures d[k] == Selected[k] {
      assert d[k] == ColumnsToSelect[..|Selected|][k];
    }
  }

  /** The positions kept when the three indicators are dropped from the labelled table:
      all but those of CVDSTRK3, CVDCRHD4 and CVDINFR4. */
  const KeptAfterLabel: seq<nat> := Range(0, RawStroke) + Range(RawStroke + 1, RawCoronary) + [|Selected|]

  /** Where each column of the renamed table was in the labelled one. */
  lemma KeptAfterLabelAt()
    ensures |KeptAfterLabel| == |Renamed|
    ensures forall k :: 0 <= k < |Renamed| ==>
              KeptAfterLabel[k] == if k < RawStroke then k else if k < StatusAt then k + 1 else |Selected|
  {
  }

  lemma IndicatorDropPositions()
    ensures KeptPositions(Selected + [StatusColumn], Indicators, |Selected| + 1) == KeptAfterLabel
  {
    var cols := Selected + [StatusColumn];
    SelectedLayout();
    assert forall k :: 0 <= k < 19 && k != RawStroke ==> cols[k] !in Indicators;
    assert cols[21] !in Indicators;
    KeptRange(cols, Indicators, 0, RawStroke);
    assert KeptPositions(cols, Indicators, RawStroke + 1) == KeptPositions(cols, Indicators, RawStroke);
    KeptRange(cols, Indicators, RawStroke + 1, RawCoronary);
    assert KeptPositions(cols, Indicators, 21) == KeptPositions(cols, Indicators, 20)
        == KeptPositions(cols, Indicators, RawCoronary);
    assert KeptPositions(cols, Indicators, 22) == KeptPositions(cols, Indicators, 21) + [21];
  }

  /** The positions kept when Income is dropped from the renamed table: all but Income's. */
  const KeptAfterIncome: seq<nat> := Range(0, IncomeAt) + Range(IncomeAt + 1, |Renamed|)

  lemma IncomeDropPositions()
    ensures KeptPositions(Renamed, {"Income"}, |Renamed|) == KeptAfterIncome
  {
    RenamedLayout();
    assert forall k :: 0 <= k < 19 && k != IncomeAt ==> Renamed[k] != "Income";
    DropOne(Renamed, {"Income"}, IncomeAt);
  }

  /** Line 28 leaves every selected name as it is: none holds a space or starts or ends
      with whitespace. */
  lemma SelectedNamesClean()
    ensures forall k :: 0 <= k < |Selected| ==> CleanName(Selected[k]) == Selected[k]
  {
    forall k | 0 <= k < |Selected| ensures CleanName(Selected[k]) == Selected[k] {
      CleanNameFixed(Selected[k]);
    }
  }

  /** The labelled table's names once the three indicators are gone (line 52). */
  const KeptRaw: seq<string> :=
    ["TOLDHI2", "_BMI5", "DIABETE3", "_TOTINDA",
     "_FRTLT1", "_VEGLT1", "_RFDRHV5", "GENHLTH", "MENTHLTH", "PHYSHLTH",
     "DIFFWALK", "SEX", "EDUCA", "INCOME2",
     "_RFSMOK3", "_INCOMG", "_AGE_G", "BPMEDS", StatusColumn]

  lemma KeptRawHead()
    ensures forall k :: 0 <= k < RawStroke ==> KeptRaw[k] == Selected[k]
  {
  }

  lemma KeptRawMiddle()
    ensures forall k :: RawStroke <= k < 10 ==> KeptRaw[k] == Selected[k + 1]
  {
  }

  lemma KeptRawTail()
    ensures forall k :: 10 <= k < 18 ==> KeptRaw[k] == Selected[k + 1]
    ensures |KeptRaw| == 19 && KeptRaw[18] == StatusColumn
  {
  }

  lemma KeptRawColumns()
    ensures DropNames(Selected + [StatusColumn], Indicators) == KeptRaw
  {
    IndicatorDropPositions();
    KeptAfterLabelAt();
    SelectedLayout();
    KeptRawHead();
    KeptRawMiddle();
    KeptRawTail();
    var cols := Selected + [StatusColumn];
    var kept := DropNames(cols, Indicators);
    assert |kept| == |KeptRaw|;
    forall k | 0 <= k < |KeptRaw| ensures kept[k] == KeptRaw[k] {
      assert kept[k] == cols[KeptAfterLabel[k]];
    }
  }

  lemma FriendlyHead()
    ensures forall k :: 0 <= k < 7 ==> Friendly(KeptRaw[k]) == Renamed[k]
  {
  }

  lemma FriendlyMiddle()
    ensures forall k :: 7 <= k < 13 ==> Friendly(KeptRaw[k]) == Renamed[k]
  {
  }

  lemma FriendlyTail()
    ensures forall k :: 13 <= k < 19 ==> Friendly(KeptRaw[k]) == Renamed[k]
  {
  }

  /** Lines 44-77 on the names: with the label added, the indicators dropped and the friendly
      names given, the columns are Renamed. */
  lemma RenamedColumns()
    ensures RenameAll(DropNames(Selected + [StatusColumn], Indicators)) == Renamed
  {
    KeptRawColumns();
    FriendlyHead();
    FriendlyMiddle();
    FriendlyTail();
  }

  lemma FinalHead()
    ensures forall k :: 0 <= k < 7 ==> Final[k] == Renamed[k]
  {
  }

  lemma FinalMiddle()
    ensures forall k :: 7 <= k < IncomeAt ==> Final[k] == Renamed[k]
  {
  }

  lemma FinalTail()
    ensures forall k :: IncomeAt <= k < |Final| ==> Final[k] == Renamed[k + 1]
  {
  }

  /** Line 107 on the names: dropping Income from Renamed gives Final. */
  lemma FinalColumns()
    ensures DropNames(Renamed, {"Income"}) == Final
  {
    IncomeDropPositions();
    RenamedWidth();
    FinalHead();
    FinalMiddle();
    FinalTail();
    var kept := DropNames(Renamed, {"Income"});
    assert |kept| == |Final|;
    forall k | 0 <= k < |Final| ensures kept[k] == Final[k] {
      KeptAfterIncomeAt(k);
    }
  }

  // ---------------------------------------------------------------------------
  // The script, stage by stage
  // ---------------------------------------------------------------------------

  /** The cells of each source row under the selected names, in the order of Selected. */
  function Selection(raw: Frame): (r: seq<Row>)
    requires WellFormed(raw) && Absent(raw.columns, ColumnsToSelect) == []
    ensures |r| == |raw.rows| && Rect(r, |Selected|)
    ensures forall i, k :: 0 <= i < |raw.rows| && 0 <= k < |Selected| ==>
              Selected[k] in raw.columns && r[i][k] == raw.rows[i][IndexOf(raw.columns, Selected[k])]
  {
    RequestLayout();
    ProjectRows(raw.rows, |raw.columns|, SelectPositions(raw.columns, Selected))
  }

  /** Lines 14-33: select the requested columns (an absent one is a KeyError), drop the
      repeated CVDSTRK3, clean the names, blank out the sentinels and drop incomplete rows.
      What is left is each clean source row, cut down to the selected columns, in order. */
  function Extract(raw: Frame): (r: Result<seq<Row>>)
    requires WellFormed(raw)
    ensures r.Err? <==> Absent(raw.columns, ColumnsToSelect) != []
    ensures r.Err? ==> r.error == MissingColumns(Absent(raw.columns, ColumnsToSelect))
    ensures r.Ok? ==> r.value == KeepClean(Selection(raw)) && Rect(r.value, |Selected|)
  {
    var absent := Absent(raw.columns, ColumnsToSelect);
    if absent != [] then Err(MissingColumns(absent))
    else
      var picked := ProjectRows(raw.rows, |raw.columns|, SelectPositions(raw.columns, ColumnsToSelect));
      DedupPositions();
      var unique := ProjectRows(picked, |ColumnsToSelect|, FirstPositions(ColumnsToSelect, |ColumnsToSelect|));
      RequestLayout();
      SelectPrefix(raw.rows, raw.columns, ColumnsToSelect, |Selected|);
      BlankThenDrop(unique);
      Ok(DropMissing(BlankSentinels(unique)))
  }

  /** Selecting a list of names and keeping the first `n` of them is selecting those `n`. */
  lemma SelectPrefix(rows: seq<Row>, cols: seq<string>, wanted: seq<string>, n: nat)
    requires Rect(rows, |cols|) && n <= |wanted| && forall w :: w in wanted ==> w in cols
    ensures ProjectRows(ProjectRows(rows, |cols|, SelectPositions(cols, wanted)), |wanted|, Range(0, n))
         == ProjectRows(rows, |cols|, SelectPositions(cols, wanted[..n]))
  {
    var picked := ProjectRows(rows, |cols|, SelectPositions(cols, wanted));
    var lhs := ProjectRows(picked, |wanted|, Range(0, n));
    var rhs := ProjectRows(rows, |cols|, SelectPositions(cols, wanted[..n]));
    forall i | 0 <= i < |rows| ensures lhs[i] == rhs[i] {
      forall k | 0 <= k < n ensures lhs[i][k] == rhs[i][k] {
        assert wanted[..n][k] == wanted[k];
      }
    }
  }

  /** Lines 37-77: recode five columns, add the label, drop the three indicators; the
      renaming changes names only. */
  function Derive(rows: seq<Row>): (r: seq<Row>)
    requires Rect(rows, |Selected|)
    ensures |r| == |rows| && Rect(r, |Renamed|)
  {
    SelectedLayout();
    var w := |Selected|;
    var chol := RecodeColumn(rows, w, RawChol, CholesterolCodes);
    var smoke := RecodeColumn(chol, w, RawSmoker, SmokerCodes);
    var meds := RecodeColumn(smoke, w, RawBpMeds, BpMedsCodes);
    var ment := RecodeColumn(meds, w, RawMentHlth, NoDaysCodes);
    var phys := RecodeColumn(ment, w, RawPhysHlth, NoDaysCodes);
    var labelled := WithStatus(phys, w, RawStroke, RawInfarction, RawCoronary);
    IndicatorDropPositions();
    ProjectRows(labelled, w + 1, KeptPositions(Selected + [StatusColumn], Indicators, w + 1))
  }

  /** One selected row after lines 37-49: five columns recoded and the label appended. */
  function LabelledRow(row: Row): (r: Row)
    requires |row| == |Selected|
    ensures |r| == |Selected| + 1
  {
    SelectedLayout();
    row[RawChol := Recode(row[RawChol], CholesterolCodes)]
       [RawSmoker := Recode(row[RawSmoker], SmokerCodes)]
       [RawBpMeds := Recode(row[RawBpMeds], BpMedsCodes)]
       [RawMentHlth := Recode(row[RawMentHlth], NoDaysCodes)]
       [RawPhysHlth := Recode(row[RawPhysHlth], NoDaysCodes)]
    + [Num(Priority(row[RawStroke], row[RawInfarction], row[RawCoronary]))]
  }

  /** One selected row as lines 37-77 leave it. */
  function DerivedRow(row: Row): (r: Row)
    requires |row| == |Selected|
    ensures |r| == |Renamed|
  {
    KeptAfterLabelAt();
    Project(LabelledRow(row), KeptAfterLabel)
  }

  /** Lines 37-77 work row by row. */
  lemma DeriveRowwise(rows: seq<Row>, i: nat)
    requires Rect(rows, |Selected|) && i < |rows|
    ensures Derive(rows)[i] == DerivedRow(rows[i])
  {
    SelectedLayout();
    KeptAfterLabelAt();
    var w := |Selected|;
    var chol := RecodeColumn(rows, w, RawChol, CholesterolCodes);
    var smoke := RecodeColumn(chol, w, RawSmoker, SmokerCodes);
    var meds := RecodeColumn(smoke, w, RawBpMeds, BpMedsCodes);
    var ment := RecodeColumn(meds, w, RawMentHlth, NoDaysCodes);
    var phys := RecodeColumn(ment, w, RawPhysHlth, NoDaysCodes);
    var labelled := WithStatus(phys, w, RawStroke, RawInfarction, RawCoronary);
    IndicatorDropPositions();
    assert Derive(rows) == ProjectRows(labelled, w + 1, KeptAfterLabel);
    assert labelled[i] == LabelledRow(rows[i]);
  }

  /** The cells of one labelled row, by position in the selected layout. */
  lemma LabelledRowCells(row: Row)
    requires |row| == |Selected|
    ensures var l := LabelledRow(row);
      && l[RawChol] == Recode(row[RawChol], CholesterolCodes)
      && l[RawMentHlth] == Recode(row[RawMentHlth], NoDaysCodes)
      && l[RawPhysHlth] == Recode(row[RawPhysHlth], NoDaysCodes)
      && l[RawSmoker] == Recode(row[RawSmoker], SmokerCodes)
      && l[RawBpMeds] == Recode(row[RawBpMeds], BpMedsCodes)
      && l[|Selected|] == Num(Priority(row[RawStroke], row[RawInfarction], row[RawCoronary]))
      && (forall j :: (0 <= j < |Selected| && j != RawChol && j != RawMentHlth && j != RawPhysHlth
            && j != RawSmoker && j != RawBpMeds) ==> l[j] == row[j])
  {
    SelectedLayout();
  }

  /** The recoded and the label cells of one derived row. */
  lemma LabelledCells(row: Row)
    requires |row| == |Selected|
    ensures var r := DerivedRow(row);
      && r[HighCholAt] == Recode(row[RawChol], CholesterolCodes)
      && r[MentHlthAt] == Recode(row[RawMentHlth], NoDaysCodes)
      && r[PhysHlthAt] == Recode(row[RawPhysHlth], NoDaysCodes)
      && r[SmokerAt] == Recode(row[RawSmoker], SmokerCodes)
      && r[BpMedicationAt] == Recode(row[RawBpMeds], BpMedsCodes)
      && r[StatusAt] == Num(Priority(row[RawStroke], row[RawInfarction], row[RawCoronary]))
  {
    KeptAfterLabelAt();
    LabelledRowCells(row);
    var l := LabelledRow(row);
    var r := DerivedRow(row);
    assert r[HighCholAt] == l[RawChol];
    assert r[MentHlthAt] == l[RawMentHlth];
    assert r[PhysHlthAt] == l[RawPhysHlth];
    assert r[SmokerAt] == l[RawSmoker];
    assert r[BpMedicationAt] == l[RawBpMeds];
    assert r[StatusAt] == l[|Selected|];
  }

  /** Every other kept cell of one derived row is carried over from the selected row. */
  lemma CarriedCells(row: Row)
    requires |row| == |Selected|
    ensures forall k :: (0 <= k < StatusAt && k != HighCholAt && k != MentHlthAt && k != PhysHlthAt
              && k != SmokerAt && k != BpMedicationAt) ==> DerivedRow(row)[k] == row[KeptAfterLabel[k]]
  {
    KeptAfterLabelAt();
    LabelledRowCells(row);
    var l := LabelledRow(row);
    var r := DerivedRow(row);
    forall k | 0 <= k < StatusAt && k != HighCholAt && k != MentHlthAt && k != PhysHlthAt
        && k != SmokerAt && k != BpMedicationAt
      ensures r[k] == row[KeptAfterLabel[k]]
    {
      assert r[k] == l[KeptAfterLabel[k]];
    }
  }

  /** A selected row without missing cells gives a derived row without missing cells. */
  lemma DerivedComplete(row: Row)
    requires |row| == |Selected| && Missing !in row
    ensures Missing !in DerivedRow(row)
  {
    KeptAfterLabelAt();
    LabelledCells(row);
    CarriedCells(row);
    var r := DerivedRow(row);
    forall k | 0 <= k < |r| ensures r[k] != Missing {
      if k == HighCholAt || k == MentHlthAt || k == PhysHlthAt || k == SmokerAt || k == BpMedicationAt {
        assert row[KeptAfterLabel[k]] != Missing;
      } else if k != StatusAt {
        assert row[KeptAfterLabel[k]] != Missing;
      }
    }
  }

  /** What lines 37-77 do to one row: five columns recoded, the label computed from the
      three indicators, and every other kept column carried over unchanged. */
  lemma DeriveRow(rows: seq<Row>, i: nat)
    requires Rect(rows, |Selected|) && i < |rows|
    ensures var r := Derive(rows)[i];
      && r[HighCholAt] == Recode(rows[i][RawChol], CholesterolCodes)
      && r[MentHlthAt] == Recode(rows[i][RawMentHlth], NoDaysCodes)
      && r[PhysHlthAt] == Recode(rows[i][RawPhysHlth], NoDaysCodes)
      && r[SmokerAt] == Recode(rows[i][RawSmoker], SmokerCodes)
      && r[BpMedicationAt] == Recode(rows[i][RawBpMeds], BpMedsCodes)
      && r[StatusAt] == Num(Priority(rows[i][RawStroke], rows[i][RawInfarction], rows[i][RawCoronary]))
      && (forall k :: (0 <= k < StatusAt && k != HighCholAt && k != MentHlthAt && k != PhysHlthAt
            && k != SmokerAt && k != BpMedicationAt) ==> r[k] == rows[i][KeptAfterLabel[k]])
    ensures Missing !in rows[i] ==> Missing !in Derive(rows)[i]
  {
    DeriveRowwise(rows, i);
    LabelledCells(rows[i]);
    CarriedCells(rows[i]);
    if Missing !in rows[i] {
      DerivedComplete(rows[i]);
    }
  }

  /** Lines 93-94. */
  const EarlyRecodes: seq<Step> := [Step(PhysActivityAt, PhysActivityCodes), Step(HighCholAt, UnsureOrRefused)]

  /** Lines 96-106. */
  const MiddleRecodes: seq<Step> :=
    [Step(DiabetesAt, DiabetesCodes), Step(FruitsAt, YesNoRefused), Step(VeggiesAt, YesNoRefused),
     Step(AlcoholAt, AlcoholCodes), Step(GenHlthAt, UnsureOrRefused), Step(MentHlthAt, NoDaysCodes),
     Step(PhysHlthAt, NoDaysCodes), Step(DiffWalkAt, DiffWalkCodes), Step(SexAt, SexCodes),
     Step(EducationAt, Refused), Step(IncomeAt, IncomeCodes)]

  /** Lines 108-111, on the table without Income (Age_Group is left as it is). */
  const LateRecodes: seq<Step> :=
    [Step(SmokerOut, Refused), Step(IncomeCategoryOut, Refused), Step(BpMedicationOut, UnsureOrRefused)]

  /** The recode lines after the first cast address real columns, never BMI or the label,
      and only ever write integers or the missing marker. */
  lemma EarlyRecodesSafe()
    ensures forall k :: 0 <= k < |EarlyRecodes| ==> EarlyRecodes[k].at < |Renamed| && IntCodes(EarlyRecodes[k].codes)
    ensures Untouched(EarlyRecodes, BmiAt) && Untouched(EarlyRecodes, StatusAt)
    ensures DistinctColumns(EarlyRecodes)
  {
    RenamedWidth();
  }

  lemma MiddleCodesHead()
    ensures forall k :: 0 <= k < 5 ==> IntCodes(MiddleRecodes[k].codes)
  {
  }

  lemma MiddleCodesTail()
    ensures forall k :: 5 <= k < |MiddleRecodes| ==> IntCodes(MiddleRecodes[k].codes)
  {
  }

  lemma MiddleRecodesSafe()
    ensures forall k :: 0 <= k < |MiddleRecodes| ==> MiddleRecodes[k].at < |Renamed| && IntCodes(MiddleRecodes[k].codes)
    ensures Untouched(MiddleRecodes, BmiAt) && Untouched(MiddleRecodes, StatusAt)
  {
    RenamedWidth();
    MiddleCodesHead();
    MiddleCodesTail();
  }

  lemma MiddleRecodesDistinct()
    ensures DistinctColumns(MiddleRecodes)
  {
    assert forall t :: 1 <= t < |MiddleRecodes| ==> MiddleRecodes[t].at == t + 3;
  }
  lemma LateRecodesSafe()
    ensures forall k :: 0 <= k < |LateRecodes| ==> LateRecodes[k].at < |Final| && IntCodes(LateRecodes[k].codes)
    ensures Untouched(LateRecodes, BmiAt) && Untouched(LateRecodes, StatusOut)
    ensures DistinctColumns(LateRecodes)
  {
    FinalWidth();
  }

  /** Lines 96-111 after the rescale: recode, drop Income, recode. */
  function RecodeRest(scaled: seq<Row>): (r: seq<Row>)
    requires Rect(scaled, |Renamed|)
    ensures |r| == |scaled| && Rect(r, |Final|)
  {
    MiddleRecodesSafe();
    LateRecodesSafe();
    IncomeDropPositions();
    RenamedLayout();
    FinalLayout();
    var w := |Renamed|;
    var noIncome := ProjectRows(RecodeAll(scaled, w, MiddleRecodes), w, KeptPositions(Renamed, {"Income"}, w));
    RecodeAll(noIncome, |Final|, LateRecodes)
  }

  /** Lines 96-111 keep integers and missing markers so, and carry BMI and the label over. */
  lemma RecodeRestCells(scaled: seq<Row>)
    requires IntsOrMissing(scaled, |Renamed|, BmiAt)
    ensures IntsOrMissing(RecodeRest(scaled), |Final|, BmiAt)
    ensures forall i :: 0 <= i < |scaled| ==>
              RecodeRest(scaled)[i][BmiAt] == scaled[i][BmiAt] && RecodeRest(scaled)[i][StatusOut] == scaled[i][StatusAt]
  {
    MiddleRecodesSafe();
    LateRecodesSafe();
    IncomeDropPositions();
    RenamedWidth();
    FinalWidth();
    var w := |Renamed|;
    var middle := RecodeAll(scaled, w, MiddleRecodes);
    RecodeAllKeeps(scaled, w, MiddleRecodes, BmiAt);
    RecodeAllKeeps(scaled, w, MiddleRecodes, StatusAt);
    RecodeAllInts(scaled, w, MiddleRecodes, BmiAt);
    var noIncome := ProjectRows(middle, w, KeptAfterIncome);
    assert KeptAfterIncome[BmiAt] == BmiAt && KeptAfterIncome[StatusOut] == StatusAt;
    ProjectInts(middle, w, KeptAfterIncome, BmiAt, BmiAt);
    RecodeAllKeeps(noIncome, |Final|, LateRecodes, BmiAt);
    RecodeAllKeeps(noIncome, |Final|, LateRecodes, StatusOut);
    RecodeAllInts(noIncome, |Final|, LateRecodes, BmiAt);
  }

  /** Lines 86-111: cast, recode, rescale BMI, then the rest. */
  function Recast(rows: seq<Row>): (r: Result<seq<Row>>)
    requires Rect(rows, |Renamed|)
    ensures r.Ok? ==> |r.value| == |rows| && Rect(r.value, |Final|)
  {
    EarlyRecodesSafe();
    RenamedLayout();
    var w := |Renamed|;
    match CastColumns(Renamed, rows)
    case Err(e) => Err(e)
    case Ok(ints) =>
      match ScaleColumn(RecodeAll(ints, w, EarlyRecodes), w, BmiAt, "BMI")
      case Err(e) => Err(e)
      case Ok(scaled) => Ok(RecodeRest(scaled))
  }

  /** After the cast on lines 86-90 every column but BMI holds integers or missing markers,
      BMI is as it was, and every label cell was an integer. */
  lemma CastKeepsIntegers(rows: seq<Row>)
    requires Rect(rows, |Renamed|) && CastColumns(Renamed, rows).Ok?
    ensures var ints: seq<Row> := CastColumns(Renamed, rows).value;
      && IntsOrMissing(ints, |Renamed|, BmiAt)
      && forall i :: 0 <= i < |rows| ==>
           && ints[i][BmiAt] == rows[i][BmiAt]
           && AsInt(rows[i][StatusAt]).Some? && ints[i][StatusAt] == Num(AsInt(rows[i][StatusAt]).value)
  {
    RenamedLayout();
    RenamedNoDup();
    var ints: seq<Row> := CastColumns(Renamed, rows).value;
    forall i, k | 0 <= i < |rows| && 0 <= k < |Renamed| && k != BmiAt ensures ints[i][k].Num? {
      if k < BmiAt {
        assert Renamed[k] != Renamed[BmiAt];
      } else {
        assert Renamed[BmiAt] != Renamed[k];
      }
    }
  }

  /** Lines 86-94: after the cast and the first two recodes every cell but BMI is an integer
      or missing, BMI is as it came, and the label is the incoming one cast to int. */
  lemma CastThenEarly(rows: seq<Row>)
    requires Rect(rows, |Renamed|) && CastColumns(Renamed, rows).Ok?
    ensures var early := RecodeAll(CastColumns(Renamed, rows).value, |Renamed|, EarlyRecodes);
      && IntsOrMissing(early, |Renamed|, BmiAt)
      && forall i :: 0 <= i < |rows| ==>
           && early[i][BmiAt] == rows[i][BmiAt]
           && AsInt(rows[i][StatusAt]).Some? && early[i][StatusAt] == Num(AsInt(rows[i][StatusAt]).value)
  {
    EarlyRecodesSafe();
    RenamedLayout();
    RenamedNoDup();
    var w := |Renamed|;
    var ints := CastColumns(Renamed, rows).value;
    CastKeepsIntegers(rows);
    RecodeAllKeeps(ints, w, EarlyRecodes, BmiAt);
    RecodeAllKeeps(ints, w, EarlyRecodes, StatusAt);
    RecodeAllInts(ints, w, EarlyRecodes, BmiAt);
  }

  /** Lines 95-111 on such a table: BMI becomes a hundredth of itself, and the rest keeps
      integers and missing markers so and carries the label over. */
  lemma ScaleThenRest(early: seq<Row>)
    requires IntsOrMissing(early, |Renamed|, BmiAt) && ScaleColumn(early, |Renamed|, BmiAt, "BMI").Ok?
    ensures var out := RecodeRest(ScaleColumn(early, |Renamed|, BmiAt, "BMI").value);
      && IntsOrMissing(out, |Final|, BmiAt)
      && forall i :: 0 <= i < |early| ==>
           !early[i][BmiAt].Str? && out[i][BmiAt] == Hundredth(early[i][BmiAt]) && out[i][StatusOut] == early[i][StatusAt]
  {
    RenamedLayout();
    var scaled := ScaleColumn(early, |Renamed|, BmiAt, "BMI").value;
    assert IntsOrMissing(scaled, |Renamed|, BmiAt);
    RecodeRestCells(scaled);
  }

  /** Lines 86-111 stop either in the first cast loop or, after it, on text in BMI. */
  lemma RecastFailure(rows: seq<Row>)
    requires Rect(rows, |Renamed|) && Recast(rows).Err?
    ensures Recast(rows) == CastColumns(Renamed, rows) ||
            (CastColumns(Renamed, rows).Ok? && Recast(rows).error == NotNumeric("BMI") &&
             exists i :: 0 <= i < |rows| && rows[i][BmiAt].Str?)
  {
    EarlyRecodesSafe();
    if CastColumns(Renamed, rows).Ok? {
      var early: seq<Row> := RecodeAll(CastColumns(Renamed, rows).value, |Renamed|, EarlyRecodes);
      CastThenEarly(rows);
      var i: int :| 0 <= i < |early| && early[i][BmiAt].Str?;
      assert rows[i][BmiAt].Str?;
    }
  }

  /** What lines 86-111 leave when they get through: integers or missing markers everywhere
      but in BMI, which is the incoming BMI divided by 100, with the label cast to int. */
  lemma RecastSuccess(rows: seq<Row>)
    requires Rect(rows, |Renamed|) && Recast(rows).Ok?
    ensures IntsOrMissing(Recast(rows).value, |Final|, BmiAt)
    ensures forall i :: 0 <= i < |rows| ==>
              && !rows[i][BmiAt].Str? && Recast(rows).value[i][BmiAt] == Hundredth(rows[i][BmiAt])
              && AsInt(rows[i][StatusAt]).Some?
              && Recast(rows).value[i][StatusOut] == Num(AsInt(rows[i][StatusAt]).value)
  {
    EarlyRecodesSafe();
    var early := RecodeAll(CastColumns(Renamed, rows).value, |Renamed|, EarlyRecodes);
    CastThenEarly(rows);
    ScaleThenRest(early);
  }

  /** Lines 86-111 as a whole: they stop on the first column that does not cast or on text in
      BMI; when they get through, every cell but BMI is an integer or missing, BMI is the
      incoming BMI divided by 100, and the label is cast to int. */
  lemma RecastRows(rows: seq<Row>)
    requires Rect(rows, |Renamed|)
    ensures Recast(rows).Err? ==>
              Recast(rows) == CastColumns(Renamed, rows) ||
              (CastColumns(Renamed, rows).Ok? && Recast(rows).error == NotNumeric("BMI") &&
               exists i :: 0 <= i < |rows| && rows[i][BmiAt].Str?)
    ensures Recast(rows).Ok? ==> IntsOrMissing(Recast(rows).value, |Final|, BmiAt)
    ensures Recast(rows).Ok? ==> forall i :: 0 <= i < |rows| ==>
              && !rows[i][BmiAt].Str? && Recast(rows).value[i][BmiAt] == Hundredth(rows[i][BmiAt])
              && AsInt(rows[i][StatusAt]).Some?
              && Recast(rows).value[i][StatusOut] == Num(AsInt(rows[i][StatusAt]).value)
  {
    if Recast(rows).Ok? {
      RecastSuccess(rows);
    } else {
      RecastFailure(rows);
    }
  }
  /** Lines 86-111 read column by column: what each written column holds, given the row as
      the first cast leaves it. The Income recode of line 106 is not visible, since line 107
      drops the column. */
  function RecastCell(row: Row, k: nat): Cell
    requires |row| == |Renamed| && k < |Final| && !row[BmiAt].Str?
  {
    if k == HighCholAt then Recode(row[HighCholAt], UnsureOrRefused)
    else if k == BmiAt then Hundredth(row[BmiAt])
    else if k == DiabetesAt then Recode(row[DiabetesAt], DiabetesCodes)
    else if k == PhysActivityAt then Recode(row[PhysActivityAt], PhysActivityCodes)
    else if k == FruitsAt then Recode(row[FruitsAt], YesNoRefused)
    else if k == VeggiesAt then Recode(row[VeggiesAt], YesNoRefused)
    else if k == AlcoholAt then Recode(row[AlcoholAt], AlcoholCodes)
    else if k == GenHlthAt then Recode(row[GenHlthAt], UnsureOrRefused)
    else if k == MentHlthAt then Recode(row[MentHlthAt], NoDaysCodes)
    else if k == PhysHlthAt then Recode(row[PhysHlthAt], NoDaysCodes)
    else if k == DiffWalkAt then Recode(row[DiffWalkAt], DiffWalkCodes)
    else if k == SexAt then Recode(row[SexAt], SexCodes)
    else if k == EducationAt then Recode(row[EducationAt], Refused)
    else if k == SmokerOut then Recode(row[SmokerAt], Refused)
    else if k == IncomeCategoryOut then Recode(row[IncomeCategoryAt], Refused)
    else if k == AgeGroupOut then row[AgeGroupAt]
    else if k == BpMedicationOut then Recode(row[BpMedicationAt], UnsureOrRefused)
    else row[StatusAt]
  }

  /** The table lines 93-94 apply to column `c`; the empty table for a column they leave. */
  function EarlyCodes(c: nat): Codes
  {
    if c == PhysActivityAt then PhysActivityCodes
    else if c == HighCholAt then UnsureOrRefused
    else map[]
  }

  /** The map lines 93-94 apply to column `c`. */
  function EarlyMap(c: nat, x: Cell): Cell
  {
    Recode(x, EarlyCodes(c))
  }

  /** The table lines 96-106 apply to column `c`; the empty table for a column they leave. */
  function MiddleCodes(c: nat): Codes
  {
    if c == DiabetesAt then DiabetesCodes
    else if c == FruitsAt || c == VeggiesAt then YesNoRefused
    else if c == AlcoholAt then AlcoholCodes
    else if c == GenHlthAt then UnsureOrRefused
    else if c == MentHlthAt || c == PhysHlthAt then NoDaysCodes
    else if c == DiffWalkAt then DiffWalkCodes
    else if c == SexAt then SexCodes
    else if c == EducationAt then Refused
    else if c == IncomeAt then IncomeCodes
    else map[]
  }

  /** The map lines 96-106 apply to column `c`. */
  function MiddleMap(c: nat, x: Cell): Cell
  {
    Recode(x, MiddleCodes(c))
  }

  /** The table lines 108-111 apply to column `k` of the table without Income. */
  function LateCodes(k: nat): Codes
  {
    if k == SmokerOut || k == IncomeCategoryOut then Refused
    else if k == BpMedicationOut then UnsureOrRefused
    else map[]
  }

  /** The map lines 108-111 apply to column `k` of the table without Income. */
  function LateMap(k: nat, x: Cell): Cell
  {
    Recode(x, LateCodes(k))
  }

  /** Lines 93-94, 96-106 and 108-111 read column by column: the table the run gives each
      column is the one `EarlyCodes`, `MiddleCodes` and `LateCodes` name. */
  lemma EarlyCodesAgree(c: nat)
    ensures CodesFor(EarlyRecodes, c) == EarlyCodes(c)
  {
    var steps := EarlyRecodes;
    if c == PhysActivityAt {
      CodesForAt(steps, 0, c);
    } else if c == HighCholAt {
      CodesForAt(steps, 1, c);
    } else {
      CodesForUntouched(steps, c);
    }
  }

  lemma MiddleCodesAgree(c: nat)
    ensures CodesFor(MiddleRecodes, c) == MiddleCodes(c)
  {
    var steps := MiddleRecodes;
    if c == DiabetesAt {
      CodesForAt(steps, 0, c);
    } else if c == FruitsAt {
      CodesForAt(steps, 1, c);
    } else if c == VeggiesAt {
      CodesForAt(steps, 2, c);
    } else if c == AlcoholAt {
      CodesForAt(steps, 3, c);
    } else if c == GenHlthAt {
      CodesForAt(steps, 4, c);
    } else if c == MentHlthAt {
      CodesForAt(steps, 5, c);
    } else if c == PhysHlthAt {
      CodesForAt(steps, 6, c);
    } else if c == DiffWalkAt {
      CodesForAt(steps, 7, c);
    } else if c == SexAt {
      CodesForAt(steps, 8, c);
    } else if c == EducationAt {
      CodesForAt(steps, 9, c);
    } else if c == IncomeAt {
      CodesForAt(steps, 10, c);
    } else {
      CodesForUntouched(steps, c);
    }
  }

  lemma LateCodesAgree(k: nat)
    ensures CodesFor(LateRecodes, k) == LateCodes(k)
  {
    var steps := LateRecodes;
    if k == SmokerOut {
      CodesForAt(steps, 0, k);
    } else if k == IncomeCategoryOut {
      CodesForAt(steps, 1, k);
    } else if k == BpMedicationOut {
      CodesForAt(steps, 2, k);
    } else {
      CodesForUntouched(steps, k);
    }
  }

  /** The three runs and the rescale, composed for one column, give `RecastCell`. */
  lemma RecastCellMaps(row: Row, k: nat)
    requires |row| == |Renamed| && k < |Final| && !row[BmiAt].Str?
    ensures var src := if k < IncomeAt then k else k + 1;
      var early := EarlyMap(src, row[src]);
      var scaled := if src == BmiAt then Hundredth(row[BmiAt]) else early;
      LateMap(k, MiddleMap(src, scaled)) == RecastCell(row, k)
  {
  }

  /** Column `k` of the table without Income is column `k` before it, or `k + 1` past it. */
  lemma KeptAfterIncomeAt(k: nat)
    requires k < |Final|
    ensures |KeptAfterIncome| == |Final|
    ensures KeptAfterIncome[k] == if k < IncomeAt then k else k + 1
  {
    RenamedWidth();
    FinalWidth();
  }

  /** Lines 93-94 on one cell: the table `EarlyCodes` names for its column. */
  lemma EarlyRecodeAt(ints: seq<Row>, i: nat, c: nat)
    requires Rect(ints, |Renamed|) && i < |ints| && c < |Renamed|
    ensures RecodeAll(ints, |Renamed|, EarlyRecodes)[i][c] == EarlyMap(c, ints[i][c])
  {
    EarlyRecodesSafe();
    RecodeAllAt(ints, |Renamed|, EarlyRecodes, i, c);
    EarlyCodesAgree(c);
  }

  /** Lines 93-95 on one cell: the early recode, and BMI divided by 100; a table that gets
      through the rescale had no text BMI cell to begin with. */
  lemma EarlyThenScaleAt(ints: seq<Row>, early: seq<Row>, i: nat, c: nat)
    requires Rect(ints, |Renamed|) && i < |ints| && c < |Renamed|
    requires early == RecodeAll(ints, |Renamed|, EarlyRecodes)
    requires ScaleColumn(early, |Renamed|, BmiAt, "BMI").Ok?
    ensures !ints[i][BmiAt].Str?
    ensures ScaleColumn(early, |Renamed|, BmiAt, "BMI").value[i][c] ==
              if c == BmiAt then Hundredth(ints[i][BmiAt]) else EarlyMap(c, ints[i][c])
  {
    EarlyRecodeAt(ints, i, c);
    EarlyRecodeAt(ints, i, BmiAt);
    assert !early[i][BmiAt].Str?;
  }

  /** Lines 96-111 on one cell of the table they produce: the late recode of the middle
      recode of the column it came from. */
  lemma RecodeRestAt(scaled: seq<Row>, i: nat, k: nat)
    requires Rect(scaled, |Renamed|) && i < |scaled| && k < |Final|
    ensures var src := if k < IncomeAt then k else k + 1;
      src < |Renamed| && RecodeRest(scaled)[i][k] == LateMap(k, MiddleMap(src, scaled[i][src]))
  {
    MiddleRecodesSafe();
    MiddleRecodesDistinct();
    IncomeDropPositions();
    KeptAfterIncomeAt(k);
    var middle := RecodeAll(scaled, |Renamed|, MiddleRecodes);
    var noIncome := ProjectRows(middle, |Renamed|, KeptAfterIncome);
    assert RecodeRest(scaled) == RecodeAll(noIncome, |Final|, LateRecodes);
    var src := if k < IncomeAt then k else k + 1;
    RecodeAllAt(scaled, |Renamed|, MiddleRecodes, i, src);
    MiddleCodesAgree(src);
    LateRecodesSafe();
    RecodeAllAt(noIncome, |Final|, LateRecodes, i, k);
    LateCodesAgree(k);
    assert noIncome[i][k] == middle[i][src];
  }

  /** One cell of the table lines 86-111 produce is the cell `RecastCell` names. */
  lemma RecastCellAt(rows: seq<Row>, i: nat, k: nat)
    requires Rect(rows, |Renamed|) && Recast(rows).Ok? && i < |rows| && k < |Final|
    ensures CastColumns(Renamed, rows).Ok? && !CastColumns(Renamed, rows).value[i][BmiAt].Str?
    ensures Recast(rows).value[i][k] == RecastCell(CastColumns(Renamed, rows).value[i], k)
  {
    RenamedWidth();
    var ints: seq<Row> := CastColumns(Renamed, rows).value;
    var early := RecodeAll(ints, |Renamed|, EarlyRecodes);
    var scaled: seq<Row> := ScaleColumn(early, |Renamed|, BmiAt, "BMI").value;
    assert Recast(rows).value == RecodeRest(scaled);
    var src := if k < IncomeAt then k else k + 1;
    EarlyThenScaleAt(ints, early, i, src);
    RecodeRestAt(scaled, i, k);
    RecastCellMaps(ints[i], k);
  }

  /** Lines 86-111 on every row and column: the table produced is `RecastCell` of the cast rows. */
  lemma RecastCells(rows: seq<Row>)
    requires Rect(rows, |Renamed|) && Recast(rows).Ok?
    ensures CastColumns(Renamed, rows).Ok?
    ensures forall i :: 0 <= i < |rows| ==> !CastColumns(Renamed, rows).value[i][BmiAt].Str?
    ensures forall i, k :: 0 <= i < |rows| && 0 <= k < |Final| ==>
              Recast(rows).value[i][k] == RecastCell(CastColumns(Renamed, rows).value[i], k)
  {
    FinalWidth();
    assert CastColumns(Renamed, rows).Ok?;
    forall i | 0 <= i < |rows| {
      RecastCellAt(rows, i, StatusOut);
    }
    forall i, k | 0 <= i < |rows| && 0 <= k < |Final| {
      RecastCellAt(rows, i, k);
    }
  }


  /** Lines 113-120: drop incomplete rows and cast again. */
  function Finish(rows: seq<Row>): (r: Result<seq<Row>>)
    requires Rect(rows, |Final|)
    ensures r.Ok? ==> Rect(r.value, |Final|)
  {
    DropMissingRect(rows, |Final|);
    CastColumns(Final, DropMissing(rows))
  }

  /** The second cast cannot fail and changes nothing: after the first cast and the recodes
      every cell but BMI is an integer or missing, and the missing ones are dropped first. */
  lemma SecondCastSucceeds(rows: seq<Row>)
    requires IntsOrMissing(rows, |Final|, BmiAt)
    ensures Finish(rows) == Ok(DropMissing(rows))
  {
    FinalLayout();
    FinalNoDup();
    var kept: seq<Row> := DropMissing(rows);
    DropMissingRect(rows, |Final|);
    assert forall k :: 0 <= k < |Final| ==> (Final[k] == "BMI" <==> k == BmiAt);
    forall m: int, k: int | 0 <= m < |kept| && 0 <= k < |Final| && Final[k] != "BMI" ensures kept[m][k].Num? {
      assert kept[m] in rows && kept[m][k] in kept[m];
    }
    CastOfIntegers(Final, kept);
  }

  /** Casting a table whose every column but BMI already holds integers changes nothing. */
  lemma CastOfIntegers(cols: seq<string>, rows: seq<Row>)
    requires Rect(rows, |cols|)
    requires forall i, k :: 0 <= i < |rows| && 0 <= k < |cols| && cols[k] != "BMI" ==> rows[i][k].Num?
    ensures CastColumns(cols, rows) == Ok(rows)
  {
    forall q | 0 <= q < |cols| ensures Castable(cols, rows, q) {
    }
    var cast := CastColumns(cols, rows);
    forall m | 0 <= m < |rows| ensures cast.value[m] == rows[m] {
      forall k | 0 <= k < |cols| ensures cast.value[m][k] == rows[m][k] {
      }
    }
    assert cast.value == rows;
  }


  /** The whole script: the table it writes to preprocessed<year>.csv, or why it stops. */
  function Convert(raw: Frame): (r: Result<Frame>)
    requires WellFormed(raw)
    ensures r.Ok? ==> r.value.columns == Final && Rect(r.value.rows, |Final|)
  {
    match Extract(raw)
    case Err(e) => Err(e)
    case Ok(complete) =>
      match Recast(Derive(complete))
      case Err(e) => Err(e)
      case Ok(recoded) =>
        match Finish(recoded)
        case Err(e) => Err(e)
        case Ok(out) => Ok(Frame(Final, out))
  }

  /** Lines 37-111 on one clean row: BMI comes out as a decimal, the row's _BMI5 divided by 100,
      and the label as the priority of its indicators. */
  lemma MiddleStagesRow(complete: seq<Row>, j: nat)
    requires Rect(complete, |Selected|) && j < |complete| && Clean(complete[j])
    requires Recast(Derive(complete)).Ok?
    ensures var row := Recast(Derive(complete)).value[j];
      && !complete[j][RawBmi].Str?
      && row[BmiAt] == Hundredth(complete[j][RawBmi]) && row[BmiAt].Dec?
      && row[StatusOut] == Num(Priority(complete[j][RawStroke], complete[j][RawInfarction], complete[j][RawCoronary]))
  {
    SelectedLayout();
    var derived := Derive(complete);
    RecastRows(derived);
    DeriveRow(complete, j);
    KeptAfterLabelAt();
    var row := Recast(derived).value[j];
    var bmi := complete[j][RawBmi];
    assert derived[j][BmiAt] == bmi;
    assert row[BmiAt] == Hundredth(bmi);
    assert bmi != Missing && !bmi.Str?;
    assert row[StatusOut] == Num(AsInt(derived[j][StatusAt]).value);
  }

  /** A row as the script writes it: nothing missing, BMI a decimal, every other column an integer. */
  predicate Written(row: Row)
    requires |row| == |Final|
  {
    Missing !in row && row[BmiAt].Dec? && forall k :: 0 <= k < |Final| && k != BmiAt ==> row[k].Num?
  }

  /** `row` was made from the clean source cells `src`: its BMI is their _BMI5 divided by 100
      and its label the priority of their three indicators. */
  predicate Traces(row: Row, src: Row)
    requires |row| == |Final| && |src| == |Selected|
  {
    Clean(src) && !src[RawBmi].Str? && row[BmiAt] == Hundredth(src[RawBmi])
    && row[StatusOut] == Num(Priority(src[RawStroke], src[RawInfarction], src[RawCoronary]))
  }

  /** When the script gets through, its table is the recoded rows without the incomplete ones. */
  lemma ConvertStages(raw: Frame)
    requires WellFormed(raw) && Convert(raw).Ok?
    ensures Extract(raw).Ok? && Recast(Derive(Extract(raw).value)).Ok?
    ensures Convert(raw).value.rows == DropMissing(Recast(Derive(Extract(raw).value)).value)
  {
    var derived := Derive(Extract(raw).value);
    RecastRows(derived);
    SecondCastSucceeds(Recast(derived).value);
  }

  /** A row that survives the last drop of a table of integers and missing markers is complete
      and holds integers everywhere but in column `skip`. */
  lemma SurvivorCells(rows: seq<Row>, width: nat, skip: nat, m: nat)
    requires IntsOrMissing(rows, width, skip) && m < |DropMissing(rows)|
    ensures DropMissing(rows)[m] in rows && Missing !in DropMissing(rows)[m]
    ensures forall k :: 0 <= k < width && k != skip ==> DropMissing(rows)[m][k].Num?
  {
    var row := DropMissing(rows)[m];
    forall k | 0 <= k < width && k != skip ensures row[k].Num? {
      assert row[k] in row;
    }
  }

  /** Lines 37-120 on the clean rows of `sel`: every written row is complete and comes from one
      of them. */
  lemma TracedRow(sel: seq<Row>, m: nat)
    requires Rect(sel, |Selected|)
    requires Rect(KeepClean(sel), |Selected|) && Recast(Derive(KeepClean(sel))).Ok?
    requires m < |DropMissing(Recast(Derive(KeepClean(sel))).value)|
    ensures var row := DropMissing(Recast(Derive(KeepClean(sel))).value)[m];
      |row| == |Final| && Written(row) && exists i :: 0 <= i < |sel| && Traces(row, sel[i])
  {
    var complete := KeepClean(sel);
    var derived := Derive(complete);
    RecastRows(derived);
    var recoded := Recast(derived).value;
    SurvivorCells(recoded, |Final|, BmiAt, m);
    var row := DropMissing(recoded)[m];
    var j :| 0 <= j < |recoded| && recoded[j] == row;
    assert complete[j] in sel;
    var i :| 0 <= i < |sel| && sel[i] == complete[j];
    MiddleStagesRow(complete, j);
    FinalLayout();
  }

  /** One row of the written table. */
  lemma ConvertRow(raw: Frame, m: nat)
    requires WellFormed(raw) && Convert(raw).Ok? && m < |Convert(raw).value.rows|
    ensures Absent(raw.columns, ColumnsToSelect) == []
    ensures Written(Convert(raw).value.rows[m])
    ensures exists i :: 0 <= i < |raw.rows| && Traces(Convert(raw).value.rows[m], Selection(raw)[i])
  {
    ConvertStages(raw);
    TracedRow(Selection(raw), m);
  }

  /** The table the script writes: every row is written as promised (nothing missing, BMI a
      decimal, the rest integers) and comes from a clean source row whose _BMI5 and indicators
      give its BMI and its label. */
  lemma ConvertOutput(raw: Frame)
    requires WellFormed(raw) && Convert(raw).Ok?
    ensures Absent(raw.columns, ColumnsToSelect) == []
    ensures forall m :: 0 <= m < |Convert(raw).value.rows| ==>
              Written(Convert(raw).value.rows[m]) &&
              exists i :: 0 <= i < |raw.rows| && Traces(Convert(raw).value.rows[m], Selection(raw)[i])
  {
    ConvertStages(raw);
    forall m | 0 <= m < |Convert(raw).value.rows|
      ensures Written(Convert(raw).value.rows[m])
      ensures exists i :: 0 <= i < |raw.rows| && Traces(Convert(raw).value.rows[m], Selection(raw)[i])
    {
      ConvertRow(raw, m);
    }
  }

  /** Why the script stops: an absent requested column (and only then a KeyError), a column
      that does not cast to int in the first loop, or text in BMI at the rescale. The second
      loop never fails. */
  lemma ConvertErrors(raw: Frame)
    requires WellFormed(raw)
    ensures Convert(raw).Err? && Convert(raw).error.MissingColumns? <==> Absent(raw.columns, ColumnsToSelect) != []
    ensures Convert(raw).Err? ==>
              Convert(raw).error == MissingColumns(Absent(raw.columns, ColumnsToSelect))
              || (Convert(raw).error.NotInteger? && Convert(raw).error.column in Renamed)
              || Convert(raw).error == NotNumeric("BMI")
    ensures Convert(raw).Err? && Convert(raw).error.NotInteger? ==>
              && Extract(raw).Ok?
              && CastColumns(Renamed, Derive(Extract(raw).value)) == Err(Convert(raw).error)
    ensures Convert(raw).Err? && Convert(raw).error == NotNumeric("BMI") ==>
              && Extract(raw).Ok?
              && CastColumns(Renamed, Derive(Extract(raw).value)).Ok?
              && exists i :: 0 <= i < |Extract(raw).value| && Derive(Extract(raw).value)[i][BmiAt].Str?
  {
    match Extract(raw)
    case Err(e) =>
    case Ok(complete) =>
      var derived := Derive(complete);
      RecastRows(derived);
      match Recast(derived)
      case Err(e) =>
      case Ok(recoded) =>
        SecondCastSucceeds(recoded);
  }

  /** Column names after the label step: the indicators are gone, so the friendly name "Stroke"
      is never used, and the written table has no Income column. */
  lemma IndicatorsNotRenamed()
    ensures forall n :: n in Indicators ==> n !in Renamed
    ensures "Stroke" !in Renamed
  {
  }

  lemma DroppedNames()
    ensures forall n :: n in Indicators ==> n !in Renamed && n !in Final
    ensures "Stroke" !in Renamed && "Income" !in Final && "Income" in Renamed
  {
    RenamedLayout();
    RenamedNoDup();
    FinalFromRenamed();
    IndicatorsNotRenamed();
    forall n | n in Final ensures n in Renamed && n != "Income" {
      var k :| 0 <= k < |Final| && Final[k] == n;
      var j := if k < IncomeAt then k else k + 1;
      assert Renamed[j] == n && j != IncomeAt;
    }
  }

  /** The recode maps look each value up once: 1 and 2 swap places in the smoker and sex maps
      rather than both ending at 0, a decimal that equals a code is recoded like the code, and
      values a map does not list are kept. */
  lemma RecodeExamples()
    ensures Recode(Num(1), SmokerCodes) == Num(0) && Recode(Num(2), SmokerCodes) == Num(1)
    ensures Recode(Num(1), SexCodes) == Num(0) && Recode(Dec(2.0), SexCodes) == Num(1)
    ensures Recode(Num(2), DiabetesCodes) == Num(1) && Recode(Num(3), DiabetesCodes) == Num(0)
    ensures Recode(Num(4), DiabetesCodes) == Num(0) && Recode(Num(1), DiabetesCodes) == Num(1)
    ensures Recode(Num(88), NoDaysCodes) == Num(0) && Recode(Num(30), NoDaysCodes) == Num(30)
    ensures Recode(Str("2"), SexCodes) == Str("2") && Recode(Dec(2.5), SexCodes) == Dec(2.5)
  {
  }
}
