/** The survey cleaner of MINIPROJECT/convertor.py as the script runs it: one table held in an
    array of rows and changed pass by pass, column assignments in place, the label by a default
    and three masked writes, the casts by a loop over the columns. Every pass is proved to
    compute the pure stage of the same name in Convertor, and the whole run to compute Convert. */
module ConvertorScript {
  import opened Frames
  import opened Convertor

  /** A fresh array holding `s`. */
  method ToArray(s: seq<Row>) returns (a: array<Row>)
    ensures fresh(a) && a[..] == s
  {
    a := new Row[|s|](i requires 0 <= i < |s| => s[i]);
  }

  /** `df[col] = df[col].replace(codes)`, with the column at position `j`. */
  method ReplaceInColumn(rows: array<Row>, width: nat, j: nat, codes: Codes)
    requires Rect(rows[..], width) && j < width
    modifies rows
    ensures rows[..] == RecodeColumn(old(rows[..]), width, j, codes)
  {
    ghost var before := rows[..];
    for i := 0 to rows.Length
      invariant forall q :: 0 <= q < i ==> rows[q] == before[q][j := Recode(before[q][j], codes)]
      invariant forall q :: i <= q < rows.Length ==> rows[q] == before[q]
    {
      rows[i] := rows[i][j := Recode(rows[i][j], codes)];
    }
  }

  /** A run of recode lines, one after the other. */
  method ReplaceAll(rows: array<Row>, width: nat, steps: seq<Step>)
    requires Rect(rows[..], width) && forall k :: 0 <= k < |steps| ==> steps[k].at < width
    modifies rows
    ensures rows[..] == RecodeAll(old(rows[..]), width, steps)
  {
    ghost var before := rows[..];
    for n := 0 to |steps|
      invariant Rect(rows[..], width)
      invariant RecodeAll(before, width, steps) == RecodeAll(rows[..], width, steps[n..])
    {
      assert steps[n..][1..] == steps[n + 1..];
      ReplaceInColumn(rows, width, steps[n].at, steps[n].codes);
    }
  }

  /** Line 31: `replace(sentinels, pd.NA)` over the whole table. */
  method BlankInPlace(rows: array<Row>)
    modifies rows
    ensures rows[..] == BlankSentinels(old(rows[..]))
  {
    ghost var before := rows[..];
    for i := 0 to rows.Length
      invariant forall q :: 0 <= q < i ==> rows[q] == BlankRow(before[q])
      invariant forall q :: i <= q < rows.Length ==> rows[q] == before[q]
    {
      rows[i] := BlankRow(rows[i]);
    }
  }

  /** `df.dropna()`: a new table of the complete rows, in order. */
  method DropIncomplete(rows: array<Row>) returns (kept: array<Row>)
    ensures fresh(kept) && kept[..] == DropMissing(rows[..])
  {
    var acc: seq<Row> := [];
    for i := 0 to rows.Length
      invariant acc == DropMissing(rows[..i])
    {
      assert rows[..i + 1] == rows[..i] + [rows[i]];
      DropMissingAppend(rows[..i], [rows[i]]);
      DropMissingSingle(rows[i]);
      if Missing !in rows[i] {
        acc := acc + [rows[i]];
      }
    }
    assert rows[..rows.Length] == rows[..];
    kept := ToArray(acc);
  }

  /** Column selection or `drop(columns=...)`: a new table of the cells at the listed positions. */
  method ProjectColumns(rows: array<Row>, width: nat, pos: seq<nat>) returns (out: array<Row>)
    requires Rect(rows[..], width) && forall k :: 0 <= k < |pos| ==> pos[k] < width
    ensures fresh(out) && out[..] == ProjectRows(rows[..], width, pos)
  {
    out := new Row[rows.Length];
    for i := 0 to rows.Length
      invariant forall q :: 0 <= q < i ==> out[q] == Project(rows[q], pos)
    {
      out[i] := Project(rows[i], pos);
    }
  }

  /** The label before the masked writes, and after one of them. */
  function Overwrite(status: int, hit: bool, value: int): int
  {
    if hit then value else status
  }

  /** Line 44: a new last column holding `value` in every row. */
  method AppendColumn(rows: array<Row>, width: nat, value: int)
    requires Rect(rows[..], width)
    modifies rows
    ensures Rect(rows[..], width + 1)
    ensures forall q :: 0 <= q < rows.Length ==> rows[q] == old(rows[q]) + [Num(value)]
  {
    ghost var before := rows[..];
    for i := 0 to rows.Length
      invariant forall q :: 0 <= q < i ==> rows[q] == before[q] + [Num(value)]
      invariant forall q :: i <= q < rows.Length ==> rows[q] == before[q]
    {
      rows[i] := rows[i] + [Num(value)];
    }
  }

  /** Lines 47-49, one of them: `df.loc[df[col] == 1, label] = value`. */
  method MaskedWrite(rows: array<Row>, width: nat, col: nat, value: int)
    requires Rect(rows[..], width + 1) && col < width
    modifies rows
    ensures Rect(rows[..], width + 1)
    ensures forall q :: 0 <= q < rows.Length ==>
              rows[q][..width] == old(rows[q])[..width] && |rows[q]| == width + 1
    ensures forall q :: 0 <= q < rows.Length ==>
              rows[q][width] == if IsOne(old(rows[q])[col]) then Num(value) else old(rows[q])[width]
  {
    ghost var before := rows[..];
    for i := 0 to rows.Length
      invariant forall q :: 0 <= q < i ==>
                  rows[q] == if IsOne(before[q][col]) then before[q][width := Num(value)] else before[q]
      invariant forall q :: i <= q < rows.Length ==> rows[q] == before[q]
    {
      if IsOne(rows[i][col]) {
        rows[i] := rows[i][width := Num(value)];
      }
    }
  }

  /** Lines 44-49: the label set to 4, then overwritten where CVDCRHD4, CVDINFR4 and CVDSTRK3
      are 1, in that order, so that the last write wins. The result is the priority label. */
  method DeriveStatus(rows: array<Row>, width: nat, stroke: nat, infarction: nat, coronary: nat)
    requires Rect(rows[..], width) && stroke < width && infarction < width && coronary < width
    modifies rows
    ensures rows[..] == WithStatus(old(rows[..]), width, stroke, infarction, coronary)
  {
    ghost var before := rows[..];
    AppendColumn(rows, width, 4);
    MaskedWrite(rows, width, coronary, 1);
    MaskedWrite(rows, width, infarction, 2);
    MaskedWrite(rows, width, stroke, 3);
    forall q | 0 <= q < rows.Length
      ensures rows[q] == before[q] + [Num(Priority(before[q][stroke], before[q][infarction], before[q][coronary]))]
    {
      var r := before[q];
      var status := Overwrite(Overwrite(Overwrite(4, IsOne(r[coronary]), 1), IsOne(r[infarction]), 2), IsOne(r[stroke]), 3);
      assert rows[q][..width] == r && rows[q][width] == Num(status);
      assert rows[q] == rows[q][..width] + [rows[q][width]];
    }
  }

  /** A row with the columns before `n` cast to int (BMI and unconvertible cells left alone). */
  function CastUpTo(cols: seq<string>, row: Row, n: nat): (r: Row)
    requires |row| == |cols|
    ensures |r| == |row|
    ensures forall q :: 0 <= q < |row| ==>
              r[q] == if q < n && cols[q] != "BMI" && AsInt(row[q]).Some? then Num(AsInt(row[q]).value) else row[q]
  {
    seq(|row|, q requires 0 <= q < |row| =>
      if q < n && cols[q] != "BMI" && AsInt(row[q]).Some? then Num(AsInt(row[q]).value) else row[q])
  }

  /** Whether `astype(int)` can convert every cell of column `k`. */
  method Converts(rows: array<Row>, width: nat, k: nat) returns (ok: bool)
    requires Rect(rows[..], width) && k < width
    ensures ok <==> forall i :: 0 <= i < rows.Length ==> AsInt(rows[i][k]).Some?
  {
    for i := 0 to rows.Length
      invariant forall q :: 0 <= q < i ==> AsInt(rows[q][k]).Some?
    {
      if AsInt(rows[i][k]).None? {
        return false;
      }
    }
    return true;
  }

  /** `df[col] = df[col].astype(int)` for a column that converts. */
  method CastColumnInPlace(rows: array<Row>, width: nat, k: nat)
    requires Rect(rows[..], width) && k < width
    requires forall i :: 0 <= i < rows.Length ==> AsInt(rows[i][k]).Some?
    modifies rows
    ensures Rect(rows[..], width)
    ensures forall i :: 0 <= i < rows.Length ==>
              AsInt(old(rows[i])[k]).Some? && rows[i] == old(rows[i])[k := Num(AsInt(old(rows[i])[k]).value)]
  {
    ghost var before := rows[..];
    for i := 0 to rows.Length
      invariant forall q :: 0 <= q < i ==> rows[q] == before[q][k := Num(AsInt(before[q][k]).value)]
      invariant forall q :: i <= q < rows.Length ==> rows[q] == before[q]
    {
      rows[i] := rows[i][k := Num(AsInt(rows[i][k]).value)];
    }
  }

  /** Lines 88-90 and 117-120: the loop over the columns, casting all but BMI; the first column
      that does not convert raises, which ends the script. */
  method CastInPlace(cols: seq<string>, rows: array<Row>) returns (err: Option<Error>)
    requires Rect(rows[..], |cols|)
    modifies rows
    ensures err.Some? <==> CastColumns(cols, old(rows[..])).Err?
    ensures err.Some? ==> err.value == CastColumns(cols, old(rows[..])).error
    ensures err.None? ==> rows[..] == CastColumns(cols, old(rows[..])).value
  {
    ghost var before := rows[..];
    for k := 0 to |cols|
      invariant Rect(rows[..], |cols|)
      invariant forall i :: 0 <= i < rows.Length ==> rows[i] == CastUpTo(cols, before[i], k)
      invariant forall q :: 0 <= q < k ==> Castable(cols, before, q)
      invariant FirstUncastable(cols, before, 0) == FirstUncastable(cols, before, k)
    {
      if cols[k] != "BMI" {
        var ok := Converts(rows, |cols|, k);
        if !ok {
          assert !Castable(cols, before, k);
          return Some(NotInteger(cols[k]));
        }
        CastColumnInPlace(rows, |cols|, k);
      }
      forall i | 0 <= i < rows.Length ensures rows[i] == CastUpTo(cols, before[i], k + 1) {
        assert |rows[i]| == |CastUpTo(cols, before[i], k + 1)|;
      }
    }
    forall i | 0 <= i < rows.Length ensures rows[i] == CastRow(cols, before[i]) {
      assert |rows[i]| == |CastRow(cols, before[i])|;
    }
    return None;
  }

  /** Line 95: `df['BMI'] = df['BMI'] / 100`; a text cell raises before anything is written. */
  method ScaleInPlace(rows: array<Row>, width: nat, j: nat, name: string) returns (err: Option<Error>)
    requires Rect(rows[..], width) && j < width
    modifies rows
    ensures err.Some? <==> ScaleColumn(old(rows[..]), width, j, name).Err?
    ensures err.Some? ==> err.value == ScaleColumn(old(rows[..]), width, j, name).error
    ensures err.None? ==> rows[..] == ScaleColumn(old(rows[..]), width, j, name).value
  {
    ghost var before := rows[..];
    for i := 0 to rows.Length
      invariant forall q :: 0 <= q < i ==> !rows[q][j].Str?
    {
      if rows[i][j].Str? {
        return Some(NotNumeric(name));
      }
    }
    for i := 0 to rows.Length
      invariant forall q :: 0 <= q < i ==> rows[q] == before[q][j := Hundredth(before[q][j])]
      invariant forall q :: i <= q < rows.Length ==> rows[q] == before[q]
    {
      rows[i] := rows[i][j := Hundredth(rows[i][j])];
    }
    return None;
  }

  /** Lines 14-33 on a fresh copy of the source rows. */
  method RunExtract(raw: Frame) returns (r: Result<seq<Row>>)
    requires WellFormed(raw)
    ensures r == Extract(raw)
  {
    var absent := Absent(raw.columns, ColumnsToSelect);
    if absent != [] {
      return Err(MissingColumns(absent));
    }
    var table := ToArray(raw.rows);
    var picked := ProjectColumns(table, |raw.columns|, SelectPositions(raw.columns, ColumnsToSelect));
    DedupPositions();
    var unique := ProjectColumns(picked, |ColumnsToSelect|, FirstPositions(ColumnsToSelect, |ColumnsToSelect|));
    BlankInPlace(unique);
    var kept := DropIncomplete(unique);
    return Ok(kept[..]);
  }

  /** Lines 37-77: five recodes and the label pass on the table in place, then the drop. */
  method RunDerive(rows: seq<Row>) returns (r: seq<Row>)
    requires Rect(rows, |Selected|)
    ensures r == Derive(rows)
  {
    SelectedLayout();
    var w := |Selected|;
    var table := ToArray(rows);
    ReplaceInColumn(table, w, RawChol, CholesterolCodes);
    ReplaceInColumn(table, w, RawSmoker, SmokerCodes);
    ReplaceInColumn(table, w, RawBpMeds, BpMedsCodes);
    ReplaceInColumn(table, w, RawMentHlth, NoDaysCodes);
    ReplaceInColumn(table, w, RawPhysHlth, NoDaysCodes);
    DeriveStatus(table, w, RawStroke, RawInfarction, RawCoronary);
    IndicatorDropPositions();
    var out := ProjectColumns(table, w + 1, KeptPositions(Selected + [StatusColumn], Indicators, w + 1));
    return out[..];
  }

  /** Lines 86-111: the cast loop, the recodes and the rescale in place, the drop of Income. */
  method RunRecast(rows: seq<Row>) returns (r: Result<seq<Row>>)
    requires Rect(rows, |Renamed|)
    ensures r == Recast(rows)
  {
    EarlyRecodesSafe();
    MiddleRecodesSafe();
    LateRecodesSafe();
    IncomeDropPositions();
    RenamedLayout();
    FinalLayout();
    var w := |Renamed|;
    var table := ToArray(rows);
    var err := CastInPlace(Renamed, table);
    if err.Some? {
      return Err(err.value);
    }
    ReplaceAll(table, w, EarlyRecodes);
    err := ScaleInPlace(table, w, BmiAt, "BMI");
    if err.Some? {
      return Err(err.value);
    }
    ReplaceAll(table, w, MiddleRecodes);
    var rest := ProjectColumns(table, w, KeptPositions(Renamed, {"Income"}, w));
    ReplaceAll(rest, |Final|, LateRecodes);
    return Ok(rest[..]);
  }

  /** Lines 113-120: the drop and the second cast loop. */
  method RunFinish(rows: seq<Row>) returns (r: Result<seq<Row>>)
    requires Rect(rows, |Final|)
    ensures r == Finish(rows)
  {
    var table := ToArray(rows);
    var kept := DropIncomplete(table);
    DropMissingRect(rows, |Final|);
    var err := CastInPlace(Final, kept);
    if err.Some? {
      return Err(err.value);
    }
    return Ok(kept[..]);
  }

  /** The whole script, pass by pass: it computes exactly the pure model of it. */
  method Preprocess(raw: Frame) returns (r: Result<Frame>)
    requires WellFormed(raw)
    ensures r == Convert(raw)
  {
    var extracted := RunExtract(raw);
    if extracted.Err? {
      return Err(extracted.error);
    }
    var derived := RunDerive(extracted.value);
    var recast := RunRecast(derived);
    if recast.Err? {
      return Err(recast.error);
    }
    var finished := RunFinish(recast.value);
    if finished.Err? {
      return Err(finished.error);
    }
    return Ok(Frame(Final, finished.value));
  }
}
