# Heart-disease survey preprocessing, modelled in Dafny

This project models the row-level feature engineering of the heart-disease survey pipeline. It covers two scripts:

- **The survey cleaner** (`MINIPROJECT/convertor.py`). It selects 22 requested BRFSS columns and drops the repeated `CVDSTRK3`. It cleans the column names. It blanks out the "no answer" sentinels and drops every incomplete row. It recodes categorical answers through small value maps. It derives the four-valued `Heart_Disease_Status` label from three indicators: a default of 4 followed by three masked overwrites. It renames columns to friendly names. It then casts every column but BMI to int, recodes PhysActivity and HighChol, divides BMI by 100, recodes the remaining answers, drops `Income`, recodes three more columns, drops incomplete rows and casts once more.
- **The binner** (`MINIPROJECT/binner.py`, `preprocess_data`). It cuts BMI into four right-closed classes and the mental- and physical-health day counts into six 5-day classes. It or-s the `Fruits` and `Veggies` flags into `Fruits_Veggies` and drops the two originals.

A table is a `Frame`: a column list and rows of cells, each row laid out in the order of the column list. A cell is an integer, an exact decimal, a text, or the missing marker (pandas NA/NaN). Every way a script can stop is an `Error` value:

- `MissingColumns` for a KeyError;
- `NotInteger` for a failed `astype(int)`;
- `NotNumeric` for text in BMI;
- `NotBinnable` for a value outside every bin;
- `NotBitwise` for a flag column that is not all integers.

Files:

- `frames.dfy` (module `Frames`): cells, rows and frames. It also holds the pandas column operations both scripts use: column lookup, selection by position, `dropna()` and `drop(columns=...)`.
- `convertor.dfy` (module `Convertor`): the cleaner as pure definitions. It holds the column lists, name cleaning, the sentinel and recode maps, the priority label, `astype(int)` and the BMI rescale. Composed from these, `Convert` is the table the script writes, and lemmas state what that table holds.
- `convertor_script.dfy` (module `ConvertorScript`): the cleaner as the script runs it. One table is held in an `array` of rows and changed pass by pass: column reassignments in place, the label as a default plus three masked writes, and the casts as a loop over the columns. Each pass is proved to compute the pure stage of the same name, and `Preprocess` is proved to compute `Convert`.
- `binner.dfy` (module `Binner`): `pd.cut` over edges that may be infinite, and the BMI and health bins. It also holds the bitwise or of line 38 (numpy's `|` on int64 columns), modelled as two's-complement or on unbounded integers, which agrees with numpy's on every pair of int64 values. It models `preprocess_data` as per-row functions mapped over the rows.

Three behaviours of the code worth knowing:

- **Sentinels.** Line 31 of `MINIPROJECT/convertor.py` blanks the integers 77 and 99 and the texts `'7'`, `'9'`, `'BLANK'`, `'Don’t know/Not sure'`, `'Refused'` and `'Missing'`. It does not blank the integers 7 and 9. Those are turned into missing markers only by the later per-column recode maps.
- **BMI boundaries.** The BMI bins are right-closed (`pd.cut` default), so a BMI of exactly 18.5 is class 0, not class 1 (`Binner.BmiExamples`).
- **Fruits and Veggies.** The comment at `MINIPROJECT/binner.py:36-38` says the merged flag is an AND. The code computes `Fruits | Veggies`, a bitwise OR, which on 0/1 flags is a logical or (`Binner.Or`).

## Model

| member | source | states |
|---|---|---|
| Frames.IndexOf | MINIPROJECT/convertor.py:22 | the position found is the first column with that name, and it is past the end exactly when no column has the name |
| Frames.Project | MINIPROJECT/convertor.py:22 | the cut-down row holds, in the listed order, the cells at the listed positions |
| Frames.ProjectRows | MINIPROJECT/convertor.py:22 | every row is cut down the same way; the row count is kept |
| Frames.DropMissing | MINIPROJECT/convertor.py:33 | `dropna()` keeps only rows of the table that hold no missing cell, never more rows than it had |
| Frames.DropMissingAppend | MINIPROJECT/convertor.py:33 | dropping works row by row and keeps the order of the surviving rows |
| Frames.DropMissingSingle | MINIPROJECT/convertor.py:33 | a single row is dropped exactly when it holds a missing cell |
| Frames.DropMissingKeeps | MINIPROJECT/convertor.py:114 | every complete row survives the drop |
| Frames.DropMissingComplete | MINIPROJECT/convertor.py:114 | a table with no missing cell is left exactly as it is |
| Frames.DropMissingRect | MINIPROJECT/convertor.py:114 | the surviving rows keep the width of the table |
| Frames.IncreasingUnique | MINIPROJECT/convertor.py:25 | two increasing position lists with the same members are equal |
| Frames.KeptPositionsPrefix | MINIPROJECT/convertor.py:52 | whether a position is kept does not depend on the columns after it |
| Frames.KeptPositions | MINIPROJECT/convertor.py:52 | `drop(columns=...)` keeps only positions inside the table |
| Frames.KeptPositionsSpec | MINIPROJECT/convertor.py:52 | the kept positions are increasing, and a position is kept exactly when its name is not dropped |
| Frames.DropOne | MINIPROJECT/convertor.py:107 | dropping the one column with a dropped name keeps every other position, in order |
| Frames.DropNames | MINIPROJECT/convertor.py:52 | the remaining names are columns of the table and none is dropped; they are the names at the kept positions, in the order of those positions |
| Frames.DropNamesSpec | MINIPROJECT/binner.py:41 | a name remains exactly when it is a column and is not dropped; dropping an absent name is not an error |
| Frames.DropNamesSnoc | MINIPROJECT/convertor.py:52 | dropping from a list extended by one name gives the earlier result followed by that name, unless it is dropped: the order is kept |
| Frames.DropNamesCount | MINIPROJECT/binner.py:41 | a name that is not dropped remains exactly as often as it occurs; a dropped name never remains |
| Convertor.Absent | MINIPROJECT/convertor.py:22 | the names reported missing are exactly the requested names the source table lacks, each once, in the order of their first request |
| Convertor.AbsentBelow | MINIPROJECT/convertor.py:22 | among the first n requests, the absent names, each at its first request and in request order |
| Convertor.SelectPositions | MINIPROJECT/convertor.py:22 | each requested name is found at a position of the source table that carries that name |
| Convertor.FirstPositionsSpec | MINIPROJECT/convertor.py:25 | `~columns.duplicated()` keeps, in order, exactly the positions whose name does not occur earlier |
| Convertor.FirstPositions | MINIPROJECT/convertor.py:25 | every position `~columns.duplicated()` keeps lies within the list |
| Convertor.FirstPositionsIncreasing | MINIPROJECT/convertor.py:25 | the positions `~columns.duplicated()` keeps are listed in increasing order |
| Convertor.FirstPositionsMembers | MINIPROJECT/convertor.py:25 | a position is kept exactly when its name does not occur earlier |
| Convertor.DedupKeepsFirst | MINIPROJECT/convertor.py:25 | after de-duplication every name appears exactly once, and the same names are present |
| Convertor.DedupOrder | MINIPROJECT/convertor.py:25 | the de-duplicated names come in the order of their first occurrences |
| Convertor.Dedup | MINIPROJECT/convertor.py:25 | the names left after de-duplication are the names at the first positions, in the order of those positions |
| Convertor.FirstPositionsUnique | MINIPROJECT/convertor.py:25 | any increasing list of exactly the first-occurrence positions is the list `~columns.duplicated()` keeps |
| Convertor.DedupSelected | MINIPROJECT/convertor.py:14-25 | de-duplicating the 22 requested names gives the 21 selected ones: the second CVDSTRK3 goes, the first stays |
| Convertor.StripLeading | MINIPROJECT/convertor.py:28 | `strip()` removes only whitespace at the front, and the result starts with a non-whitespace character |
| Convertor.StripTrailing | MINIPROJECT/convertor.py:28 | the same at the end |
| Convertor.RemoveSpaces | MINIPROJECT/convertor.py:28 | `replace(' ', '')` leaves no space character, keeps every other character exactly as often as it occurs (so the text shrinks by its number of spaces), and keeps a leading non-space character |
| Convertor.RemoveSpacesAppend | MINIPROJECT/convertor.py:28 | removing spaces from a concatenation removes them from each part |
| Convertor.RemoveSpacesNone | MINIPROJECT/convertor.py:28 | a text without spaces is unchanged |
| Convertor.CleanName | MINIPROJECT/convertor.py:28 | a cleaned name is the stripped name with its spaces removed; it contains no space and neither starts nor ends with whitespace |
| Convertor.StripEnds | MINIPROJECT/convertor.py:28 | `str.strip()` leaves a text that neither starts nor ends with whitespace |
| Convertor.RemoveSpacesEnds | MINIPROJECT/convertor.py:28 | removing spaces from a text without whitespace at its ends keeps it so |
| Convertor.CleanNameFixed | MINIPROJECT/convertor.py:28 | a name that is already clean is left unchanged |
| Convertor.CleanNameIdempotent | MINIPROJECT/convertor.py:28 | cleaning twice is cleaning once |
| Convertor.SelectedNamesClean | MINIPROJECT/convertor.py:28 | line 28 leaves every selected name as it is |
| Convertor.Key | MINIPROJECT/convertor.py:31 | a cell matches an integer key when it is that integer or a decimal equal to it; text never matches |
| Convertor.IsSentinel | MINIPROJECT/convertor.py:31 | a number is blanked exactly when it is 77 or 99 (as an integer or as a decimal), a text exactly when it is one of the six listed, and a missing cell is not a sentinel |
| Convertor.Recode | MINIPROJECT/convertor.py:37-41 | `replace(map)` looks the original value up once: a listed value gets its image, an unlisted one is kept |
| Convertor.RecodeExamples | MINIPROJECT/convertor.py:37-41 | smoker and sex maps send 1 to 0 and 2 to 1 without chaining; Diabetes sends 2 to 1 and 3 and 4 to 0 and keeps 1; 88 days become 0 and other counts stay |
| Convertor.Priority | MINIPROJECT/convertor.py:44-49 | the label is in 1..4; it is 3 exactly when CVDSTRK3 is 1, 2 exactly when not that but CVDINFR4 is 1, 1 exactly when only CVDCRHD4 is 1, and 4 otherwise |
| Convertor.AsInt | MINIPROJECT/convertor.py:90 | `astype(int)` keeps integers, truncates decimals toward zero, and fails on text and missing cells |
| Convertor.Hundredth | MINIPROJECT/convertor.py:95 | division by 100 turns a number into the decimal a hundredth of it and keeps a missing cell missing |
| Convertor.BlankRow | MINIPROJECT/convertor.py:31 | each sentinel becomes the missing marker and every other cell stays |
| Convertor.BlankSentinels | MINIPROJECT/convertor.py:31 | the whole table is blanked row by row |
| Convertor.KeepClean | MINIPROJECT/convertor.py:31-33 | the kept rows are rows of the table, each free of missing cells and sentinels |
| Convertor.KeepCleanKeeps | MINIPROJECT/convertor.py:31-33 | every row with no sentinel and no missing cell is kept |
| Convertor.KeepCleanAll | MINIPROJECT/convertor.py:31-33 | a table of clean rows is kept whole, in its order |
| Convertor.BlankRowClean | MINIPROJECT/convertor.py:31 | blanking leaves a missing cell exactly when the row is not clean, and leaves a clean row unchanged |
| Convertor.BlankThenDrop | MINIPROJECT/convertor.py:31-33 | blanking then `dropna()` keeps exactly the clean rows, unchanged and in their original order |
| Convertor.RecodeColumn | MINIPROJECT/convertor.py:37 | only the addressed column changes, each cell through the map |
| Convertor.RecodeAll | MINIPROJECT/convertor.py:93-111 | a run of recode lines keeps the row count and the width; what each cell becomes is `RecodeAllAt` |
| Convertor.RecodeAllKeeps | MINIPROJECT/convertor.py:93-111 | a column no line addresses comes through a run of recodes unchanged |
| Convertor.RecodeAllAt | MINIPROJECT/convertor.py:93-111 | in a run whose lines address distinct columns every cell comes out as its column's map applied to the cell as it was; a column no line addresses keeps its cells |
| Convertor.CodesForAt | MINIPROJECT/convertor.py:93-111 | a column first addressed by line `t` gets line `t`'s map |
| Convertor.CodesForUntouched | MINIPROJECT/convertor.py:93-111 | a column no line addresses gets the empty map |
| Convertor.RecodeAllInts | MINIPROJECT/convertor.py:93-111 | recode maps whose images are integers or missing keep a table of integers and missing markers so |
| Convertor.ProjectInts | MINIPROJECT/convertor.py:107 | dropping columns keeps a table of integers and missing markers so |
| Convertor.WithStatus | MINIPROJECT/convertor.py:44-49 | the label column is appended after the others and holds the priority label of each row's three indicators |
| Convertor.FirstUncastable | MINIPROJECT/convertor.py:88-90 | the first column the cast loop fails on: every column before it casts, and it does not |
| Convertor.CastRow | MINIPROJECT/convertor.py:88-90 | after the cast every convertible non-BMI cell holds its integer, and BMI is untouched |
| Convertor.CastColumns | MINIPROJECT/convertor.py:86-90 | the loop succeeds exactly when every non-BMI cell converts; then those cells hold their integers and BMI is untouched; otherwise it stops with the first failing column |
| Convertor.ScaleColumn | MINIPROJECT/convertor.py:95 | fails exactly when BMI holds text; otherwise only BMI changes, to a hundredth of itself |
| Convertor.SelectedNoDup | MINIPROJECT/convertor.py:14-25 | the selected names are distinct |
| Convertor.RenamedNoDup | MINIPROJECT/convertor.py:55-77 | the renamed columns are distinct |
| Convertor.FinalNoDup | MINIPROJECT/convertor.py:107 | the written columns are distinct |
| Convertor.FinalFromRenamed | MINIPROJECT/convertor.py:107 | each written column is the renamed column at the same place before Income and one place further after it |
| Convertor.DedupPositions | MINIPROJECT/convertor.py:25 | de-duplicating the request keeps its first 21 positions |
| Convertor.IndicatorDropPositions | MINIPROJECT/convertor.py:52 | dropping the three indicators keeps every other selected column and the label, in order |
| Convertor.IncomeDropPositions | MINIPROJECT/convertor.py:107 | dropping Income keeps every other column, in order |
| Convertor.Friendly | MINIPROJECT/convertor.py:55-77 | a listed raw name gets its friendly name, and any other name is kept |
| Convertor.RenameAll | MINIPROJECT/convertor.py:77 | `rename` changes each name independently and keeps the order |
| Convertor.KeptRawColumns | MINIPROJECT/convertor.py:52 | the names left after dropping the indicators are the 18 others followed by the label |
| Convertor.RenamedColumns | MINIPROJECT/convertor.py:44-77 | adding the label, dropping the indicators and renaming gives the 19 friendly column names |
| Convertor.FinalColumns | MINIPROJECT/convertor.py:107 | dropping Income from those gives the 18 written column names |
| Convertor.DroppedNames | MINIPROJECT/convertor.py:52-77 | the three indicators are in neither the renamed nor the written columns; "Stroke" is never produced; Income is present until line 107 and absent after |
| Convertor.Selection | MINIPROJECT/convertor.py:22 | each row keeps, under every selected name, the source cell of the first column with that name |
| Convertor.Extract | MINIPROJECT/convertor.py:14-33 | the run fails exactly when a requested column is absent, with those names; otherwise the result is the clean source rows cut to the selected columns, in order |
| Convertor.SelectPrefix | MINIPROJECT/convertor.py:22-25 | selecting the request and keeping its first columns is selecting those columns |
| Convertor.Derive | MINIPROJECT/convertor.py:37-77 | the derived table has one row per clean row and the 19 renamed columns |
| Convertor.DeriveRow | MINIPROJECT/convertor.py:37-77 | five columns are recoded, the label is the priority of the indicators, every other kept column is carried over, and a complete row stays complete |
| Convertor.LabelledRow | MINIPROJECT/convertor.py:37-49 | one selected row after the recodes and the label: one cell longer than the selection |
| Convertor.LabelledRowCells | MINIPROJECT/convertor.py:37-49 | the five recoded cells hold their maps' images, the new last cell holds the priority label, every other cell is kept |
| Convertor.DerivedRow | MINIPROJECT/convertor.py:37-77 | one derived row has the 19 renamed columns |
| Convertor.DeriveRowwise | MINIPROJECT/convertor.py:37-77 | lines 37-77 treat every row on its own: each derived row is its selected row relabelled and cut down |
| Convertor.LabelledCells | MINIPROJECT/convertor.py:37-77 | in a derived row HighChol, MentHlth, PhysHlth, Current_Smoker and On_BP_Medication hold the recoded raw cells and the label column the priority label |
| Convertor.CarriedCells | MINIPROJECT/convertor.py:52-77 | every other column of a derived row holds its raw cell unchanged |
| Convertor.DerivedComplete | MINIPROJECT/convertor.py:37-77 | a complete selected row gives a complete derived row |
| Convertor.EarlyRecodesSafe | MINIPROJECT/convertor.py:93-94 | the recodes before the rescale address real columns other than BMI and the label, and write only integers or missing |
| Convertor.MiddleRecodesSafe | MINIPROJECT/convertor.py:96-106 | the same for the recodes after the rescale |
| Convertor.LateRecodesSafe | MINIPROJECT/convertor.py:108-111 | the same for the recodes after Income is dropped |
| Convertor.RecodeRest | MINIPROJECT/convertor.py:96-111 | the table keeps its rows and gets the 18 written columns; what each cell becomes is `RecodeRestAt` |
| Convertor.RecodeRestCells | MINIPROJECT/convertor.py:96-111 | integers and missing markers stay so; BMI and the label are carried over |
| Convertor.RecodeRestAt | MINIPROJECT/convertor.py:96-111 | written column `k` is the column it came from (`k` before Income, `k + 1` past it) put through the map of lines 96-106 and then that of lines 108-111 |
| Convertor.CastKeepsIntegers | MINIPROJECT/convertor.py:86-90 | after the first cast every column but BMI holds integers or missing markers, BMI is unchanged and the label holds the integer of the old label |
| Convertor.CastThenEarly | MINIPROJECT/convertor.py:86-94 | the cast and the two recodes before the rescale keep that, with BMI untouched and the label holding its integer |
| Convertor.ScaleThenRest | MINIPROJECT/convertor.py:95-111 | after the rescale and the remaining recodes BMI is a hundredth of what it was, the label is carried over, and every other cell is an integer or missing |
| Convertor.RecastFailure | MINIPROJECT/convertor.py:86-111 | when lines 86-111 fail it is the first cast, or the rescale on a BMI holding text |
| Convertor.RecastSuccess | MINIPROJECT/convertor.py:86-111 | when they succeed every cell but BMI is an integer or missing, BMI is a hundredth of the source value and the label is carried over |
| Convertor.Recast | MINIPROJECT/convertor.py:86-111 | on success the table keeps its rows and has the 18 written columns |
| Convertor.RecastRows | MINIPROJECT/convertor.py:86-111 | the run fails only on the first cast or on text in BMI; on success every cell but BMI is an integer or missing, BMI is the incoming BMI divided by 100, and the label is cast to int |
| Convertor.EarlyCodesAgree | MINIPROJECT/convertor.py:93-94 | read column by column, lines 93-94 map PhysActivity by {2: 0, 9: NaN}, HighChol by {7: NaN, 9: NaN} and leave every other column |
| Convertor.MiddleCodesAgree | MINIPROJECT/convertor.py:96-106 | read column by column, lines 96-106 give each of Diabetes to Income its own map and leave every other column |
| Convertor.LateCodesAgree | MINIPROJECT/convertor.py:108-111 | read column by column, lines 108-111 map Current_Smoker, Income_Category and On_BP_Medication and leave Age_Group and the rest |
| Convertor.EarlyRecodeAt | MINIPROJECT/convertor.py:93-94 | each cell after lines 93-94 is its column's map applied to the cast cell |
| Convertor.EarlyThenScaleAt | MINIPROJECT/convertor.py:93-95 | after the rescale, BMI is the cast BMI divided by 100 and every other cell is its early recode; a table that gets through had no text in BMI |
| Convertor.RecastCellMaps | MINIPROJECT/convertor.py:86-111 | the early map, the rescale, the middle map and the late map, composed for one written column, are the column-by-column reading `RecastCell` |
| Convertor.RecastCellAt | MINIPROJECT/convertor.py:86-111 | one cell of the table lines 86-111 produce is `RecastCell` of the row the first cast leaves |
| Convertor.RecastCells | MINIPROJECT/convertor.py:86-111 | every cell of that table is `RecastCell` of its cast row: each written column holds its own recode of its source column, BMI divided by 100, and Age_Group and the label as cast |
| Convertor.Finish | MINIPROJECT/convertor.py:113-120 | the final table has the 18 written columns |
| Convertor.SecondCastSucceeds | MINIPROJECT/convertor.py:113-120 | after the recodes the last `dropna()` and cast loop cannot fail and change nothing but the dropped rows |
| Convertor.CastOfIntegers | MINIPROJECT/convertor.py:116-120 | casting a table whose columns other than BMI already hold integers succeeds and changes nothing |
| Convertor.Convert | MINIPROJECT/convertor.py:14-120 | a written table has exactly the 18 final columns and one cell per column in every row |
| Convertor.MiddleStagesRow | MINIPROJECT/convertor.py:37-111 | for one clean row, BMI comes out as the decimal _BMI5/100 and the label as the priority of the row's indicators |
| Convertor.ConvertStages | MINIPROJECT/convertor.py:14-120 | the written table is the recoded rows with the incomplete ones removed |
| Convertor.SurvivorCells | MINIPROJECT/convertor.py:114 | a row surviving the last drop is complete and holds integers outside BMI |
| Convertor.TracedRow | MINIPROJECT/convertor.py:37-120 | every written row is complete and comes from one clean source row |
| Convertor.ConvertRow | MINIPROJECT/convertor.py:14-120 | one written row: nothing missing, BMI a decimal, other columns integers; its BMI is its source _BMI5/100 and its label the priority of its source indicators |
| Convertor.ConvertOutput | MINIPROJECT/convertor.py:14-120 | the same for every written row: no row holds missing, no Income, every column but BMI an integer, BMI = _BMI5/100, label by priority |
| Convertor.ConvertErrors | MINIPROJECT/convertor.py:14-120 | the script stops with a KeyError exactly when a requested column is absent; a cast error is the one the first loop raises on the derived table; a BMI error means the first cast went through and some derived row holds text in BMI; the second loop never fails |
| ConvertorScript.ToArray | MINIPROJECT/convertor.py:22 | a fresh array holding the rows |
| ConvertorScript.ReplaceInColumn | MINIPROJECT/convertor.py:37-41 | the in-place `df[col] = df[col].replace(map)` leaves the table its pure recode |
| ConvertorScript.ReplaceAll | MINIPROJECT/convertor.py:93-111 | a run of in-place recode lines leaves the table its pure run of recodes |
| ConvertorScript.BlankInPlace | MINIPROJECT/convertor.py:31 | the in-place sentinel replacement leaves the table its blanked version |
| ConvertorScript.DropIncomplete | MINIPROJECT/convertor.py:33 | the loop builds a new table holding exactly `dropna()` of the old one |
| ConvertorScript.ProjectColumns | MINIPROJECT/convertor.py:22 | the loop builds a new table of the listed columns |
| ConvertorScript.AppendColumn | MINIPROJECT/convertor.py:44 | every row gets the constant as a new last cell and is otherwise unchanged |
| ConvertorScript.MaskedWrite | MINIPROJECT/convertor.py:47-49 | one `.loc` write: rows whose indicator is 1 get the value in the label column, other rows and other columns are unchanged |
| ConvertorScript.DeriveStatus | MINIPROJECT/convertor.py:44-49 | the default 4 then the writes of 1, 2 and 3, in that order, leave exactly the priority label |
| ConvertorScript.Converts | MINIPROJECT/convertor.py:90 | reports whether every cell of the column converts to int |
| ConvertorScript.CastColumnInPlace | MINIPROJECT/convertor.py:90 | the column's cells are replaced by their integers, everything else kept |
| ConvertorScript.CastInPlace | MINIPROJECT/convertor.py:88-90 | the column-by-column loop fails exactly when the pure cast fails, with the same column, and otherwise leaves the pure cast's table |
| ConvertorScript.ScaleInPlace | MINIPROJECT/convertor.py:95 | fails exactly when the pure rescale does, and otherwise leaves its table |
| ConvertorScript.RunExtract | MINIPROJECT/convertor.py:14-33 | the passes of lines 14-33 compute `Extract` |
| ConvertorScript.RunDerive | MINIPROJECT/convertor.py:37-77 | the in-place recodes and label pass, then the drop, compute `Derive` |
| ConvertorScript.RunRecast | MINIPROJECT/convertor.py:86-111 | the cast loop, in-place recodes, rescale and Income drop compute `Recast`, failures included |
| ConvertorScript.RunFinish | MINIPROJECT/convertor.py:113-120 | the drop and second cast loop compute `Finish` |
| ConvertorScript.Preprocess | MINIPROJECT/convertor.py:14-120 | the whole step-by-step script computes exactly `Convert`: the same table or the same error |
| Binner.CutFrom | MINIPROJECT/binner.py:15-19 | the bin found is the first, from the given one on, that holds the value; none is found only when no such bin holds it |
| Binner.Cut | MINIPROJECT/binner.py:15-19 | `pd.cut` gives a label exactly when some right-closed bin holds the value, and the bin of the label holds it |
| Binner.BinUnique | MINIPROJECT/binner.py:15-33 | with increasing edges no value lies in two bins |
| Binner.CutExact | MINIPROJECT/binner.py:15-33 | with increasing edges the label is the one bin holding the value |
| Binner.CutMonotone | MINIPROJECT/binner.py:15-33 | with increasing edges a larger value never gets a smaller label |
| Binner.BmiEdgesAscending | MINIPROJECT/binner.py:17 | the BMI edges increase |
| Binner.HealthEdgesAscending | MINIPROJECT/binner.py:24 | the day-count edges increase |
| Binner.BmiBins | MINIPROJECT/binner.py:15-19 | every BMI gets a class: at most 18.5 is 0, up to 25 is 1, up to 30 is 2, above 30 is 3 |
| Binner.BmiExamples | MINIPROJECT/binner.py:15-19 | 18.5 is class 0, 18.6 and 25 are class 1, 30 is class 2, 32.4 is class 3 |
| Binner.BmiMonotone | MINIPROJECT/binner.py:15-19 | the BMI class never decreases as BMI grows |
| Binner.HealthBins | MINIPROJECT/binner.py:22-33 | a count gets a class exactly when it is at most 30; class k holds 5k < x <= 5(k+1), and class 0 also everything below; above 30 no bin holds it |
| Binner.HealthMonotone | MINIPROJECT/binner.py:22-26 | the health class never decreases as the count grows |
| Binner.Value | MINIPROJECT/binner.py:15-33 | a cell has a number exactly when it is an integer or a decimal |
| Binner.BinCell | MINIPROJECT/binner.py:15-19 | a cell gets a label exactly when it holds a number lying in some bin, and the label is a bin holding that number |
| Binner.BinRows | MINIPROJECT/binner.py:22-26 | every row has its number in the column replaced by its bin's label, every other cell kept |
| Binner.BinColumn | MINIPROJECT/binner.py:15-33 | an absent column is a KeyError; a cell without a class makes the int cast fail; otherwise only that column changes, to the bin labels |
| Binner.OrStep | MINIPROJECT/binner.py:38 | the lowest bit of an OR is the OR of the lowest bits, and the rest is the OR of the rest |
| Binner.OrBits | MINIPROJECT/binner.py:38 | the bitwise OR of `a` and `b` has each bit set exactly when it is set in `a` or in `b` |
| Binner.Or | MINIPROJECT/binner.py:38 | numpy's `\|` on int64 columns, on unbounded integers (see "## Left out"); on flags 0 and 1 the result is 1 exactly when either flag is 1 |
| Binner.MergeFlags | MINIPROJECT/binner.py:38 | an absent flag column is a KeyError and a non-integer one fails; otherwise Fruits_Veggies is overwritten or appended with the bitwise OR of each row's two flags, everything else kept |
| Binner.MergedRows | MINIPROJECT/binner.py:38 | every row gets the OR of its two flags at the merged column, over the old cell or as a new last cell, everything else kept |
| Binner.DropFlags | MINIPROJECT/binner.py:41 | Fruits and Veggies are gone, whether they were there or not, and the row count is kept |
| Binner.PreprocessData | MINIPROJECT/binner.py:3-43 | the result has the same row count and neither Fruits nor Veggies |
| Binner.BinKeeps | MINIPROJECT/binner.py:15-33 | binning one column leaves the cells of every other column as they were |
| Binner.PreprocessErrors | MINIPROJECT/binner.py:15-41 | `preprocess_data` fails exactly when the frame it gets has an absent, unbinnable or non-integer column, with the error of the first one in the order of the steps |
| Binner.PreprocessColumns | MINIPROJECT/binner.py:38-41 | the result's columns are the input's, with Fruits_Veggies added at the end if it was not there, without Fruits and Veggies |
| Binner.BinnedExact | MINIPROJECT/binner.py:15-33 | a bin label found by the interval test is the label `pd.cut` gives |
| Binner.StagesRow | MINIPROJECT/binner.py:15-41 | on one row, each step's column holds its result and every other cell is carried over |
| Binner.PreprocessRow | MINIPROJECT/binner.py:15-43 | in every output row BMI, MentHlth and PhysHlth hold the bin labels of the input values (the same edges for both day counts), Fruits_Veggies holds the bitwise OR of the row's two flags, and every other column is unchanged |

## Left out

- CSV reading and writing and the console prints (`MINIPROJECT/convertor.py:11`, `32`, `34`, `80-84`, `122`, `125-127`; `MINIPROJECT/binner.py:46-48`) are I/O. The model takes the table as a parameter and returns the table written.
- The write and read-back at `MINIPROJECT/convertor.py:80-84` are modelled as the identity. A CSV round trip could change dtypes (for example texts that look like numbers), and that is not modelled.
- `random.seed(1)` (`MINIPROJECT/convertor.py:7`) has no effect on the logic.
- Source tables are assumed to have distinct column names. pandas selects every column of a repeated source name, and the model takes the first one. `Binner.PreprocessRow` requires distinct names for the same reason.
- Convertor.Extract: does not apply the name cleaning of line 28 to the table, because `Convertor.SelectedNamesClean` proves that it changes none of the selected names.
- Convertor.AsInt: treats text cells as not convertible. numpy would convert a numeric string, but a table read from CSV holds numbers in numeric columns.
- Convertor.AsInt: returns an unbounded integer, where `astype(int)` (`MINIPROJECT/convertor.py:90`, `120`) yields int64. A value outside the int64 range, which numpy would wrap or reject, is not modelled; survey codes and BMI values are far inside it.
- Binner.Or: is the or of unbounded integers. numpy works on int64 columns, and the two agree on every pair of int64 values, so no case of the flags is lost.
- Floating point is replaced by exact decimals. The float64 rounding of BMI/100 is not modelled, and NaN is the missing marker. Infinite cell values do not occur.
- Binner.PreprocessData: returns a new frame. It does not model that lines 15-38 also write the binned and merged columns into the caller's frame in place, before `drop` returns a new one.
- Binner.BinColumn: text in a binned column is reported as `NotBinnable`. pandas raises a type error inside `pd.cut` instead of in the cast.
- Binner.MergeFlags: a boolean flag column (which pandas would `|` logically) is treated like a non-integer one. The failing column is named by the first flag that is not all integers, where pandas reports the operand types.
- `MINIPROJECT/EDA2015.py`, `MINIPROJECT/checker.py`, `MINIPROJECT/combining.py`, `MINIPROJECT/predicotr.py`, `app.py` and the training scripts are not part of this model. They cover plotting, printing, one `pd.concat`, model loading and prediction, and library training.
