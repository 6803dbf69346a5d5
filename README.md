# Cars dataset cleaning, modelled in Dafny

This project models `Scripts/data_cleaning.py`, the script that cleans the
2025 cars dataset. The script reads the table and does these steps in order:

1. It title-cases and strips the three text columns.
2. It reduces three count columns to the first number they contain.
3. It strips currency, unit and punctuation characters from the price,
   horsepower and torque columns.
4. It resolves each of those three columns to one number per cell with
   `clean_column`. A range gives its mean, and a cell that is not text gives
   nothing.
5. It fills missing prices, torques and acceleration times with the column
   median, and missing capacities with `"Unknown"`.
6. It drops repeated rows.

A cell is text, an exact number or missing (`Wrappers.Cell`). A column is a
sequence of cells. The table is a `Pipeline.Table` object whose column map
the script's statements overwrite one column at a time.

The modules follow the script:

- `Text` holds `str.strip`, `str.title`, `str.replace` with an empty
  replacement, and `re.sub` over a character class.
- `Numbers` holds the first match of `\d+` and Python's `float()` on text
  without letters.
- `Ranges` holds `clean_column`.
- `Columns` holds the per-cell rule of each column group and the `apply`.
- `Median` holds pandas' `median()` and `fillna`.
- `Dedup` holds `drop_duplicates(keep="first")`.
- `Pipeline` holds the table and the script's statements as methods.

## Dash characters

The file is read as Latin-1 (line 5). The replacement chain of
`clean_column` (lines 60-65) maps these six characters to `-`, in this
order:

1. U+0096
2. `/`
3. U+2013
4. U+2014
5. U+0080
6. U+0096

U+0096 and U+0080 are C1 control characters, written into the script as
such. Read as a Windows-1252 byte, 0x96 is the en dash, so U+0096 is what an
en dash saved in that encoding becomes when decoded as Latin-1. 0x80 is the
euro sign in Windows-1252, not a dash. The model uses exactly the code points
of the script (`Ranges.Latin1Dash96`, `Ranges.Latin1Char80`) and does not
substitute other characters for them. `/` is one of the characters mapped to
`-`.

## Model

| member | source | states |
|---|---|---|
| Text.Strip | Scripts/data_cleaning.py:19 | `str.strip()`: the result has no leading or trailing whitespace and is no longer than the input |
| Text.StripSlice | Scripts/data_cleaning.py:19 | the stripped text is the input with an all-whitespace prefix and suffix cut off |
| Text.StripEmpty | Scripts/data_cleaning.py:19 | `strip()` gives the empty text exactly when the input is all whitespace; this is the blank-part test of line 74 |
| Text.StripKeeps | Scripts/data_cleaning.py:19 | stripping keeps every non-whitespace character, as often as it occurs |
| Text.TitleFrom | Scripts/data_cleaning.py:19 | title-casing with a given previous character: the length is kept, letters change only in case, and a letter is upper-cased exactly when the character before it is not a letter |
| Text.Title | Scripts/data_cleaning.py:19 | `str.title()`: the length is kept, letters change only in case, and a letter is upper-cased exactly when it opens the text or follows a non-letter |
| Text.TitleIsTitled | Scripts/data_cleaning.py:19 | `str.title()` keeps the length, changes letters only in case, and upper-cases exactly the letters that do not follow a letter |
| Text.TitleIdempotent | Scripts/data_cleaning.py:19 | title-casing twice gives the same text as once |
| Text.StripTitled | Scripts/data_cleaning.py:19 | stripping title-cased text leaves it title-cased |
| Text.Without | Scripts/data_cleaning.py:68-70 | `re.sub` over a character class: no removed character is left, and the result is a sub-multiset of the input |
| Text.WithoutKeeps | Scripts/data_cleaning.py:68-70 | every character outside the class keeps its number of occurrences |
| Text.WithoutShrinks | Scripts/data_cleaning.py:68-70 | removal never adds a character: the result is a sub-multiset of the input |
| Text.Delete | Scripts/data_cleaning.py:37-38 | `str.replace(pat, "")` only removes characters: the result is a sub-multiset of the input and no longer than it |
| Text.DeleteKeeps | Scripts/data_cleaning.py:37-38 | a character that does not occur in the pattern keeps its number of occurrences |
| Text.DeleteAbsent | Scripts/data_cleaning.py:47 | when the pattern occurs nowhere, the text is unchanged |
| Text.DeleteFront | Scripts/data_cleaning.py:37-38 | an occurrence of the pattern at the front is removed and the rest is processed on |
| Text.DeleteSkip | Scripts/data_cleaning.py:37-38 | a character at which no occurrence starts is kept and the scan continues after it |
| Text.DeleteSuffix | Scripts/data_cleaning.py:38 | `"150hp".replace("hp", "")`: text that shares no character with the pattern, followed by the pattern, loses exactly that occurrence |
| Text.ReplaceChar | Scripts/data_cleaning.py:60-65 | `str.replace` of one character by another: the length is kept, each occurrence is replaced, every other character stays, and none of the replaced character is left |
| Columns.NormalizeText | Scripts/data_cleaning.py:19 | a text-column cell becomes stripped, title-cased text; a missing cell becomes `"Nan"` |
| Columns.TitleNan | Scripts/data_cleaning.py:19 | `astype(str)` of a missing cell followed by title and strip gives `"Nan"` |
| Columns.NormalizeTextContent | Scripts/data_cleaning.py:19 | the normalised text equals, letter for letter up to case, the input with a whitespace prefix and suffix removed |
| Columns.NormalizeTextIdempotent | Scripts/data_cleaning.py:19 | normalising a normalised cell changes nothing |
| Columns.TextColumn | Scripts/data_cleaning.py:19 | the column keeps its length and each cell becomes its own normalisation |
| Pipeline.Table.NormalizeTextColumns | Scripts/data_cleaning.py:17-19 | each listed column is replaced by its cell-wise normalisation, and every other column is unchanged |
| Numbers.FirstDigitRun | Scripts/data_cleaning.py:26 | `re.search(r"(\d+)")`: nothing exactly when there is no digit; otherwise the leftmost maximal run of digits |
| Numbers.FirstRunUnique | Scripts/data_cleaning.py:26 | the leftmost maximal digit run of a text is unique |
| Columns.ExtractNumber | Scripts/data_cleaning.py:26 | a cell becomes a number exactly when it is text holding a digit, and then the number is the value of the leftmost maximal digit run of the text with its commas removed; otherwise the cell is missing |
| Columns.CommaFreeDigits | Scripts/data_cleaning.py:26 | removing commas neither adds nor removes the presence of a digit |
| Columns.ExtractLeadingRun | Scripts/data_cleaning.py:26 | text that opens with digits once commas are removed gives the value of those digits |
| Columns.ExtractThousands | Scripts/data_cleaning.py:26 | a thousands comma does not split the number: `a,b...` reads as the value of `ab` |
| Columns.ExtractStopsAtPoint | Scripts/data_cleaning.py:26 | a decimal point ends the number: `a.t` reads as the value of `a` |
| Columns.Cells | Scripts/data_cleaning.py:26 | a cell-wise rule applied to a column: the length is kept and each cell becomes the rule's value on it |
| Pipeline.Table.ExtractNumberColumns | Scripts/data_cleaning.py:23-26 | each listed column is replaced by its cell-wise first number, and every other column is unchanged |
| Columns.StripPrice | Scripts/data_cleaning.py:28-33 | text stays text with no `$`, no `,` and no surrounding whitespace; anything else becomes missing |
| Columns.StripPriceKeeps | Scripts/data_cleaning.py:28-33 | every other non-whitespace character keeps its number of occurrences |
| Columns.StripHorsePower | Scripts/data_cleaning.py:35-43 | text stays text with no `,`, `~`, `.` and no surrounding whitespace; anything else becomes missing |
| Columns.StripHorsePowerKeeps | Scripts/data_cleaning.py:35-43 | every non-whitespace character outside `hpHP,~.` keeps its number of occurrences |
| Columns.StripTorque | Scripts/data_cleaning.py:45-53 | text stays text with no ASCII letter, `,`, `+`, parenthesis or surrounding whitespace; anything else becomes missing |
| Columns.StripTorqueKeeps | Scripts/data_cleaning.py:45-53 | every non-whitespace character that is not a letter or one of `,+()` keeps its number of occurrences |
| Pipeline.Table.StripPrices | Scripts/data_cleaning.py:28-33 | the price column is replaced by its cell-wise stripping; nothing else changes |
| Pipeline.Table.StripHorsePowers | Scripts/data_cleaning.py:35-43 | the horsepower column is replaced by its cell-wise stripping; nothing else changes |
| Pipeline.Table.StripTorques | Scripts/data_cleaning.py:45-53 | the torque column is replaced by its cell-wise stripping; nothing else changes |
| Pipeline.Table.StripColumns | Scripts/data_cleaning.py:28-53 | the three columns are replaced in that order; nothing else changes |
| Ranges.DashChain | Scripts/data_cleaning.py:59-66 | the six replacements map each dash character to `-` and leave every other character in place |
| Ranges.Prepare | Scripts/data_cleaning.py:59-71 | the text to split is stripped and letter-free, and every character of it is `-` or a character of the cell that is not a removed character or another dash |
| Ranges.PrepareKeeps | Scripts/data_cleaning.py:59-71 | text made of digits, `.` and `-` with no surrounding whitespace comes through unchanged |
| Ranges.PrepareCounts | Scripts/data_cleaning.py:59-71 | every character that is not whitespace, a dash, a parenthesis, `~` or a letter keeps its number of occurrences, and `-` gains one occurrence per dash character replaced |
| Ranges.Split | Scripts/data_cleaning.py:73 | `split("-")`: at least one part, no part holds `-`, and joining the parts with `-` gives the text back |
| Ranges.SplitJoin | Scripts/data_cleaning.py:73 | splitting parts joined with `-` gives those parts back |
| Ranges.NonBlank | Scripts/data_cleaning.py:74 | the comprehension's filter keeps exactly the parts that are not all whitespace |
| Ranges.NonBlankConcat | Scripts/data_cleaning.py:74 | the filter works part by part: on joined lists it gives the joined results, and a single part is kept exactly when it is not blank; so order and repetitions are those of the input |
| Numbers.ParseFloat | Scripts/data_cleaning.py:74 | `float(p)` succeeds only on text that is not all whitespace |
| Numbers.ParseDigits | Scripts/data_cleaning.py:74 | `float` of a string of digits is its base-ten value |
| Numbers.ParsePoint | Scripts/data_cleaning.py:74 | `float` of `w.f` is the whole part plus the fraction |
| Ranges.NotAFloat | Scripts/data_cleaning.py:74 | `float` rejects a numeral with two decimal points |
| Ranges.ParseAll | Scripts/data_cleaning.py:74 | the values of all parts in order, or the first part `float` rejects |
| Ranges.Mean | Scripts/data_cleaning.py:77 | `np.mean` of two values lies equally far from both |
| Ranges.Decide | Scripts/data_cleaning.py:76-81 | two values give their mean, one gives itself, any other count gives NaN; a rejected part raises; never None |
| Ranges.Resolve | Scripts/data_cleaning.py:73-81 | resolving prepared text never gives None |
| Ranges.CleanColumn | Scripts/data_cleaning.py:55-81 | `clean_column` returns None exactly when its argument is not a string |
| Ranges.ResolveJoin | Scripts/data_cleaning.py:73-74 | text joined from `-`-free parts resolves on exactly those parts |
| Ranges.ResolveByCount | Scripts/data_cleaning.py:74-81 | when every non-blank part is a number, their count decides; blank parts play no role |
| Ranges.ResolveRaises | Scripts/data_cleaning.py:74 | resolution raises exactly when some non-blank part is not a decimal literal |
| Ranges.NonBlankFail | Scripts/data_cleaning.py:74 | parsing the non-blank parts fails exactly when one of them is not a number |
| Ranges.CleanColumnParts | Scripts/data_cleaning.py:55-81 | plain text of digits, `.` and `-` resolves on its `-`-separated parts |
| Ranges.CleanColumnLoneDash | Scripts/data_cleaning.py:55-81 | `w-`, `-w` and `w--` each resolve to the number `w` |
| Ranges.CleanColumnRange | Scripts/data_cleaning.py:55-81 | a range `a-b` resolves to the mean of `a` and `b` |
| Ranges.CleanColumnMalformed | Scripts/data_cleaning.py:55-81 | `a.b.c` makes `clean_column` raise ValueError on that very text |
| Columns.Stored | Scripts/data_cleaning.py:83-85 | a returned number is stored as that number; None and NaN are stored as missing |
| Columns.Collect | Scripts/data_cleaning.py:83-85 | the outcomes become a column of stored cells, or the part of the first call that raised |
| Columns.ResolveColumn | Scripts/data_cleaning.py:83-85 | `apply(clean_column)` succeeds exactly when no cell raises; then each cell is the stored result of its call; otherwise it reports the first raising cell's part |
| Columns.ResolveColumnNumeric | Scripts/data_cleaning.py:83-85 | a resolved column holds no text, and missing cells stay missing |
| Pipeline.Table.ApplyCleanColumn | Scripts/data_cleaning.py:83 | the column is replaced by its resolution when no cell raises; otherwise `ok` is false and the table is unchanged |
| Pipeline.Table.ResolveRanges | Scripts/data_cleaning.py:83-85 | torque, price and horsepower are resolved in that order; `ok` holds exactly when none of them raises, and then the three columns are replaced |
| Median.Present | Scripts/data_cleaning.py:89-91 | the numbers of a column, which `median()` uses while skipping missing cells; empty exactly when the column holds no number |
| Median.PresentConcat | Scripts/data_cleaning.py:89-91 | the numbers are collected cell by cell: joined columns give joined numbers, and a single cell gives its number or nothing; so order and repetitions are those of the column |
| Median.Sort | Scripts/data_cleaning.py:89-91 | an ascending permutation of the values |
| Median.SortedUnique | Scripts/data_cleaning.py:89-91 | two ascending arrangements of the same values are equal |
| Median.MedianOfAnyOrder | Scripts/data_cleaning.py:89-91 | the median is the middle of any ascending arrangement of the values |
| Median.Middle | Scripts/data_cleaning.py:89-91 | of an ascending arrangement, the middle lies between its two central values, and is the central value when the count is odd |
| Median.Median | Scripts/data_cleaning.py:89-91 | the median lies between the least and the greatest value, and is one of the values when their count is odd |
| Median.FillMedian | Scripts/data_cleaning.py:89-91 | present cells stay; with some number present, every missing cell gets the median; with none, the column is unchanged |
| Median.FillMedianComplete | Scripts/data_cleaning.py:89-91 | after filling, a column that held a number has no missing cell |
| Median.FillMedianIdempotent | Scripts/data_cleaning.py:89-91 | filling a second time changes nothing |
| Median.FillUnknown | Scripts/data_cleaning.py:92 | every missing cell becomes `"Unknown"`, the other cells stay, and no missing cell is left |
| Pipeline.Table.FillMedianColumn | Scripts/data_cleaning.py:89-91 | one column replaced by its median filling |
| Pipeline.Table.FillUnknownColumn | Scripts/data_cleaning.py:92 | the column replaced by its `"Unknown"` filling |
| Pipeline.Table.SetColumn | Scripts/data_cleaning.py:19 | `df[col] = ...`: that one column is replaced by the given column of the same height; the other columns, the names and the height stay |
| Pipeline.Table.FillMissingValues | Scripts/data_cleaning.py:89-92 | price, torque and acceleration are median-filled and capacity is `"Unknown"`-filled, in that order; nothing else changes |
| Pipeline.FilledDone | Scripts/data_cleaning.py:89-92 | after filling, the text columns are still finished, capacity has no missing cell, and each median column is all numbers or all missing |
| Pipeline.FillSettles | Scripts/data_cleaning.py:89-91 | a median-filled column is missing nowhere or everywhere |
| Dedup.FirstOccurrences | Scripts/data_cleaning.py:96 | the kept positions, in increasing order, are exactly the rows equal to no earlier row |
| Dedup.KeepFirst | Scripts/data_cleaning.py:96 | no two kept rows are equal, and every row equals some kept row |
| Dedup.KeepFirstShorter | Scripts/data_cleaning.py:96 | no more rows are kept than there were |
| Dedup.KeepFirstDropsIffDuplicate | Scripts/data_cleaning.py:96 | rows are dropped exactly when some row repeats an earlier one |
| Pipeline.Table.DropDuplicates | Scripts/data_cleaning.py:96 | the rows become their first occurrences, and every column keeps exactly those rows |
| Pipeline.PickRows | Scripts/data_cleaning.py:96 | cutting every column to the same positions keeps exactly the rows at those positions |
| Pipeline.DoneSurvivesPick | Scripts/data_cleaning.py:96 | dropping rows keeps the text, capacity and median-column guarantees |
| Pipeline.Table.Standardize | Scripts/data_cleaning.py:17-26 | text columns normalised, count columns reduced to numbers, all else unchanged |
| Pipeline.Table.Rewrite | Scripts/data_cleaning.py:17-53 | the new table is exactly `Rewritten` of the old one: text columns finished, acceleration numeric, and the three range columns stripped |
| Pipeline.Rewritten | Scripts/data_cleaning.py:17-53 | the table after the rewriting statements keeps every column and every column's length |
| Pipeline.RewrittenIs | Scripts/data_cleaning.py:17-53 | the text and count statements followed by the stripping statements give exactly `Rewritten` of the table read |
| Pipeline.Resolved | Scripts/data_cleaning.py:83-85 | the table after the three `apply(clean_column)` statements keeps every column and every column's length |
| Pipeline.FillAll | Scripts/data_cleaning.py:89-92 | the table after the four `fillna` statements keeps every column and every column's length |
| Pipeline.Table.Transform | Scripts/data_cleaning.py:17-85 | `ok` holds exactly when `clean_column` raises on none of the stripped range columns, and then the new table is exactly `Resolved(Rewritten(...))` of the old one and ready for filling |
| Pipeline.Table.Finish | Scripts/data_cleaning.py:89-96 | the rows are exactly the first occurrences of the rows of `FillAll` of the old table, and every column keeps exactly those rows; so no rows are added, no two rows are equal, text columns are finished, capacity has no missing cell, and median columns are settled |
| Pipeline.Table.Clean | Scripts/data_cleaning.py:17-96 | the whole script fails exactly when `clean_column` raises; otherwise the rows are exactly the first occurrences of the rows of the rewritten, resolved and filled table read, and the guarantees of `Finish` hold |

## Left out

- Reading and writing the CSV files (lines 5 and 100) is not modelled. The table is a parameter of `Pipeline.Table`'s constructor.
- The inspection prints (lines 9-13) are not modelled. They only produce output.
- Binary floating point is not modelled. Numbers are exact reals, so the median and the mean of a range carry no rounding.
- Text.Title: only ASCII letters are cased. Python's `str.title()` also cases Latin-1 letters such as `é`, and some of them (`ß`, `ÿ`, `µ`) change length or leave the Latin-1 range.
- Text.IsSpace: whitespace is Python's `isspace()` over the Latin-1 range. Unicode spaces above U+00FF are not stripped in the model.
- Columns.NormalizeText: requires the cell not to be a number. Line 19's `astype(str)` of a number, such as `"1.0"`, is not modelled, because columns read from the CSV as text hold text or missing cells.
- Numbers.ParseFloat: exponents, `inf`, `nan` and non-ASCII digits are not modelled. Letters are already removed at line 70, so the parts `clean_column` reads contain no letters.
- `\d` in `re.search(r"(\d+)")` is taken to match ASCII digits only. Python's `\d` also matches other Unicode decimal digits, which fall outside the Latin-1 range the file is decoded in.
- Pandas raises `AttributeError` when `.str` is used on a column whose type is not text, such as a column read entirely as numbers. This error is not modelled. The model instead treats each non-text cell as `.str` does inside a text column: the cell becomes missing.
- Pipeline.Table.FillMedianColumn: `fillna(..., inplace=True)` on `df[col]` is modelled as updating the table's column. Under pandas copy-on-write, such a chained call may update only a copy.
- Pipeline.Table.Clean: when `clean_column` raises, the script stops with an exception. The model reports `ok == false` and states nothing further about the table.
- Pipeline.Table.Clean: requires every column the script names to be present. When one is absent, the script raises `KeyError` at its first `df[...]` access; that error path is not modelled.
- Columns other than the nine the script names are carried along unchanged. Their contents are not modelled.
