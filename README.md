# MESA history reader — a verified model

This project models the table reader of `plot_hr_fixed_width.py`, a script that
reads the `history.data` log of the MESA stellar-evolution code and plots a
Hertzsprung–Russell diagram. The reader (`read_mesa_fixed_width`) works in four steps:

1. It finds the header line: the first line that contains the substring `model_number`.
2. It takes the whitespace-separated tokens of that line as column names.
3. It keeps every later line that is not blank, whose tokens all convert to
   numbers, and whose token count equals the header's.
4. It transposes the kept rows into a dictionary from column name to value
   sequence.

The model also covers the required-column guards that open the two plotting
routines.

Files:

- `wrappers.dfy`: `Option` and `Result`.
- `py_text.dfy` (module `PyText`): the pieces of Python's `str` the reader uses.
  These are the `str.isspace` whitespace set, `strip()`, `split()` and `sub in s`,
  with lemmas describing what each one computes.
- `mesa_history.dfy` (module `MesaHistory`): the reader. The three loops of
  the source are the methods `FindHeader`, `CollectRows` and `BuildColumns`.
  Each is proved against a specification function (`FirstHeader`,
  `RowsOf`/`Kinds`, `Columns`). `ReadMesaFixedWidth` composes them and is
  proved equal to the function `Read`. Lemmas state what those functions mean.
- `hr_plots.dfy` (module `HrPlots`): the column checks of
  `plot_simple_hr_diagram` and `plot_multiple_plots`, and the series each chart
  is drawn from.

Modelling choices:

- The file is given as its sequence of lines. The `os.path.exists` test becomes
  the parameter `fileExists`.
- Python's `float` becomes a parameter `parseNum: string -> Option<V>`. `None`
  stands for `ValueError`, and `V` is an arbitrary number type.
- The source returns `None` for every failure. The model returns
  `Failure(e)` with `e` one of `FileNotFound`, `NoHeader` and `NoValidData`,
  which are the three places that return `None`.
- The per-line warning becomes a returned sequence of the numbers the message
  prints. That number is `i + 1`, where `i` counts from the first line after
  the header, not from the top of the file.
- The model follows the code at three points where a reader might expect otherwise:
  - The header is any line containing `model_number` as a substring, not only a
    line where it is a whole token.
  - A fully numeric line with the wrong token count is dropped without a
    warning. Only a line with a token that fails to convert is reported.
  - Repeated header names are kept as they are, and the dictionary entry of the
    last such position wins.

## Model

| member | source | states |
|---|---|---|
| PyText.TrimLeftSpec | plot_hr_fixed_width.py:52 | `lstrip` removes exactly the leading whitespace: the result is a suffix that is empty or starts with a non-space, and everything removed is whitespace |
| PyText.TrimRightSpec | plot_hr_fixed_width.py:52 | `rstrip` removes exactly the trailing whitespace: the result is a prefix that is empty or ends with a non-space, and everything removed is whitespace |
| PyText.StripSpec | plot_hr_fixed_width.py:41 | `strip()` splits the line into whitespace, the result and whitespace, and the result neither starts nor ends with whitespace |
| PyText.StripEmptyIffAllSpace | plot_hr_fixed_width.py:52-54 | a stripped line is empty exactly when the original line is all whitespace (the blank-line test) |
| PyText.WordLenSpec | plot_hr_fixed_width.py:57 | each token `split()` takes is the longest whitespace-free prefix of what is left |
| PyText.SplitTokens | plot_hr_fixed_width.py:42 | every token of `split()` is non-empty and contains no whitespace |
| PyText.SplitJoin | plot_hr_fixed_width.py:42 | `split()` inverts joining with single spaces, for any tokens `split()` can produce |
| PyText.SplitIgnoresStrip | plot_hr_fixed_width.py:57 | `s.strip().split() == s.split()`: stripping before splitting changes no token |
| PyText.BlankIffNoTokens | plot_hr_fixed_width.py:53 | a stripped line is empty exactly when it has no tokens |
| PyText.ContainsSpec | plot_hr_fixed_width.py:30 | `sub in s` holds exactly when `sub` occurs at some position of `s` |
| PyText.ContainsWordHasTokens | plot_hr_fixed_width.py:41-42 | a line containing a non-empty, whitespace-free substring has at least one token, so the header always yields column names |
| MesaHistory.FirstHeader | plot_hr_fixed_width.py:28-36 | the header index is the first line containing `model_number`: no earlier line contains it. It is absent exactly when no line contains it |
| MesaHistory.FindHeader | plot_hr_fixed_width.py:28-32 | the scanning loop returns no index exactly when no line contains the marker. Otherwise it returns a line that contains the marker, with no earlier line containing it |
| MesaHistory.ParseRowSpec | plot_hr_fixed_width.py:59 | converting a row succeeds exactly when every token converts. It then yields one value per token, in order, each the conversion of its token |
| MesaHistory.ClassifySpec | plot_hr_fixed_width.py:52-63 | blank lines are the all-whitespace ones. A non-blank line is warned about exactly when some token fails to convert. It is dropped silently exactly when all tokens convert but their count differs from the header's. It is kept exactly when all convert and the count matches, and then its values are the token conversions |
| MesaHistory.RowsRectangular | plot_hr_fixed_width.py:60-61 | every kept row has exactly as many values as the header has names |
| MesaHistory.RowIndicesSpec | plot_hr_fixed_width.py:51-61 | the kept rows are exactly the rows of the lines classified as kept, each once, in strictly increasing line order |
| MesaHistory.NoRowsIffNoneAccepted | plot_hr_fixed_width.py:65 | the row list is empty exactly when no line is kept |
| MesaHistory.WarningsSpec | plot_hr_fixed_width.py:62-63 | the warnings name exactly the lines with a token that fails to convert, 1-based, in increasing order |
| MesaHistory.EveryLineAccountedFor | plot_hr_fixed_width.py:51-63 | kept rows + warned lines + silently dropped lines = non-blank lines after the header |
| MesaHistory.CollectRows | plot_hr_fixed_width.py:50-63 | the row loop returns exactly the kept rows and the warnings of the specification. A bad line never ends the scan |
| MesaHistory.Columns | plot_hr_fixed_width.py:74-76 | after the fill loop has handled the first `k` names, the dictionary's keys are exactly those names |
| MesaHistory.ColumnsLastWins | plot_hr_fixed_width.py:74-76 | under a name, the dictionary holds the column of the name's last position, because an assignment for a later equal name overwrites an earlier one |
| MesaHistory.ColumnsLengths | plot_hr_fixed_width.py:76 | every column of the dictionary has one entry per row |
| MesaHistory.DistinctAtMostLength | plot_hr_fixed_width.py:74-76 | there are at most as many distinct names as header positions |
| MesaHistory.LastIndex | plot_hr_fixed_width.py:75-76 | the position whose column survives for a name is at or after `i`, holds the same name, and no later position does |
| MesaHistory.BuildColumns | plot_hr_fixed_width.py:74-76 | the fill loop builds exactly the specified dictionary |
| MesaHistory.ReadMesaFixedWidth | plot_hr_fixed_width.py:11-86 | the reader fails with `FileNotFound` and no warnings if the file is missing. Otherwise it returns exactly `Read` and `ReadWarnings` of the lines |
| MesaHistory.ReadNoHeader | plot_hr_fixed_width.py:34-36 | the reader reports a missing header exactly when no line contains `model_number` |
| MesaHistory.ReadAfterHeader | plot_hr_fixed_width.py:41-67 | given the first header line, the reader fails, with `NoValidData`, exactly when no later line is kept. Otherwise the column names are that line's tokens, and there is at least one |
| MesaHistory.AcceptedLine | plot_hr_fixed_width.py:46-61 | a line after the header is kept exactly when it is not blank, all its tokens convert, and their count equals the header's. This depends on that line and the header alone |
| MesaHistory.AcceptedRowSource | plot_hr_fixed_width.py:50-61 | the `j`-th kept row comes from a line after the header with as many tokens as names, and holds those tokens' conversions. Kept rows follow file order |
| MesaHistory.WarnedLine | plot_hr_fixed_width.py:51-63 | line `k` after header `h` is warned about, under number `k - h`, exactly when it is not blank and one of its tokens fails to convert |
| MesaHistory.ReadTransposes | plot_hr_fixed_width.py:69-76 | under header name `i` the dictionary holds one entry per kept row. Its `j`-th entry is the value at that name's last header position in the `j`-th kept row, which is value `i` when names are distinct |
| MesaHistory.ReadKeys | plot_hr_fixed_width.py:74-76 | the dictionary's keys are exactly the header names. It has at most as many keys as names, and all columns share one non-zero length |
| HrPlots.FirstMissingColumn | plot_hr_fixed_width.py:93-98 | the check loop finds no column exactly when all of `log_Teff`, `log_L` and `star_age` are present. Otherwise it returns the first one absent, in that order |
| HrPlots.PlotSimpleHrDiagram | plot_hr_fixed_width.py:92-108 | the HR routine fails with the first absent required column exactly when one is missing. With all present, it fails with the first empty series, in the order the range report takes their minimum, exactly when one is empty. Otherwise it plots the `log_Teff`, `log_L` and `star_age` columns |
| HrPlots.PlotMultiplePlots | plot_hr_fixed_width.py:152-193 | the summary routine does nothing exactly when a required column is missing. Otherwise it draws the three series, and the radius panel exactly when `log_R` is present |
| HrPlots.ReadTableFeedsPlots | plot_hr_fixed_width.py:93-108 | on a table the reader returned, the guard passes exactly when the header names all three required columns. The three series then have one common, non-zero length, so the range report never meets an empty series |

## Left out

- File access: `os.path.exists`, `open` and `readlines` (plot_hr_fixed_width.py:17-23) are I/O. The line sequence is an input, and the existence test is the `fileExists` flag. How `readlines` cuts the text into lines and handles newlines is not modelled.
- Numeric conversion: which strings Python's `float` accepts (`nan`, `inf`, exponents, underscores) and the values it produces are float semantics. Both are abstracted by `parseNum`.
- numpy: `np.array(data)` and the slice `data_array[:, i]` (lines 69, 76) are modelled as the list of rows and the column projection `Column`.
- All console output is left out: the progress messages, and the warning text with its 50-character excerpt of the line. The warnings keep only the line number they print.
- The report on the key columns `model_number`, `star_age`, `log_Teff`, `log_L` (lines 78-84) is left out. It is console output only and changes nothing.
- The min/max figures of `plot_simple_hr_diagram` (lines 105-108) are float computations printed as diagnostics, so their values are not modelled. Their error path is modelled: `min` of an empty series raises `ValueError`, which `PlotSimpleHrDiagram` returns as `EmptySeries`.
- Series of unequal length would make the scatter plot raise an error inside matplotlib (lines 114-120). This is not modelled. `ReadTableFeedsPlots` proves the reader never gives the guarded columns unequal lengths.
- All drawing is left out: figures, scatter and line plots, colour maps, axis inversion, log scales, labels, colour bars, `savefig` and `show` (lines 110-146, 159-203). These are calls into matplotlib and file output. The charts are modelled by the series they are drawn from.
- `main` (lines 205-245) is left out, along with its `input` prompt. It also unpacks the result as a pair at line 216, so a failed read raises a `TypeError` before the "cannot read data" message at line 219 can be printed.
- PyText.IsSpace: the whitespace set is the one `str.isspace` accepts in CPython, written out as characters. Unicode database versions are not modelled.
