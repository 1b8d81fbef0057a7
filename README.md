# Docking metrics from an AutoDock Vina log

A Dafny model of `calculate_docking_metrics.py`. The script reads one
AutoDock Vina log and finds four things in it:

- the receptor name;
- the ligand name;
- the mode-1 affinity;
- the names from the log's directory (`<receptor>_<ligand>/`), used when the content does not name them.

It then converts the affinity to a pKi and finds the ligand's original file:

- an SDF file in any search directory beats a PDBQT file;
- within one kind, the first directory wins.

It asks RDKit for the ligand's descriptors and derives four ligand
efficiency metrics from them: LE, LLE, SILE_N and SILE_SASA. Finally it
prints one CSV line of 17 cells in header order. A missing value is
printed as `NA`, and a float is printed with two or three decimals
depending on its column.

The model follows the script's own structure:

| file | module | what it holds |
|---|---|---|
| `wrappers.dfy` | `Wrappers` | `Option`, standing for `None` |
| `text.dfy` | `Text` | `str` operations: whitespace and digits, `replace`, `split`, `join`, `strip`, `str()` of an int |
| `paths.dfy` | `Paths` | POSIX `os.path.basename`, `dirname` and `join` |
| `log_names.dfy` | `LogNames` | the receptor and ligand patterns, with `re.search`'s leftmost-longest choice; the name clean-up |
| `decimal.dfy` | `Decimal` | the value of an affinity token; fixed-point formatting `f"{x:.Nf}"` |
| `mode_table.dfy` | `ModeTable` | the mode-1 pattern, with `re.match`'s choice |
| `vina_log.dfy` | `VinaLog` | `parse_vina_log`: the scanning loop with its flags and `break`, and the directory fallback |
| `efficiency.dfy` | `Efficiency` | `calculate_pKi` (left open) and `calculate_efficiency_metrics` |
| `ligand_files.dfy` | `LigandFiles` | `find_ligand_file` |
| `columns.dfy` | `Columns` | dictionary keys, header names, `_kcal_mol`/`_A2` stripping |
| `result_row.dfy` | `ResultRow` | steps 2–5 of the main block: the results dictionary |
| `output_row.dfy` | `OutputRow` | step 6: the formatting loop and the printed line |
| `docking_metrics.dfy` | `DockingMetrics` | the main block end to end |

The loops are methods proved equal to pure specification functions:

- the log scan with its early `break`;
- the two lookup loops with early `return`;
- the dictionary updates;
- the header loop.

The properties of those functions are proved as lemmas.

### Where the code and its description differ

The model follows the code in both places:

- **Which score is taken.** The docstring of `parse_vina_log` (src/calculate_docking_metrics.py:64) promises the "best affinity", which reads as the lowest score among all modes. The code takes the first row whose mode number is `1` and ignores the rest. `VinaLog.FirstModeOneRowWins` states this.
- **The sign of LE.** The axis label of the LE plot (src/6_plot_results.py:127) calls LE `Affinity / NHA`. The code (src/calculate_docking_metrics.py:163-167) divides `-affinity`, and SILE_N likewise, so a Vina affinity of −8.5 over 17 heavy atoms gives LE = 0.5, not −0.5. `Efficiency.EfficiencyExample` and `Efficiency.BindingGivesPositiveEfficiency` state this.

## Model

| member | source | states |
|---|---|---|
| Text.Split | src/calculate_docking_metrics.py:128 | `split('_')` gives at least one part; more than one exactly when the separator occurs; no part holds it; joining the parts gives the text back |
| Text.SplitJoin | src/calculate_docking_metrics.py:323 | splitting a join of parts that lack the separator gives the parts back |
| Text.Strip | src/calculate_docking_metrics.py:89 | the stripped text is a slice of the input with only whitespace cut from each end, and it neither starts nor ends with whitespace |
| Text.TrimStart | src/calculate_docking_metrics.py:89 | `lstrip()` keeps a suffix of the text, cutting only whitespace and every leading space |
| Text.TrimEnd | src/calculate_docking_metrics.py:89 | `rstrip()` keeps a prefix of the text, cutting only whitespace and every trailing space |
| Text.NatToStringRoundTrip | src/calculate_docking_metrics.py:321 | the digits `str()` writes for a non-negative int read back as that int |
| Text.IntToString | src/calculate_docking_metrics.py:321 | `str()` of an int starts with '-' exactly when it is negative, and the rest is a run of digits with no leading zero (save "0" itself) that reads back as its magnitude |
| Text.NatToString | src/calculate_docking_metrics.py:321 | `str()` of a non-negative int is a non-empty run of digits with no leading zero; 0 is written `0` |
| Text.StripUntouched | src/calculate_docking_metrics.py:89-97 | `strip()` leaves text without whitespace at either end unchanged |
| Text.ReplaceAll | src/calculate_docking_metrics.py:89 | `replace` with the empty string never lengthens the text; a replacement as long as the pattern keeps its length (its value is fixed by `ReplaceAllFirst` and `ReplaceAllAbsent`) |
| Text.ReplaceAllFirst | src/calculate_docking_metrics.py:89 | the leftmost occurrence is replaced, the text before it is copied, and the search resumes after it, so occurrences are replaced left to right without overlapping |
| Text.ReplaceAllAbsent | src/calculate_docking_metrics.py:305 | a text without the pattern comes back unchanged |
| Text.ReplaceAllTrailing | src/calculate_docking_metrics.py:89 | a pattern ending the text, with no occurrence before it, is the only one replaced, provided the pattern's first character does not recur later in it |
| Text.ReplaceAllAfterStem | src/calculate_docking_metrics.py:305 | a pattern after a stem lacking the pattern's first character is the only one replaced |
| Text.JoinEnds | src/calculate_docking_metrics.py:323 | `','.join` of one or more cells begins with the first cell and ends with the last |
| Text.ReplaceAllDeletes | src/calculate_docking_metrics.py:89 | deleting every occurrence of a pattern that lacks a character cannot introduce that character |
| Paths.Basename | src/calculate_docking_metrics.py:89 | `basename` is the suffix after the last '/' and holds no '/' |
| Paths.Dirname | src/calculate_docking_metrics.py:126 | `dirname` is the head of the path up to its last '/' (the part before the basename), less the slashes that end it, unless the head is all slashes, which is kept whole; empty exactly when the path holds no '/' |
| Paths.PathJoin | src/calculate_docking_metrics.py:198-204 | `join`: an absolute name replaces the directory; otherwise the name follows it, with one '/' between unless the directory is empty or ends in '/' |
| Paths.PathJoinSplits | src/calculate_docking_metrics.py:198-204 | for a bare file name, `basename` of the joined path is the name, and `dirname` is the directory when it does not end in '/' |
| Paths.BasenameOfChild | src/calculate_docking_metrics.py:127 | the basename of `parent/name` is `name` |
| Paths.DirnameOfFile | src/calculate_docking_metrics.py:126 | `dirname` of `d/file` is `d` |
| Paths.DirectoryOfFile | src/calculate_docking_metrics.py:126-127 | the basename of the dirname of `parent/dir/file` is `dir` |
| LogNames.SearchName | src/calculate_docking_metrics.py:75-94 | the match found is the leftmost marker with the longest group up to the last `.pdbqt` on the line; with no match, no position matches |
| LogNames.NameOnLine | src/calculate_docking_metrics.py:86-98 | a line gives a name exactly when the pattern matches somewhere on it |
| LogNames.CleanName | src/calculate_docking_metrics.py:89-97 | a cleaned name never holds '/' (see `CleanNameOfPath` for its value) |
| LogNames.CapturedGroupIsStripped | src/calculate_docking_metrics.py:89-97 | `strip()` never changes a captured group |
| LogNames.NoPdbqtNoName | src/calculate_docking_metrics.py:75-77 | a line without `.pdbqt` yields no name |
| LogNames.ShorterSpaceRunGainsNothing | src/calculate_docking_metrics.py:75 | backtracking into `\s*` finds no group the full whitespace run misses |
| LogNames.CleanNameOfPath | src/calculate_docking_metrics.py:89-97 | `dir/stem.pdbqt` is cleaned to `stem` |
| LogNames.SearchWholeLine | src/calculate_docking_metrics.py:75-89 | on the line `marker path.pdbqt`, read with or without its trailing line break, the group is the whole path |
| LogNames.NameLineGivesStem | src/calculate_docking_metrics.py:83-98 | the line Vina writes for a structure file `dir/stem.pdbqt`, with or without its line break, gives `stem` |
| ModeTable.NumberEnd | src/calculate_docking_metrics.py:79 | the token `[-+]?\d*\.?\d+` found is the longest one at that position |
| ModeTable.ModeOneMatch | src/calculate_docking_metrics.py:79 | the span found is the one every match of `^\s+1\s+(token)` has, with the longest token |
| ModeTable.ModeOneRowIsForced | src/calculate_docking_metrics.py:79 | when the first non-space character is `1`, every match puts its token after the whitespace run that follows it |
| ModeTable.NotModeOneRow | src/calculate_docking_metrics.py:79 | when the first non-space character is not a `1` after at least one space, no match exists |
| ModeTable.MatchOfRow | src/calculate_docking_metrics.py:79 | a row whose token is followed by whitespace or the end is matched with exactly that token |
| ModeTable.AffinityOnLine | src/calculate_docking_metrics.py:101-104 | a line gives an affinity exactly when it is a mode-1 row |
| ModeTable.NoLeadingSpaceNoAffinity | src/calculate_docking_metrics.py:79 | a line not starting with whitespace never gives an affinity |
| ModeTable.ModeTenIsNotModeOne | src/calculate_docking_metrics.py:79 | the row `   10  -5.0` is not taken for mode 1 |
| ModeTable.RowGivesToken | src/calculate_docking_metrics.py:102-104 | a row laid out as Vina prints mode 1 gives the value of its affinity token |
| Decimal.DecimalValue | src/calculate_docking_metrics.py:104 | a token starting with '-' has a value of at most zero; any other has a value of at least zero |
| Decimal.SignPrefix | src/calculate_docking_metrics.py:104 | a leading '-' negates the value of an unsigned token; a leading '+' keeps it |
| Decimal.FormatFixed | src/calculate_docking_metrics.py:313-319 | `f"{x:.Nf}"` starts with '-' exactly when x is negative, then has integer digits without a leading zero (a lone `0` aside), a point and exactly N digits (digits only for N = 0) |
| Decimal.TokenValueExample | src/calculate_docking_metrics.py:104 | the token `-8.5` has the value −8.5 |
| Decimal.RoundHalfEven | src/calculate_docking_metrics.py:313-319 | the rounded count is within one half of the scaled value, and even on a tie |
| Decimal.FixedReadsBack | src/calculate_docking_metrics.py:313-319 | the text `f"{x:.Nf}"` reads back as the rounded magnitude over 10^N, with the sign of x |
| Decimal.FixedIsClose | src/calculate_docking_metrics.py:313-319 | the formatted text is within half a unit in the last place of x |
| Decimal.FixedIsExact | src/calculate_docking_metrics.py:313-319 | a value with no more than N decimals is written exactly |
| Decimal.AffinityFormatExample | src/calculate_docking_metrics.py:313 | −8.5 is written as `-8.500` |
| Decimal.RoundingExample | src/calculate_docking_metrics.py:315 | 0.4567 is written `0.46`; the tie 0.125 is written `0.12` |
| Decimal.NegativeZeroExample | src/calculate_docking_metrics.py:313 | −0.0001 is written as `-0.000`, keeping its sign |
| VinaLog.First | src/calculate_docking_metrics.py:85-104 | no value is found exactly when no line gives one |
| VinaLog.FirstHitWins | src/calculate_docking_metrics.py:85-104 | the first line that gives a value decides it, whatever follows |
| VinaLog.ScanWith | src/calculate_docking_metrics.py:81-107 | the loop with its flags and early `break` returns the first receptor, ligand and affinity over all lines |
| VinaLog.ScanLines | src/calculate_docking_metrics.py:75-107 | the scan with the script's three patterns gives the first match of each |
| VinaLog.SplitDirectoryName | src/calculate_docking_metrics.py:128-135 | names come from the directory exactly when it holds '_'; the receptor holds no '_' and `receptor + "_" + ligand` is the directory name |
| VinaLog.ParseVinaLog | src/calculate_docking_metrics.py:63-152 | the method returns what `ParsedLog` specifies for the log |
| VinaLog.FillMissingNames | src/calculate_docking_metrics.py:124-135 | the method's conditional updates give `FillNames`: a directory name holding '_' supplies each name still missing, a name already found is kept, and the affinity is untouched |
| VinaLog.MissingLogGivesNothing | src/calculate_docking_metrics.py:115-117 | a missing log gives (None, None, None), without the directory fallback |
| VinaLog.AffinityFromLogOnly | src/calculate_docking_metrics.py:101-152 | the affinity is the first mode-1 row among the lines read (those before a read error included), or None for a missing log; the directory name never supplies it |
| VinaLog.LogNamesWin | src/calculate_docking_metrics.py:124-133 | a name the log content gives is kept |
| VinaLog.FirstModeOneRowWins | src/calculate_docking_metrics.py:101-107 | the first mode-1 row decides the affinity, even when later rows score lower |
| VinaLog.FallbackGivesBoth | src/calculate_docking_metrics.py:124-139 | with no name in the content, both come from the directory, or both stay None |
| VinaLog.DirectoryNamesOf | src/calculate_docking_metrics.py:126-135 | the directory `receptor_lig_and` gives receptor `receptor` and ligand `lig_and` |
| Efficiency.CalculatePKi | src/calculate_docking_metrics.py:15-18 | no affinity gives no pKi; otherwise the conversion's result |
| Efficiency.CalculateEfficiencyMetrics | src/calculate_docking_metrics.py:154-191 | each of the four metrics is present exactly under its guard and satisfies its formula (LE·NHA = −affinity, LLE + LogP = pKi, SILE_N·NHA^0.3 = −affinity, SILE_SASA·SASA = pKi) |
| Efficiency.BindingGivesPositiveEfficiency | src/calculate_docking_metrics.py:163-177 | a negative affinity gives a positive LE and SILE_N |
| Efficiency.LargerLigandLowerEfficiency | src/calculate_docking_metrics.py:165-167 | the same affinity over more heavy atoms gives a lower LE |
| Efficiency.NoAffinityNoSizeEfficiency | src/calculate_docking_metrics.py:163-186 | without an affinity, LE and SILE_N are None while LLE and SILE_SASA keep their guards |
| Efficiency.EfficiencyExample | src/calculate_docking_metrics.py:165-167 | −8.5 kcal/mol over 17 heavy atoms is an LE of 0.5 |
| LigandFiles.FirstDirWith | src/calculate_docking_metrics.py:197-206 | the index found is the first directory holding the file, or the end |
| LigandFiles.FindLigandFile | src/calculate_docking_metrics.py:194-209 | the two loops return what `LigandFileIn` specifies |
| LigandFiles.SdfPreferred | src/calculate_docking_metrics.py:197-206 | an SDF file anywhere is chosen over a PDBQT file in an earlier directory |
| LigandFiles.SdfFromFirstDirectory | src/calculate_docking_metrics.py:197-200 | the SDF file comes from the first directory that has one |
| LigandFiles.PdbqtFromFirstDirectory | src/calculate_docking_metrics.py:203-206 | with no SDF file, the PDBQT file comes from the first directory that has one |
| LigandFiles.NothingFound | src/calculate_docking_metrics.py:208-209 | nothing is found exactly when no directory has either file |
| LigandFiles.FoundFileExists | src/calculate_docking_metrics.py:198-206 | a found path exists and is `<dir>/<ligand>.<ext>` for a search directory |
| Columns.KeyNamed | src/calculate_docking_metrics.py:306 | the key a text picks is spelled as that text |
| Columns.KeyNamedName | src/calculate_docking_metrics.py:306 | every key is found under its own name |
| Columns.SuffixDeleted | src/calculate_docking_metrics.py:305 | a suffix `_kcal_mol` or `_A2` after a stem is deleted, and nothing else |
| Columns.KeyWithoutSuffix | src/calculate_docking_metrics.py:305 | a header name whose only '_', if it has one, starts neither suffix is its own internal key |
| Columns.ColumnKey | src/calculate_docking_metrics.py:293-305 | column i, with its suffix removed, is the name of key i |
| Columns.HeaderKeys | src/calculate_docking_metrics.py:293-305 | the header and the keys have the same length, and column i is looked up under key i |
| Columns.Position | src/calculate_docking_metrics.py:293-296 | the position of a key's column holds that key |
| Columns.Column | src/calculate_docking_metrics.py:293-296 | the header name at that position |
| ResultRow.BuildResults | src/calculate_docking_metrics.py:258-290 | the updates in order give `ResultsOf` |
| ResultRow.ResultsKeys | src/calculate_docking_metrics.py:258-263 | every one of the 17 keys is always present |
| ResultRow.LogFieldsReported | src/calculate_docking_metrics.py:255-259 | receptor, ligand and affinity are reported as parsed |
| ResultRow.NamesGateMetrics | src/calculate_docking_metrics.py:265 | unless both names are non-empty, all other entries stay None |
| ResultRow.PKiReported | src/calculate_docking_metrics.py:267 | with both names, the pKi is that of the affinity |
| ResultRow.MetricsOfFoundFile | src/calculate_docking_metrics.py:270-285 | the nine descriptors are those of the file found and loaded, or None |
| ResultRow.NoLigandFileNoDescriptors | src/calculate_docking_metrics.py:272-285 | without a ligand file, no descriptor, LE or SILE_N is reported |
| ResultRow.AffinityGatesEfficiency | src/calculate_docking_metrics.py:288 | without an affinity the four metrics stay None |
| ResultRow.EfficiencyReported | src/calculate_docking_metrics.py:288-290 | with names and affinity, the four metrics are the formulas' |
| ResultRow.LigandEfficiencyReported | src/calculate_docking_metrics.py:287-290 | LE is reported as −affinity/NHA when NHA is positive |
| OutputRow.FormatValue | src/calculate_docking_metrics.py:308-321 | a cell is `NA` exactly for None or the string `NA` |
| OutputRow.FormatRow | src/calculate_docking_metrics.py:302-321 | the loop builds `Row`, one cell per header column |
| OutputRow.CellsInKeyOrder | src/calculate_docking_metrics.py:293-309 | the row has 17 cells; cell i formats the entry under key i (None if absent) |
| OutputRow.CellOf | src/calculate_docking_metrics.py:303-306 | a key's column shows that key's entry |
| OutputRow.Precision | src/calculate_docking_metrics.py:312-319 | a float is written with two or three decimals; two exactly for the seven two-decimal columns and MW |
| OutputRow.ColumnPrecision | src/calculate_docking_metrics.py:312-317 | Affinity, LE and SILE_N get three decimals; pKi, MW, LogP, TPSA, SASA, QED, LLE and SILE_SASA get two |
| OutputRow.FloatCellIsClose | src/calculate_docking_metrics.py:310-319 | a float cell is within half a unit in its last decimal |
| OutputRow.FloatCellIsExact | src/calculate_docking_metrics.py:310-319 | a float with few enough decimals is written exactly |
| OutputRow.OtherCellsReadBack | src/calculate_docking_metrics.py:320-321 | a string is written as is; every int, negative included, is written as `str()` writes it: a '-' exactly when negative, digits without a leading zero, reading back as its magnitude |
| OutputRow.LineSplitsIntoCells | src/calculate_docking_metrics.py:323 | with no ',' in any cell, the printed line splits back into the cells |
| DockingMetrics.CalculateDockingMetrics | src/calculate_docking_metrics.py:246-323 | the steps in order print the line of the specified row |
| DockingMetrics.MissingLogRow | src/calculate_docking_metrics.py:258-309 | a missing log prints 17 `NA` cells |
| DockingMetrics.UnnamedRow | src/calculate_docking_metrics.py:265-309 | without both names, every cell after the affinity is `NA` |
| DockingMetrics.NameCells | src/calculate_docking_metrics.py:302-321 | the first two cells are the names as parsed, or `NA` |
| DockingMetrics.AffinityCell | src/calculate_docking_metrics.py:302-313 | the third cell is the affinity with three decimals, or `NA` |
| DockingMetrics.EfficiencyCell | src/calculate_docking_metrics.py:287-313 | the LE cell is −affinity/NHA with three decimals |

## Left out

- RDKit: `load_molecule` and `calculate_ligand_metrics` are not modelled. They become two parameters of `ResultRow.Environment`: whether a file loads and sanitizes, and the nine optional descriptors of the molecule loaded. A molecule that does not load gets all-None descriptors, as the code gives.
- `calculate_pKi`: the `exp`/`log10` arithmetic and its error branches are a parameter from affinity to an optional pKi. Only "no affinity, no pKi" is kept.
- `nha ** 0.3` is a parameter, positive for every positive count. The `ZeroDivisionError` and `ValueError` branches after it therefore cannot arise in the model.
- Floating point: values are exact reals. The rounding `float()` applies to the affinity token is not modelled, and neither is the binary rounding of the formulas or of the `1e-6` SASA threshold, which is taken as exactly 0.000001. `Decimal.FormatFixed` rounds the exact value half to even, which is the f-string's rule applied to the exact real rather than to its binary float; NaN and infinities are left out.
- `Decimal.FormatFixed` and `Efficiency.LigandEfficiency`: signed zero is not modelled, because an exact real has no −0.0. A token `-0.0` is printed `0.000`, where Python prints `-0.000`. So is an affinity of exactly 0, whose LE and SILE_N are −0.0 in Python.
- I/O: opening and reading the log is the `LogFile` datatype. It is either missing, readable, or readable up to an error, which is the generic `except Exception` branch. `os.path.exists` is a set of existing paths; `print` is the returned line; argparse is the `dirs` parameter, whose default is `LigandFiles.DEFAULT_SEARCH_DIRS`. `warnings.warn` is left out.
- Path normalisation: `os.path.exists` is a plain membership test on the joined text.
- `\d` stands for ASCII digits, and Unicode digits are not modelled. `\s` and `strip()` use the `str.isspace` set.
- The efficiency dictionary, which always has the same four keys, is the record `Efficiency.EfficiencyMetrics`. The results dictionary is a map over a 17-valued key type, and `results.get` maps a text with no key to None.
- Names holding ',' are printed unescaped, so such a line has more than 17 fields. `OutputRow.LineSplitsIntoCells` is stated only for rows without ','.
- `src/6_plot_results.py` (plotting over pandas and matplotlib) is not part of this model.
