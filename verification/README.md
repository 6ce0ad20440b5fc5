# esi-scripts, modelled in Dafny

esi-scripts holds three small batch scripts for quantum-chemistry output:

- `extract_energies.py` scans Gaussian logs for five thermochemistry markers and prints one tab-separated row per log.
- `create_adf_esi.py` takes the optimized geometry of each parsed log. It writes either one `.txt` coordinate file per log or one combined multi-structure file.
- `create_uv_plot.py` pairs the excitation energies of each log with their oscillator strengths. It writes a wavelength/strength table (`.dat`) and a gnuplot script (`.plt`).

This project models the text and sequence logic of the three scripts as pure Dafny functions over immutable data, and proves what that logic promises. The external parser (cclib) is represented by the record it hands over (`CcData.ParsedLog`), with every attribute optional.

Number parsing and formatting are function parameters:

- `float(token)` is `parse`;
- `str(x)` is `show`;
- `'{:,f}'` is `fmt`;
- `'{:.2f}'` after `round(…, 2)` is `show2`;
- `'{:.4f}'` after `round(…, 4)` is `show4`.

Numbers are `real`. A Python exception that ends a run becomes a `Failure` naming what raised and where.

Modules:

- `Results`: `Option`, `Result`, and `RunUntilFailure`, a loop that stops at the first uncaught exception.
- `Text`: the Python `str` operations the scripts use (`split()`, `split(sep)`, `join`, `in`, slicing, `ljust`, `rjust`, `writelines`).
- `Paths`: POSIX `os.path.splitext`.
- `CcData`: the parsed log.
- `ExtractEnergies`, `AdfEsi`, `UvPlot`: one module per script.

Behaviour of the scripts worth knowing, which the model follows:

- The `.dat` columns are right-justified to width 15.
- In the combined file, each structure is followed by a `"\n"` entry. Once the list is joined with `"\n"`, that entry leaves two empty lines between structures, and the list ends with one more `"\n"` entry.
- Nothing is caught per file. The first exception ends the whole run; the rows already printed and the files already written stay.
- Transitions are paired by `zip`, which truncates to the shorter list; equal lengths are not required.
- `extract_data` does not require the SCF energy. Only the renderers fail on a missing key, with `KeyError`.
- A zero excitation energy gives infinity (numpy division), printed as `inf`, not an error.

## Model

| member | source | states |
|---|---|---|
| ExtractEnergies.ScfMarkerIff | extract_energies.py:63 | the SCF test holds exactly when the line has at least 9 characters and characters 1 to 8 are "SCF Done"; a shorter line never matches |
| ExtractEnergies.ReadingOfTokens | extract_energies.py:64-72 | on a line of space-separated tokens, the value for a key is token 4 (SCF energy, thermal energy, enthalpy), 2 (ZPVE) or 6 (Gibbs); a non-number is `ValueError` and a line with too few tokens is `IndexError` |
| ExtractEnergies.ApplyRules | extract_energies.py:63-72 | running the marker tests in order on one line succeeds exactly when every marked key reads; afterwards the keys are the old ones plus the marked ones, marked keys hold the line's reading and the rest keep their values; a failure names the first marked key in test order whose reading fails, and why |
| ExtractEnergies.ScanLine | extract_energies.py:62-72 | the five separate `if`s on one line: success exactly when every marker on the line reads, one line may update every key it marks, and a line with no marker leaves the dictionary unchanged; a failure names a marked key whose reading fails, and every marked key tested before it reads |
| ExtractEnergies.LastMarked | extract_energies.py:62-72 | the last line carrying a key's marker: it carries the marker, no later line does, and there is none exactly when no line does |
| ExtractEnergies.ExtractSucceedsIff | extract_energies.py:61-73 | extraction succeeds exactly when every marked line has enough tokens and a number at the token; a short marked line raises, it is not skipped |
| ExtractEnergies.ExtractFailure | extract_energies.py:62-72 | a failure names the first line that raised: that line carries the key's marker and fails for the reason given, every marked key tested before it on that line reads, and every earlier line reads |
| ExtractEnergies.LastOccurrenceWins | extract_energies.py:63-72 | a key is present exactly when some line carries its marker, and its value is the reading of the last such line |
| ExtractEnergies.KeyPresentIffMarked | extract_energies.py:60-73 | a key is in the result exactly when some line of the log carries its marker |
| ExtractEnergies.LaterMatchOverwrites | extract_energies.py:60-73 | appending a line whose markers all read cleanly to a log that extracts keeps extraction successful, and a key marked on that line takes its value from it, whatever came before |
| ExtractEnergies.Shown | extract_energies.py:94-95 | the values of the keys in order, each shown with `str`; success exactly when all keys are present, otherwise the first missing key (`KeyError`) |
| ExtractEnergies.PrintEnergies | extract_energies.py:88-97 | the full row exists exactly when all five keys are present; otherwise it names the first missing key in column order |
| ExtractEnergies.PrintEnergiesShort | extract_energies.py:100-109 | the short row exists exactly when the SCF energy, enthalpy and Gibbs keys are present; otherwise it names the first of those three, in that order, that is missing |
| ExtractEnergies.FullRowFields | extract_energies.py:93-97 | the full row splits at tabs into the stem and the SCF, ZPVE, energy, enthalpy and Gibbs values, in that order |
| ExtractEnergies.ShortRowFields | extract_energies.py:105-109 | the short row splits at tabs into the stem and the SCF, enthalpy and Gibbs values, in that order |
| ExtractEnergies.ShortRowIgnoresOptional | extract_energies.py:106 | removing the ZPVE and thermal energy keys does not change the short row or whether it exists |
| ExtractEnergies.ParseAllFiles | extract_energies.py:76-85 | logs are processed in order; the printed rows are the rows of the first logs, one per log; the run stops at the first log whose row fails, with that log's cause, and every log is done exactly when none failed |
| Results.RunUntilFailure | extract_energies.py:80-85 | the items before the stop all succeeded with the recorded values, the item at the stop failed with the recorded exception, and all items are done exactly when there is no exception |
| AdfEsi.ExtractAtomCoordinates | create_adf_esi.py:80-88 | no `atomcoords` raises; a 2-D array is returned as it is; a trajectory gives its last frame and fails exactly when it has no frames |
| AdfEsi.LastFrameOnly | create_adf_esi.py:84-85 | of a trajectory only the final frame reaches the result |
| AdfEsi.OptimizedStructure | create_adf_esi.py:100-106 | succeeds exactly when `atomcoords` is a non-empty trajectory and `natom` and `atomnos` are set; the result is the last frame with the atomic numbers; otherwise the error is, in this order, a missing `atomcoords`, a 2-D array, no frames, a missing `natom`, a missing `atomnos`, each for the log's number |
| AdfEsi.Structures | create_adf_esi.py:100-106 | one structure per log, in log order, each that log's structure; a failure is the failure of the first log that fails |
| AdfEsi.StructuresSucceedIff | create_adf_esi.py:100-106 | the first loop succeeds exactly when every log yields a structure |
| AdfEsi.ColumnsIsJoin | create_adf_esi.py:119-120 | the coordinate columns are the coordinates, each right-justified to width 15, joined with single spaces |
| AdfEsi.AtomLineLength | create_adf_esi.py:118-120 | an atom line is max(symbol, 3) plus max(coordinate, 15) for each of the three coordinates plus 2 characters wide |
| AdfEsi.ColumnsWords | create_adf_esi.py:119-120 | splitting the columns on whitespace gives back the coordinate strings |
| AdfEsi.AtomLineWords | create_adf_esi.py:118-120 | splitting an atom line on whitespace gives the symbol and the three coordinates, unless a 3-letter symbol runs into a 15-character coordinate |
| AdfEsi.AtomLines | create_adf_esi.py:115-120 | one line per atom; a failure names the log and the first atom that has no atomic number (exactly when the atom index is past the atomic numbers) or whose atomic number has no symbol, and gives that number |
| AdfEsi.AtomLinesAt | create_adf_esi.py:115-120 | line `j` is the line of the symbol of atomic number `j` and the coordinates of atom `j` |
| AdfEsi.AtomLinesSucceedIff | create_adf_esi.py:115-118 | the atom lines exist exactly when every atom has an atomic number with a symbol |
| AdfEsi.Stems | create_adf_esi.py:111 | the name of every log without its extension, in order |
| AdfEsi.Entries | create_adf_esi.py:108-122 | on success the list has Σ(number of atoms in the last frame of log i + 2) entries and every structure has its atom lines; a failure is the atom-line failure of the first structure that fails |
| AdfEsi.EntriesSucceedIff | create_adf_esi.py:109-122 | the second loop succeeds exactly when every structure has its atom lines |
| AdfEsi.EntriesAt | create_adf_esi.py:109-122 | the entries of structure `i` start right after those of the structures before it: its label, its atom lines in atom order, then a "\n" entry |
| AdfEsi.CifLines | create_adf_esi.py:100-125 | the combined list exists only when every log yielded a structure; it has Σ(number of atoms in the last frame of log i + 2) + 1 entries and ends with a "\n" entry; a failure is the first loop's failure when that loop fails, and the second loop's otherwise |
| AdfEsi.CifLinesSucceedIff | create_adf_esi.py:100-125 | the combined list exists exactly when every log yields a structure and every structure has its atom lines |
| AdfEsi.CifStructureAt | create_adf_esi.py:109-122 | in the combined list, structure `i` is labelled with the name of log `i` without its extension, followed by its atom lines and a "\n" entry, after the entries of the structures before it |
| AdfEsi.WriteXyz | create_adf_esi.py:139-143 | the coordinate file is named after the log's stem plus ".txt" and its text ends in a newline |
| AdfEsi.TrimXyzDropsHeader | create_adf_esi.py:137-138 | the first two lines of the xyz text are dropped, the rest is kept verbatim, and exactly one "\n" is added |
| AdfEsi.TrimXyzShort | create_adf_esi.py:137-138 | an xyz text of one or two lines leaves only the added "\n" |
| AdfEsi.EsiMain | create_adf_esi.py:32-38 | 'xyz' writes one coordinate file per log, in log order; 'cif' writes one file under the requested name holding the combined list joined with "\n", and fails exactly when the combined list does, with its error; any other format writes nothing |
| UvPlot.Zip | create_uv_plot.py:103 | as many pairs as the shorter list has, pair `i` being energy `i` with strength `i` |
| UvPlot.ZipUnzip | create_uv_plot.py:103-104 | zipping the energy and strength columns of a transition list gives the list back |
| UvPlot.UnzipZip | create_uv_plot.py:103 | the columns of a zip are the two lists cut to the shorter length |
| UvPlot.GetTransitions | create_uv_plot.py:95-104 | a missing `etenergies` raises first, then a missing `etoscs`; otherwise energy `i` is paired with strength `i` in order, truncated to the shorter list |
| UvPlot.Wavelength | create_uv_plot.py:115 | the wavelength times the energy is 10⁷; it is infinite exactly when the energy is zero |
| UvPlot.WavelengthInverse | create_uv_plot.py:115 | applying the conversion to a wavelength gives back the energy |
| UvPlot.WavelengthDecreasing | create_uv_plot.py:115 | a higher positive energy gives a shorter wavelength |
| UvPlot.Row | create_uv_plot.py:118-119 | a row is max(wavelength, 15) + max(strength, 15) characters wide: at least 30, and exactly 30 when both numbers fit |
| UvPlot.RowWords | create_uv_plot.py:118-119 | splitting a row on whitespace gives the wavelength and the strength, unless the strength fills its column |
| UvPlot.RowHasNoNewline | create_uv_plot.py:118-119 | a row holds no newline |
| UvPlot.FormatTransitions | create_uv_plot.py:107-121 | one row per transition, in transition order |
| UvPlot.WriteTransitions | create_uv_plot.py:163-171 | the table is named after the log's stem plus ".dat" and starts with the title line |
| UvPlot.DatLines | create_uv_plot.py:170-171 | the table's lines are the title and then the rows, with no trailing newline; no rows leaves the title and one empty line |
| UvPlot.DatReadBack | create_uv_plot.py:115-121 | line `i + 1` of the table splits into the wavelength and the strength of transition `i` |
| UvPlot.WriteGnuplot | create_uv_plot.py:131-157 | the script is named after the log's stem plus ".plt" and holds eight lines joined with newlines: terminal, encoding, output `<stem>.png`, a blank line, `xrange [<window>]`, yrange, the style line, and the `Band` definition, with no final newline |
| UvPlot.GnuplotIgnoresTransitions | create_uv_plot.py:124-157 | the script depends only on the log's name and the window: neither the transitions nor sigma change it |
| UvPlot.GnuplotLines | create_uv_plot.py:135-151 | the script's text is eight lines joined with newlines: terminal, encoding, output `<stem>.png`, a blank line, `xrange [<window>]`, yrange, the style line, and the `Band` definition made of two fragments, with no final newline |
| UvPlot.OutputNamesShareStem | create_uv_plot.py:153-167 | the table and the script have the log's stem as their own stem |
| UvPlot.ProcessLog | create_uv_plot.py:39-49 | handling one log fails exactly when reading its transitions does, with the same missing attribute |
| UvPlot.UvMain | create_uv_plot.py:33-53 | logs are handled in order; the run stops at the first log without transitions, naming the missing attribute, and every log is done exactly when none failed |
| UvPlot.UvMainWrites | create_uv_plot.py:39-49 | for each finished log, the table of its transitions and its script, both named after that log |
| Text.Words | extract_energies.py:64 | every token of `split()` is non-empty and holds no whitespace |
| Text.WordsJoin | extract_energies.py:64 | `split()` of tokens joined with spaces gives back the tokens |
| Text.WordsAppend | extract_energies.py:64 | the tokens of a concatenation that meets at whitespace are the tokens of the parts |
| Text.WordsRJust | create_adf_esi.py:119 | a right-justified token splits into that token |
| Text.WordsLJust | create_adf_esi.py:118 | a left-justified token splits into that token |
| Text.SplitOn | create_adf_esi.py:137 | `split(sep)` gives at least one part and no part holds the separator |
| Text.SplitOnNoSep | create_adf_esi.py:137 | a text without the separator splits into itself |
| Text.SplitOnCons | create_adf_esi.py:137 | splitting `a + sep + b` gives `a` followed by the parts of `b` when `a` holds no separator |
| Text.JoinSplitOn | create_adf_esi.py:137-138 | joining the parts of a split with the same separator gives back the text |
| Text.SplitOnJoin | create_uv_plot.py:171 | splitting a join gives back the parts when no part holds the separator |
| Text.Slice | extract_energies.py:63 | slicing clamps bounds past the end: its length is max(0, min(hi, len) - lo) and its characters are those of the text from `lo` on |
| Text.LJust | create_adf_esi.py:118 | `ljust`: max(len, width) characters, the text then spaces |
| Text.RJust | create_adf_esi.py:119 | `rjust`: max(len, width) characters, spaces then the text |
| Text.ContainsIff | extract_energies.py:65 | the substring test holds exactly when some window of the line equals the marker |
| Paths.SplitExt | create_adf_esi.py:140 | `splitext` gives a root and an extension that concatenate to the name, the extension empty or a dot followed by neither a dot nor a slash |
| Paths.SplitExtNoExt | create_adf_esi.py:140 | when every dot of the last path component has only dots before it in that component, the name is all root and the extension is empty |
| Paths.SplitExtAtLastDot | create_adf_esi.py:140 | when the last dot lies in the last path component after some character that is not a dot, the name splits at that dot |
| Paths.SplitExtAppend | create_uv_plot.py:153 | splitting stem + "." + ext gives back the stem and "." + ext when the stem's last component is not all dots |
| Paths.SplitExtExampleDots | create_adf_esi.py:140 | "foo.bar.exe" splits into "foo.bar" and ".exe" |
| Paths.SplitExtExampleDirectory | create_adf_esi.py:140 | "/foo/bar.exe" splits into "/foo/bar" and ".exe" |
| Paths.SplitExtExampleHidden | create_adf_esi.py:140 | ".cshrc" has no extension: a leading dot does not start one |
| Paths.SplitExtExampleLeadingDots | create_adf_esi.py:140 | "/foo/....jpg" has no extension |

## Left out

- cclib is not part of this model. That covers `ccopen`, `parse`, `PeriodicTable` and the text `writexyz()` produces. The parsed log is the record `CcData.ParsedLog`, whose xyz text is opaque, and the periodic table is the `element` parameter.
- Command-line handling (`get_options`, `argparse`, help text, `sys.exit`) is left out. So is the `os.path.basename` taken of each argument: the scripts' file names are parameters.
- Printing is left out. The rows of `extract_energies.py` are returned as strings. The progress messages of `create_uv_plot.py` are not modelled.
- Reading and writing files is left out. The lines of a log come from the `read` parameter. The written files are `CcData.OutputFile` values.
- The `os.system('gnuplot …')` call and `shlex.quote` are left out, because they run an external process.
- Float parsing, rounding and formatting are function parameters, not modelled arithmetic.
- `parsed_files.index(file)` in the 'xyz' branch is modelled as positional pairing of log `i` with name `i`.
- In `create_uv_plot.py` the names are cclib's `filename` attributes. They are taken as given.
- The `natom` values that `write_cif` collects are only checked to be present, because their use is commented out in the source.
- AdfEsi.OptimizedStructure: a 2-D `atomcoords` is reported as `NotATrajectory` while the first loop visits that log. In the source, `atomcoords[-1]` of a 2-D array is the row of the last atom, so the first loop reads on (an empty array raises `IndexError` there) and the failure comes in the second loop, at atom 0 of that structure: `atoms[i][0]` and the element lookup run first, so an empty `atomnos` raises `IndexError` and a symbol of `None` raises `AttributeError` on `ljust`; only then does iterating a float raise `TypeError`. Since each row holds three coordinates, such a log always fails and nothing is written, but the error reported can differ: the source reports a missing `natom` or `atomnos` of that log or of a later log in the first loop, and an atom-line failure of an earlier structure in the second loop, before it reaches the 2-D log. For logs [A with an unknown element, B with 2-D coordinates] the source raises at A's atom line, while the model returns `NotATrajectory(1)`.
- UvPlot.WavelengthText: reals have no negative zero, so the "-inf" numpy prints for an energy of -0.0 is not modelled.
