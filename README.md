# Evaluation and extraction drivers around the ARGoS simulator, in Dafny

This project models the three Python drivers that feed FSM (finite-state
machine) controller configurations to the ARGoS robot-swarm simulator and
collect the results:

- `evaluate_experiments_grappa.py` is the **batch evaluator**.
  - For every behaviour of every mission, it takes the FSM strings from the
    behaviour's entries.
  - For each FSM it clears the score file. It then runs the simulator
    `n_runs` times with seeds 100, 101, …, reads the score file back
    (ints, then floats, then Python literals, then raw text), and stores
    each list of scores in slot 2 of the FSM's entry.
- `evaluate_experiments.py` is the older **sweep runner**.
  - It clears the score file once.
  - It runs every FSM of one mission `n_experiments` times. The seed
    counter restarts at 0 for every FSM and is written as `100 + n`.
  - At the end it reads the whole score file with a reader that cuts the
    last character of every line and hands the rest to
    `ast.literal_eval`.
- `extract_best_fsm.py` is the **extractor**. For mission indices 1 to 6 it:
  - keeps the `.stdout` logs whose names carry the code `{n}g1s`;
  - finds the first line of each log that starts with
    `# Best configurations as commandlines`;
  - parses the next line with `^\s*\d+\s+(--ngroups.*)`;
  - collects the captures per mission code in an insertion-ordered
    dictionary, which it emits as a list of single-key objects.

## Modules

- `Text` (`text.dfy`) models the parts of Python's `str` that the drivers
  use:
  - `isspace` (also the `\s` class);
  - `strip`, `split()` and `split(sep)`;
  - `startswith`, `endswith` and `in`;
  - iteration over the lines of a file;
  - `str(int)`.
- `ArgosConfig` (`argos_config.dfy`) models the simulator configuration as
  an element tree. It also models the edit that `modify_argos_file`
  performs: `fsm-config` is set on every `params` element and
  `random_seed` on every `experiment` element strictly below the root.
- `Simulation` (`simulation.dfy`) holds the class `Workspace`, which is the
  shared on-disk state:
  - the configuration tree;
  - the score file, which may be missing;
  - a log of side effects: `Clean`, `Edit(fsm, seed)` and `Run`.

  The simulator is a function from the configuration it reads to the text
  one run appends to the score file.
- `EvaluateGrappa` (`evaluate_grappa.dfy`) models the batch evaluator.
- `EvaluateSweep` (`evaluate_sweep.dfy`) models the sweep runner and
  compares its schedule with the batch evaluator's.
- `ExtractBestFsm` (`extract_best_fsm.dfy`) models the extractor. The class
  `MissionsDict` stands for the insertion-ordered dictionary.

## Cases where the code does something other than one might expect

The model follows the code in every case below.

- **Write-back timing.** Dumping the JSON after each entry suggests the
  results are saved FSM by FSM as they are computed. They are not.
  - The code evaluates the whole behaviour's FSM list first
    (`evaluate_experiments_grappa.py:169`).
  - Only then does it copy the results into the entries, dumping the JSON
    after each copy (`evaluate_experiments_grappa.py:172-177`).
  - `EvaluateBehaviour` is stated that way. Every dump already holds
    results computed before the first dump.
- **The `13g1s` file name.** A filter for index 3 would be expected to
  reject `13g1s`, which is the code of index 13.
  - The filter `.*(3g1s).*\.stdout$` accepts it, and files it under
    `Grappa-Unb-3g1s`.
  - `ExtractBestFsm.ThirteenPassesForThree` proves this.
- **The mission number** is `name.split()[0].split("-")[1]`. This is the
  text between the first and the second `-` of the first word, not
  everything after the first `-` (`EvaluateGrappa.SecondDashFieldSpec`).
  A first word without `-` raises `IndexError`, which is modelled as
  `None`.

## Model

| member | source | states |
|---|---|---|
| Text.NatToString | extract_best_fsm.py:9 | `f"{n}"` is a nonempty run of ASCII digits with no leading zero |
| Text.NatToStringValue | evaluate_experiments_grappa.py:24 | reading back the digits `str(n)` writes gives `n` |
| Text.IntToStringRoundTrip | evaluate_experiments.py:21 | `str(i)` is an optional minus sign and digits, and `int` of it is `i` |
| Text.IntToStringInjective | evaluate_experiments_grappa.py:24 | different seeds are written as different texts |
| Text.ContainsIff | extract_best_fsm.py:9 | the substring test holds exactly when the text splits as `a + t + b` |
| Text.ContainsSplit | extract_best_fsm.py:9 | a substring hit yields the split around the occurrence |
| Text.ContainsWitness | extract_best_fsm.py:9 | any occurrence makes the substring test true |
| Text.IndexOfSpec | extract_best_fsm.py:18 | `.*` stops at the first newline: no newline before the index, a newline at it when it is inside the text |
| Text.IndexOfFirst | extract_best_fsm.py:18 | after a newline-free prefix the first newline is found exactly there |
| Text.IndexOfAbsent | extract_best_fsm.py:18 | with no newline, `.*` runs to the end |
| Text.LeadingSpacesSpec | evaluate_experiments_grappa.py:65 | the counted prefix is all whitespace and is followed by a non-space character or the end |
| Text.LeadingSpacesExact | extract_best_fsm.py:18 | whitespace followed by a non-space character is exactly what `\s*` consumes |
| Text.TrailingSpacesSpec | evaluate_experiments_grappa.py:65 | the counted suffix is all whitespace and is preceded by a non-space character or the start |
| Text.StripSpec | evaluate_experiments_grappa.py:65 | `strip()` gives a framed slice of the line whose ends are not whitespace, or the empty string |
| Text.StripEmptyIff | evaluate_experiments_grappa.py:65-67 | the stripped line is empty exactly when the line is all whitespace |
| Text.StripPadded | evaluate_experiments_grappa.py:65 | whitespace around text with non-space ends strips back to that text |
| Text.WordsEmptyIff | evaluate_experiments_grappa.py:154 | `split()` is empty exactly when the name is all whitespace |
| Text.FirstWordSpec | evaluate_experiments_grappa.py:154 | `split()[0]` is a nonempty word without whitespace that follows the leading whitespace and ends at whitespace or the end |
| Text.FirstWord | evaluate_experiments_grappa.py:154 | the same, with the surrounding whitespace and rest as witnesses |
| Text.WordsFirst | evaluate_experiments_grappa.py:154 | whitespace, a word, then whitespace or the end: `split()` starts with that word |
| Text.SplitOnPieces | evaluate_experiments_grappa.py:154 | no piece of `split("-")` contains `-` |
| Text.JoinSplit | evaluate_experiments_grappa.py:154 | joining the pieces of `split("-")` with `-` gives the word back |
| Text.SplitJoin | evaluate_experiments_grappa.py:154 | splitting a join of `-`-free pieces gives the pieces back |
| Text.LinesFlatten | evaluate_experiments_grappa.py:64 | the lines a file is iterated as concatenate back to its text |
| Text.LinesAreLines | evaluate_experiments_grappa.py:64 | a line holds a newline only as its last character |
| Text.LinesNewlines | evaluate_experiments_grappa.py:64 | every line but the last is nonempty and ends in a newline |
| Text.LinesTerminated | evaluate_experiments.py:48 | in a text that ends in a newline, every line ends in a newline |
| Text.LinesLastChar | evaluate_experiments.py:48 | the last line ends with the text's last character |
| Text.LinesOfLines | evaluate_experiments_grappa.py:64 | newline-terminated lines written one after another are read back as the same lines |
| Text.LinesSingle | evaluate_experiments_grappa.py:64 | a text holding one line is read as that line |
| ArgosConfig.SetMatchingAt | evaluate_experiments_grappa.py:19-24 | at every position of the tree, the element keeps its tag and number of children, and its attributes are updated exactly when its tag matches |
| ArgosConfig.SetBelowAt | evaluate_experiments_grappa.py:19-24 | `findall(".//tag")` updates every matching element strictly below the root and leaves the root's attributes alone |
| ArgosConfig.ConfigureAt | evaluate_experiments_grappa.py:13-30 | every `params` element below the root gets the FSM and every `experiment` element the seed; other attributes and the tree shape are unchanged |
| ArgosConfig.SetMatchingOverride | evaluate_experiments_grappa.py:19-20 | a second `set` of the same key overrides the first |
| ArgosConfig.SetBelowOverride | evaluate_experiments_grappa.py:19-20 | the same for the updates below the root |
| ArgosConfig.ConfigureOverride | evaluate_experiments_grappa.py:13-30 | the file after two edits is the file after the second edit alone: earlier FSMs and seeds leave no trace |
| ArgosConfig.SetMatchingCommute | evaluate_experiments_grappa.py:19-24 | the `params` loop and the `experiment` loop are independent: either order gives the same tree |
| ArgosConfig.SetBelowCommute | evaluate_experiments_grappa.py:19-24 | the same for the updates below the root |
| ArgosConfig.SetMatchingAbsent | evaluate_experiments_grappa.py:19-20 | with no element of the tag, the tree is unchanged |
| ArgosConfig.ConfigureWithoutTargets | evaluate_experiments_grappa.py:13-30 | with no `params` or `experiment` element below the root, the edit changes nothing |
| Simulation.Workspace.constructor | evaluate_experiments.py:112-113 | the drivers start from the given configuration file and score file, with nothing done yet |
| Simulation.Workspace.CleanScores | evaluate_experiments_grappa.py:94-97 | the score file exists and is empty; the configuration is unchanged; one `Clean` is logged |
| Simulation.Workspace.ModifyArgosFile | evaluate_experiments_grappa.py:13-30 | the configuration becomes the edited tree; the score file is unchanged; one `Edit` is logged |
| Simulation.Workspace.RunArgos | evaluate_experiments_grappa.py:36-49 | the run appends its output for the current configuration to the score file, creating the file if needed; one `Run` is logged |
| Simulation.Workspace.Trial | evaluate_experiments_grappa.py:121-122 | one edit and then one run: the run sees the freshly edited configuration |
| Simulation.TrialSeedValue | evaluate_experiments_grappa.py:120-121 | trial `j` writes the seed 100 + j, and different trials write different seeds |
| Simulation.TrialsAt | evaluate_experiments_grappa.py:120-122 | `n` trials make `2n` actions: the edit with seed 100 + j at position 2j and its run right after |
| Simulation.EditedOverride | evaluate_experiments_grappa.py:121 | after any earlier edits, the next edit leaves the file as if only it had been made |
| EvaluateGrappa.ParseValueChain | evaluate_experiments_grappa.py:69-79 | a line is an int exactly when `int` accepts it; a float exactly when `int` fails and `float` accepts it; a literal exactly when both fail and `literal_eval` accepts it; otherwise the raw text; each case keeps the parser's value |
| EvaluateGrappa.LineScoresSpec | evaluate_experiments_grappa.py:64-80 | a blank line adds nothing; any other line adds the parse of its stripped text |
| EvaluateGrappa.ParseLinesAppend | evaluate_experiments_grappa.py:64-80 | the scores of two blocks of lines are the scores of each block, in order |
| EvaluateGrappa.BlankLineIgnored | evaluate_experiments_grappa.py:65-67 | inserting a whitespace-only line anywhere changes nothing |
| EvaluateGrappa.ParseLinesLength | evaluate_experiments_grappa.py:64-80 | there is one score per non-blank line |
| EvaluateGrappa.ParseLinesAt | evaluate_experiments_grappa.py:64-80 | the score of non-blank line `k` sits at the index given by the number of non-blank lines before it |
| EvaluateGrappa.PySliceFrom | evaluate_experiments_grappa.py:84-86 | `xs[start:]` is a suffix of `xs` |
| EvaluateGrappa.LastScores | evaluate_experiments_grappa.py:84-86 | `scores[-n:]` is the last `min(n, len)` scores for `n > 0`, everything for `n == 0` (`-0` is `0`), and drops the first `-n` for `n < 0` |
| EvaluateGrappa.ReadScore | evaluate_experiments_grappa.py:55-87 | the loop over the file's lines computes the specified reading: `[]` for a missing file, the per-line scores otherwise, cut to the last `n_expected` when given |
| EvaluateGrappa.ParsedTokensAt | evaluate_experiments_grappa.py:69-79 | parsing a list of tokens parses each token |
| EvaluateGrappa.ParseTerminated | evaluate_experiments_grappa.py:64-80 | non-blank tokens without newlines or surrounding whitespace, one per line, read back as their parses |
| EvaluateGrappa.ReadBackTokens | evaluate_experiments_grappa.py:55-87 | a score file of such tokens, one per line, reads back as the parses of those tokens, in order |
| EvaluateGrappa.ParsedIntStrings | evaluate_experiments_grappa.py:69-70 | with an `int` that reads what `str` writes, integer texts parse back as those integers |
| EvaluateGrappa.ReadBackIntegers | evaluate_experiments_grappa.py:55-87 | a score file of integers written one per line reads back as exactly those integers |
| EvaluateGrappa.IntToStringToken | evaluate_experiments_grappa.py:65 | `str(i)` is a nonempty token with no whitespace at either end and no newline |
| EvaluateGrappa.NextTrial | evaluate_experiments_grappa.py:120-122 | trial `seed` appends the output of the run on the configuration edited with seed 100 + seed, logs its edit and run, and leaves that edit in the file |
| EvaluateGrappa.RunTrials | evaluate_experiments_grappa.py:120-122 | `n_runs` trials append their outputs in seed order, log their edits and runs, and leave the last one's edit in the file; a non-positive count does nothing |
| EvaluateGrappa.EvaluateFsm | evaluate_experiments_grappa.py:117-126 | one FSM's scores are the reading of exactly its own runs' output, because the file is cleared first; the score file is left holding exactly those outputs; the log is a clean, then its trials; the configuration holds its last trial's edit |
| EvaluateGrappa.FsmResults | evaluate_experiments_grappa.py:112-128 | one result list per FSM |
| EvaluateGrappa.FsmResultsAt | evaluate_experiments_grappa.py:112-128 | result `i` is FSM `i`'s own scores, whatever FSMs came before it |
| EvaluateGrappa.EvaluateFsmList | evaluate_experiments_grappa.py:103-128 | the results are, in order, each FSM's scores on the starting configuration; the score file is left holding the last FSM's outputs, or is untouched when the list is empty; the log is each FSM's clean and trials; the configuration keeps the last FSM's last edit |
| EvaluateGrappa.GrappaTraceLength | evaluate_experiments_grappa.py:114-122 | the log of `k` FSMs has `k(2n + 1)` actions |
| EvaluateGrappa.GrappaTraceBlock | evaluate_experiments_grappa.py:114-122 | FSM `i`'s block in the log, at `i(2n + 1)`, is exactly its clean followed by its trials |
| EvaluateGrappa.TrialsClean | evaluate_experiments_grappa.py:120-122 | the trials never clear the score file |
| EvaluateGrappa.GrappaCleans | evaluate_experiments_grappa.py:117 | the score file is cleared once per FSM |
| EvaluateGrappa.IntegerRunsReadBack | evaluate_experiments_grappa.py:117-125 | when each run writes one integer line, an FSM's scores are exactly its runs' integers, in seed order |
| EvaluateGrappa.OutputsAreIntLines | evaluate_experiments_grappa.py:120-122 | then the score file is those integers, one per line |
| EvaluateGrappa.SplitOnDash | evaluate_experiments_grappa.py:154 | `split("-")[1]` exists exactly when the word holds a `-` |
| EvaluateGrappa.SecondDashFieldSpec | evaluate_experiments_grappa.py:154 | the field exists exactly when the word holds a `-`, and it is the `-`-free text between the first `-` and the next `-` or the end |
| EvaluateGrappa.DashFieldsOf | evaluate_experiments_grappa.py:154 | at the first `-`, the word splits into a head, the field and the rest |
| EvaluateGrappa.SecondDashFieldOf | evaluate_experiments_grappa.py:154 | any such split gives that field |
| EvaluateGrappa.MissionNumberOf | evaluate_experiments_grappa.py:154 | a name whose first word splits that way has that field as its mission number |
| EvaluateGrappa.MissionNumberExample | evaluate_experiments_grappa.py:153-154 | `"Aggregation-1 (1 groups)"` has mission number `"1"` |
| EvaluateGrappa.FsmStrings | evaluate_experiments_grappa.py:166 | one FSM string per entry |
| EvaluateGrappa.WrittenBackSpec | evaluate_experiments_grappa.py:172-173 | the first `k` entries get their result lists in slot 2, the rest keep theirs; slots 0 and 1 never change; zip stops at the shorter list |
| EvaluateGrappa.WriteBack | evaluate_experiments_grappa.py:172-177 | the loop over the entries does exactly that in place, and each JSON dump sees the entries written so far |
| EvaluateGrappa.EvaluateBehaviour | evaluate_experiments_grappa.py:162-177 | every entry ends with its FSM's scores on the starting configuration in slot 2, with slots 0 and 1 unchanged; one dump per entry, dump k holding the first k+1 entries written back; the score file holds the last FSM's outputs; the log is the FSMs' cleans and trials; the configuration keeps the last edit |
| EvaluateSweep.ReadScore | evaluate_experiments.py:43-52 | the loop computes the specified reading: `None` for a missing file, the evaluated lines, or the first line on which `literal_eval` raises |
| EvaluateSweep.EvalLinesSpec | evaluate_experiments.py:46-50 | the reading has all values exactly when every cut line evaluates, with one value per line in order; otherwise it stops at the first line that fails |
| EvaluateSweep.EvalLinesRaised | evaluate_experiments.py:48-49 | once a line raises, later lines do not matter |
| EvaluateSweep.ChopTerminated | evaluate_experiments.py:49 | on a newline-terminated line, `[:-1]` removes exactly the newline |
| EvaluateSweep.LastLineLosesChar | evaluate_experiments.py:48-49 | when the file does not end in a newline, the last line loses its last real character |
| EvaluateSweep.TerminatedFileChops | evaluate_experiments.py:48-49 | when the file ends in a newline, every line loses just its newline |
| EvaluateSweep.ReadBackValues | evaluate_experiments.py:43-52 | values written one per line read back as their evaluations, in order, exactly when each evaluates |
| EvaluateSweep.BlankLineRaises | evaluate_experiments.py:48-49 | an empty line reaches `literal_eval("")`, which raises |
| EvaluateSweep.ModifyArgosFile | evaluate_experiments.py:12-27 | the file gets the FSM and the seed text `str(100 + random_seed)`; the score file is unchanged |
| EvaluateSweep.SeedOffset | evaluate_experiments.py:21 | the seed written for argument `n` is 100 + n |
| EvaluateSweep.NextRun | evaluate_experiments.py:98-104 | one pass edits with seed argument `n`, runs, and appends that run's output |
| EvaluateSweep.SweepFsm | evaluate_experiments.py:96-104 | with the counter reset to 0, one FSM's `n_experiments` runs append their outputs in seed order 100, 101, … |
| EvaluateSweep.SweepAll | evaluate_experiments.py:94-106 | the score file ends as every FSM's outputs in list order; the log is every FSM's trials; the file keeps the last edit |
| EvaluateSweep.RunExperiments | evaluate_experiments.py:83-107 | a failed mission lookup raises after the clean, leaving the score file empty and the configuration unchanged; otherwise the score file holds all FSMs' outputs in one file, the result is its reading, after one clean and all trials, and the configuration keeps the last edit |
| EvaluateSweep.AllTrialsClean | evaluate_experiments.py:94-104 | the sweep never clears between FSMs |
| EvaluateSweep.SweepCleansOnce | evaluate_experiments.py:91 | the sweep clears the score file once in all; the batch evaluator clears it once per FSM |
| EvaluateSweep.AllTrialsAppend | evaluate_experiments.py:94-104 | the schedule of two FSM lists is the two schedules one after the other |
| EvaluateSweep.SweepFsmBlock | evaluate_experiments.py:96-104 | FSM `i`'s part of the schedule sits between the other FSMs' trials and uses the seeds 100 … 99 + n again |
| EvaluateSweep.SweepIsGrappaWithoutCleans | evaluate_experiments.py:91-104 | the sweep's schedule is the batch evaluator's with its per-FSM cleans replaced by one clean at the start |
| EvaluateSweep.SweepOutputsSplit | evaluate_experiments.py:94-104 | the final score file of two FSM lists is the two files' text concatenated |
| ExtractBestFsm.CodeBeforeSuffix | extract_best_fsm.py:9 | an occurrence of `{n}g1s` in a `.stdout` name lies wholly before the suffix |
| ExtractBestFsm.FilterMatchIff | extract_best_fsm.py:9-14 | a name without newlines passes the filter for `n` exactly when it contains `{n}g1s` and ends in `.stdout` |
| ExtractBestFsm.ThirteenPassesForThree | extract_best_fsm.py:9-25 | a name with `13g1s` passes the filter for index 3 and is filed under `Grappa-Unb-3g1s` |
| ExtractBestFsm.LeadingDigitsSpec | extract_best_fsm.py:18 | `\d+` consumes only digits |
| ExtractBestFsm.LeadingDigitsExact | extract_best_fsm.py:18 | digits followed by a non-digit or the end are exactly what `\d+` consumes |
| ExtractBestFsm.ExtractParamsComplete | extract_best_fsm.py:18 | every line made of whitespace, digits, whitespace, `--ngroups…` and then a newline or the end matches, and the capture is the `--ngroups…` part |
| ExtractBestFsm.ExtractParamsSound | extract_best_fsm.py:18 | every match comes from a line of that shape, with the capture as its `--ngroups…` part |
| ExtractBestFsm.ExtractParamsExample | extract_best_fsm.py:18 | `"   3   --ngroups 2 --s 5\n"` yields `"--ngroups 2 --s 5"` |
| ExtractBestFsm.FirstMarker | extract_best_fsm.py:33-34 | a found marker index lies inside the file |
| ExtractBestFsm.FirstMarkerSpec | extract_best_fsm.py:33-34 | the found line starts with the marker and no earlier line does; "none" means no line does |
| ExtractBestFsm.FirstMarkerOf | extract_best_fsm.py:33-34 | a marker line after marker-free lines is the one found |
| ExtractBestFsm.ScanFile | extract_best_fsm.py:33-41 | the loop with its `break` yields the capture of the line right after the first marker, or nothing |
| ExtractBestFsm.ScanStopsAtFirstMarker | extract_best_fsm.py:33-41 | only the line right after the first marker counts; later markers and matches change nothing, and a marker on the last line yields nothing |
| ExtractBestFsm.Filtered | extract_best_fsm.py:14 | the comprehension keeps at most the listed files |
| ExtractBestFsm.FilteredSpec | extract_best_fsm.py:14 | a listed log is kept exactly when its name passes the filter |
| ExtractBestFsm.FileEvents | extract_best_fsm.py:23-41 | one recorded scan per kept log |
| ExtractBestFsm.FileEventsAt | extract_best_fsm.py:23-41 | log `i` is filed under `Grappa-Unb-{n}g1s` with its own scan's result |
| ExtractBestFsm.KeysOfSpec | extract_best_fsm.py:27-28 | each seen mission code is a key once, even when none of its logs yields a string, and no other key appears |
| ExtractBestFsm.KeysOfPrefix | extract_best_fsm.py:27-28 | existing keys keep their place as more logs are processed |
| ExtractBestFsm.ListOfAppend | extract_best_fsm.py:27-40 | later logs only append to a code's list; it is never reset |
| ExtractBestFsm.ListOfUnseen | extract_best_fsm.py:27-28 | a code no log was filed under has no strings |
| ExtractBestFsm.ListOfBound | extract_best_fsm.py:36-41 | each log adds at most one string to its code's list |
| ExtractBestFsm.MissionsDict.constructor | extract_best_fsm.py:5 | the dictionary starts empty |
| ExtractBestFsm.MissionsDict.EnsureKey | extract_best_fsm.py:27-28 | a new code is added at the end with an empty list; an existing one changes nothing |
| ExtractBestFsm.MissionsDict.Append | extract_best_fsm.py:40 | the string is appended to that code's list; nothing else changes |
| ExtractBestFsm.TracksStep | extract_best_fsm.py:23-41 | recording one more log keeps the dictionary equal to the keys and lists the processed logs call for |
| ExtractBestFsm.RecordLog | extract_best_fsm.py:24-41 | the loop body files the log under its code, scans it, and appends what it found |
| ExtractBestFsm.ScanFiles | extract_best_fsm.py:23-41 | after the inner loop, the dictionary matches all logs processed so far |
| ExtractBestFsm.OutputJson | extract_best_fsm.py:44-49 | one output object per key |
| ExtractBestFsm.OutputJsonSpec | extract_best_fsm.py:44-49 | the output has one object per mission code, in first-seen order, each code once, each with every string filed under it |
| ExtractBestFsm.ExtractAll | extract_best_fsm.py:5-49 | a new dictionary; after the rounds for indices 1 to 6 it matches every log processed, and the output is built from it |

## Definitions

The functions the contracts above are stated in. Each one models the cited source lines; what it means is proved by the members named beside it, which have their own rows above.

| definition | source | stated by |
|---|---|---|
| Text.IsSpace | evaluate_experiments_grappa.py:65 | LeadingSpacesSpec, TrailingSpacesSpec |
| Text.StartsWith | extract_best_fsm.py:34 | FirstMarkerSpec, ExtractParamsComplete |
| Text.EndsWith | extract_best_fsm.py:9 | FilterMatchIff |
| Text.Contains | extract_best_fsm.py:9 | ContainsIff, ContainsSplit, ContainsWitness |
| Text.IndexOf | extract_best_fsm.py:18 | IndexOfSpec, IndexOfFirst, IndexOfAbsent |
| Text.Strip | evaluate_experiments_grappa.py:65 | StripSpec, StripEmptyIff, StripPadded |
| Text.Words | evaluate_experiments_grappa.py:154 | WordsEmptyIff, FirstWordSpec, WordsFirst |
| Text.SplitOn | evaluate_experiments_grappa.py:154 | SplitOnPieces, JoinSplit, SplitJoin |
| Text.Lines | evaluate_experiments_grappa.py:64 | LinesFlatten, LinesAreLines, LinesNewlines, LinesTerminated, LinesLastChar, LinesOfLines |
| Text.IntToString | evaluate_experiments_grappa.py:24 | IntToStringRoundTrip, IntToStringInjective |
| ArgosConfig.SetMatching | evaluate_experiments_grappa.py:19-24 | SetMatchingAt, SetMatchingOverride, SetMatchingCommute, SetMatchingAbsent |
| ArgosConfig.SetBelow | evaluate_experiments_grappa.py:19-24 | SetBelowAt, SetBelowOverride, SetBelowCommute |
| ArgosConfig.Configure | evaluate_experiments_grappa.py:13-30 | ConfigureAt, ConfigureOverride, ConfigureWithoutTargets |
| Simulation.TrialSeed | evaluate_experiments_grappa.py:120-121 | TrialSeedValue |
| Simulation.Trials | evaluate_experiments_grappa.py:120-122 | TrialsAt, TrialsClean |
| Simulation.Outputs | evaluate_experiments_grappa.py:120-122 | Workspace.RunArgos, RunTrials, OutputsAreIntLines |
| Simulation.Edited | evaluate_experiments_grappa.py:121 | EditedOverride |
| EvaluateGrappa.ParseValue | evaluate_experiments_grappa.py:69-79 | ParseValueChain |
| EvaluateGrappa.LineScores | evaluate_experiments_grappa.py:65-80 | LineScoresSpec |
| EvaluateGrappa.ParseLines | evaluate_experiments_grappa.py:64-80 | ParseLinesLength, ParseLinesAt, ParseLinesAppend, BlankLineIgnored |
| EvaluateGrappa.ReadScoreSpec | evaluate_experiments_grappa.py:55-87 | ReadScore, LastScores, ReadBackTokens, ReadBackIntegers |
| EvaluateGrappa.GrappaTrace | evaluate_experiments_grappa.py:114-122 | GrappaTraceLength, GrappaTraceBlock, GrappaCleans, EvaluateFsmList |
| EvaluateGrappa.FsmScores | evaluate_experiments_grappa.py:117-125 | EvaluateFsm, IntegerRunsReadBack |
| EvaluateGrappa.SecondDashField | evaluate_experiments_grappa.py:154 | SecondDashFieldSpec, SecondDashFieldOf, SplitOnDash |
| EvaluateGrappa.MissionNumber | evaluate_experiments_grappa.py:154 | MissionNumberOf, MissionNumberExample |
| EvaluateGrappa.WrittenBack | evaluate_experiments_grappa.py:172-173 | WrittenBackSpec, WriteBack, EvaluateBehaviour |
| EvaluateSweep.Chop | evaluate_experiments.py:49 | ChopTerminated, LastLineLosesChar, TerminatedFileChops |
| EvaluateSweep.EvalLines | evaluate_experiments.py:48-49 | EvalLinesSpec, EvalLinesRaised |
| EvaluateSweep.SweepReadSpec | evaluate_experiments.py:43-52 | ReadScore, ReadBackValues, BlankLineRaises |
| EvaluateSweep.MissionFsms | evaluate_experiments.py:94 | RunExperiments, whose two branches are the lookup failing and succeeding |
| EvaluateSweep.AllTrials | evaluate_experiments.py:94-104 | AllTrialsAppend, AllTrialsClean, SweepFsmBlock |
| EvaluateSweep.SweepTrace | evaluate_experiments.py:91-104 | SweepCleansOnce, SweepIsGrappaWithoutCleans |
| EvaluateSweep.SweepOutputs | evaluate_experiments.py:94-104 | SweepAll, SweepOutputsSplit |
| ExtractBestFsm.MissionCode | extract_best_fsm.py:9 | FilterMatchIff, ThirteenPassesForThree |
| ExtractBestFsm.MissionKey | extract_best_fsm.py:24-25 | ThirteenPassesForThree, FileEventsAt |
| ExtractBestFsm.FilterMatch | extract_best_fsm.py:9 | FilterMatchIff, ThirteenPassesForThree, FilteredSpec |
| ExtractBestFsm.ExtractParams | extract_best_fsm.py:18 | ExtractParamsComplete, ExtractParamsSound, ExtractParamsExample |
| ExtractBestFsm.ScanSpec | extract_best_fsm.py:30-41 | ScanFile, ScanStopsAtFirstMarker |
| ExtractBestFsm.AllEvents | extract_best_fsm.py:7-41 | FileEventsAt, ScanFiles, ExtractAll |
| ExtractBestFsm.KeysOf | extract_best_fsm.py:27-28 | KeysOfSpec, KeysOfPrefix |
| ExtractBestFsm.ListOf | extract_best_fsm.py:27-40 | ListOfAppend, ListOfUnseen, ListOfBound |
| ExtractBestFsm.Tracks | extract_best_fsm.py:5-41 | TracksStep, ScanFiles, ExtractAll |

## Left out

- Running the simulator is left out. This covers writing `argos.sh`, `chmod` and `subprocess.run`. A run is the `simulate` function of the workspace, which gives the text the run appends to the score file. A simulator that hangs or fails is not modelled.
- XML parsing and serialisation, and the XML declaration, are left out. The configuration file is the element tree itself.
- Python's `int`, `float` and `ast.literal_eval` are parameters (`Parsers`, `eval`), not models of their grammars. Floating point is not modelled.
- `numpy` is left out. The sweep runner's `np.array` is modelled as the list of values.
- JSON loading and dumping, `glob` and file opening are left out. The hard-coded paths are also left out. The mission JSON, the listing of logs and the log texts are inputs. A dump is a snapshot of the entries in the model.
- The extractor calls `glob` in every round. The model uses one listing for all rounds, because the directory does not change while the script runs. The order of the listing is taken as given.
- Text-mode newline translation (`\r\n` and `\r` read as `\n`) is left out. File texts are what Python hands over after translation.
- The sweep runner's `clean_previous_data` clears a hard-coded path. The model assumes this is the score file it reads, as it is in its `__main__` block.
- Plots, the `__main__` blocks' commented-out loops and all `print` calls are left out.
- ExtractBestFsm.ExtractParams: `\d` is ASCII digits only. Python's `re` also accepts other Unicode decimal digits in `str` patterns.
- ExtractBestFsm.FilterMatch: a name with a newline anywhere other than a single final newline never matches. This is the `.*` and `$` rule. `FilterMatchIff` is stated for names without newlines.
- EvaluateSweep.ReadScore: the exception that escapes `read_score` when `literal_eval` fails is modelled as the value `Raised(line)`. It is not modelled as a failure of the caller.
- EvaluateGrappa.ReadScore: a raised `ValueError` from `int`/`float`, or any exception from `literal_eval`, is folded into the parsers returning `None`. Other exceptions from reading the file are not modelled.
