/**
 * The older sweep driver, `evaluate_experiments.py`: it clears the score
 * file once, runs every FSM of one mission `n_experiments` times with seeds
 * 100, 101, ..., and reads the whole score file back at the end with a
 * `read_score` that drops the last character of every line and hands the
 * rest to `ast.literal_eval`.
 */
module EvaluateSweep {
  import opened Text
  import opened ArgosConfig
  import opened Simulation
  import opened EvaluateGrappa

  // ---------------------------------------------------------------------
  // read_score
  // ---------------------------------------------------------------------

  /** What `read_score` produces. */
  datatype SweepRead<L> =
    | NoFile              // the score file does not exist: `None`
    | Values(vs: seq<L>)  // every line was evaluated
    | Raised(line: nat)   // `literal_eval` raised on this line (0-based); the exception is not caught

  /** `line[:-1]`: the line without its last character (empty stays empty). */
  function Chop(line: string): (c: string)
    ensures |line| > 0 ==> c == line[..|line| - 1]
    ensures |line| == 0 ==> c == []
  {
    if |line| == 0 then [] else line[..|line| - 1]
  }

  /**
   * The loop of `read_score` over `f.readlines()`: evaluate each chopped
   * line in order; the first line `literal_eval` rejects ends the loop with
   * an exception.
   */
  function EvalLines<L>(ls: seq<string>, eval: string -> Option<L>): SweepRead<L>
  {
    if ls == [] then Values([])
    else
      var r := EvalLines(ls[..|ls| - 1], eval);
      if !r.Values? then r
      else
        var v := eval(Chop(ls[|ls| - 1]));
        if v.None? then Raised(|ls| - 1) else Values(r.vs + [v.value])
  }

  /** `read_score(file_path)`, as a function of the file's text (`None`: no such file). */
  function SweepReadSpec<L>(file: Option<string>, eval: string -> Option<L>): SweepRead<L>
  {
    if file.None? then NoFile else EvalLines(Lines(file.value), eval)
  }

  /** The loop of `read_score`, with the exception as an early return. */
  method ReadScore<L>(file: Option<string>, eval: string -> Option<L>) returns (r: SweepRead<L>)
    ensures r == SweepReadSpec(file, eval)
  {
    if file.None? {
      return NoFile;
    }
    var lines := Lines(file.value);
    var data: seq<L> := [];
    var i := 0;
    while i < |lines|
      invariant 0 <= i <= |lines|
      invariant EvalLines(lines[..i], eval) == Values(data)
    {
      assert lines[..i + 1][..i] == lines[..i];
      var v := eval(Chop(lines[i]));
      if v.None? {
        EvalLinesRaised(lines, i + 1, eval);
        return Raised(i);
      }
      data := data + [v.value];
      i := i + 1;
    }
    assert lines[..i] == lines;
    r := Values(data);
  }

  /**
   * The loop either evaluates every line, giving one value per line in
   * order, or stops at the first line whose chopped text `literal_eval`
   * rejects; it never produces `NoFile`.
   */
  lemma {:induction false} EvalLinesSpec<L>(ls: seq<string>, eval: string -> Option<L>)
    ensures !EvalLines(ls, eval).NoFile?
    ensures EvalLines(ls, eval).Values? <==> forall i :: 0 <= i < |ls| ==> eval(Chop(ls[i])).Some?
    ensures EvalLines(ls, eval).Values? ==>
      |EvalLines(ls, eval).vs| == |ls| && forall i :: 0 <= i < |ls| ==> EvalLines(ls, eval).vs[i] == eval(Chop(ls[i])).value
    ensures EvalLines(ls, eval).Raised? ==>
      && EvalLines(ls, eval).line < |ls|
      && eval(Chop(ls[EvalLines(ls, eval).line])).None?
      && forall i :: 0 <= i < EvalLines(ls, eval).line ==> eval(Chop(ls[i])).Some?
    decreases |ls|
  {
    if ls != [] {
      var init := ls[..|ls| - 1];
      EvalLinesSpec(init, eval);
      assert forall i :: 0 <= i < |init| ==> init[i] == ls[i];
    }
  }

  /** Once a line has raised, the lines after it are never read. */
  lemma {:induction false} EvalLinesRaised<L>(ls: seq<string>, k: nat, eval: string -> Option<L>)
    requires k <= |ls| && EvalLines(ls[..k], eval).Raised?
    ensures EvalLines(ls, eval) == EvalLines(ls[..k], eval)
    decreases |ls| - k
  {
    if k == |ls| {
      assert ls[..k] == ls;
    } else {
      var init := ls[..|ls| - 1];
      assert init[..k] == ls[..k];
      EvalLinesRaised(init, k, eval);
    }
  }

  /** A line that ends in a newline is chopped to exactly its text. */
  lemma ChopTerminated(line: string)
    requires |line| > 0 && line[|line| - 1] == '\n'
    ensures Chop(line) + "\n" == line
  {
  }

  /**
   * In a file whose last character is not a newline, the last line loses a
   * real character to the chop, not a line terminator.
   */
  lemma LastLineLosesChar(text: string)
    requires text != [] && text[|text| - 1] != '\n'
    ensures |Lines(text)| > 0
    ensures var l := Lines(text)[|Lines(text)| - 1];
      |l| > 0 && Chop(l) + [text[|text| - 1]] == l && text[|text| - 1] != '\n'
  {
    var l := LinesLastChar(text);
    assert Chop(l) + [l[|l| - 1]] == l;
  }

  /** In a newline-terminated file every line is chopped to its text without the newline. */
  lemma TerminatedFileChops(text: string)
    requires text != [] && text[|text| - 1] == '\n'
    ensures forall i :: 0 <= i < |Lines(text)| ==> Chop(Lines(text)[i]) + "\n" == Lines(text)[i]
  {
    LinesTerminated(text);
    forall i | 0 <= i < |Lines(text)|
      ensures Chop(Lines(text)[i]) + "\n" == Lines(text)[i]
    {
      ChopTerminated(Lines(text)[i]);
    }
  }

  /**
   * A score file holding values written one per line, each followed by a
   * newline, evaluates exactly the written texts: all of them, in order,
   * when each is accepted, and otherwise up to the first one rejected.
   */
  lemma ReadBackValues<L>(ss: seq<string>, eval: string -> Option<L>)
    requires forall k :: 0 <= k < |ss| ==> '\n' !in ss[k]
    ensures Lines(Flatten(Terminated(ss))) == Terminated(ss)
    ensures forall k :: 0 <= k < |ss| ==> Chop(Terminated(ss)[k]) == ss[k]
    ensures SweepReadSpec(Some(Flatten(Terminated(ss))), eval).Values? <==> forall k :: 0 <= k < |ss| ==> eval(ss[k]).Some?
    ensures SweepReadSpec(Some(Flatten(Terminated(ss))), eval).Values? ==>
      && |SweepReadSpec(Some(Flatten(Terminated(ss))), eval).vs| == |ss|
      && forall k :: 0 <= k < |ss| ==> SweepReadSpec(Some(Flatten(Terminated(ss))), eval).vs[k] == eval(ss[k]).value
  {
    var ls := Terminated(ss);
    TerminatedAt(ss);
    forall k | 0 <= k < |ss|
      ensures IsLine(ls[k]) && ls[k][|ls[k]| - 1] == '\n' && Chop(ls[k]) == ss[k]
    {
      assert ls[k] == ss[k] + "\n";
      assert ls[k][..|ls[k]| - 1] == ss[k];
    }
    LinesOfLines(ls);
    EvalLinesSpec(ls, eval);
  }

  /**
   * A blank line is not caught: when `literal_eval` rejects the empty text,
   * a file with an empty line raises instead of returning values.
   */
  lemma BlankLineRaises<L>(text: string, k: nat, eval: string -> Option<L>)
    requires k < |Lines(text)| && Lines(text)[k] == "\n"
    requires eval("").None?
    ensures SweepReadSpec(Some(text), eval).Raised?
  {
    EvalLinesSpec(Lines(text), eval);
    assert Chop(Lines(text)[k]) == "";
  }

  // ---------------------------------------------------------------------
  // modify_argos_file and the run schedule
  // ---------------------------------------------------------------------

  /** `modify_argos_file(argos_file, fsm_config, random_seed)`: the seed written is `str(100 + random_seed)`. */
  method ModifyArgosFile(ws: Workspace, fsm: string, randomSeed: int)
    modifies ws
    ensures ws.config == Configure(old(ws.config), fsm, TrialSeed(randomSeed))
    ensures ws.scores == old(ws.scores) && ws.log == old(ws.log) + [Edit(fsm, TrialSeed(randomSeed))]
  {
    var seedText := IntToString(100 + randomSeed);
    assert seedText == TrialSeed(randomSeed);
    ws.ModifyArgosFile(fsm, seedText);
  }

  /** The written seed text reads back as 100 plus the seed argument. */
  lemma SeedOffset(randomSeed: int)
    ensures IntValue(TrialSeed(randomSeed)) == 100 + randomSeed
  {
    TrialSeedValue(randomSeed, randomSeed);
  }

  /** The side effects of the FSM loop: for each FSM in order, its trials; no clean in between. */
  function AllTrials(fsms: seq<string>, n: nat): seq<Action>
  {
    if fsms == [] then [] else AllTrials(fsms[..|fsms| - 1], n) + Trials(fsms[|fsms| - 1], n)
  }

  /** The side effects of `run_experiments`: one clean, then every FSM's trials. */
  function SweepTrace(fsms: seq<string>, n: nat): seq<Action>
  {
    [Clean] + AllTrials(fsms, n)
  }

  /** The score file text at the end: every FSM's runs, one after the other, in one file. */
  function SweepOutputs(simulate: Element -> string, t0: Element, fsms: seq<string>, n: nat): string
  {
    if fsms == [] then "" else SweepOutputs(simulate, t0, fsms[..|fsms| - 1], n) + Outputs(simulate, t0, fsms[|fsms| - 1], n)
  }

  /** `fsm_configs["missions"][0][mission_name]`; `None` when the list is empty or the key is missing. */
  function MissionFsms(missions: seq<map<string, seq<string>>>, name: string): (r: Option<seq<string>>)
    ensures r.Some? <==> |missions| > 0 && name in missions[0]
    ensures r.Some? ==> r.value == missions[0][name]
  {
    if |missions| > 0 && name in missions[0] then Some(missions[0][name]) else None
  }

  /** What `run_experiments` ends with. */
  datatype Outcome<L> =
    | LookupFailed               // the mission list is empty or lacks the mission: the lookup raises
    | Finished(read: SweepRead<L>) // the final `read_score`

  /** One pass of the inner loop: `modify_argos_file` with seed argument `n`, then `run_argos`. */
  method NextRun(ws: Workspace, fsm: string, n: nat, ghost t0: Element, ghost last: Option<(string, string)>)
    requires ws.config == Edited(t0, LastTrial(fsm, n, last))
    modifies ws
    ensures ws.scores == Some(Contents(old(ws.scores)) + ws.simulate(Configure(t0, fsm, TrialSeed(n))))
    ensures ws.log == old(ws.log) + [Edit(fsm, TrialSeed(n)), Run]
    ensures ws.config == Edited(t0, LastTrial(fsm, n + 1, last))
  {
    EditedOverride(t0, LastTrial(fsm, n, last), fsm, TrialSeed(n));
    ModifyArgosFile(ws, fsm, n);
    ws.RunArgos();
    SeqAssoc(old(ws.log), [Edit(fsm, TrialSeed(n))], [Run]);
  }

  /**
   * The inner loop of `run_experiments` for one FSM: `n_experiments` runs;
   * the counter `n` starts again at 0, so the seed arguments are 0, 1, ...
   * and the written seeds 100, 101, ...
   */
  method SweepFsm(ws: Workspace, fsm: string, nExperiments: int, ghost t0: Element, ghost last: Option<(string, string)>)
    requires ws.config == Edited(t0, last) && ws.scores.Some?
    modifies ws
    ensures ws.scores == Some(old(ws.scores).value + Outputs(ws.simulate, t0, fsm, Runs(nExperiments)))
    ensures ws.log == old(ws.log) + Trials(fsm, Runs(nExperiments))
    ensures ws.config == Edited(t0, LastTrial(fsm, Runs(nExperiments), last))
  {
    ghost var before := ws.log;
    ghost var start := ws.scores.value;
    assert Outputs(ws.simulate, t0, fsm, 0) == "" && Trials(fsm, 0) == [];
    EmptySuffix(before);
    EmptySuffix(start);
    var n := 0;
    var i := 0;
    while i < nExperiments
      invariant 0 <= i <= Runs(nExperiments) && n == i
      invariant ws.scores == Some(start + Outputs(ws.simulate, t0, fsm, n))
      invariant ws.log == before + Trials(fsm, n)
      invariant ws.config == Edited(t0, LastTrial(fsm, n, last))
    {
      ghost var soFar := Outputs(ws.simulate, t0, fsm, n);
      NextRun(ws, fsm, n, t0, last);
      ghost var run := ws.simulate(Configure(t0, fsm, TrialSeed(n)));
      assert Outputs(ws.simulate, t0, fsm, n + 1) == soFar + run;
      SeqAssoc(start, soFar, run);
      SeqAssoc(before, Trials(fsm, n), [Edit(fsm, TrialSeed(n)), Run]);
      assert ws.scores == Some(start + Outputs(ws.simulate, t0, fsm, n + 1));
      assert ws.log == before + Trials(fsm, n + 1);
      n := n + 1;
      i := i + 1;
    }
  }

  /** The FSM loop of `run_experiments`, after the single clean. */
  method SweepAll(ws: Workspace, fsms: seq<string>, nExperiments: int)
    requires ws.scores == Some("")
    modifies ws
    ensures ws.scores == Some(SweepOutputs(ws.simulate, old(ws.config), fsms, Runs(nExperiments)))
    ensures ws.log == old(ws.log) + AllTrials(fsms, Runs(nExperiments))
    ensures ws.config == Edited(old(ws.config), LastEdit(fsms, Runs(nExperiments)))
  {
    ghost var t0 := ws.config;
    ghost var log0 := ws.log;
    ghost var k := Runs(nExperiments);
    EmptySuffix(log0);
    var m := 0;
    assert fsms[..m] == [];
    while m < |fsms|
      invariant 0 <= m <= |fsms|
      invariant ws.scores == Some(SweepOutputs(ws.simulate, t0, fsms[..m], k))
      invariant ws.log == log0 + AllTrials(fsms[..m], k)
      invariant ws.config == Edited(t0, LastEdit(fsms[..m], k))
    {
      SweepFsm(ws, fsms[m], nExperiments, t0, LastEdit(fsms[..m], k));
      assert fsms[..m + 1][..m] == fsms[..m];
      SeqAssoc(log0, AllTrials(fsms[..m], k), Trials(fsms[m], k));
      LastEditSnoc(fsms, m, k);
      m := m + 1;
    }
    assert fsms[..m] == fsms;
  }

  /**
   * `run_experiments`: clear the score file once, run every FSM of the
   * mission in list order with seeds 100 .. 99 + n_experiments each, and
   * read the whole score file once at the end. A mission the file does not
   * list raises after the clean, before any run.
   */
  method RunExperiments<L>(ws: Workspace, missions: seq<map<string, seq<string>>>, name: string, nExperiments: int, eval: string -> Option<L>)
    returns (r: Outcome<L>)
    modifies ws
    ensures MissionFsms(missions, name).None? ==>
      r == LookupFailed && ws.scores == Some("") && ws.log == old(ws.log) + [Clean] && ws.config == old(ws.config)
    ensures MissionFsms(missions, name).Some? ==>
      var fsms := MissionFsms(missions, name).value;
      && r == Finished(SweepReadSpec(Some(SweepOutputs(ws.simulate, old(ws.config), fsms, Runs(nExperiments))), eval))
      && ws.scores == Some(SweepOutputs(ws.simulate, old(ws.config), fsms, Runs(nExperiments)))
      && ws.log == old(ws.log) + SweepTrace(fsms, Runs(nExperiments))
      && ws.config == Edited(old(ws.config), LastEdit(fsms, Runs(nExperiments)))
  {
    ws.CleanScores();
    var fsms := MissionFsms(missions, name);
    if fsms.None? {
      return LookupFailed;
    }
    SweepAll(ws, fsms.value, nExperiments);
    SeqAssoc(old(ws.log), [Clean], AllTrials(fsms.value, Runs(nExperiments)));
    var read := ReadScore(ws.scores, eval);
    r := Finished(read);
  }

  // ---------------------------------------------------------------------
  // The schedule compared with the batch evaluator
  // ---------------------------------------------------------------------

  lemma {:induction false} AllTrialsClean(fsms: seq<string>, n: nat)
    ensures Clean !in AllTrials(fsms, n)
    decreases |fsms|
  {
    if fsms != [] {
      AllTrialsClean(fsms[..|fsms| - 1], n);
      TrialsClean(fsms[|fsms| - 1], n);
    }
  }

  /** The sweep clears the score file exactly once, the batch evaluator once per FSM. */
  lemma SweepCleansOnce(fsms: seq<string>, n: nat)
    ensures CleanCount(SweepTrace(fsms, n)) == 1
    ensures CleanCount(GrappaTrace(fsms, n)) == |fsms|
  {
    AllTrialsClean(fsms, n);
    CleanCountNone(AllTrials(fsms, n));
    CleanCountAppend([Clean], AllTrials(fsms, n));
    assert [Clean][..0] == [];
    GrappaCleans(fsms, n);
  }

  lemma {:induction false} AllTrialsAppend(a: seq<string>, b: seq<string>, n: nat)
    ensures AllTrials(a + b, n) == AllTrials(a, n) + AllTrials(b, n)
    decreases |b|
  {
    if b == [] {
      assert a + b == a;
      EmptySuffix(AllTrials(a, n));
    } else {
      var b0 := b[..|b| - 1];
      assert (a + b)[..|a + b| - 1] == a + b0;
      AllTrialsAppend(a, b0, n);
      SeqAssoc(AllTrials(a, n), AllTrials(b0, n), Trials(b[|b| - 1], n));
    }
  }

  /**
   * The counter is reset for every FSM: FSM `i`'s part of the schedule is
   * exactly its own trials with seeds 100 .. 99 + n, between the trials of
   * the FSMs before it and those after it.
   */
  lemma SweepFsmBlock(fsms: seq<string>, n: nat, i: nat)
    requires i < |fsms|
    ensures SweepTrace(fsms, n) == [Clean] + AllTrials(fsms[..i], n) + Trials(fsms[i], n) + AllTrials(fsms[i + 1..], n)
    ensures |Trials(fsms[i], n)| == 2 * n
    ensures forall j :: 0 <= j < n ==> Trials(fsms[i], n)[2 * j] == Edit(fsms[i], TrialSeed(j)) && Trials(fsms[i], n)[2 * j + 1] == Run
  {
    var pre, x, post := fsms[..i], fsms[i], fsms[i + 1..];
    assert fsms == pre + [x] + post;
    AllTrialsAppend(pre + [x], post, n);
    AllTrialsAppend(pre, [x], n);
    AllTrialsSingle(x, n);
    var a, t, p := AllTrials(pre, n), Trials(x, n), AllTrials(post, n);
    SeqAssoc([Clean], a + t, p);
    SeqAssoc([Clean], a, t);
    TrialsAt(x, n);
  }

  lemma AllTrialsSingle(fsm: string, n: nat)
    ensures AllTrials([fsm], n) == Trials(fsm, n)
  {
    assert [fsm][..0] == [];
    EmptyPrefix(Trials(fsm, n));
  }

  /** A trace with its cleans left out. */
  function WithoutCleans(trace: seq<Action>): (r: seq<Action>)
    ensures Clean !in r
  {
    if trace == [] then []
    else WithoutCleans(trace[..|trace| - 1]) + (if trace[|trace| - 1] == Clean then [] else [trace[|trace| - 1]])
  }

  lemma {:induction false} WithoutCleansAppend(a: seq<Action>, b: seq<Action>)
    ensures WithoutCleans(a + b) == WithoutCleans(a) + WithoutCleans(b)
    decreases |b|
  {
    if b == [] {
      assert a + b == a;
      EmptySuffix(WithoutCleans(a));
    } else {
      var b0 := b[..|b| - 1];
      assert (a + b)[..|a + b| - 1] == a + b0;
      WithoutCleansAppend(a, b0);
      var x := b[|b| - 1];
      SeqAssoc(WithoutCleans(a), WithoutCleans(b0), if x == Clean then [] else [x]);
    }
  }

  lemma {:induction false} WithoutCleansNone(trace: seq<Action>)
    requires Clean !in trace
    ensures WithoutCleans(trace) == trace
    decreases |trace|
  {
    if trace != [] {
      assert trace == trace[..|trace| - 1] + [trace[|trace| - 1]];
      WithoutCleansNone(trace[..|trace| - 1]);
    }
  }

  /**
   * The two drivers run the same simulations with the same seeds in the same
   * order: the sweep's schedule is the batch evaluator's with its per-FSM
   * cleans replaced by a single one at the start.
   */
  lemma {:induction false} SweepIsGrappaWithoutCleans(fsms: seq<string>, n: nat)
    ensures AllTrials(fsms, n) == WithoutCleans(GrappaTrace(fsms, n))
    ensures SweepTrace(fsms, n) == [Clean] + WithoutCleans(GrappaTrace(fsms, n))
    decreases |fsms|
  {
    if fsms != [] {
      var init, last := fsms[..|fsms| - 1], fsms[|fsms| - 1];
      SweepIsGrappaWithoutCleans(init, n);
      WithoutCleansAppend(GrappaTrace(init, n), [Clean] + Trials(last, n));
      WithoutCleansAppend([Clean], Trials(last, n));
      assert [Clean][..0] == [];
      TrialsClean(last, n);
      WithoutCleansNone(Trials(last, n));
      EmptyPrefix(Trials(last, n));
    }
  }

  /** The single final read sees every FSM's output: the file is the batch evaluator's per-FSM files joined in order. */
  lemma {:induction false} SweepOutputsSplit(simulate: Element -> string, t0: Element, a: seq<string>, b: seq<string>, n: nat)
    ensures SweepOutputs(simulate, t0, a + b, n) == SweepOutputs(simulate, t0, a, n) + SweepOutputs(simulate, t0, b, n)
    decreases |b|
  {
    if b == [] {
      assert a + b == a;
      EmptySuffix(SweepOutputs(simulate, t0, a, n));
    } else {
      var b0 := b[..|b| - 1];
      assert (a + b)[..|a + b| - 1] == a + b0;
      SweepOutputsSplit(simulate, t0, a, b0, n);
      SeqAssoc(SweepOutputs(simulate, t0, a, n), SweepOutputs(simulate, t0, b0, n), Outputs(simulate, t0, b[|b| - 1], n));
    }
  }
}
