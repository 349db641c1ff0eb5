/**
 * The shared on-disk state both evaluation drivers work on: the simulator's
 * configuration file, the score file the simulator appends to, and the log
 * of side effects performed on them.  The simulator itself is a parameter:
 * `simulate(config)` is the text one run appends to the score file.
 */
module Simulation {
  import opened Text
  import opened ArgosConfig

  /** One side effect on the shared files. */
  datatype Action =
    | Clean                          // the score file is truncated
    | Edit(fsm: string, seed: string) // `modify_argos_file` wrote this FSM and seed text
    | Run                            // one simulator run

  /** The text of a possibly missing file; a missing file reads as nothing. */
  function Contents(f: Option<string>): string
  {
    if f.Some? then f.value else ""
  }

  class Workspace {
    /** The simulator's configuration file. */
    var config: Element
    /** The score file; `None` when it does not exist. */
    var scores: Option<string>
    /** Every side effect performed so far, oldest first. */
    var log: seq<Action>
    /** What one simulator run appends to the score file, given the configuration it reads. */
    const simulate: Element -> string

    constructor(config0: Element, scores0: Option<string>, simulate: Element -> string)
      ensures config == config0 && scores == scores0 && log == [] && this.simulate == simulate
    {
      config := config0;
      scores := scores0;
      log := [];
      this.simulate := simulate;
    }

    /** `clean_previous_data`: open the score file for writing and close it, leaving it empty. */
    method CleanScores()
      modifies this
      ensures scores == Some("")
      ensures config == old(config) && log == old(log) + [Clean]
    {
      scores := Some("");
      log := log + [Clean];
    }

    /** `modify_argos_file` with the seed already rendered as text. */
    method ModifyArgosFile(fsm: string, seed: string)
      modifies this
      ensures config == Configure(old(config), fsm, seed)
      ensures scores == old(scores) && log == old(log) + [Edit(fsm, seed)]
    {
      config := Configure(config, fsm, seed);
      log := log + [Edit(fsm, seed)];
    }

    /** `run_argos`: one blocking simulator run, which appends its score to the score file. */
    method RunArgos()
      modifies this
      ensures scores == Some(Contents(old(scores)) + simulate(old(config)))
      ensures config == old(config) && log == old(log) + [Run]
    {
      scores := Some(Contents(scores) + simulate(config));
      log := log + [Run];
    }

    /** One trial: `modify_argos_file` with this FSM and seed text, then `run_argos`. */
    method Trial(fsm: string, seed: string)
      modifies this
      ensures config == Configure(old(config), fsm, seed)
      ensures scores == Some(Contents(old(scores)) + simulate(config))
      ensures log == old(log) + [Edit(fsm, seed), Run]
    {
      ModifyArgosFile(fsm, seed);
      RunArgos();
    }
  }

  // ---------------------------------------------------------------------
  // The trials of one FSM
  // ---------------------------------------------------------------------

  /** The seed text written for trial `j`: `str(100 + j)`. */
  function TrialSeed(j: int): string
  {
    IntToString(100 + j)
  }

  /** The seed text stands for the number 100 + j, so different trials get different seeds. */
  lemma TrialSeedValue(j: int, k: int)
    ensures IntValue(TrialSeed(j)) == 100 + j
    ensures j != k ==> TrialSeed(j) != TrialSeed(k)
  {
    IntToStringRoundTrip(100 + j);
    if j != k {
      IntToStringInjective(100 + j, 100 + k);
    }
  }

  /** The side effects of trials 0 .. n-1 of one FSM: write FSM and seed, then run. */
  function Trials(fsm: string, n: nat): seq<Action>
  {
    if n == 0 then [] else Trials(fsm, n - 1) + [Edit(fsm, TrialSeed(n - 1)), Run]
  }

  /** Trial `j` occupies positions 2j and 2j+1: its edit with seed 100 + j, then its run. */
  lemma {:induction false} TrialsAt(fsm: string, n: nat)
    ensures |Trials(fsm, n)| == 2 * n
    ensures forall j :: 0 <= j < n ==> Trials(fsm, n)[2 * j] == Edit(fsm, TrialSeed(j)) && Trials(fsm, n)[2 * j + 1] == Run
  {
    if n > 0 {
      TrialsAt(fsm, n - 1);
    }
  }

  /** The score file text `n` trials of `fsm` append, each run seeing the configuration edited for it. */
  function Outputs(simulate: Element -> string, t0: Element, fsm: string, n: nat): string
  {
    if n == 0 then "" else Outputs(simulate, t0, fsm, n - 1) + simulate(Configure(t0, fsm, TrialSeed(n - 1)))
  }

  /**
   * The configuration file after edits of `t0`, given the last FSM and seed
   * text written (`None` when nothing was written yet).
   */
  function Edited(t0: Element, last: Option<(string, string)>): Element
  {
    if last.None? then t0 else Configure(t0, last.value.0, last.value.1)
  }

  /** Editing an edited configuration gives what editing the original would: earlier edits leave no trace. */
  lemma EditedOverride(t0: Element, last: Option<(string, string)>, f: string, s: string)
    ensures Configure(Edited(t0, last), f, s) == Edited(t0, Some((f, s)))
  {
    if last.Some? {
      ConfigureOverride(t0, last.value.0, last.value.1, f, s);
    }
  }
}
