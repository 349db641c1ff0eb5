/**
 * The batch evaluator: for every FSM of a behaviour it clears the score
 * file, runs the simulator on seeds 100, 101, ..., reads the scores back,
 * and writes the list into slot 2 of the FSM's entry.
 */
module EvaluateGrappa {
  import opened Text
  import opened ArgosConfig
  import opened Simulation

  // ---------------------------------------------------------------------
  // Parsing one score line: int, else float, else literal, else raw text
  // ---------------------------------------------------------------------

  /** A parsed score: an `int`, a `float`, any other Python literal, or the raw text. */
  datatype Score<F, L> = IntV(i: int) | FloatV(f: F) | LitV(l: L) | StrV(s: string)

  /**
   * Python's `int`, `float` and `ast.literal_eval` applied to a stripped
   * line: each either yields a value or raises (`None`).
   */
  datatype Parsers<F, L> = Parsers(parseInt: string -> Option<int>, parseFloat: string -> Option<F>, literalEval: string -> Option<L>)

  /** The `try`/`except` chain of `read_score`. */
  function ParseValue<F, L>(s: string, p: Parsers<F, L>): Score<F, L>
  {
    match p.parseInt(s)
    case Some(i) => IntV(i)
    case None =>
      match p.parseFloat(s)
      case Some(f) => FloatV(f)
      case None =>
        match p.literalEval(s)
        case Some(l) => LitV(l)
        case None => StrV(s)
  }

  /**
   * The chain never fails and picks the first parser that accepts: an
   * integer if `int` parses, else a float if `float` parses, else a literal
   * if `literal_eval` parses, else the text itself.
   */
  lemma ParseValueChain<F, L>(s: string, p: Parsers<F, L>)
    ensures ParseValue(s, p).IntV? <==> p.parseInt(s).Some?
    ensures ParseValue(s, p).FloatV? <==> p.parseInt(s).None? && p.parseFloat(s).Some?
    ensures ParseValue(s, p).LitV? <==> p.parseInt(s).None? && p.parseFloat(s).None? && p.literalEval(s).Some?
    ensures ParseValue(s, p).StrV? <==> p.parseInt(s).None? && p.parseFloat(s).None? && p.literalEval(s).None?
    ensures ParseValue(s, p).IntV? ==> Some(ParseValue(s, p).i) == p.parseInt(s)
    ensures ParseValue(s, p).FloatV? ==> Some(ParseValue(s, p).f) == p.parseFloat(s)
    ensures ParseValue(s, p).LitV? ==> Some(ParseValue(s, p).l) == p.literalEval(s)
    ensures ParseValue(s, p).StrV? ==> ParseValue(s, p).s == s
  {
  }

  /** What one line of the file adds to the scores: nothing when it strips to nothing. */
  function LineScores<F, L>(line: string, p: Parsers<F, L>): seq<Score<F, L>>
  {
    var s := Strip(line);
    if s == [] then [] else [ParseValue(s, p)]
  }

  /** The scores of the lines read so far. */
  function ParseLines<F, L>(lines: seq<string>, p: Parsers<F, L>): seq<Score<F, L>>
  {
    if lines == [] then []
    else ParseLines(lines[..|lines| - 1], p) + LineScores(lines[|lines| - 1], p)
  }

  /** The number of lines that are not all whitespace. */
  function NonBlankCount(lines: seq<string>): nat
  {
    if lines == [] then 0
    else NonBlankCount(lines[..|lines| - 1]) + (if AllSpace(lines[|lines| - 1]) then 0 else 1)
  }

  /** A blank line adds no score; any other line adds exactly its parsed stripped text. */
  lemma LineScoresSpec<F, L>(line: string, p: Parsers<F, L>)
    ensures AllSpace(line) ==> LineScores(line, p) == []
    ensures !AllSpace(line) ==> LineScores(line, p) == [ParseValue(Strip(line), p)]
  {
    StripEmptyIff(line);
  }

  /** Parsing is line by line: the scores of two blocks of lines are the scores of each, in order. */
  lemma {:induction false} ParseLinesAppend<F, L>(a: seq<string>, b: seq<string>, p: Parsers<F, L>)
    ensures ParseLines(a + b, p) == ParseLines(a, p) + ParseLines(b, p)
    decreases |b|
  {
    if b == [] {
      assert a + b == a;
    } else {
      var init, last := b[..|b| - 1], b[|b| - 1];
      assert (a + b)[..|a + b| - 1] == a + init;
      assert (a + b)[|a + b| - 1] == last;
      ParseLinesAppend(a, init, p);
    }
  }

  /** Blank lines contribute nothing: removing one leaves the scores unchanged. */
  lemma BlankLineIgnored<F, L>(a: seq<string>, line: string, b: seq<string>, p: Parsers<F, L>)
    requires AllSpace(line)
    ensures ParseLines(a + [line] + b, p) == ParseLines(a + b, p)
  {
    ParseLinesAppend(a + [line], b, p);
    ParseLinesAppend(a, [line], p);
    ParseLinesAppend(a, b, p);
    ParseLinesSingle(line, p);
    LineScoresSpec(line, p);
  }

  lemma ParseLinesSingle<F, L>(line: string, p: Parsers<F, L>)
    ensures ParseLines([line], p) == LineScores(line, p)
  {
    assert [line][..0] == [];
  }

  /** There are exactly as many scores as non-blank lines. */
  lemma {:induction false} ParseLinesLength<F, L>(lines: seq<string>, p: Parsers<F, L>)
    ensures |ParseLines(lines, p)| == NonBlankCount(lines)
    decreases |lines|
  {
    if lines != [] {
      ParseLinesLength(lines[..|lines| - 1], p);
      LineScoresSpec(lines[|lines| - 1], p);
    }
  }

  /**
   * Order is preserved: the score of non-blank line `k` sits at the
   * position given by the number of non-blank lines before it.
   */
  lemma ParseLinesAt<F, L>(lines: seq<string>, k: int, p: Parsers<F, L>)
    requires 0 <= k < |lines| && !AllSpace(lines[k])
    ensures NonBlankCount(lines[..k]) < |ParseLines(lines, p)|
    ensures ParseLines(lines, p)[NonBlankCount(lines[..k])] == ParseValue(Strip(lines[k]), p)
  {
    var before, after := lines[..k], lines[k + 1..];
    assert lines == before + [lines[k]] + after;
    ParseLinesAppend(before + [lines[k]], after, p);
    ParseLinesAppend(before, [lines[k]], p);
    ParseLinesSingle(lines[k], p);
    LineScoresSpec(lines[k], p);
    ParseLinesLength(before, p);
  }

  // ---------------------------------------------------------------------
  // read_score
  // ---------------------------------------------------------------------

  /** Python's `xs[start:]` for any integer `start`: negative starts count from the end, and both ends clamp. */
  function PySliceFrom<T>(xs: seq<T>, start: int): (r: seq<T>)
    ensures |r| <= |xs| && r == xs[|xs| - |r|..]
  {
    var b := if start < 0 then (if |xs| + start < 0 then 0 else |xs| + start)
             else (if start > |xs| then |xs| else start);
    xs[b..]
  }

  function Min(a: int, b: int): int
  {
    if a < b then a else b
  }

  /**
   * `scores[-n:]`: for n > 0 the last min(n, len) scores; for n == 0 the
   * whole list, since `-0` is `0`; for n < 0 the list without its first
   * |n| scores.
   */
  lemma LastScores<T>(xs: seq<T>, n: int)
    ensures n > 0 ==> |PySliceFrom(xs, -n)| == Min(n, |xs|) && PySliceFrom(xs, -n) == xs[|xs| - Min(n, |xs|)..]
    ensures n == 0 ==> PySliceFrom(xs, -n) == xs
    ensures n < 0 ==> PySliceFrom(xs, -n) == xs[Min(-n, |xs|)..]
  {
  }

  /** What `read_score(file_path, n_expected)` returns; a missing file (`None`) gives the empty list. */
  function ReadScoreSpec<F, L>(file: Option<string>, nExpected: Option<int>, p: Parsers<F, L>): seq<Score<F, L>>
  {
    match file
    case None => []
    case Some(text) =>
      var scores := ParseLines(Lines(text), p);
      if nExpected.Some? then PySliceFrom(scores, -nExpected.value) else scores
  }

  /** `read_score`: strip each line, skip blank ones, parse the rest; optionally keep only the last entries. */
  method ReadScore<F, L>(file: Option<string>, nExpected: Option<int>, p: Parsers<F, L>) returns (scores: seq<Score<F, L>>)
    ensures scores == ReadScoreSpec(file, nExpected, p)
  {
    scores := [];
    if file.None? {
      return [];
    }
    var lines := Lines(file.value);
    var i := 0;
    while i < |lines|
      invariant 0 <= i <= |lines|
      invariant scores == ParseLines(lines[..i], p)
    {
      var s := Strip(lines[i]);
      if s != [] {
        scores := scores + [ParseValue(s, p)];
      }
      assert lines[..i + 1][..i] == lines[..i];
      i := i + 1;
    }
    assert lines[..i] == lines;
    if nExpected.Some? {
      scores := PySliceFrom(scores, -nExpected.value);
    }
  }

  // ---------------------------------------------------------------------
  // Files written one value per line are read back value by value
  // ---------------------------------------------------------------------

  /** A value as a simulator run writes it: nonempty, no newline, no whitespace at either end. */
  predicate Token(s: string)
  {
    s != [] && !IsSpace(s[0]) && !IsSpace(s[|s| - 1]) && '\n' !in s
  }

  /** The lines of a file holding these tokens, each followed by a newline. */
  function Terminated(ss: seq<string>): (ls: seq<string>)
    ensures |ls| == |ss|
  {
    if ss == [] then [] else Terminated(ss[..|ss| - 1]) + [ss[|ss| - 1] + "\n"]
  }

  /** The tokens, each parsed by the chain. */
  function ParsedTokens<F, L>(ss: seq<string>, p: Parsers<F, L>): (vs: seq<Score<F, L>>)
    ensures |vs| == |ss|
  {
    if ss == [] then [] else ParsedTokens(ss[..|ss| - 1], p) + [ParseValue(ss[|ss| - 1], p)]
  }

  lemma {:induction false} ParsedTokensAt<F, L>(ss: seq<string>, p: Parsers<F, L>)
    ensures forall k :: 0 <= k < |ss| ==> ParsedTokens(ss, p)[k] == ParseValue(ss[k], p)
    decreases |ss|
  {
    if ss != [] {
      ParsedTokensAt(ss[..|ss| - 1], p);
    }
  }

  lemma {:induction false} TerminatedAt(ss: seq<string>)
    ensures forall k :: 0 <= k < |ss| ==> Terminated(ss)[k] == ss[k] + "\n"
    decreases |ss|
  {
    if ss != [] {
      TerminatedAt(ss[..|ss| - 1]);
    }
  }

  /** A token followed by a newline is one line, and strips back to the token. */
  lemma TokenLine<F, L>(s: string, p: Parsers<F, L>)
    requires Token(s)
    ensures IsLine(s + "\n") && (s + "\n")[|s|] == '\n'
    ensures LineScores(s + "\n", p) == [ParseValue(s, p)]
  {
    assert (s + "\n")[..|s|] == s;
    StripPadded([], s, "\n");
    assert [] + s + "\n" == s + "\n";
  }

  lemma {:induction false} ParseTerminated<F, L>(ss: seq<string>, p: Parsers<F, L>)
    requires forall k :: 0 <= k < |ss| ==> Token(ss[k])
    ensures ParseLines(Terminated(ss), p) == ParsedTokens(ss, p)
    decreases |ss|
  {
    if ss != [] {
      var init, last := ss[..|ss| - 1], ss[|ss| - 1];
      var ls := Terminated(ss);
      assert ls[..|ls| - 1] == Terminated(init);
      ParseTerminated(init, p);
      TokenLine(last, p);
    }
  }

  /**
   * A score file in which each run wrote one token on a line of its own
   * reads back as the chain's value of each token, in order, one per token.
   */
  lemma ReadBackTokens<F, L>(ss: seq<string>, p: Parsers<F, L>)
    requires forall k :: 0 <= k < |ss| ==> Token(ss[k])
    ensures ReadScoreSpec(Some(Flatten(Terminated(ss))), None, p) == ParsedTokens(ss, p)
  {
    TerminatedAt(ss);
    forall k | 0 <= k < |ss|
      ensures IsLine(Terminated(ss)[k]) && Terminated(ss)[k][|Terminated(ss)[k]| - 1] == '\n'
    {
      TokenLine(ss[k], p);
    }
    LinesOfLines(Terminated(ss));
    ParseTerminated(ss, p);
  }

  // ---------------------------------------------------------------------
  // Integer scores written one per line are read back exactly
  // ---------------------------------------------------------------------

  /** The parser accepts `str(i)` as the integer `i`, as Python's `int` does. */
  ghost predicate ParsesIntegers<F, L>(p: Parsers<F, L>)
  {
    forall i :: p.parseInt(IntToString(i)) == Some(i)
  }

  /** `str(v)` of each integer. */
  function IntStrings(vs: seq<int>): (ss: seq<string>)
    ensures |ss| == |vs|
  {
    if vs == [] then [] else IntStrings(vs[..|vs| - 1]) + [IntToString(vs[|vs| - 1])]
  }

  /** The scores read back from integer lines. */
  function IntScores<F, L>(vs: seq<int>): seq<Score<F, L>>
  {
    if vs == [] then [] else IntScores(vs[..|vs| - 1]) + [IntV(vs[|vs| - 1])]
  }

  /** `IntScores` wraps each integer in turn. */
  lemma {:induction false} IntScoresAt<F, L>(vs: seq<int>)
    ensures |IntScores<F, L>(vs)| == |vs|
    ensures forall k :: 0 <= k < |vs| ==> IntScores<F, L>(vs)[k] == IntV(vs[k])
    decreases |vs|
  {
    if vs != [] {
      IntScoresAt<F, L>(vs[..|vs| - 1]);
    }
  }

  lemma {:induction false} IntStringsAt(vs: seq<int>)
    ensures forall k :: 0 <= k < |vs| ==> IntStrings(vs)[k] == IntToString(vs[k])
    decreases |vs|
  {
    if vs != [] {
      IntStringsAt(vs[..|vs| - 1]);
    }
  }

  lemma {:induction false} ParsedIntStrings<F, L>(vs: seq<int>, p: Parsers<F, L>)
    requires ParsesIntegers(p)
    ensures ParsedTokens(IntStrings(vs), p) == IntScores(vs)
    decreases |vs|
  {
    if vs != [] {
      var ss := IntStrings(vs);
      assert ss[..|ss| - 1] == IntStrings(vs[..|vs| - 1]);
      ParsedIntStrings(vs[..|vs| - 1], p);
      assert p.parseInt(IntToString(vs[|vs| - 1])) == Some(vs[|vs| - 1]);
    }
  }

  /**
   * A score file in which each run wrote its integer score on a line of its
   * own reads back as exactly those integers, in order.
   */
  lemma ReadBackIntegers<F, L>(vs: seq<int>, p: Parsers<F, L>)
    requires ParsesIntegers(p)
    ensures ReadScoreSpec(Some(Flatten(Terminated(IntStrings(vs)))), None, p) == IntScores(vs)
  {
    IntStringsAt(vs);
    forall k | 0 <= k < |vs|
      ensures Token(IntStrings(vs)[k])
    {
      IntToStringToken(vs[k]);
    }
    ReadBackTokens(IntStrings(vs), p);
    ParsedIntStrings(vs, p);
  }

  /** `str(i)` is a token: it starts with a digit or a minus sign and ends with a digit. */
  lemma IntToStringToken(i: int)
    ensures Token(IntToString(i))
  {
    var s := IntToString(i);
    var d := NatToString(if i < 0 then -i else i);
    assert s[|s| - 1] == d[|d| - 1];
    assert forall k :: 0 <= k < |d| ==> IsDigit(d[k]);
    if i < 0 {
      assert s == "-" + d;
    } else {
      assert s == d;
    }
  }

  // ---------------------------------------------------------------------
  // evaluate_fsm_list
  // ---------------------------------------------------------------------

  /** `len(range(n))`. */
  function Runs(n: int): nat
  {
    if n > 0 then n else 0
  }

  /** The side effects of `evaluate_fsm_list`: per FSM, one clean and then its trials. */
  function GrappaTrace(fsms: seq<string>, n: nat): seq<Action>
  {
    if fsms == [] then []
    else GrappaTrace(fsms[..|fsms| - 1], n) + ([Clean] + Trials(fsms[|fsms| - 1], n))
  }

  /** The last FSM and seed text written by `n` trials of `fsm`, after an earlier last edit `last`. */
  function LastTrial(fsm: string, n: nat, last: Option<(string, string)>): Option<(string, string)>
  {
    if n == 0 then last else Some((fsm, TrialSeed(n - 1)))
  }

  /**
   * One pass of the inner loop of `evaluate_fsm_list`: write the FSM and the
   * seed text `str(100 + seed)`, then run the simulator, which sees exactly
   * that FSM and seed.
   */
  method NextTrial(ws: Workspace, fsm: string, seed: nat, ghost t0: Element, ghost last: Option<(string, string)>)
    requires ws.config == Edited(t0, LastTrial(fsm, seed, last))
    modifies ws
    ensures ws.scores == Some(Contents(old(ws.scores)) + ws.simulate(Configure(t0, fsm, TrialSeed(seed))))
    ensures ws.log == old(ws.log) + [Edit(fsm, TrialSeed(seed)), Run]
    ensures ws.config == Edited(t0, LastTrial(fsm, seed + 1, last))
  {
    var seedText := IntToString(100 + seed);
    assert seedText == TrialSeed(seed);
    EditedOverride(t0, LastTrial(fsm, seed, last), fsm, seedText);
    ws.Trial(fsm, seedText);
  }

  /**
   * The inner loop of `evaluate_fsm_list`: for seeds 0 .. n_runs-1, write the
   * FSM and the seed text `str(100 + seed)` into the configuration and run
   * the simulator once. Run `j` sees the configuration edited with seed
   * 100 + j, and its output is appended after the earlier ones.
   */
  method RunTrials(ws: Workspace, fsm: string, nRuns: int, ghost t0: Element, ghost last: Option<(string, string)>)
    requires ws.config == Edited(t0, last)
    modifies ws
    ensures ws.scores == if Runs(nRuns) == 0 then old(ws.scores) else Some(Contents(old(ws.scores)) + Outputs(ws.simulate, t0, fsm, Runs(nRuns)))
    ensures ws.log == old(ws.log) + Trials(fsm, Runs(nRuns))
    ensures ws.config == Edited(t0, LastTrial(fsm, Runs(nRuns), last))
  {
    ghost var before := ws.log;
    ghost var start := Contents(ws.scores);
    assert Outputs(ws.simulate, t0, fsm, 0) == "" && Trials(fsm, 0) == [];
    EmptySuffix(before);
    EmptySuffix(start);
    var seed := 0;
    while seed < nRuns
      invariant 0 <= seed <= Runs(nRuns)
      invariant ws.scores == if seed == 0 then old(ws.scores) else Some(start + Outputs(ws.simulate, t0, fsm, seed))
      invariant ws.log == before + Trials(fsm, seed)
      invariant ws.config == Edited(t0, LastTrial(fsm, seed, last))
    {
      ghost var soFar := Outputs(ws.simulate, t0, fsm, seed);
      assert Contents(ws.scores) == start + soFar;
      NextTrial(ws, fsm, seed, t0, last);
      ghost var run := ws.simulate(Configure(t0, fsm, TrialSeed(seed)));
      assert Outputs(ws.simulate, t0, fsm, seed + 1) == soFar + run;
      SeqAssoc(start, soFar, run);
      SeqAssoc(before, Trials(fsm, seed), [Edit(fsm, TrialSeed(seed)), Run]);
      assert ws.scores == Some(start + Outputs(ws.simulate, t0, fsm, seed + 1));
      assert ws.log == before + Trials(fsm, seed + 1);
      seed := seed + 1;
    }
  }

  /**
   * One pass of the outer loop of `evaluate_fsm_list`: clear the score file,
   * run the `n_runs` trials of `fsm`, and read the file back. The
   * configuration file is left holding the FSM and the seed of its last trial.
   */
  method EvaluateFsm<F, L>(ws: Workspace, fsm: string, nRuns: int, p: Parsers<F, L>, ghost t0: Element, ghost last: Option<(string, string)>)
    returns (scores: seq<Score<F, L>>)
    requires ws.config == Edited(t0, last)
    modifies ws
    ensures scores == FsmScores(ws.simulate, t0, Runs(nRuns), p, fsm)
    ensures ws.scores == Some(Outputs(ws.simulate, t0, fsm, Runs(nRuns)))
    ensures ws.log == old(ws.log) + ([Clean] + Trials(fsm, Runs(nRuns)))
    ensures ws.config == Edited(t0, LastTrial(fsm, Runs(nRuns), last))
  {
    ws.CleanScores();
    RunTrials(ws, fsm, nRuns, t0, last);
    ghost var out := Outputs(ws.simulate, t0, fsm, Runs(nRuns));
    EmptyPrefix(out);
    assert ws.scores == Some(out);
    SeqAssoc(old(ws.log), [Clean], Trials(fsm, Runs(nRuns)));
    scores := ReadScore(ws.scores, None, p);
  }

  /** The last FSM and seed text written while evaluating `fsms`: none when nothing runs. */
  function LastEdit(fsms: seq<string>, n: nat): Option<(string, string)>
  {
    if fsms == [] || n == 0 then None else Some((fsms[|fsms| - 1], TrialSeed(n - 1)))
  }

  /** The scores of one FSM: what its `n` trials on `t0` write into the cleared score file, read back. */
  function FsmScores<F, L>(simulate: Element -> string, t0: Element, n: nat, p: Parsers<F, L>, fsm: string): seq<Score<F, L>>
  {
    ReadScoreSpec(Some(Outputs(simulate, t0, fsm, n)), None, p)
  }

  /** `[evaluate(fsm) for fsm in fsms]`, each FSM evaluated on the same starting configuration. */
  function FsmResults<F, L>(simulate: Element -> string, t0: Element, fsms: seq<string>, n: nat, p: Parsers<F, L>): (rs: seq<seq<Score<F, L>>>)
    ensures |rs| == |fsms|
  {
    if fsms == [] then []
    else FsmResults(simulate, t0, fsms[..|fsms| - 1], n, p) + [FsmScores(simulate, t0, n, p, fsms[|fsms| - 1])]
  }

  /** Result `i` belongs to FSM `i`. */
  lemma {:induction false} FsmResultsAt<F, L>(simulate: Element -> string, t0: Element, fsms: seq<string>, n: nat, p: Parsers<F, L>, i: nat)
    requires i < |fsms|
    ensures FsmResults(simulate, t0, fsms, n, p)[i] == FsmScores(simulate, t0, n, p, fsms[i])
    decreases |fsms|
  {
    var init := fsms[..|fsms| - 1];
    if i < |init| {
      FsmResultsAt(simulate, t0, init, n, p, i);
      assert init[i] == fsms[i];
    }
  }

  lemma FsmResultsSnoc<F, L>(simulate: Element -> string, t0: Element, fsms: seq<string>, idx: nat, n: nat, p: Parsers<F, L>)
    requires idx < |fsms|
    ensures FsmResults(simulate, t0, fsms[..idx + 1], n, p) == FsmResults(simulate, t0, fsms[..idx], n, p) + [FsmScores(simulate, t0, n, p, fsms[idx])]
  {
    assert fsms[..idx + 1][..idx] == fsms[..idx];
  }

  /**
   * `evaluate_fsm_list`: exactly one score list per FSM, in order; the list
   * of FSM `i` is what its own `n_runs` trials wrote into the freshly
   * cleared score file, with the configuration rewritten before each run.
   * The configuration file is left holding the last FSM and seed written.
   */
  method EvaluateFsmList<F, L>(ws: Workspace, fsms: seq<string>, nRuns: int, p: Parsers<F, L>) returns (results: seq<seq<Score<F, L>>>)
    modifies ws
    ensures results == FsmResults(ws.simulate, old(ws.config), fsms, Runs(nRuns), p)
    ensures fsms == [] ==> ws.scores == old(ws.scores)
    ensures fsms != [] ==> ws.scores == Some(Outputs(ws.simulate, old(ws.config), fsms[|fsms| - 1], Runs(nRuns)))
    ensures ws.log == old(ws.log) + GrappaTrace(fsms, Runs(nRuns))
    ensures ws.config == Edited(old(ws.config), LastEdit(fsms, Runs(nRuns)))
  {
    ghost var t0 := ws.config;
    ghost var log0 := ws.log;
    ghost var n := Runs(nRuns);
    ghost var s0 := ws.scores;
    results := [];
    var idx := 0;
    assert fsms[..idx] == [];
    while idx < |fsms|
      invariant 0 <= idx <= |fsms|
      invariant results == FsmResults(ws.simulate, t0, fsms[..idx], n, p)
      invariant ws.scores == ScoresAfter(ws.simulate, t0, fsms[..idx], n, s0)
      invariant ws.log == log0 + GrappaTrace(fsms[..idx], n)
      invariant ws.config == Edited(t0, LastEdit(fsms[..idx], n))
    {
      var scores := EvaluateFsm(ws, fsms[idx], nRuns, p, t0, LastEdit(fsms[..idx], n));
      results := results + [scores];
      FsmResultsSnoc(ws.simulate, t0, fsms, idx, n, p);
      GrappaTraceSnoc(fsms, idx, n);
      LastEditSnoc(fsms, idx, n);
      ScoresAfterSnoc(ws.simulate, t0, fsms, idx, n, s0);
      SeqAssoc(log0, GrappaTrace(fsms[..idx], n), [Clean] + Trials(fsms[idx], n));
      idx := idx + 1;
    }
    assert fsms[..idx] == fsms;
  }

  /** The score file after evaluating `fsms` from `s0`: the outputs of the last FSM, or `s0` when there is none. */
  function ScoresAfter(simulate: Element -> string, t0: Element, fsms: seq<string>, n: nat, s0: Option<string>): Option<string>
  {
    if fsms == [] then s0 else Some(Outputs(simulate, t0, fsms[|fsms| - 1], n))
  }

  lemma ScoresAfterSnoc(simulate: Element -> string, t0: Element, fsms: seq<string>, idx: nat, n: nat, s0: Option<string>)
    requires idx < |fsms|
    ensures ScoresAfter(simulate, t0, fsms[..idx + 1], n, s0) == Some(Outputs(simulate, t0, fsms[idx], n))
  {
  }

  lemma LastEditSnoc(fsms: seq<string>, idx: nat, n: nat)
    requires idx < |fsms|
    ensures LastEdit(fsms[..idx + 1], n) == LastTrial(fsms[idx], n, LastEdit(fsms[..idx], n))
  {
  }

  lemma EmptyPrefix<T>(s: seq<T>)
    ensures [] + s == s
  {
  }

  lemma EmptySuffix<T>(s: seq<T>)
    ensures s + [] == s
  {
  }

  lemma SeqAssoc<T>(a: seq<T>, b: seq<T>, c: seq<T>)
    ensures a + b + c == a + (b + c)
  {
  }

  lemma GrappaTraceSnoc(fsms: seq<string>, idx: nat, n: nat)
    requires idx < |fsms|
    ensures GrappaTrace(fsms[..idx + 1], n) == GrappaTrace(fsms[..idx], n) + ([Clean] + Trials(fsms[idx], n))
  {
    assert fsms[..idx + 1][..idx] == fsms[..idx];
  }

  /** Where the block of the `i`-th FSM starts in the trace: `i * (2n + 1)`. */
  function BlockStart(i: nat, n: nat): nat
  {
    if i == 0 then 0 else BlockStart(i - 1, n) + (2 * n + 1)
  }

  lemma {:induction false} BlockStartIsProduct(i: nat, n: nat)
    ensures BlockStart(i, n) == i * (2 * n + 1)
  {
    if i > 0 {
      BlockStartIsProduct(i - 1, n);
    }
  }

  lemma {:induction false} BlockStartMono(i: nat, a: nat, n: nat)
    requires i < a
    ensures BlockStart(i + 1, n) <= BlockStart(a, n)
    decreases a
  {
    if i + 1 < a {
      BlockStartMono(i, a - 1, n);
    }
  }

  /** Each FSM contributes one clean and two actions per trial. */
  lemma {:induction false} GrappaTraceLength(fsms: seq<string>, n: nat)
    ensures |GrappaTrace(fsms, n)| == BlockStart(|fsms|, n)
    decreases |fsms|
  {
    if fsms != [] {
      GrappaTraceLength(fsms[..|fsms| - 1], n);
      TrialsAt(fsms[|fsms| - 1], n);
    }
  }

  /**
   * The block of FSM `i` in the trace: the score file is cleared, then the
   * FSM's trials follow with seeds 100 .. 99 + n in increasing order.
   */
  lemma {:induction false} GrappaTraceBlock(fsms: seq<string>, n: nat, i: nat)
    requires i < |fsms|
    ensures BlockStart(i + 1, n) <= |GrappaTrace(fsms, n)|
    ensures GrappaTrace(fsms, n)[BlockStart(i, n)..BlockStart(i + 1, n)] == [Clean] + Trials(fsms[i], n)
    decreases |fsms|
  {
    var init := fsms[..|fsms| - 1];
    var block := [Clean] + Trials(fsms[|fsms| - 1], n);
    TrialsAt(fsms[|fsms| - 1], n);
    GrappaTraceLength(init, n);
    var t := GrappaTrace(init, n);
    var lo, hi := BlockStart(i, n), BlockStart(i + 1, n);
    assert GrappaTrace(fsms, n) == t + block;
    if i < |fsms| - 1 {
      GrappaTraceBlock(init, n, i);
      BlockStartMono(i, |fsms| - 1, n);
      assert (t + block)[lo..hi] == t[lo..hi];
    } else {
      assert (t + block)[lo..hi] == block;
    }
  }

  /** The number of times the score file is cleared in a trace. */
  function CleanCount(trace: seq<Action>): nat
  {
    if trace == [] then 0
    else CleanCount(trace[..|trace| - 1]) + (if trace[|trace| - 1] == Clean then 1 else 0)
  }

  lemma {:induction false} CleanCountAppend(a: seq<Action>, b: seq<Action>)
    ensures CleanCount(a + b) == CleanCount(a) + CleanCount(b)
    decreases |b|
  {
    if b == [] {
      assert a + b == a;
    } else {
      assert (a + b)[..|a + b| - 1] == a + b[..|b| - 1];
      CleanCountAppend(a, b[..|b| - 1]);
    }
  }

  lemma {:induction false} CleanCountNone(trace: seq<Action>)
    requires Clean !in trace
    ensures CleanCount(trace) == 0
    decreases |trace|
  {
    if trace != [] {
      assert trace == trace[..|trace| - 1] + [trace[|trace| - 1]];
      CleanCountNone(trace[..|trace| - 1]);
    }
  }

  /** Trials never clear the score file. */
  lemma {:induction false} TrialsClean(fsm: string, n: nat)
    ensures Clean !in Trials(fsm, n)
  {
    if n > 0 {
      TrialsClean(fsm, n - 1);
    }
  }

  /** The batch evaluator clears the score file once per FSM. */
  lemma {:induction false} GrappaCleans(fsms: seq<string>, n: nat)
    ensures CleanCount(GrappaTrace(fsms, n)) == |fsms|
    decreases |fsms|
  {
    if fsms != [] {
      var last := fsms[|fsms| - 1];
      GrappaCleans(fsms[..|fsms| - 1], n);
      CleanCountAppend(GrappaTrace(fsms[..|fsms| - 1], n), [Clean] + Trials(last, n));
      CleanCountAppend([Clean], Trials(last, n));
      TrialsClean(last, n);
      CleanCountNone(Trials(last, n));
      assert [Clean][..0] == [];
    }
  }

  /** The integer scores of trials 0 .. n-1 of one FSM, each on the configuration edited for it. */
  function TrialScores(score: Element -> int, t0: Element, fsm: string, n: nat): (vs: seq<int>)
    ensures |vs| == n
  {
    if n == 0 then [] else TrialScores(score, t0, fsm, n - 1) + [score(Configure(t0, fsm, TrialSeed(n - 1)))]
  }

  /**
   * When every run writes its integer score on a line of its own, the list
   * for an FSM is exactly the scores of its n runs, in seed order.
   */
  lemma IntegerRunsReadBack<F, L>(simulate: Element -> string, score: Element -> int, t0: Element, fsm: string, n: nat, p: Parsers<F, L>)
    requires forall e :: simulate(e) == IntToString(score(e)) + "\n"
    requires ParsesIntegers(p)
    ensures ReadScoreSpec(Some(Outputs(simulate, t0, fsm, n)), None, p) == IntScores(TrialScores(score, t0, fsm, n))
  {
    OutputsAreIntLines(simulate, score, t0, fsm, n);
    ReadBackIntegers(TrialScores(score, t0, fsm, n), p);
  }

  lemma {:induction false} OutputsAreIntLines(simulate: Element -> string, score: Element -> int, t0: Element, fsm: string, n: nat)
    requires forall e :: simulate(e) == IntToString(score(e)) + "\n"
    ensures Outputs(simulate, t0, fsm, n) == Flatten(Terminated(IntStrings(TrialScores(score, t0, fsm, n))))
  {
    if n > 0 {
      OutputsAreIntLines(simulate, score, t0, fsm, n - 1);
      var e := Configure(t0, fsm, TrialSeed(n - 1));
      var vs, vs' := TrialScores(score, t0, fsm, n), TrialScores(score, t0, fsm, n - 1);
      assert vs[..n - 1] == vs';
      var ss, ss' := IntStrings(vs), IntStrings(vs');
      assert ss[..n - 1] == ss';
      assert Terminated(ss) == Terminated(ss') + [IntToString(score(e)) + "\n"];
      FlattenSnoc(Terminated(ss'), IntToString(score(e)) + "\n");
    }
  }

  // ---------------------------------------------------------------------
  // main: mission number and write-back into the entries
  // ---------------------------------------------------------------------

  /** `word.split("-")[1]`, or `None` where Python raises `IndexError` (no dash). */
  function SecondDashField(word: string): Option<string>
  {
    var parts := SplitOn(word, '-');
    if |parts| < 2 then None else Some(parts[1])
  }

  /** `mission_name.split()[0].split("-")[1]`, or `None` where Python raises `IndexError`. */
  function MissionNumber(name: string): Option<string>
  {
    var words := Words(name);
    if words == [] then None else SecondDashField(words[0])
  }

  /** A text with a dash splits into at least two pieces, and one without into itself alone. */
  lemma SplitOnDash(s: string)
    ensures '-' in s <==> |SplitOn(s, '-')| >= 2
  {
    var k := IndexOf(s, '-');
    if '-' in s {
      var j :| 0 <= j < |s| && s[j] == '-';
      IndexOfAtMost(s, '-', j);
      SplitOnStep(s, '-', k);
    } else {
      IndexOfAbsent(s, '-');
    }
  }

  /** `word` is `a`, a dash, `m`, then the rest of the word `b`, which is empty or starts with a dash. */
  predicate DashFields(word: string, a: string, m: string, b: string)
  {
    word == a + "-" + m + b && '-' !in a && '-' !in m && (b == [] || b[0] == '-')
  }

  /**
   * The second dash field exists iff the word has a dash; it is the text
   * between the first dash and the next dash or the end of the word.
   */
  lemma SecondDashFieldSpec(word: string)
    ensures SecondDashField(word).Some? <==> '-' in word
    ensures SecondDashField(word).Some? ==> exists a, b :: DashFields(word, a, SecondDashField(word).value, b)
  {
    SplitOnDash(word);
    var k := IndexOf(word, '-');
    if k < |word| {
      var a, m, b := DashFieldsOf(word, k);
    }
  }

  /** The pieces around the first dash at `k` and the next dash after it. */
  lemma DashFieldsOf(word: string, k: nat) returns (a: string, m: string, b: string)
    requires k == IndexOf(word, '-') && k < |word|
    ensures SecondDashField(word) == Some(m) && DashFields(word, a, m, b)
  {
    var tail := word[k + 1..];
    var k2 := IndexOf(tail, '-');
    a, m, b := word[..k], tail[..k2], tail[k2..];
    SecondPiece(word, k);
    DashSplit(word, k);
    IndexOfSpec(word, '-');
    IndexOfSpec(tail, '-');
  }

  lemma SecondPiece(word: string, k: nat)
    requires k == IndexOf(word, '-') && k < |word|
    ensures SecondDashField(word) == Some(word[k + 1..][..IndexOf(word[k + 1..], '-')])
  {
    SplitOnStep(word, '-', k);
    FirstPiece(word[k + 1..], '-');
  }

  lemma DashSplit(word: string, k: nat)
    requires k == IndexOf(word, '-') && k < |word|
    ensures var tail := word[k + 1..]; var k2 := IndexOf(tail, '-');
      word == word[..k] + "-" + tail[..k2] + tail[k2..]
  {
    IndexOfHit(word, '-');
    var tail := word[k + 1..];
    var k2 := IndexOf(tail, '-');
    var a, m, b := word[..k], tail[..k2], tail[k2..];
    assert tail == m + b;
    assert [word[k]] == "-";
    assert word == a + "-" + tail;
    ConcatAssoc(a + "-", m, b);
  }

  /** The first piece of a split is the text before the first separator. */
  lemma FirstPiece(s: string, sep: char)
    ensures SplitOn(s, sep)[0] == s[..IndexOf(s, sep)]
  {
    if IndexOf(s, sep) == |s| {
      assert s[..|s|] == s;
    }
  }

  /** Conversely, a word of that shape yields exactly that field. */
  lemma SecondDashFieldOf(word: string, a: string, m: string, b: string)
    requires DashFields(word, a, m, b)
    ensures SecondDashField(word) == Some(m)
  {
    assert word == a + ['-'] + (m + b);
    IndexOfFirst(a, '-', m + b);
    SplitOnStep(word, '-', |a|);
    assert word[|a| + 1..] == m + b;
    var rest := m + b;
    if b == [] {
      assert rest == m;
      IndexOfAbsent(m, '-');
    } else {
      assert rest == m + ['-'] + b[1..];
      IndexOfFirst(m, '-', b[1..]);
      SplitOnStep(rest, '-', |m|);
      assert rest[..|m|] == m;
    }
  }

  /** A first word of that shape gives that mission number, whatever follows the word. */
  lemma MissionNumberOf(w: string, word: string, a: string, m: string, b: string, rest: string)
    requires AllSpace(w) && NoSpace(word) && DashFields(word, a, m, b)
    requires rest == [] || IsSpace(rest[0])
    ensures MissionNumber(w + word + rest) == Some(m)
  {
    WordsFirst(w, word, rest);
    SecondDashFieldOf(word, a, m, b);
  }

  /** "Aggregation-1 (1 groups)" is mission "1". */
  lemma MissionNumberExample()
    ensures MissionNumber("Aggregation-1 (1 groups)") == Some("1")
  {
    var word := "Aggregation-1";
    assert DashFields(word, "Aggregation", "1", "");
    MissionNumberOf("", word, "Aggregation", "1", "", " (1 groups)");
    assert "" + word + " (1 groups)" == "Aggregation-1 (1 groups)";
  }

  /** One FSM entry of the JSON file: `[score, fsm, results]`. */
  datatype Entry<F, L> = Entry(score: string, fsm: string, results: seq<Score<F, L>>)

  /** `[entry[1] for entry in fsm_entries]`. */
  function FsmStrings<F, L>(entries: seq<Entry<F, L>>): (fsms: seq<string>)
    ensures |fsms| == |entries|
  {
    seq(|entries|, i requires 0 <= i < |entries| => entries[i].fsm)
  }

  /** The entries after the first `k` pairs of `zip(entries, results)` have had `entry[2] = scores`. */
  function WrittenBack<F, L>(entries: seq<Entry<F, L>>, results: seq<seq<Score<F, L>>>, k: int): seq<Entry<F, L>>
  {
    seq(|entries|, i requires 0 <= i < |entries| => if i < k && i < |results| then entries[i].(results := results[i]) else entries[i])
  }

  /**
   * The write-back pairs entries with results by position and replaces only
   * slot 2: the score text and the FSM string of every entry are kept, and
   * entries beyond the shorter of the two lists are untouched.
   */
  lemma WrittenBackSpec<F, L>(entries: seq<Entry<F, L>>, results: seq<seq<Score<F, L>>>, k: int)
    ensures |WrittenBack(entries, results, k)| == |entries|
    ensures FsmStrings(WrittenBack(entries, results, k)) == FsmStrings(entries)
    ensures forall i :: 0 <= i < |entries| ==>
      && WrittenBack(entries, results, k)[i].score == entries[i].score
      && WrittenBack(entries, results, k)[i].fsm == entries[i].fsm
      && WrittenBack(entries, results, k)[i].results == (if i < k && i < |results| then results[i] else entries[i].results)
  {
  }

  /**
   * The loop of `main` over `zip(fsm_entries, results)`: it edits each entry
   * in place and saves the whole document after each one; `saved[k]` is the
   * document as saved after the (k+1)-th entry.
   */
  method WriteBack<F, L>(entries: array<Entry<F, L>>, results: seq<seq<Score<F, L>>>) returns (saved: seq<seq<Entry<F, L>>>)
    modifies entries
    ensures entries[..] == WrittenBack(old(entries[..]), results, entries.Length)
    ensures |saved| == Min(entries.Length, |results|)
    ensures forall k :: 0 <= k < |saved| ==> saved[k] == WrittenBack(old(entries[..]), results, k + 1)
  {
    ghost var original := entries[..];
    saved := [];
    var i := 0;
    while i < entries.Length && i < |results|
      invariant 0 <= i <= entries.Length && i <= |results|
      invariant entries[..] == WrittenBack(original, results, i)
      invariant |saved| == i
      invariant forall k :: 0 <= k < i ==> saved[k] == WrittenBack(original, results, k + 1)
    {
      entries[i] := entries[i].(results := results[i]);
      saved := saved + [entries[..]];
      i := i + 1;
    }
    assert WrittenBack(original, results, i) == WrittenBack(original, results, entries.Length);
  }

  /**
   * One behaviour of `main`: evaluate its FSM strings, then write each
   * result into its entry. Entry `i` ends up holding the scores of its own
   * FSM's runs; its score text and FSM string are unchanged.
   */
  method EvaluateBehaviour<F, L>(ws: Workspace, entries: array<Entry<F, L>>, nRuns: int, p: Parsers<F, L>) returns (saved: seq<seq<Entry<F, L>>>)
    modifies ws, entries
    ensures |saved| == entries.Length
    ensures forall k :: 0 <= k < |saved| ==>
      saved[k] == WrittenBack(old(entries[..]), FsmResults(ws.simulate, old(ws.config), FsmStrings(old(entries[..])), Runs(nRuns), p), k + 1)
    ensures forall i :: 0 <= i < entries.Length ==>
      entries[i] == old(entries[i]).(results := FsmScores(ws.simulate, old(ws.config), Runs(nRuns), p, old(entries[i]).fsm))
    ensures entries.Length == 0 ==> ws.scores == old(ws.scores)
    ensures entries.Length > 0 ==> ws.scores == Some(Outputs(ws.simulate, old(ws.config), old(entries[entries.Length - 1]).fsm, Runs(nRuns)))
    ensures ws.log == old(ws.log) + GrappaTrace(FsmStrings(old(entries[..])), Runs(nRuns))
    ensures ws.config == Edited(old(ws.config), LastEdit(FsmStrings(old(entries[..])), Runs(nRuns)))
  {
    var fsms := FsmStrings(entries[..]);
    ghost var t0 := ws.config;
    var results := EvaluateFsmList(ws, fsms, nRuns, p);
    forall i | 0 <= i < entries.Length
      ensures results[i] == FsmScores(ws.simulate, t0, Runs(nRuns), p, fsms[i])
    {
      FsmResultsAt(ws.simulate, t0, fsms, Runs(nRuns), p, i);
    }
    assert entries.Length > 0 ==> fsms[|fsms| - 1] == entries[entries.Length - 1].fsm;
    saved := WriteBack(entries, results);
  }
}
