/**
 * `extract_best_fsm.py`: for mission indices 1 .. 6, pick the simulator
 * logs whose names carry the mission code, find in each log the first
 * marker line, take the parameter string from the line right after it, and
 * collect those strings per mission code in one dictionary, which is then
 * written out as a list of single-key objects.
 */
module ExtractBestFsm {
  import opened Text

  const MissionName := "Grappa-Unb"
  const Marker := "# Best configurations as commandlines"
  const ParamsPrefix := "--ngroups"
  const LogSuffix := ".stdout"

  // ---------------------------------------------------------------------
  // The file name filter `.*({n}g1s).*\.stdout$`
  // ---------------------------------------------------------------------

  /** The mission code the filter captures for index `n`: `f"{n}g1s"`. */
  function MissionCode(n: nat): string
  {
    NatToString(n) + "g1s"
  }

  /** The dictionary key of index `n`: `f"{mission_name}-{raw_code}"`. */
  function MissionKey(n: nat): string
  {
    MissionName + "-" + MissionCode(n)
  }

  /** The part of a name that `.*` patterns and `$` see: a single trailing newline is not part of it. */
  function NameBody(fname: string): string
  {
    if fname != [] && fname[|fname| - 1] == '\n' then fname[..|fname| - 1] else fname
  }

  /**
   * `file_filter.match(fname)`: from the start of the name, text without a
   * newline, the code, more text without a newline, `.stdout`, then the end
   * of the name or a final newline.
   */
  predicate FilterMatch(fname: string, n: nat)
  {
    var body := NameBody(fname);
    '\n' !in body && EndsWith(body, LogSuffix) && Contains(body[..|body| - |LogSuffix|], MissionCode(n))
  }

  /** The code cannot run into the `.stdout` suffix: its `g1s` ending fits nowhere in `.stdout`. */
  lemma CodeBeforeSuffix(f: string, n: nat, a: string, b: string)
    requires EndsWith(f, LogSuffix) && f == a + MissionCode(n) + b
    ensures |a| + |MissionCode(n)| <= |f| - |LogSuffix|
  {
    var c := MissionCode(n);
    var e := |a| + |c|;
    var sfx := |f| - |LogSuffix|;
    assert f[e - 3] == 'g' && f[e - 2] == '1' && f[e - 1] == 's' by {
      assert c[|c| - 3] == 'g' && c[|c| - 2] == '1' && c[|c| - 1] == 's';
      assert f[|a|..e] == c;
    }
  }

  lemma SplitSuffix(f: string, p: string)
    requires EndsWith(f, p)
    ensures f == f[..|f| - |p|] + p
  {
  }

  lemma ExtendContains(pre: string, c: string, p: string)
    requires Contains(pre, c)
    ensures Contains(pre + p, c)
  {
    var a, b := ContainsSplit(pre, c);
    assert pre + p == a + c + (b + p);
    ContainsWitness(a, c, b + p);
  }

  lemma ShrinkContains(pre: string, c: string, p: string, a: string, b: string)
    requires pre + p == a + c + b && |a| + |c| <= |pre|
    ensures Contains(pre, c)
  {
    var k := |a| + |c|;
    assert pre[..k] == (pre + p)[..k];
    assert (a + c + b)[..k] == a + c;
    assert pre == pre[..k] + pre[k..];
    ContainsWitness(a, c, pre[k..]);
  }

  lemma NoNewlineConcat(x: string, y: string)
    requires '\n' !in x && '\n' !in y
    ensures '\n' !in x + y
  {
  }

  /** For a name without a newline the filter accepts exactly the names that contain the code and end in `.stdout`. */
  lemma FilterMatchIff(f: string, n: nat)
    requires '\n' !in f
    ensures FilterMatch(f, n) <==> Contains(f, MissionCode(n)) && EndsWith(f, LogSuffix)
  {
    var c := MissionCode(n);
    assert NameBody(f) == f by {
      if f != [] {
        assert f[|f| - 1] in f;
      }
    }
    if EndsWith(f, LogSuffix) {
      var pre := f[..|f| - |LogSuffix|];
      SplitSuffix(f, LogSuffix);
      if Contains(pre, c) {
        ExtendContains(pre, c, LogSuffix);
      }
      if Contains(f, c) {
        var a, b := ContainsSplit(f, c);
        CodeBeforeSuffix(f, n, a, b);
        ShrinkContains(pre, c, LogSuffix, a, b);
      }
    }
  }

  lemma LiteralsWithoutNewline()
    ensures '\n' !in "1" && '\n' !in MissionCode(3) && '\n' !in LogSuffix
  {
    assert MissionCode(3) == "3g1s";
  }

  /** A name carrying `13g1s` passes the filter for index 3 and is filed under the code `3g1s`. */
  lemma ThirteenPassesForThree(a: string, b: string)
    requires '\n' !in a && '\n' !in b
    ensures FilterMatch(a + "13g1s" + b + LogSuffix, 3)
    ensures MissionKey(3) == "Grappa-Unb-3g1s"
  {
    var c := MissionCode(3);
    assert c == "3g1s";
    var a' := a + "1";
    var b' := b + LogSuffix;
    var f := a' + c + b';
    assert a + "13g1s" + b + LogSuffix == f;
    LiteralsWithoutNewline();
    NoNewlineConcat(a, "1");
    NoNewlineConcat(b, LogSuffix);
    NoNewlineConcat(a', c);
    NoNewlineConcat(a' + c, b');
    ContainsWitness(a', c, b');
    assert f[|f| - |LogSuffix|..] == LogSuffix;
    FilterMatchIff(f, 3);
  }

  // ---------------------------------------------------------------------
  // The parameter line pattern `^\s*\d+\s+(--ngroups.*)`
  // ---------------------------------------------------------------------

  /** The number of ASCII digits `s` starts with. */
  function LeadingDigits(s: string): (n: nat)
    ensures n <= |s|
    decreases |s|
  {
    if s != [] && IsDigit(s[0]) then 1 + LeadingDigits(s[1..]) else 0
  }

  lemma {:induction false} LeadingDigitsSpec(s: string)
    ensures AllDigits(s[..LeadingDigits(s)])
    decreases |s|
  {
    if s != [] && IsDigit(s[0]) {
      LeadingDigitsSpec(s[1..]);
      assert s[..LeadingDigits(s)] == [s[0]] + s[1..][..LeadingDigits(s[1..])];
    }
  }

  lemma {:induction false} LeadingDigitsExact(d: string, s: string)
    requires AllDigits(d)
    requires s == [] || !IsDigit(s[0])
    ensures LeadingDigits(d + s) == |d|
    decreases |d|
  {
    if d == [] {
      assert d + s == s;
    } else {
      assert (d + s)[1..] == d[1..] + s;
      LeadingDigitsExact(d[1..], s);
    }
  }

  /** What is left after the leading whitespace (`\s*`). */
  function SkipSpaces(s: string): (t: string)
    ensures |t| <= |s|
  {
    s[LeadingSpaces(s)..]
  }

  /** What is left after the leading digits (`\d+` when at least one is there). */
  function SkipDigits(s: string): (t: string)
    ensures |t| <= |s|
  {
    s[LeadingDigits(s)..]
  }

  /** The text before the first newline (`.*`). */
  function UpToNewline(s: string): (t: string)
    ensures |t| <= |s|
  {
    s[..IndexOf(s, '\n')]
  }

  lemma SkipSpacesOf(w: string, x: string)
    requires AllSpace(w)
    requires x == [] || !IsSpace(x[0])
    ensures LeadingSpaces(w + x) == |w| && SkipSpaces(w + x) == x
  {
    LeadingSpacesExact(w, x);
    assert (w + x)[|w|..] == x;
  }

  lemma SkipDigitsOf(d: string, x: string)
    requires AllDigits(d)
    requires x == [] || !IsDigit(x[0])
    ensures LeadingDigits(d + x) == |d| && SkipDigits(d + x) == x
  {
    LeadingDigitsExact(d, x);
    assert (d + x)[|d|..] == x;
  }

  lemma UpToNewlineOf(r: string, rest: string)
    requires '\n' !in r
    requires rest == [] || rest[0] == '\n'
    ensures UpToNewline(r + rest) == r
  {
    if rest == [] {
      assert r + rest == r;
      IndexOfAbsent(r, '\n');
    } else {
      assert r + rest == r + ['\n'] + rest[1..];
      IndexOfFirst(r, '\n', rest[1..]);
    }
    assert (r + rest)[..|r|] == r;
  }

  lemma SkipSpacesSplit(s: string) returns (w: string)
    ensures AllSpace(w) && s == w + SkipSpaces(s) && |w| == LeadingSpaces(s)
  {
    LeadingSpacesSpec(s);
    w := s[..LeadingSpaces(s)];
  }

  lemma SkipDigitsSplit(s: string) returns (d: string)
    ensures AllDigits(d) && s == d + SkipDigits(s) && |d| == LeadingDigits(s)
  {
    LeadingDigitsSpec(s);
    d := s[..LeadingDigits(s)];
  }

  lemma UpToNewlineSplit(s: string) returns (rest: string)
    ensures '\n' !in UpToNewline(s) && s == UpToNewline(s) + rest && (rest == [] || rest[0] == '\n')
  {
    IndexOfSpec(s, '\n');
    rest := s[IndexOf(s, '\n')..];
  }

  /**
   * `pattern.match(line).group(1)`, or `None` when the pattern does not
   * match: optional whitespace, at least one digit, at least one
   * whitespace character, then `--ngroups` and everything up to the first
   * newline.
   */
  function ExtractParams(line: string): Option<string>
  {
    var r1 := SkipSpaces(line);
    var r2 := SkipDigits(r1);
    var r3 := SkipSpaces(r2);
    if LeadingDigits(r1) > 0 && LeadingSpaces(r2) > 0 && StartsWith(r3, ParamsPrefix) then Some(UpToNewline(r3)) else None
  }

  /** `line` is whitespace `w`, digits `d`, whitespace `s`, the capture `r` and then the end or a newline. */
  predicate ParamLine(line: string, w: string, d: string, s: string, r: string, rest: string)
  {
    && line == w + (d + (s + (r + rest)))
    && AllSpace(w)
    && d != [] && AllDigits(d)
    && s != [] && AllSpace(s)
    && StartsWith(r, ParamsPrefix) && '\n' !in r
    && (rest == [] || rest[0] == '\n')
  }

  /** Every line of that shape matches, and the capture is `r`. */
  lemma ExtractParamsComplete(line: string, w: string, d: string, s: string, r: string, rest: string)
    requires ParamLine(line, w, d, s, r, rest)
    ensures ExtractParams(line) == Some(r)
  {
    var x3 := r + rest;
    var x2 := s + x3;
    var x1 := d + x2;
    assert x1[0] == d[0] && IsDigit(d[0]);
    SkipSpacesOf(w, x1);
    assert x2[0] == s[0] && IsSpace(s[0]);
    SkipDigitsOf(d, x2);
    assert x3[0] == r[0] == ParamsPrefix[0];
    SkipSpacesOf(s, x3);
    assert x3[..|ParamsPrefix|] == r[..|ParamsPrefix|];
    UpToNewlineOf(r, rest);
  }

  lemma PrefixWithoutNewline()
    ensures '\n' !in ParamsPrefix
  {
    assert forall i :: 0 <= i < |ParamsPrefix| ==> ParamsPrefix[i] != '\n';
  }

  /** A prefix without a newline survives cutting the text at its first newline. */
  lemma CaptureKeepsPrefix(r: string, rest: string, p: string)
    requires StartsWith(r + rest, p) && '\n' !in p
    requires rest == [] || rest[0] == '\n'
    ensures StartsWith(r, p)
  {
    if rest != [] {
      assert (r + rest)[|r|] == '\n';
      assert forall i :: 0 <= i < |p| ==> p[i] == (r + rest)[i];
    }
    assert r[..|p|] == (r + rest)[..|p|];
  }

  /** When the pattern matches, the line has that shape around the capture. */
  lemma ExtractParamsSound(line: string) returns (w: string, d: string, s: string, rest: string)
    requires ExtractParams(line).Some?
    ensures ParamLine(line, w, d, s, ExtractParams(line).value, rest)
  {
    var r1 := SkipSpaces(line);
    var r2 := SkipDigits(r1);
    var r3 := SkipSpaces(r2);
    var r := UpToNewline(r3);
    w := SkipSpacesSplit(line);
    d := SkipDigitsSplit(r1);
    s := SkipSpacesSplit(r2);
    rest := UpToNewlineSplit(r3);
    PrefixWithoutNewline();
    CaptureKeepsPrefix(r, rest, ParamsPrefix);
  }

  /** The example line of a log: a rank, then the parameter string. */
  lemma ExtractParamsExample()
    ensures ExtractParams("   3   --ngroups 2 --s 5\n") == Some("--ngroups 2 --s 5")
  {
    var w, d, s, r, rest := "   ", "3", "   ", "--ngroups 2 --s 5", "\n";
    assert w + (d + (s + (r + rest))) == "   3   --ngroups 2 --s 5\n";
    assert r[..|ParamsPrefix|] == ParamsPrefix;
    ExtractParamsComplete("   3   --ngroups 2 --s 5\n", w, d, s, r, rest);
  }

  // ---------------------------------------------------------------------
  // Scanning one log
  // ---------------------------------------------------------------------

  /** The index of the first line starting with the marker, if any. */
  function FirstMarker(lines: seq<string>): (k: Option<nat>)
    ensures k.Some? ==> k.value < |lines|
    decreases |lines|
  {
    if lines == [] then None
    else if StartsWith(lines[0], Marker) then Some(0)
    else
      var k := FirstMarker(lines[1..]);
      if k.None? then None else Some(k.value + 1)
  }

  /** `FirstMarker` finds the first marker line, and `None` means there is none. */
  lemma {:induction false} FirstMarkerSpec(lines: seq<string>)
    ensures FirstMarker(lines).None? ==> forall j :: 0 <= j < |lines| ==> !StartsWith(lines[j], Marker)
    ensures FirstMarker(lines).Some? ==>
      && StartsWith(lines[FirstMarker(lines).value], Marker)
      && forall j :: 0 <= j < FirstMarker(lines).value ==> !StartsWith(lines[j], Marker)
    decreases |lines|
  {
    if lines != [] && !StartsWith(lines[0], Marker) {
      FirstMarkerSpec(lines[1..]);
      assert forall j :: 1 <= j < |lines| ==> lines[j] == lines[1..][j - 1];
    }
  }

  /** What the scan of one log appends: the capture of the line right after the first marker, if it matches. */
  function ScanSpec(lines: seq<string>): Option<string>
  {
    var k := FirstMarker(lines);
    if k.Some? && k.value + 1 < |lines| then ExtractParams(lines[k.value + 1]) else None
  }

  /**
   * The loop over `enumerate(lines)`: at the first marker line, try the
   * next line (when there is one) and `break` whether or not it matched.
   */
  method ScanFile(lines: seq<string>) returns (found: Option<string>)
    ensures found == ScanSpec(lines)
  {
    FirstMarkerSpec(lines);
    found := None;
    var i := 0;
    while i < |lines|
      invariant 0 <= i <= |lines|
      invariant found.None?
      invariant forall j :: 0 <= j < i ==> !StartsWith(lines[j], Marker)
    {
      if StartsWith(lines[i], Marker) {
        assert FirstMarker(lines) == Some(i);
        if i + 1 < |lines| {
          var m := ExtractParams(lines[i + 1]);
          if m.Some? {
            found := m;
          }
        }
        break;
      }
      i := i + 1;
    }
  }

  /**
   * Only the first marker counts and only the line right after it is
   * looked at: whatever comes later (more markers, more matching lines)
   * changes nothing, and a marker on the last line yields nothing.
   */
  lemma ScanStopsAtFirstMarker(a: seq<string>, m: string, b: seq<string>)
    requires forall j :: 0 <= j < |a| ==> !StartsWith(a[j], Marker)
    requires StartsWith(m, Marker)
    ensures ScanSpec(a + [m] + b) == if b == [] then None else ExtractParams(b[0])
  {
    FirstMarkerOf(a, m, b);
    var lines := a + [m] + b;
    if b != [] {
      assert lines[|a| + 1] == b[0];
    }
  }

  /** The marker line after marker-free lines is the one `FirstMarker` finds. */
  lemma {:induction false} FirstMarkerOf(a: seq<string>, m: string, b: seq<string>)
    requires forall j :: 0 <= j < |a| ==> !StartsWith(a[j], Marker)
    requires StartsWith(m, Marker)
    ensures FirstMarker(a + [m] + b) == Some(|a|)
    decreases |a|
  {
    var lines := a + [m] + b;
    if a == [] {
      assert lines[0] == m;
    } else {
      assert lines[0] == a[0];
      assert lines[1..] == a[1..] + [m] + b;
      FirstMarkerOf(a[1..], m, b);
    }
  }

  // ---------------------------------------------------------------------
  // What the loops record
  // ---------------------------------------------------------------------

  /** A log as `glob` lists it: its name and its text. */
  datatype LogFile = LogFile(name: string, content: string)

  /** One processed log: the key it is filed under and what its scan found. */
  datatype Event = Event(key: string, found: Option<string>)

  /** `stdout_files`: the listed logs that pass the filter for index `n`, in listing order. */
  function Filtered(listing: seq<LogFile>, n: nat): (fs: seq<LogFile>)
    ensures |fs| <= |listing|
  {
    if listing == [] then []
    else Filtered(listing[..|listing| - 1], n) + (if FilterMatch(listing[|listing| - 1].name, n) then [listing[|listing| - 1]] else [])
  }

  /** The filter keeps exactly the logs whose names it accepts. */
  lemma {:induction false} FilteredSpec(listing: seq<LogFile>, n: nat)
    ensures forall f :: f in Filtered(listing, n) <==> f in listing && FilterMatch(f.name, n)
    decreases |listing|
  {
    if listing != [] {
      var init := listing[..|listing| - 1];
      FilteredSpec(init, n);
      assert listing == init + [listing[|listing| - 1]];
    }
  }

  /** The scans of `files` under index `n`, in processing order. */
  function FileEvents(files: seq<LogFile>, n: nat): (ev: seq<Event>)
    ensures |ev| == |files|
  {
    if files == [] then []
    else FileEvents(files[..|files| - 1], n) + [Event(MissionKey(n), ScanSpec(Lines(files[|files| - 1].content)))]
  }

  lemma {:induction false} FileEventsAt(files: seq<LogFile>, n: nat, i: nat)
    requires i < |files|
    ensures FileEvents(files, n)[i] == Event(MissionKey(n), ScanSpec(Lines(files[i].content)))
    decreases |files|
  {
    var init := files[..|files| - 1];
    if i < |init| {
      FileEventsAt(init, n, i);
      assert init[i] == files[i];
    }
  }

  /** Everything the outer loop over `range(1, n + 1)` processes. */
  function AllEvents(listing: seq<LogFile>, n: nat): seq<Event>
  {
    if n == 0 then [] else AllEvents(listing, n - 1) + FileEvents(Filtered(listing, n), n)
  }

  /** The keys of the dictionary, in insertion order: each key at its first sight. */
  function KeysOf(ev: seq<Event>): seq<string>
  {
    if ev == [] then []
    else
      var ks := KeysOf(ev[..|ev| - 1]);
      if ev[|ev| - 1].key in ks then ks else ks + [ev[|ev| - 1].key]
  }

  /** The strings filed under `key`, in processing order. */
  function ListOf(ev: seq<Event>, key: string): seq<string>
  {
    if ev == [] then []
    else
      var e := ev[|ev| - 1];
      ListOf(ev[..|ev| - 1], key) + (if e.key == key && e.found.Some? then [e.found.value] else [])
  }

  /** How many processed logs were filed under `key`. */
  function KeyCount(ev: seq<Event>, key: string): nat
  {
    if ev == [] then 0 else KeyCount(ev[..|ev| - 1], key) + (if ev[|ev| - 1].key == key then 1 else 0)
  }

  predicate Distinct(ks: seq<string>)
  {
    forall i, j :: 0 <= i < j < |ks| ==> ks[i] != ks[j]
  }

  /**
   * Every key seen is in the dictionary, even when none of its logs yielded
   * a string, each exactly once, and nothing else is.
   */
  lemma {:induction false} KeysOfSpec(ev: seq<Event>)
    ensures Distinct(KeysOf(ev))
    ensures forall k :: k in KeysOf(ev) <==> KeyCount(ev, k) > 0
    decreases |ev|
  {
    if ev != [] {
      KeysOfSpec(ev[..|ev| - 1]);
    }
  }

  /** Keys already present keep their place when more logs are processed. */
  lemma {:induction false} KeysOfPrefix(a: seq<Event>, b: seq<Event>)
    ensures |KeysOf(a)| <= |KeysOf(a + b)| && KeysOf(a + b)[..|KeysOf(a)|] == KeysOf(a)
    decreases |b|
  {
    if b == [] {
      assert a + b == a;
    } else {
      var b0 := b[..|b| - 1];
      assert (a + b)[..|a + b| - 1] == a + b0;
      KeysOfPrefix(a, b0);
      var ks := KeysOf(a + b0);
      assert KeysOf(a + b)[..|ks|] == ks;
    }
  }

  /** The lists are never reset: a later round only appends to them. */
  lemma {:induction false} ListOfAppend(a: seq<Event>, b: seq<Event>, key: string)
    ensures ListOf(a + b, key) == ListOf(a, key) + ListOf(b, key)
    decreases |b|
  {
    if b == [] {
      assert a + b == a;
      assert ListOf(a, key) + [] == ListOf(a, key);
    } else {
      var b0 := b[..|b| - 1];
      assert (a + b)[..|a + b| - 1] == a + b0;
      ListOfAppend(a, b0, key);
    }
  }

  /** A key no processed log was filed under has an empty list. */
  lemma {:induction false} ListOfUnseen(ev: seq<Event>, key: string)
    requires key !in KeysOf(ev)
    ensures ListOf(ev, key) == []
    decreases |ev|
  {
    if ev != [] {
      var init := ev[..|ev| - 1];
      assert key !in KeysOf(init) by {
        assert forall k :: k in KeysOf(init) ==> k in KeysOf(ev);
      }
      ListOfUnseen(init, key);
    }
  }

  /** Each log adds at most one string to its key's list. */
  lemma {:induction false} ListOfBound(ev: seq<Event>, key: string)
    ensures |ListOf(ev, key)| <= KeyCount(ev, key)
    decreases |ev|
  {
    if ev != [] {
      ListOfBound(ev[..|ev| - 1], key);
    }
  }

  // ---------------------------------------------------------------------
  // The dictionary `missions_dict` and the loops that fill it
  // ---------------------------------------------------------------------

  /** The dictionary holds, in insertion order, exactly the keys and lists the processed logs call for. */
  ghost predicate Tracks(keys: seq<string>, lists: map<string, seq<string>>, ev: seq<Event>)
  {
    && keys == KeysOf(ev)
    && (forall k :: k in lists <==> k in keys)
    && (forall k :: k in lists ==> lists[k] == ListOf(ev, k))
  }

  /** `missions_dict`: a Python dictionary, whose keys keep their insertion order. */
  class MissionsDict {
    var keys: seq<string>
    var lists: map<string, seq<string>>

    constructor()
      ensures keys == [] && lists == map[]
    {
      keys := [];
      lists := map[];
    }

    /** `if mission_code not in missions_dict: missions_dict[mission_code] = []`. */
    method EnsureKey(key: string)
      modifies this
      ensures keys == if key in old(lists) then old(keys) else old(keys) + [key]
      ensures lists == if key in old(lists) then old(lists) else old(lists)[key := []]
    {
      if key !in lists {
        keys := keys + [key];
        lists := lists[key := []];
      }
    }

    /** `missions_dict[mission_code].append(s)`. */
    method Append(key: string, s: string)
      requires key in lists
      modifies this
      ensures keys == old(keys) && lists == old(lists)[key := old(lists)[key] + [s]]
    {
      lists := lists[key := lists[key] + [s]];
    }
  }

  /** Recording one more log keeps the dictionary in step with the processed logs. */
  lemma TracksStep(keys: seq<string>, lists: map<string, seq<string>>, ev: seq<Event>, e: Event,
                   keys1: seq<string>, lists1: map<string, seq<string>>, lists2: map<string, seq<string>>)
    requires Tracks(keys, lists, ev)
    requires keys1 == (if e.key in lists then keys else keys + [e.key])
    requires lists1 == (if e.key in lists then lists else lists[e.key := []])
    requires lists2 == (if e.found.Some? && e.key in lists1 then lists1[e.key := lists1[e.key] + [e.found.value]] else lists1)
    ensures Tracks(keys1, lists2, ev + [e])
  {
    var ev' := ev + [e];
    assert ev'[..|ev'| - 1] == ev && ev'[|ev'| - 1] == e;
    assert KeysOf(ev') == keys1;
    forall k | k in lists2
      ensures lists2[k] == ListOf(ev', k)
    {
      if k != e.key || e.found.None? {
        assert ListOf(ev', k) == ListOf(ev, k) + [];
        assert ListOf(ev, k) + [] == ListOf(ev, k);
      } else {
        assert ListOf(ev', k) == ListOf(ev, k) + [e.found.value];
      }
      if k == e.key && e.key !in lists {
        ListOfUnseen(ev, k);
      }
    }
  }

  /** The body of the inner loop: file the log under its code, scan it, append what the scan found. */
  method RecordLog(d: MissionsDict, file: LogFile, n: nat, ghost ev: seq<Event>)
    requires Tracks(d.keys, d.lists, ev)
    modifies d
    ensures Tracks(d.keys, d.lists, ev + [Event(MissionKey(n), ScanSpec(Lines(file.content)))])
  {
    ghost var keys0, lists0 := d.keys, d.lists;
    var rawCode := MissionCode(n);
    var missionCode := MissionName + "-" + rawCode;
    d.EnsureKey(missionCode);
    ghost var lists1 := d.lists;
    var found := ScanFile(Lines(file.content));
    if found.Some? {
      d.Append(missionCode, found.value);
    }
    TracksStep(keys0, lists0, ev, Event(MissionKey(n), ScanSpec(Lines(file.content))), d.keys, lists1, d.lists);
  }

  /** The inner loop over `stdout_files` for index `n`. */
  method ScanFiles(d: MissionsDict, files: seq<LogFile>, n: nat, ghost ev: seq<Event>)
    requires Tracks(d.keys, d.lists, ev)
    modifies d
    ensures Tracks(d.keys, d.lists, ev + FileEvents(files, n))
  {
    var i := 0;
    assert files[..0] == [];
    assert ev + [] == ev;
    while i < |files|
      invariant 0 <= i <= |files|
      invariant Tracks(d.keys, d.lists, ev + FileEvents(files[..i], n))
    {
      ghost var done := ev + FileEvents(files[..i], n);
      RecordLog(d, files[i], n, done);
      assert files[..i + 1][..i] == files[..i];
      assert ev + FileEvents(files[..i + 1], n) == done + [Event(MissionKey(n), ScanSpec(Lines(files[i].content)))];
      i := i + 1;
    }
    assert files[..i] == files;
  }

  /** One object of the output list: `{mission: missions_dict[mission]}`. */
  datatype MissionEntry = MissionEntry(code: string, fsms: seq<string>)

  /** `[{mission: missions_dict[mission]} for mission in missions_dict]`. */
  function OutputJson(keys: seq<string>, lists: map<string, seq<string>>): (out: seq<MissionEntry>)
    requires forall i :: 0 <= i < |keys| ==> keys[i] in lists
    ensures |out| == |keys|
  {
    seq(|keys|, i requires 0 <= i < |keys| => MissionEntry(keys[i], lists[keys[i]]))
  }

  /**
   * The output has one object per mission code, in the order the codes
   * were first seen, each code once, carrying every string filed under it.
   */
  lemma OutputJsonSpec(keys: seq<string>, lists: map<string, seq<string>>, ev: seq<Event>)
    requires Tracks(keys, lists, ev)
    ensures forall i :: 0 <= i < |keys| ==> keys[i] in lists
    ensures |OutputJson(keys, lists)| == |KeysOf(ev)|
    ensures forall i :: 0 <= i < |KeysOf(ev)| ==>
      OutputJson(keys, lists)[i].code == KeysOf(ev)[i] && OutputJson(keys, lists)[i].fsms == ListOf(ev, KeysOf(ev)[i])
    ensures forall i, j :: 0 <= i < j < |KeysOf(ev)| ==> OutputJson(keys, lists)[i].code != OutputJson(keys, lists)[j].code
  {
    KeysOfSpec(ev);
  }

  /**
   * The whole script: for n in 1 .. 6, process the logs the filter accepts
   * for n, in listing order, then build the output list. The same listing
   * is used in every round.
   */
  method ExtractAll(listing: seq<LogFile>) returns (d: MissionsDict, output: seq<MissionEntry>)
    ensures fresh(d)
    ensures Tracks(d.keys, d.lists, AllEvents(listing, 6))
    ensures forall i :: 0 <= i < |d.keys| ==> d.keys[i] in d.lists
    ensures output == OutputJson(d.keys, d.lists)
  {
    d := new MissionsDict();
    var n := 1;
    while n < 7
      invariant 1 <= n <= 7
      invariant Tracks(d.keys, d.lists, AllEvents(listing, n - 1))
    {
      var stdoutFiles := Filtered(listing, n);
      ScanFiles(d, stdoutFiles, n, AllEvents(listing, n - 1));
      n := n + 1;
    }
    output := OutputJson(d.keys, d.lists);
  }
}
