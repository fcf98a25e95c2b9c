/**
 * The main loop of parser.py: every input line is cleaned, skipped when
 * blank, matched against the log format, turned into a record and filtered;
 * the kept records are then sorted and cut to the limit.
 *
 * Where the program stops early the run ends in an outcome instead of a
 * list of rows: a missing input (exit status 2), an unmatched line in strict
 * mode (status 3), or a matched line on which an uncaught exception is
 * raised (status 1): urlparse rejects its uri, or strptime or astimezone
 * rejects its timestamp.
 */
module Pipeline {
  import opened Wrappers
  import opened Text
  import opened LogGrammar
  import opened Records
  import opened Filters
  import opened Sorting

  /** The `--sort-by` choices. */
  datatype SortBy = ByTime | ByStatus | ByRequestTime | ByBodyBytesSent | ByUpstreamResponseTime

  function IntKey(v: Option<int>): Option<real> {
    if v.Some? then Some(v.value as real) else None
  }

  /** The field a key_map entry reads, None where the record holds no value. */
  function FieldKey(field: SortBy, r: Record): Option<real> {
    match field
    case ByTime => Some(r.instant as real)
    case ByStatus => IntKey(r.status)
    case ByRequestTime => r.requestTime
    case ByBodyBytesSent => IntKey(r.bodyBytesSent)
    case ByUpstreamResponseTime => r.upstreamResponseTime
  }

  /** A key_map lambda: the field's value, or the sentinel -1 where it is absent. */
  function SortKey(field: SortBy, r: Record): real {
    if FieldKey(field, r).Some? then FieldKey(field, r).value else -1.0
  }

  function KeyOf(field: SortBy): Record -> real {
    r => SortKey(field, r)
  }

  /** The command-line options the loop and the sort read. */
  datatype Config = Config(query: Query, sortBy: SortBy, desc: bool, limit: Option<int>, strict: bool)

  datatype Outcome =
    | Completed(rows: seq<Record>, badLines: nat)
    | InputNotFound
    | StrictAbort(lineNo: nat, line: string)
    | RaiseAbort(lineNo: nat)

  /** The process exit status of each outcome. */
  function ExitCode(o: Outcome): int {
    match o
    case Completed(_, _) => 0
    case InputNotFound => 2
    case StrictAbort(_, _) => 3
    case RaiseAbort(_) => 1
  }

  /** `line.rstrip("\n")`. */
  function Clean(raw: string): string {
    TrimEnd(IsNewline, raw)
  }

  /** `not line.strip()` on the cleaned line. */
  predicate IsBlank(raw: string) {
    Strip(Clean(raw)) == []
  }

  /** What one line amounts to. */
  datatype LineKind =
    | Blank
    | Unmatched(line: string)
    | Raises
    | Filtered
    | Keeps(r: Record)

  /** The fate of one raw line: blank, rejected by the format, or whatever its captures amount to. */
  function Classify(raw: string, q: Query, lib: Library): LineKind {
    var line := Clean(raw);
    if Strip(line) == [] then Blank else MatchKind(line, MatchLine(line), q, lib)
  }

  /** The fate of a non-blank line given what LOG_RE made of it. */
  function MatchKind(line: string, m: Option<Fields>, q: Query, lib: Library): LineKind {
    match m
    case None => Unmatched(line)
    case Some(f) => RecordKind(BuildRecord(f, lib), q)
  }

  /** The fate of a matched line whose record is `rec`: an uncaught exception, filtered out, or kept. */
  function RecordKind(rec: Option<Record>, q: Query): LineKind {
    match rec
    case None => Raises
    case Some(r) => if RowMatches(r, q) then Keeps(r) else Filtered
  }

  /** The kind of every line, in order. */
  function KindsOf(lines: seq<string>, q: Query, lib: Library): (ks: seq<LineKind>)
    ensures |ks| == |lines|
  {
    if lines == [] then [] else KindsOf(lines[..|lines| - 1], q, lib) + [Classify(lines[|lines| - 1], q, lib)]
  }

  /** Entry `i` of KindsOf is the kind of line `i`. */
  lemma {:induction false} KindsOfAt(lines: seq<string>, i: nat, q: Query, lib: Library)
    requires i < |lines|
    ensures KindsOf(lines, q, lib)[i] == Classify(lines[i], q, lib)
  {
    if i < |lines| - 1 {
      var init := lines[..|lines| - 1];
      KindsOfAt(init, i, q, lib);
      assert init[i] == lines[i];
    }
  }

  /** The kinds of a prefix of the lines are a prefix of the kinds. */
  lemma {:induction false} KindsOfPrefix(lines: seq<string>, n: nat, q: Query, lib: Library)
    requires n <= |lines|
    ensures KindsOf(lines, q, lib)[..n] == KindsOf(lines[..n], q, lib)
  {
    if n < |lines| {
      var init := lines[..|lines| - 1];
      KindsOfPrefix(init, n, q, lib);
      assert init[..n] == lines[..n];
      assert KindsOf(lines, q, lib)[..n] == KindsOf(init, q, lib)[..n];
    } else {
      assert lines[..n] == lines;
    }
  }

  /** `ks` holds the kinds of the first `|ks|` lines. */
  predicate Agrees(ks: seq<LineKind>, lines: seq<string>, q: Query, lib: Library) {
    |ks| <= |lines| && forall j :: 0 <= j < |ks| ==> ks[j] == Classify(lines[j], q, lib)
  }

  lemma AgreesStep(ks: seq<LineKind>, lines: seq<string>, q: Query, lib: Library)
    requires Agrees(ks, lines, q, lib) && |ks| < |lines|
    ensures Agrees(ks + [Classify(lines[|ks|], q, lib)], lines, q, lib)
  {
  }

  /** Kinds that agree with Classify line by line are a prefix of KindsOf. */
  lemma KindsOfMatches(lines: seq<string>, ks: seq<LineKind>, q: Query, lib: Library)
    requires Agrees(ks, lines, q, lib)
    ensures KindsOf(lines, q, lib)[..|ks|] == ks
  {
    forall j | 0 <= j < |ks| ensures KindsOf(lines, q, lib)[j] == ks[j] {
      KindsOfAt(lines, j, q, lib);
    }
  }

  lemma KindsOfAll(lines: seq<string>, ks: seq<LineKind>, q: Query, lib: Library)
    requires Agrees(ks, lines, q, lib) && |ks| == |lines|
    ensures KindsOf(lines, q, lib) == ks
  {
    KindsOfMatches(lines, ks, q, lib);
    assert KindsOf(lines, q, lib)[..|ks|] == KindsOf(lines, q, lib);
  }

  /** KindsOf grows by one kind per line read. */
  lemma KindsOfStep(lines: seq<string>, i: nat, q: Query, lib: Library)
    requires i < |lines|
    ensures KindsOf(lines[..i + 1], q, lib) == KindsOf(lines[..i], q, lib) + [Classify(lines[i], q, lib)]
  {
    assert lines[..i + 1][..i] == lines[..i];
  }

  /** The loop's variables (`rows`, `bad_lines`), or how it ended. */
  datatype State = Running(rows: seq<Record>, bad: nat) | Stopped(outcome: Outcome)

  /** One iteration of the loop, on a line of kind `k` numbered `lineNo`. */
  function Step(st: State, lineNo: nat, k: LineKind, strict: bool): State {
    match st
    case Stopped(_) => st
    case Running(rows, bad) =>
      match k
      case Blank => st
      case Filtered => st
      case Unmatched(line) => if strict then Stopped(StrictAbort(lineNo, line)) else Running(rows, bad + 1)
      case Raises => Stopped(RaiseAbort(lineNo))
      case Keeps(r) => Running(rows + [r], bad)
  }

  /** The loop over the lines' kinds, numbered from 1. */
  function Fold(ks: seq<LineKind>, strict: bool): State {
    if ks == [] then Running([], 0)
    else Step(Fold(ks[..|ks| - 1], strict), |ks|, ks[|ks| - 1], strict)
  }

  /** Fold takes one step per kind. */
  lemma FoldStep(ks: seq<LineKind>, k: LineKind, strict: bool)
    ensures Fold(ks + [k], strict) == Step(Fold(ks, strict), |ks| + 1, k, strict)
  {
    assert (ks + [k])[..|ks|] == ks;
  }

  /** The program's outcome on lines of kinds `ks`: the loop, then the sort and the limit. */
  function RunOn(ks: seq<LineKind>, cfg: Config): Outcome {
    match Fold(ks, cfg.strict)
    case Stopped(o) => o
    case Running(rows, bad) => Completed(Truncate(Sort(rows, KeyOf(cfg.sortBy), cfg.desc), cfg.limit), bad)
  }

  /** The whole program once the input file has been read as lines (None: it does not exist). */
  function RunSpec(input: Option<seq<string>>, cfg: Config, lib: Library): Outcome {
    match input
    case None => InputNotFound
    case Some(lines) => RunOn(KindsOf(lines, cfg.query, lib), cfg)
  }

  // ---------------------------------------------------------------------
  // Reference description of the loop, line by line.

  /** Line `raw` is a matched line whose record is `r` and passes the filters. */
  predicate Yields(raw: string, r: Record, q: Query, lib: Library) {
    && !IsBlank(raw)
    && MatchLine(Clean(raw)).Some?
    && BuildRecord(MatchLine(Clean(raw)).value, lib) == Some(r)
    && RowMatches(r, q)
  }

  lemma KindBlank(raw: string, q: Query, lib: Library)
    requires IsBlank(raw)
    ensures Classify(raw, q, lib) == Blank
  {
  }

  lemma KindNonBlank(raw: string, q: Query, lib: Library)
    requires !IsBlank(raw)
    ensures Classify(raw, q, lib) == MatchKind(Clean(raw), MatchLine(Clean(raw)), q, lib)
  {
  }

  /** Classify, case by case. */
  lemma ClassifyCases(raw: string, q: Query, lib: Library)
    ensures IsBlank(raw) ==> Classify(raw, q, lib) == Blank
    ensures !IsBlank(raw) && MatchLine(Clean(raw)).None? ==> Classify(raw, q, lib) == Unmatched(Clean(raw))
    ensures !IsBlank(raw) && MatchLine(Clean(raw)).Some? ==>
              var rec := BuildRecord(MatchLine(Clean(raw)).value, lib);
              && (rec.None? ==> Classify(raw, q, lib) == Raises)
              && (rec.Some? && RowMatches(rec.value, q) ==> Classify(raw, q, lib) == Keeps(rec.value))
              && (rec.Some? && !RowMatches(rec.value, q) ==> Classify(raw, q, lib) == Filtered)
  {
  }

  /** The kinds in terms of the log format, the record and the filters. */
  lemma ClassifyMeaning(raw: string, q: Query, lib: Library)
    ensures Classify(raw, q, lib) == Blank <==> IsBlank(raw)
    ensures Classify(raw, q, lib).Unmatched? <==> !IsBlank(raw) && MatchLine(Clean(raw)).None?
    ensures Classify(raw, q, lib).Unmatched? ==> Classify(raw, q, lib).line == Clean(raw)
    ensures Classify(raw, q, lib) == Raises <==>
              !IsBlank(raw) && MatchLine(Clean(raw)).Some? && BuildRecord(MatchLine(Clean(raw)).value, lib).None?
  {
    ClassifyCases(raw, q, lib);
  }

  /** A line is kept with record `r` exactly when it yields `r`. */
  lemma ClassifyKeeps(raw: string, r: Record, q: Query, lib: Library)
    ensures Classify(raw, q, lib) == Keeps(r) <==> Yields(raw, r, q, lib)
  {
    ClassifyCases(raw, q, lib);
  }

  /** A line the loop gets past: anything but an uncaught exception, or an unmatched line in strict mode. */
  predicate LineOk(k: LineKind, strict: bool) {
    !k.Raises? && !(strict && k.Unmatched?)
  }

  /** The records of the kept lines, in line order. */
  function Kept(ks: seq<LineKind>): seq<Record> {
    if ks == [] then []
    else Kept(ks[..|ks| - 1]) + (if ks[|ks| - 1].Keeps? then [ks[|ks| - 1].r] else [])
  }

  /** The number of lines the log format rejects (blank lines are not among them). */
  function BadCount(ks: seq<LineKind>): nat {
    if ks == [] then 0
    else BadCount(ks[..|ks| - 1]) + (if ks[|ks| - 1].Unmatched? then 1 else 0)
  }

  /** How the loop ends on a line it cannot get past. */
  function FaultOutcome(lineNo: nat, k: LineKind): Outcome {
    if k.Unmatched? then StrictAbort(lineNo, k.line) else RaiseAbort(lineNo)
  }

  /** The loop keeps running exactly when it gets past every line, and then holds the kept records and the bad count. */
  lemma {:induction false} FoldRunning(ks: seq<LineKind>, strict: bool)
    ensures Fold(ks, strict).Running? <==> forall i :: 0 <= i < |ks| ==> LineOk(ks[i], strict)
    ensures Fold(ks, strict).Running? ==> Fold(ks, strict).rows == Kept(ks) && Fold(ks, strict).bad == BadCount(ks)
    ensures Fold(ks, strict).Stopped? ==> Fold(ks, strict).outcome.StrictAbort? || Fold(ks, strict).outcome.RaiseAbort?
  {
    if ks != [] {
      var init := ks[..|ks| - 1];
      FoldRunning(init, strict);
      assert forall i :: 0 <= i < |init| ==> init[i] == ks[i];
    }
  }

  /** Once the loop has stopped, later lines change nothing. */
  lemma {:induction false} StoppedPersists(ks: seq<LineKind>, n: nat, strict: bool)
    requires n <= |ks| && Fold(ks[..n], strict).Stopped?
    ensures Fold(ks, strict) == Fold(ks[..n], strict)
  {
    if n < |ks| {
      var init := ks[..|ks| - 1];
      assert init[..n] == ks[..n];
      StoppedPersists(init, n, strict);
    } else {
      assert ks[..n] == ks;
    }
  }

  /** The loop ends on the first line it cannot get past, with that line's number. */
  lemma StopsAtFirstFault(ks: seq<LineKind>, k: nat, strict: bool)
    requires k < |ks| && !LineOk(ks[k], strict)
    requires forall j :: 0 <= j < k ==> LineOk(ks[j], strict)
    ensures Fold(ks, strict) == Stopped(FaultOutcome(k + 1, ks[k]))
  {
    var pre := ks[..k];
    assert forall j :: 0 <= j < |pre| ==> pre[j] == ks[j];
    FoldRunning(pre, strict);
    assert ks[..k + 1][..k] == pre;
    StoppedPersists(ks, k + 1, strict);
  }

  /** A blank line neither adds a row nor counts as bad. */
  lemma BlankSkipped(lines: seq<string>, raw: string, cfg: Config, lib: Library)
    requires IsBlank(raw)
    ensures Fold(KindsOf(lines + [raw], cfg.query, lib), cfg.strict) == Fold(KindsOf(lines, cfg.query, lib), cfg.strict)
  {
    assert (lines + [raw])[..|lines|] == lines;
    ClassifyMeaning(raw, cfg.query, lib);
  }

  /** In strict mode a loop that runs to the end has seen no bad line. */
  lemma {:induction false} StrictRunningClean(ks: seq<LineKind>, strict: bool)
    requires strict && Fold(ks, strict).Running?
    ensures Fold(ks, strict).bad == 0
  {
    if ks != [] {
      StrictRunningClean(ks[..|ks| - 1], strict);
    }
  }

  /** A record is kept exactly when some line is kept with it. */
  lemma {:induction false} KeptIff(ks: seq<LineKind>, r: Record)
    ensures r in Kept(ks) <==> exists i :: 0 <= i < |ks| && ks[i] == Keeps(r)
  {
    if ks != [] {
      var init := ks[..|ks| - 1];
      KeptIff(init, r);
      if exists i :: 0 <= i < |ks| && ks[i] == Keeps(r) {
        var i :| 0 <= i < |ks| && ks[i] == Keeps(r);
        if i < |init| {
          assert init[i] == ks[i];
        }
      }
      if exists i :: 0 <= i < |init| && init[i] == Keeps(r) {
        var i :| 0 <= i < |init| && init[i] == Keeps(r);
        assert ks[i] == init[i];
      }
    }
  }

  /** A record is kept exactly when some input line yields it. */
  lemma KeptFromLines(lines: seq<string>, r: Record, q: Query, lib: Library)
    ensures r in Kept(KindsOf(lines, q, lib)) <==> exists i :: 0 <= i < |lines| && Yields(lines[i], r, q, lib)
  {
    var ks := KindsOf(lines, q, lib);
    KeptIff(ks, r);
    forall i | 0 <= i < |lines| ensures ks[i] == Keeps(r) <==> Yields(lines[i], r, q, lib) {
      KindsOfAt(lines, i, q, lib);
      ClassifyKeeps(lines[i], r, q, lib);
    }
  }

  /** A run completes exactly when the loop gets past every line; its rows are then the limited,
      sorted kept records, and its count is the number of bad lines. */
  lemma RunCompleted(ks: seq<LineKind>, cfg: Config)
    ensures RunOn(ks, cfg).Completed? <==> forall i :: 0 <= i < |ks| ==> LineOk(ks[i], cfg.strict)
    ensures RunOn(ks, cfg).Completed? ==>
              var out := RunOn(ks, cfg).rows;
              var key := KeyOf(cfg.sortBy);
              && out == Truncate(Sort(Kept(ks), key, cfg.desc), cfg.limit)
              && RunOn(ks, cfg).badLines == BadCount(ks)
              && SortedBy(out, key, cfg.desc)
              && (forall r :: r in out ==> r in Kept(ks))
  {
    FoldRunning(ks, cfg.strict);
    var key := KeyOf(cfg.sortBy);
    var sorted := Sort(Kept(ks), key, cfg.desc);
    SortSorted(Kept(ks), key, cfg.desc);
    SortPermutes(Kept(ks), key, cfg.desc);
    var out := Truncate(sorted, cfg.limit);
    forall i, j | 0 <= i < j < |out| ensures !Ahead(cfg.desc, key(out[j]), key(out[i])) {
      assert out[i] == sorted[i] && out[j] == sorted[j];
    }
    forall r | r in out ensures r in Kept(ks) {
      assert r in multiset(sorted);
    }
  }

  /** A run that does not complete ends on its first faulty line: exit status 3 for an
      unmatched line in strict mode, 1 for an uncaught exception. */
  lemma RunAborts(ks: seq<LineKind>, k: nat, cfg: Config)
    requires k < |ks| && !LineOk(ks[k], cfg.strict)
    requires forall j :: 0 <= j < k ==> LineOk(ks[j], cfg.strict)
    ensures RunOn(ks, cfg) == FaultOutcome(k + 1, ks[k])
    ensures ExitCode(RunOn(ks, cfg)) == (if ks[k].Unmatched? then 3 else 1)
  {
    StopsAtFirstFault(ks, k, cfg.strict);
  }

  /** A missing input file ends the run with exit status 2. */
  lemma MissingInput(cfg: Config, lib: Library)
    ensures RunSpec(None, cfg, lib) == InputNotFound && ExitCode(RunSpec(None, cfg, lib)) == 2
  {
  }

  // ---------------------------------------------------------------------
  // Sort order of absent values.

  /** With present values above -1, records without the field sort first ascending and last descending. */
  lemma AbsentSortsOutside(ys: seq<Record>, field: SortBy, desc: bool, i: nat, j: nat)
    requires SortedBy(ys, KeyOf(field), desc)
    requires i < |ys| && j < |ys|
    requires FieldKey(field, ys[i]).None? && FieldKey(field, ys[j]).Some? && FieldKey(field, ys[j]).value > -1.0
    ensures desc ==> j < i
    ensures !desc ==> i < j
  {
    if desc {
      AheadComesFirst(ys, KeyOf(field), desc, j, i);
    } else {
      AheadComesFirst(ys, KeyOf(field), desc, i, j);
    }
  }

  /** An absent field and a present -1 tie, so the sentinel does not separate them. */
  lemma SentinelTies(a: Record, b: Record, field: SortBy, desc: bool)
    requires FieldKey(field, a).None? && FieldKey(field, b) == Some(-1.0)
    ensures Sort([a, b], KeyOf(field), desc) == [a, b]
    ensures Sort([b, a], KeyOf(field), desc) == [b, a]
  {
    TiedPair(a, b, KeyOf(field), desc);
    TiedPair(b, a, KeyOf(field), desc);
  }

  // ---------------------------------------------------------------------
  // The program as statements.

  /** The body of the read loop on line `lineNo`, given the current `rows` and `bad_lines`. */
  method ReadLine(raw: string, lineNo: nat, rows: seq<Record>, bad: nat, cfg: Config, lib: Library)
    returns (next: State)
    ensures next == Step(Running(rows, bad), lineNo, Classify(raw, cfg.query, lib), cfg.strict)
  {
    var line := Clean(raw);
    if Strip(line) == [] {
      KindBlank(raw, cfg.query, lib);
      return Running(rows, bad);
    }
    KindNonBlank(raw, cfg.query, lib);
    var m := MatchLine(line);
    next := ReadMatch(line, m, lineNo, rows, bad, cfg, lib);
  }

  /** The loop body on a non-blank line, given the outcome `m` of LOG_RE.match. */
  method ReadMatch(line: string, m: Option<Fields>, lineNo: nat, rows: seq<Record>, bad: nat, cfg: Config, lib: Library)
    returns (next: State)
    ensures next == Step(Running(rows, bad), lineNo, MatchKind(line, m, cfg.query, lib), cfg.strict)
  {
    if m.None? {
      if cfg.strict {
        return Stopped(StrictAbort(lineNo, line));
      }
      return Running(rows, bad + 1);
    }
    var rec := BuildRecord(m.value, lib);
    next := ReadRecord(rec, lineNo, rows, bad, cfg);
  }

  /** The rest of the loop body once the line has matched and `rec` is its record, if any. */
  method ReadRecord(rec: Option<Record>, lineNo: nat, rows: seq<Record>, bad: nat, cfg: Config)
    returns (next: State)
    ensures next == Step(Running(rows, bad), lineNo, RecordKind(rec, cfg.query), cfg.strict)
  {
    if rec.None? {
      return Stopped(RaiseAbort(lineNo));
    }
    if RowMatches(rec.value, cfg.query) {
      return Running(rows + [rec.value], bad);
    }
    return Running(rows, bad);
  }

  /** The read loop of main. */
  method Collect(lines: seq<string>, cfg: Config, lib: Library) returns (st: State)
    ensures st == Fold(KindsOf(lines, cfg.query, lib), cfg.strict)
  {
    var rows: seq<Record> := [];
    var bad: nat := 0;
    var i := 0;
    ghost var seen: seq<LineKind> := [];
    while i < |lines|
      invariant 0 <= i <= |lines| && |seen| == i
      invariant Agrees(seen, lines, cfg.query, lib)
      invariant Fold(seen, cfg.strict) == Running(rows, bad)
    {
      var next := ReadLine(lines[i], i + 1, rows, bad, cfg, lib);
      ghost var k := Classify(lines[i], cfg.query, lib);
      AgreesStep(seen, lines, cfg.query, lib);
      FoldStep(seen, k, cfg.strict);
      seen := seen + [k];
      if next.Stopped? {
        KindsOfMatches(lines, seen, cfg.query, lib);
        StoppedPersists(KindsOf(lines, cfg.query, lib), i + 1, cfg.strict);
        return next;
      }
      rows, bad := next.rows, next.bad;
      i := i + 1;
    }
    KindsOfAll(lines, seen, cfg.query, lib);
    st := Running(rows, bad);
  }

  /** main after argument parsing: read, sort, limit. */
  method Run(input: Option<seq<string>>, cfg: Config, lib: Library) returns (outcome: Outcome)
    ensures outcome == RunSpec(input, cfg, lib)
  {
    if input.None? {
      return InputNotFound;
    }
    var st := Collect(input.value, cfg, lib);
    if st.Stopped? {
      return st.outcome;
    }
    var rows := st.rows;
    rows := Sort(rows, KeyOf(cfg.sortBy), cfg.desc);
    if cfg.limit.Some? {
      rows := Truncate(rows, cfg.limit);
    }
    outcome := Completed(rows, st.bad);
  }
}
