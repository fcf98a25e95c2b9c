/**
 * The access-log line grammar (the anchored regular expression LOG_RE).
 *
 * LOG_RE is a fixed sequence of eighteen pieces separated by `\s+`:
 *   remote_addr  \S+  \S+  [time_local]  "request"  status
 *   body_bytes_sent  "http_referer"  "http_user_agent"  request_length
 *   request_time  [upstream_name]  [upstream_alternative]  upstream_addr
 *   upstream_response_length  upstream_response_time  upstream_status
 *   request_id
 * followed by `$`. Each `\S+` is followed by whitespace or the end, a
 * bracketed or quoted piece stops at its first closing delimiter and the
 * status is exactly three digits, so the expression never needs to
 * backtrack: a left-to-right scan that takes every run maximally finds the
 * one match there is. `Scan` is that scan; `Assemble` builds a line from
 * captures and separators, and the two are proved inverse to each other.
 */
module LogGrammar {
  import opened Wrappers
  import opened Text

  /** The shapes of the pieces of the expression. */
  datatype Piece =
    | Token                        // \S+
    | Bracketed(mayBeEmpty: bool)  // \[[^\]]+\]  or  \[[^\]]*\]
    | Quoted                       // "[^"]*"
    | StatusCode                   // \d{3}

  /** The pieces of LOG_RE in order; the second and third are the unnamed ident and user tokens. */
  const Layout: seq<Piece> := [
    Token, Token, Token, Bracketed(false), Quoted, StatusCode,
    Token, Quoted, Quoted, Token, Token, Bracketed(true), Bracketed(true),
    Token, Token, Token, Token, Token
  ]

  /** What a capture of each piece may contain. */
  predicate Fits(p: Piece, c: string) {
    match p
    case Token => |c| > 0 && NoSpace(c)
    case Bracketed(mayBeEmpty) => (mayBeEmpty || |c| > 0) && ']' !in c
    case Quoted => '"' !in c
    case StatusCode => |c| == 3 && AllDigits(c)
  }

  /** The text a piece occupies in the line, delimiters included. */
  function Delimit(p: Piece, c: string): string {
    match p
    case Bracketed(_) => "[" + c + "]"
    case Quoted => "\"" + c + "\""
    case _ => c
  }

  /** `\s+` between two pieces. */
  predicate IsGap(g: string) {
    |g| > 0 && AllSpace(g)
  }

  /** What `$` lets follow the last piece: nothing, or one final newline. */
  predicate IsEnd(g: string) {
    g == "" || g == "\n"
  }

  /** Captures and separators that make up a line of layout `ps`. */
  predicate WellFormed(ps: seq<Piece>, caps: seq<string>, gaps: seq<string>) {
    && |caps| == |ps| && |gaps| == |ps|
    && (forall i :: 0 <= i < |ps| ==> Fits(ps[i], caps[i]))
    && (forall i :: 0 <= i < |ps| - 1 ==> IsGap(gaps[i]))
    && (|ps| > 0 ==> IsEnd(gaps[|ps| - 1]))
  }

  /** The line made of the given captures, each followed by its separator. */
  function Assemble(ps: seq<Piece>, caps: seq<string>, gaps: seq<string>): string
    requires |caps| == |ps| && |gaps| == |ps|
  {
    if ps == [] then "" else Delimit(ps[0], caps[0]) + gaps[0] + Assemble(ps[1..], caps[1..], gaps[1..])
  }

  /** A line the expression matches: it fits the fixed piece sequence end to end. */
  ghost predicate IsLogLine(line: string) {
    exists caps, gaps :: WellFormed(Layout, caps, gaps) && line == Assemble(Layout, caps, gaps)
  }

  /** Match one piece at the start of `s`; yields the capture and the rest of the text. */
  function ScanPiece(p: Piece, s: string): (r: Option<(string, string)>)
    ensures r.Some? ==> Fits(p, r.value.0) && s == Delimit(p, r.value.0) + r.value.1
    ensures r.Some? && p == Token ==> r.value.1 == [] || IsSpace(r.value.1[0])
  {
    match p
    case Token => ScanToken(s)
    case Bracketed(mayBeEmpty) => ScanEnclosed('[', ']', mayBeEmpty, s)
    case Quoted => ScanEnclosed('"', '"', true, s)
    case StatusCode => ScanStatus(s)
  }

  /** `\S+`, taken maximally. */
  function ScanToken(s: string): (r: Option<(string, string)>)
    ensures r.Some? ==> |r.value.0| > 0 && NoSpace(r.value.0) && s == r.value.0 + r.value.1
    ensures r.Some? ==> r.value.1 == [] || IsSpace(r.value.1[0])
  {
    var n := Span(IsSolid, s);
    if n == 0 then None
    else
      assert s == s[..n] + s[n..];
      Some((s[..n], s[n..]))
  }

  /** `open [^close]* close` (or `+` when the content may not be empty). */
  function ScanEnclosed(open: char, close: char, mayBeEmpty: bool, s: string): (r: Option<(string, string)>)
    ensures r.Some? ==> (mayBeEmpty || |r.value.0| > 0) && close !in r.value.0
    ensures r.Some? ==> s == [open] + r.value.0 + [close] + r.value.1
  {
    if |s| > 0 && s[0] == open then
      var n := IndexOf(s[1..], close);
      if n < |s| - 1 && (mayBeEmpty || n > 0) then
        var inner, rest := s[1..n + 1], s[n + 2..];
        assert s[1..] == inner + [close] + rest;
        assert s == [open] + s[1..];
        Some((inner, rest))
      else None
    else None
  }

  /** `\d{3}`. */
  function ScanStatus(s: string): (r: Option<(string, string)>)
    ensures r.Some? ==> |r.value.0| == 3 && AllDigits(r.value.0) && s == r.value.0 + r.value.1
  {
    if |s| >= 3 && IsDigit(s[0]) && IsDigit(s[1]) && IsDigit(s[2]) then
      assert s == s[..3] + s[3..];
      Some((s[..3], s[3..]))
    else None
  }

  /**
   * Match the pieces `ps` against the whole of `s`, left to right. The result
   * holds the captures and the separators that followed them; whatever it
   * returns reassembles to `s`.
   */
  function Scan(ps: seq<Piece>, s: string): (r: Option<(seq<string>, seq<string>)>)
    ensures r.Some? ==> WellFormed(ps, r.value.0, r.value.1) && s == Assemble(ps, r.value.0, r.value.1)
    decreases |ps|
  {
    if ps == [] then None
    else match ScanPiece(ps[0], s)
      case None => None
      case Some((c, rest)) =>
        if |ps| == 1 then
          if IsEnd(rest) then
            LastPiece(ps, s, c, rest);
            Some(([c], [rest]))
          else None
        else
          var (g, after) := LeadingSpace(rest);
          if g == [] then None
          else match Scan(ps[1..], after)
            case None => None
            case Some((cs, gs)) =>
              PieceThenGap(ps, s, c, rest, g, after, cs, gs);
              Some(([c] + cs, [g] + gs))
  }

  /** A single last piece followed by the end of the line. */
  lemma LastPiece(ps: seq<Piece>, s: string, c: string, end: string)
    requires |ps| == 1 && Fits(ps[0], c) && IsEnd(end) && s == Delimit(ps[0], c) + end
    ensures WellFormed(ps, [c], [end]) && s == Assemble(ps, [c], [end])
  {
    assert Assemble(ps, [c], [end]) == Delimit(ps[0], c) + end + "";
  }

  /** A piece and a gap in front of a well-formed line make a well-formed line. */
  lemma PieceThenGap(ps: seq<Piece>, s: string, c: string, rest: string, g: string, after: string,
                     cs: seq<string>, gs: seq<string>)
    requires |ps| >= 2 && Fits(ps[0], c) && IsGap(g)
    requires WellFormed(ps[1..], cs, gs)
    requires s == Delimit(ps[0], c) + rest && rest == g + after && after == Assemble(ps[1..], cs, gs)
    ensures WellFormed(ps, [c] + cs, [g] + gs)
    ensures s == Assemble(ps, [c] + cs, [g] + gs)
  {
    var caps, gaps := [c] + cs, [g] + gs;
    assert caps[1..] == cs && gaps[1..] == gs;
    WellFormedCons(ps, caps, gaps);
    assert Assemble(ps, caps, gaps) == Delimit(ps[0], c) + g + after;
  }

  /** Well-formedness extends by one piece at the front. */
  lemma WellFormedCons(ps: seq<Piece>, caps: seq<string>, gaps: seq<string>)
    requires |ps| >= 2 && |caps| == |ps| && |gaps| == |ps|
    requires Fits(ps[0], caps[0]) && IsGap(gaps[0])
    requires WellFormed(ps[1..], caps[1..], gaps[1..])
    ensures WellFormed(ps, caps, gaps)
  {
    forall i | 1 <= i < |ps| ensures Fits(ps[i], caps[i]) {
      assert Fits(ps[1..][i - 1], caps[1..][i - 1]);
    }
    forall i | 1 <= i < |ps| - 1 ensures IsGap(gaps[i]) {
      assert IsGap(gaps[1..][i - 1]);
    }
    assert gaps[|ps| - 1] == gaps[1..][|ps| - 2];
  }

  /** A piece followed by a proper separator is recognised with exactly its capture. */
  lemma ScanPieceDelimited(p: Piece, c: string, rest: string)
    requires Fits(p, c)
    requires p == Token ==> rest == [] || IsSpace(rest[0])
    ensures ScanPiece(p, Delimit(p, c) + rest) == Some((c, rest))
  {
    match p
    case Token => ScanTokenDelimited(c, rest);
    case Bracketed(_) => ScanEnclosedDelimited(p, '[', ']', c, rest);
    case Quoted => ScanEnclosedDelimited(p, '"', '"', c, rest);
    case StatusCode =>
      var s := c + rest;
      assert s[..3] == c && s[3..] == rest;
  }

  lemma ScanTokenDelimited(c: string, rest: string)
    requires |c| > 0 && NoSpace(c)
    requires rest == [] || IsSpace(rest[0])
    ensures ScanPiece(Token, c + rest) == Some((c, rest))
  {
    var s := c + rest;
    SpanOfRun(IsSolid, c, rest);
    var n := Span(IsSolid, s);
    assert n == |c|;
    assert s[..n] == c && s[n..] == rest;
  }

  lemma ScanEnclosedDelimited(p: Piece, open: char, close: char, c: string, rest: string)
    requires p.Bracketed? || p.Quoted?
    requires open == (if p.Bracketed? then '[' else '"') && close == (if p.Bracketed? then ']' else '"')
    requires Fits(p, c)
    ensures ScanPiece(p, Delimit(p, c) + rest) == Some((c, rest))
  {
    var mayBeEmpty := if p.Bracketed? then p.mayBeEmpty else true;
    assert Delimit(p, c) + rest == [open] + c + [close] + rest;
    EnclosedRoundTrip(open, close, mayBeEmpty, c, rest);
  }

  lemma EnclosedRoundTrip(open: char, close: char, mayBeEmpty: bool, c: string, rest: string)
    requires close !in c && (mayBeEmpty || |c| > 0)
    ensures ScanEnclosed(open, close, mayBeEmpty, [open] + c + [close] + rest) == Some((c, rest))
  {
    var s := [open] + c + [close] + rest;
    assert s[1..] == c + ([close] + rest);
    IndexOfAfterFree(c, close, [close] + rest);
    assert s[1..|c| + 1] == c && s[|c| + 2..] == rest;
  }

  /** An assembled line of at least one piece starts with a non-space character. */
  lemma AssembleStartsSolid(ps: seq<Piece>, caps: seq<string>, gaps: seq<string>)
    requires |ps| > 0 && |caps| == |ps| && |gaps| == |ps| && Fits(ps[0], caps[0])
    ensures var s := Assemble(ps, caps, gaps); s != [] && !IsSpace(s[0])
  {
    var s := Assemble(ps, caps, gaps);
    var d := Delimit(ps[0], caps[0]);
    assert s == d + (gaps[0] + Assemble(ps[1..], caps[1..], gaps[1..]));
    match ps[0]
    case Token => assert d == caps[0] && !IsSpace(caps[0][0]);
    case StatusCode => assert d == caps[0] && IsDigit(caps[0][0]);
    case Bracketed(_) => assert d[0] == '[';
    case Quoted => assert d[0] == '"';
  }

  /** The scan of a one-piece assembled line. */
  lemma ScanLast(ps: seq<Piece>, caps: seq<string>, gaps: seq<string>)
    requires |ps| == 1 && WellFormed(ps, caps, gaps)
    ensures Scan(ps, Assemble(ps, caps, gaps)) == Some((caps, gaps))
  {
    assert Assemble(ps, caps, gaps) == Delimit(ps[0], caps[0]) + gaps[0];
    ScanPieceDelimited(ps[0], caps[0], gaps[0]);
    assert caps == [caps[0]] && gaps == [gaps[0]];
  }

  /** The first piece of an assembled line of several pieces is scanned with its capture. */
  lemma FrontPiece(ps: seq<Piece>, caps: seq<string>, gaps: seq<string>)
    requires |ps| >= 2 && WellFormed(ps, caps, gaps)
    ensures ScanPiece(ps[0], Assemble(ps, caps, gaps))
            == Some((caps[0], gaps[0] + Assemble(ps[1..], caps[1..], gaps[1..])))
  {
    var rest := gaps[0] + Assemble(ps[1..], caps[1..], gaps[1..]);
    assert Assemble(ps, caps, gaps) == Delimit(ps[0], caps[0]) + rest;
    assert IsGap(gaps[0]);
    assert rest[0] == gaps[0][0];
    ScanPieceDelimited(ps[0], caps[0], rest);
  }

  /** The separator after the first piece is read back as exactly the first gap. */
  lemma FrontGap(ps: seq<Piece>, caps: seq<string>, gaps: seq<string>)
    requires |ps| >= 2 && WellFormed(ps, caps, gaps)
    ensures gaps[0] != []
    ensures LeadingSpace(gaps[0] + Assemble(ps[1..], caps[1..], gaps[1..]))
            == (gaps[0], Assemble(ps[1..], caps[1..], gaps[1..]))
  {
    assert IsGap(gaps[0]);
    WellFormedTail(ps, caps, gaps);
    AssembleStartsSolid(ps[1..], caps[1..], gaps[1..]);
    LeadingSpaceOf(gaps[0], Assemble(ps[1..], caps[1..], gaps[1..]));
  }

  /** One step of Scan on a line of several pieces, in terms of its parts. */
  lemma ScanCons(ps: seq<Piece>, s: string, c: string, rest: string, g: string, after: string,
                 cs: seq<string>, gs: seq<string>)
    requires |ps| >= 2
    requires ScanPiece(ps[0], s) == Some((c, rest))
    requires LeadingSpace(rest) == (g, after) && g != []
    requires Scan(ps[1..], after) == Some((cs, gs))
    ensures Scan(ps, s) == Some(([c] + cs, [g] + gs))
  {
  }

  /** The scan of an assembled line of several pieces, given the scan of its tail. */
  lemma ScanFront(ps: seq<Piece>, caps: seq<string>, gaps: seq<string>)
    requires |ps| >= 2 && WellFormed(ps, caps, gaps)
    requires Scan(ps[1..], Assemble(ps[1..], caps[1..], gaps[1..])) == Some((caps[1..], gaps[1..]))
    ensures Scan(ps, Assemble(ps, caps, gaps)) == Some((caps, gaps))
  {
    var line := Assemble(ps, caps, gaps);
    var tail := Assemble(ps[1..], caps[1..], gaps[1..]);
    FrontPiece(ps, caps, gaps);
    FrontGap(ps, caps, gaps);
    HeadTail(caps);
    HeadTail(gaps);
    ScanCons(ps, line, caps[0], gaps[0] + tail, gaps[0], tail, caps[1..], gaps[1..]);
  }

  /** Completeness: the scan recognises every assembled line, with its own captures and separators. */
  lemma {:induction false} ScanAssembled(ps: seq<Piece>, caps: seq<string>, gaps: seq<string>)
    requires |ps| > 0 && WellFormed(ps, caps, gaps)
    ensures Scan(ps, Assemble(ps, caps, gaps)) == Some((caps, gaps))
    decreases |ps|
  {
    if |ps| == 1 {
      ScanLast(ps, caps, gaps);
    } else {
      WellFormedTail(ps, caps, gaps);
      ScanAssembled(ps[1..], caps[1..], gaps[1..]);
      ScanFront(ps, caps, gaps);
    }
  }

  /** Dropping the first piece of a well-formed line of two or more pieces keeps it well-formed. */
  lemma WellFormedTail(ps: seq<Piece>, caps: seq<string>, gaps: seq<string>)
    requires |ps| >= 2 && WellFormed(ps, caps, gaps)
    ensures WellFormed(ps[1..], caps[1..], gaps[1..])
  {
    forall i | 0 <= i < |ps| - 1 ensures Fits(ps[1..][i], caps[1..][i]) {
      assert Fits(ps[i + 1], caps[i + 1]);
    }
    forall i | 0 <= i < |ps| - 2 ensures IsGap(gaps[1..][i]) {
      assert IsGap(gaps[i + 1]);
    }
  }

  /** Where the capture of piece `i` starts in the assembled line. */
  function CaptureStart(ps: seq<Piece>, caps: seq<string>, gaps: seq<string>, i: nat): nat
    requires |caps| == |ps| && |gaps| == |ps| && i < |ps|
  {
    var open := if ps[0].Bracketed? || ps[0].Quoted? then 1 else 0;
    if i == 0 then open
    else |Delimit(ps[0], caps[0])| + |gaps[0]| + CaptureStart(ps[1..], caps[1..], gaps[1..], i - 1)
  }

  /** A capture sits right after its opening delimiter, if any. */
  lemma DelimitedOccurs(p: Piece, c: string, rest: string)
    ensures OccursAt(Delimit(p, c) + rest, c, if p.Bracketed? || p.Quoted? then 1 else 0)
  {
    var open := if p.Bracketed? || p.Quoted? then 1 else 0;
    var d := Delimit(p, c);
    assert d[open..open + |c|] == c;
    assert (d + rest)[open..open + |c|] == d[open..open + |c|];
  }

  /** An occurrence in `t` is an occurrence in `pre + t`, shifted by `|pre|`. */
  lemma OccursShift(pre: string, t: string, x: string, k: int)
    requires OccursAt(t, x, k)
    ensures OccursAt(pre + t, x, |pre| + k)
  {
    assert (pre + t)[|pre| + k..|pre| + k + |x|] == t[k..k + |x|];
  }

  /** Every capture is a verbatim substring of the line, at CaptureStart. */
  lemma {:induction false} CaptureVerbatim(ps: seq<Piece>, caps: seq<string>, gaps: seq<string>, i: nat)
    requires |caps| == |ps| && |gaps| == |ps| && i < |ps|
    ensures OccursAt(Assemble(ps, caps, gaps), caps[i], CaptureStart(ps, caps, gaps, i))
  {
    var d := Delimit(ps[0], caps[0]);
    var tail := Assemble(ps[1..], caps[1..], gaps[1..]);
    assert Assemble(ps, caps, gaps) == d + (gaps[0] + tail);
    if i == 0 {
      DelimitedOccurs(ps[0], caps[0], gaps[0] + tail);
    } else {
      CaptureVerbatim(ps[1..], caps[1..], gaps[1..], i - 1);
      assert caps[1..][i - 1] == caps[i];
      OccursShift(d + gaps[0], tail, caps[i], CaptureStart(ps[1..], caps[1..], gaps[1..], i - 1));
      assert d + (gaps[0] + tail) == (d + gaps[0]) + tail;
    }
  }

  /** The named groups of LOG_RE, as raw captures. */
  datatype Fields = Fields(
    remoteAddr: string,
    timeLocal: string,
    request: string,
    status: string,
    bodyBytesSent: string,
    httpReferer: string,
    httpUserAgent: string,
    requestLength: string,
    requestTime: string,
    upstreamName: string,
    upstreamAlternative: string,
    upstreamAddr: string,
    upstreamResponseLength: string,
    upstreamResponseTime: string,
    upstreamStatus: string,
    requestId: string)

  /** Positions in Layout of the named groups, in the order of Fields. */
  const NamedPieces: seq<nat> := [0, 3, 4, 5, 6, 7, 8, 9, 10, 11, 12, 13, 14, 15, 16, 17]

  function FieldsOf(caps: seq<string>): Fields
    requires |caps| == |Layout|
  {
    Fields(caps[0], caps[3], caps[4], caps[5], caps[6], caps[7], caps[8], caps[9],
           caps[10], caps[11], caps[12], caps[13], caps[14], caps[15], caps[16], caps[17])
  }

  /** The named captures of a match, in the order of Fields. */
  function Captures(f: Fields): (cs: seq<string>)
    ensures |cs| == |NamedPieces|
  {
    [f.remoteAddr, f.timeLocal, f.request, f.status, f.bodyBytesSent, f.httpReferer,
     f.httpUserAgent, f.requestLength, f.requestTime, f.upstreamName, f.upstreamAlternative,
     f.upstreamAddr, f.upstreamResponseLength, f.upstreamResponseTime, f.upstreamStatus, f.requestId]
  }

  /** `LOG_RE.match(line)`, as the named groups or nothing. */
  function MatchLine(line: string): (m: Option<Fields>)
    ensures m.Some? ==> IsLogLine(line)
    ensures m.Some? ==> |m.value.status| == 3 && AllDigits(m.value.status)
    ensures m.Some? ==> m.value.timeLocal != "" && ']' !in m.value.timeLocal
    ensures m.Some? ==> ']' !in m.value.upstreamName && ']' !in m.value.upstreamAlternative
    ensures m.Some? ==> '"' !in m.value.request && '"' !in m.value.httpReferer && '"' !in m.value.httpUserAgent
    ensures m.Some? ==>
      && m.value.remoteAddr != [] && NoSpace(m.value.remoteAddr)
      && m.value.bodyBytesSent != [] && NoSpace(m.value.bodyBytesSent)
      && m.value.requestLength != [] && NoSpace(m.value.requestLength)
      && m.value.requestTime != [] && NoSpace(m.value.requestTime)
      && m.value.upstreamAddr != [] && NoSpace(m.value.upstreamAddr)
      && m.value.upstreamResponseLength != [] && NoSpace(m.value.upstreamResponseLength)
      && m.value.upstreamResponseTime != [] && NoSpace(m.value.upstreamResponseTime)
      && m.value.upstreamStatus != [] && NoSpace(m.value.upstreamStatus)
      && m.value.requestId != [] && NoSpace(m.value.requestId)
  {
    match Scan(Layout, line)
    case None => None
    case Some((caps, gaps)) =>
      assert Fits(Layout[3], caps[3]) && Fits(Layout[5], caps[5]);
      assert Fits(Layout[4], caps[4]) && Fits(Layout[7], caps[7]) && Fits(Layout[8], caps[8]);
      assert Fits(Layout[11], caps[11]) && Fits(Layout[12], caps[12]);
      assert Fits(Layout[0], caps[0]) && Fits(Layout[6], caps[6]) && Fits(Layout[9], caps[9]);
      assert Fits(Layout[10], caps[10]) && Fits(Layout[13], caps[13]) && Fits(Layout[14], caps[14]);
      assert Fits(Layout[15], caps[15]) && Fits(Layout[16], caps[16]) && Fits(Layout[17], caps[17]);
      Some(FieldsOf(caps))
  }

  /** A line built from any well-formed captures matches, and yields exactly those captures. */
  lemma MatchAssembled(caps: seq<string>, gaps: seq<string>)
    requires WellFormed(Layout, caps, gaps)
    ensures MatchLine(Assemble(Layout, caps, gaps)) == Some(FieldsOf(caps))
  {
    ScanAssembled(Layout, caps, gaps);
  }

  /** A line matches if and only if it fits the piece sequence end to end. */
  lemma MatchLineIff(line: string)
    ensures MatchLine(line).Some? <==> IsLogLine(line)
  {
    if IsLogLine(line) {
      var caps, gaps :| WellFormed(Layout, caps, gaps) && line == Assemble(Layout, caps, gaps);
      MatchAssembled(caps, gaps);
    }
  }

  /** Named capture `j` is the capture of the piece at NamedPieces[j]. */
  lemma CapturesOfFields(caps: seq<string>, j: nat)
    requires |caps| == |Layout| && j < |NamedPieces|
    ensures NamedPieces[j] < |Layout|
    ensures Captures(FieldsOf(caps))[j] == caps[NamedPieces[j]]
  {
  }

  /** Every named capture of a match is a verbatim substring of the line; remote_addr starts it. */
  lemma MatchCapturesVerbatim(line: string, j: nat)
    requires MatchLine(line).Some? && j < |NamedPieces|
    ensures exists k :: OccursAt(line, Captures(MatchLine(line).value)[j], k)
    ensures StartsWith(line, MatchLine(line).value.remoteAddr)
  {
    var r := Scan(Layout, line).value;
    var caps, gaps := r.0, r.1;
    assert |caps| == |Layout| && |gaps| == |Layout|;
    assert line == Assemble(Layout, caps, gaps);
    assert MatchLine(line).value == FieldsOf(caps);
    CapturesOfFields(caps, j);
    var i := NamedPieces[j];
    CaptureVerbatim(Layout, caps, gaps, i);
    assert OccursAt(line, caps[i], CaptureStart(Layout, caps, gaps, i));
    CaptureVerbatim(Layout, caps, gaps, 0);
    assert CaptureStart(Layout, caps, gaps, 0) == 0;
  }
}
