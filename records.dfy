/**
 * The record built for one matched line (the `row` dict of the main loop,
 * with `_time_dt` kept as the UTC instant in epoch seconds).
 */
module Records {
  import opened Wrappers
  import opened Text
  import opened Coerce
  import opened LogTime
  import opened LogGrammar
  import opened Request

  /**
   * The library calls a record depends on: urlparse on absolute URIs (None
   * where it raises ValueError), and parse_qs's name decoding.
   */
  datatype Library = Library(absolute: string -> Option<(string, string)>, unquote: string -> string)

  datatype Record = Record(
    remoteAddr: string,
    timeLocal: string,
    timeUtc: string,
    verb: string,
    uri: string,
    path: string,
    proto: string,
    status: Option<int>,
    bodyBytesSent: Option<int>,
    httpReferer: string,
    httpUserAgent: string,
    requestLength: Option<int>,
    requestTime: Option<real>,
    upstreamName: string,
    upstreamAlternative: string,
    upstreamAddr: string,
    upstreamResponseLength: Option<int>,
    upstreamResponseTime: Option<real>,
    upstreamStatus: UpstreamStatus,
    requestId: string,
    queryKeysCount: nat,
    instant: int)

  /**
   * The row for a matched line, or None when an uncaught exception ends the
   * run: urlparse rejects the uri, or strptime or astimezone rejects time_local.
   */
  function BuildRecord(f: Fields, lib: Library): (r: Option<Record>)
    ensures r.None? <==> SplitRequest(f.request, lib.absolute).None? || TimeUtc(f.timeLocal).None?
  {
    match SplitRequest(f.request, lib.absolute)
    case None => None
    case Some(req) =>
      match TimeUtc(f.timeLocal)
      case None => None
      case Some(utc) =>
        Some(Record(
          f.remoteAddr,
          f.timeLocal,
          RenderUtc(utc),
          req.verb,
          req.uri,
          req.path,
          req.proto,
          SafeInt(f.status),
          SafeInt(f.bodyBytesSent),
          f.httpReferer,
          f.httpUserAgent,
          SafeInt(f.requestLength),
          SafeFloat(f.requestTime),
          f.upstreamName,
          f.upstreamAlternative,
          f.upstreamAddr,
          SafeInt(f.upstreamResponseLength),
          SafeFloat(f.upstreamResponseTime),
          UpstreamStatusOf(f.upstreamStatus),
          f.requestId,
          QueryKeysCount(req.query, lib.unquote),
          EpochSeconds(utc)))
  }

  /** A record's instant is its local reading less the zone offset, and time_utc renders that instant. */
  lemma RecordTime(f: Fields, lib: Library)
    requires BuildRecord(f, lib).Some?
    ensures var r := BuildRecord(f, lib).value;
            var st := ParseTime(f.timeLocal).value;
            && Valid(TimeUtc(f.timeLocal).value) && InRange(TimeUtc(f.timeLocal).value)
            && r.instant == EpochSeconds(st.local) - st.offset * 60
            && r.instant == EpochSeconds(TimeUtc(f.timeLocal).value)
            && r.timeUtc == RenderUtc(TimeUtc(f.timeLocal).value)
            && r.timeLocal == f.timeLocal
  {
  }

  /** The record of a matched line: status is always present, tokens are verbatim and blank-free. */
  lemma MatchedRecord(line: string, lib: Library)
    requires MatchLine(line).Some? && BuildRecord(MatchLine(line).value, lib).Some?
    ensures var f := MatchLine(line).value;
            var r := BuildRecord(f, lib).value;
            && r.status == Some(DigitsValue(f.status)) && 0 <= r.status.value <= 999
            && StartsWith(line, r.remoteAddr) && NoSpace(r.remoteAddr)
            && NoSpace(r.requestId) && r.requestId != []
            && (r.upstreamStatus.Code? <==> IsDigitString(f.upstreamStatus))
  {
    var f := MatchLine(line).value;
    SafeIntDigits(f.status);
    assert DigitsValue(f.status) < 1000 by {
      DigitsBound(f.status);
    }
    MatchCapturesVerbatim(line, 0);
  }

  /** A string of `n` digits is below `10^n`. */
  lemma {:induction false} DigitsBound(s: string)
    requires AllDigits(s)
    ensures DigitsValue(s) < Pow10(|s|)
  {
    if s != [] {
      DigitsBound(s[..|s| - 1]);
    }
  }
}
