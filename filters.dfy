/**
 * parser.py's row_matches_filters: the configured categories are ANDed, each
 * list category is a membership test, and a category that is not configured
 * imposes nothing.
 *
 * A list or a substring counts as configured when it is non-empty (Python
 * truthiness). The time bounds are UTC instants in epoch seconds. The
 * source's extra `row["time_utc"] and` test is always true, because every
 * record carries its time, so it does not appear here.
 */
module Filters {
  import opened Wrappers
  import opened Text
  import opened Records

  datatype Query = Query(
    status: seq<int>,
    verbs: seq<string>,
    pathContains: string,
    ips: seq<string>,
    since: Option<int>,
    until: Option<int>)

  /** A query that configures no category. */
  const NoFilters := Query([], [], "", [], None, None)

  predicate StatusPasses(r: Record, q: Query) {
    q.status == [] || (r.status.Some? && r.status.value in q.status)
  }

  predicate VerbPasses(r: Record, q: Query) {
    q.verbs == [] || r.verb in q.verbs
  }

  predicate PathPasses(r: Record, q: Query) {
    q.pathContains == "" || Contains(r.path, q.pathContains)
  }

  predicate IpPasses(r: Record, q: Query) {
    q.ips == [] || r.remoteAddr in q.ips
  }

  predicate SincePasses(r: Record, q: Query) {
    q.since.None? || r.instant >= q.since.value
  }

  predicate UntilPasses(r: Record, q: Query) {
    q.until.None? || r.instant <= q.until.value
  }

  /** Every category passes. */
  predicate Accepts(r: Record, q: Query) {
    && StatusPasses(r, q) && VerbPasses(r, q) && PathPasses(r, q)
    && IpPasses(r, q) && SincePasses(r, q) && UntilPasses(r, q)
  }

  /** The early-return chain of row_matches_filters. */
  function RowMatches(r: Record, q: Query): (keep: bool)
    ensures keep <==> Accepts(r, q)
  {
    if q.status != [] && !(r.status.Some? && r.status.value in q.status) then false
    else if q.verbs != [] && r.verb !in q.verbs then false
    else if q.pathContains != "" && !Contains(r.path, q.pathContains) then false
    else if q.ips != [] && r.remoteAddr !in q.ips then false
    else if q.since.Some? && r.instant < q.since.value then false
    else if q.until.Some? && r.instant > q.until.value then false
    else true
  }

  /** With nothing configured every record is kept. */
  lemma NoFiltersKeepAll(r: Record)
    ensures RowMatches(r, NoFilters)
  {
  }

  /** Dropping any one category never rejects a record that was kept. */
  lemma UnconfiguredNeverRejects(r: Record, q: Query)
    requires RowMatches(r, q)
    ensures RowMatches(r, q.(status := []))
    ensures RowMatches(r, q.(verbs := []))
    ensures RowMatches(r, q.(pathContains := ""))
    ensures RowMatches(r, q.(ips := []))
    ensures RowMatches(r, q.(since := None))
    ensures RowMatches(r, q.(until := None))
  {
  }

  /** A path in which the required substring occurs nowhere is rejected. */
  lemma PathMustContain(r: Record, q: Query)
    requires q.pathContains != ""
    requires forall k :: !OccursAt(r.path, q.pathContains, k)
    ensures !RowMatches(r, q)
  {
    ContainsIff(r.path, q.pathContains);
  }

  /** In particular a non-empty required substring rejects the empty path. */
  lemma EmptyPathRejected(r: Record, q: Query)
    requires q.pathContains != "" && r.path == ""
    ensures !RowMatches(r, q)
  {
    PathMustContain(r, q);
  }

  /** Both time bounds are inclusive. */
  lemma BoundsInclusive(r: Record, q: Query)
    requires q == NoFilters.(since := Some(r.instant), until := Some(r.instant))
    ensures RowMatches(r, q)
  {
  }

  /** Widening an allowed list keeps every record it kept before. */
  lemma WiderStatusKeeps(r: Record, q: Query, extra: seq<int>)
    requires RowMatches(r, q) && q.status != []
    ensures RowMatches(r, q.(status := q.status + extra))
  {
    assert r.status.value in q.status + extra;
  }
}
