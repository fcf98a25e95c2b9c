/**
 * Decomposition of the quoted request line into method, uri, path, query and
 * protocol (split_request), and the count of distinct query-string names.
 *
 * Two library calls are parameters: `absolute` stands for urlparse applied to
 * an absolute URI and yields its (path, query), or None where urlparse raises
 * ValueError (an unbalanced or invalid bracketed host); `unquote` stands for the
 * percent-decoding parse_qs applies to a parameter name.
 */
module Request {
  import opened Wrappers
  import opened Text

  /** Python's `s.split()` with no argument: the maximal runs of non-whitespace. */
  function Words(s: string): (ws: seq<string>)
    ensures forall i :: 0 <= i < |ws| ==> ws[i] != [] && NoSpace(ws[i])
    decreases |s|
  {
    var t := LeadingSpace(s).1;
    if t == [] then []
    else
      var r := LeadingSolid(t);
      WordNonEmpty(t);
      [r.0] + Words(r.1)
  }

  /** A text that starts with a non-blank character starts with a non-empty word. */
  lemma WordNonEmpty(t: string)
    requires t != [] && !IsSpace(t[0])
    ensures LeadingSolid(t).0 != [] && |LeadingSolid(t).1| < |t|
  {
  }

  /** A request holds no word exactly when it is blank. */
  lemma WordsBlank(s: string)
    ensures Words(s) == [] <==> AllSpace(s)
  {
    var (g, t) := LeadingSpace(s);
    if t != [] {
      assert s[|g|] == t[0];
    }
  }

  /** The words of a gap, a word and the rest are that word followed by the rest's words. */
  lemma WordsCons(gap: string, w: string, rest: string)
    requires AllSpace(gap) && w != [] && NoSpace(w)
    requires rest == [] || IsSpace(rest[0])
    ensures Words(gap + w + rest) == [w] + Words(rest)
  {
    var s := gap + w + rest;
    assert s == gap + (w + rest);
    assert (w + rest)[0] == w[0];
    LeadingSpaceOf(gap, w + rest);
    LeadingSolidOf(w, rest);
  }

  /** Prepending one space to a join does not change its words. */
  lemma WordsJoinTail(ws: seq<string>)
    requires |ws| >= 1
    requires forall i :: 0 <= i < |ws| ==> ws[i] != [] && NoSpace(ws[i])
    ensures Words([' '] + JoinWith(ws, ' ')) == Words(JoinWith(ws, ' '))
  {
    var j := JoinWith(ws, ' ');
    assert j[0] == ws[0][0];
    LeadingSpaceOf([' '], j);
    LeadingSpaceOf([], j);
    assert [] + j == j;
  }

  /** Splitting words joined by single spaces gives back the words. */
  lemma {:induction false} WordsJoin(ws: seq<string>)
    requires |ws| >= 1
    requires forall i :: 0 <= i < |ws| ==> ws[i] != [] && NoSpace(ws[i])
    ensures Words(JoinWith(ws, ' ')) == ws
  {
    if |ws| == 1 {
      WordsCons([], ws[0], []);
      assert [] + ws[0] + [] == ws[0];
    } else {
      var w := ws[0];
      var more := ws[1..];
      assert forall i :: 0 <= i < |more| ==> more[i] == ws[i + 1];
      var tail := JoinWith(more, ' ');
      var rest := [' '] + tail;
      assert JoinWith(ws, ' ') == w + [' '] + tail;
      assert w + [' '] + tail == [] + w + rest;
      assert rest[0] == ' ';
      WordsCons([], w, rest);
      WordsJoinTail(more);
      WordsJoin(more);
      HeadTail(ws);
    }
  }

  /** The `i`-th word, or "" when there are fewer words. */
  function WordAt(ws: seq<string>, i: nat): string {
    if i < |ws| then ws[i] else ""
  }

  /** A uri is treated as absolute when it is non-empty and holds "://". */
  predicate IsAbsolute(uri: string) {
    uri != [] && Contains(uri, "://")
  }

  datatype RequestLine = RequestLine(verb: string, uri: string, path: string, query: string, proto: string)

  /** parser.py's split_request; None is the ValueError urlparse raises. */
  function SplitRequest(req: string, absolute: string -> Option<(string, string)>): (r: Option<RequestLine>)
    ensures r.None? <==> IsAbsolute(WordAt(Words(req), 1)) && absolute(WordAt(Words(req), 1)).None?
    ensures r.Some? && IsAbsolute(r.value.uri) ==> absolute(r.value.uri) == Some((r.value.path, r.value.query))
    ensures r.Some? && !IsAbsolute(r.value.uri) && '?' in r.value.uri ==>
              r.value.path + "?" + r.value.query == r.value.uri && '?' !in r.value.path
    ensures r.Some? && !IsAbsolute(r.value.uri) && '?' !in r.value.uri ==>
              r.value.path == r.value.uri && r.value.query == ""
  {
    var ws := Words(req);
    var uri := WordAt(ws, 1);
    var parts :=
      if IsAbsolute(uri) then absolute(uri)
      else
        var q := IndexOf(uri, '?');
        if q < |uri| then
          assert uri == uri[..q] + "?" + uri[q + 1..];
          Some((uri[..q], uri[q + 1..]))
        else Some((uri, ""));
    match parts
    case None => None
    case Some((path, query)) => Some(RequestLine(WordAt(ws, 0), uri, path, query, WordAt(ws, 2)))
  }

  /** The words `ws` with the gap `gaps[i]` before word `i` and `gaps[|ws|]` after the last. */
  function Spaced(gaps: seq<string>, ws: seq<string>): string
    requires |gaps| == |ws| + 1
    decreases |ws|
  {
    if ws == [] then gaps[0] else gaps[0] + ws[0] + Spaced(gaps[1..], ws[1..])
  }

  /** Whitespace gaps, non-empty between words: the text splits back into exactly the words. */
  predicate SpacedWell(gaps: seq<string>, ws: seq<string>) {
    && |gaps| == |ws| + 1
    && (forall i :: 0 <= i < |gaps| ==> AllSpace(gaps[i]))
    && (forall i :: 0 < i < |ws| ==> gaps[i] != [])
    && (forall i :: 0 <= i < |ws| ==> ws[i] != [] && NoSpace(ws[i]))
  }

  /** `str.split()` gives back the words, whatever whitespace surrounds and separates them. */
  lemma {:induction false} WordsSpaced(gaps: seq<string>, ws: seq<string>)
    requires SpacedWell(gaps, ws)
    ensures Words(Spaced(gaps, ws)) == ws
    decreases |ws|
  {
    if ws == [] {
      WordsBlank(gaps[0]);
    } else {
      var rest := Spaced(gaps[1..], ws[1..]);
      assert SpacedWell(gaps[1..], ws[1..]) by {
        forall i | 0 < i < |ws| - 1 ensures gaps[1..][i] != [] {
          assert gaps[1..][i] == gaps[i + 1];
        }
        forall i | 0 <= i < |gaps| - 1 ensures AllSpace(gaps[1..][i]) {
          assert gaps[1..][i] == gaps[i + 1];
        }
      }
      if |ws| > 1 {
        assert rest == gaps[1] + ws[1] + Spaced(gaps[2..], ws[2..]) by {
          assert gaps[1..][0] == gaps[1] && gaps[1..][1..] == gaps[2..] && ws[1..][0] == ws[1] && ws[1..][1..] == ws[2..];
        }
        assert rest[0] == gaps[1][0];
      } else {
        assert rest == gaps[1];
      }
      WordsCons(gaps[0], ws[0], rest);
      WordsSpaced(gaps[1..], ws[1..]);
      HeadTail(ws);
    }
  }

  /**
   * verb (the method), uri and proto are the first three words, "" where the
   * request has fewer; further words are ignored.
   */
  lemma SplitRequestWords(gaps: seq<string>, ws: seq<string>, absolute: string -> Option<(string, string)>)
    requires SpacedWell(gaps, ws)
    ensures var r := SplitRequest(Spaced(gaps, ws), absolute);
            && (r.None? <==> |ws| > 1 && IsAbsolute(ws[1]) && absolute(ws[1]).None?)
            && (r.Some? ==>
                  && r.value.verb == (if |ws| > 0 then ws[0] else "")
                  && r.value.uri == (if |ws| > 1 then ws[1] else "")
                  && r.value.proto == (if |ws| > 2 then ws[2] else ""))
  {
    WordsSpaced(gaps, ws);
  }

  /** With fewer than two words the split cannot fail, and there is no uri, path or query. */
  lemma SplitRequestShort(req: string, absolute: string -> Option<(string, string)>)
    requires |Words(req)| < 2
    ensures var r := SplitRequest(req, absolute);
            r.Some? && r.value.uri == "" && r.value.path == "" && r.value.query == "" && r.value.proto == ""
  {
  }

  /** Python's `name.replace('+', ' ')`. */
  function PlusToSpace(name: string): (r: string)
    ensures |r| == |name|
    ensures forall i :: 0 <= i < |r| ==> r[i] == (if name[i] == '+' then ' ' else name[i])
  {
    if name == [] then [] else [if name[0] == '+' then ' ' else name[0]] + PlusToSpace(name[1..])
  }

  /** The name parse_qs records for one '&'-separated piece: only "name=value" with a non-empty value counts. */
  function PieceName(piece: string, unquote: string -> string): seq<string> {
    var eq := IndexOf(piece, '=');
    if eq + 1 < |piece| then [unquote(PlusToSpace(piece[..eq]))] else []
  }

  function NamesOf(pieces: seq<string>, unquote: string -> string): seq<string> {
    if pieces == [] then [] else PieceName(pieces[0], unquote) + NamesOf(pieces[1..], unquote)
  }

  lemma {:induction false} NamesOfAppend(a: seq<string>, b: seq<string>, unquote: string -> string)
    ensures NamesOf(a + b, unquote) == NamesOf(a, unquote) + NamesOf(b, unquote)
  {
    if a == [] {
      assert a + b == b;
    } else {
      assert (a + b)[0] == a[0];
      assert (a + b)[1..] == a[1..] + b;
      NamesOfAppend(a[1..], b, unquote);
    }
  }

  /** The parameter names parse_qs records, in order and with repetitions. */
  function QueryNames(query: string, unquote: string -> string): seq<string> {
    NamesOf(SplitOn(query, '&'), unquote)
  }

  /** The first occurrences of each element, in order (what a dict's keys keep). */
  function Distinct(xs: seq<string>): (d: seq<string>)
    ensures forall i, j :: 0 <= i < j < |d| ==> d[i] != d[j]
    ensures forall x :: x in d <==> x in xs
  {
    if xs == [] then []
    else
      var d := Distinct(xs[..|xs| - 1]);
      var x := xs[|xs| - 1];
      assert forall y :: y in xs <==> y in xs[..|xs| - 1] || y == x by {
        assert xs == xs[..|xs| - 1] + [x];
      }
      if x in d then d else d + [x]
  }

  function Elements(xs: seq<string>): set<string> {
    set x | x in xs
  }

  /** A sequence without repetitions is as long as its set of elements is large. */
  lemma {:induction false} UniqueLength(d: seq<string>)
    requires forall i, j :: 0 <= i < j < |d| ==> d[i] != d[j]
    ensures |Elements(d)| == |d|
  {
    if d != [] {
      var init := d[..|d| - 1];
      var x := d[|d| - 1];
      assert d == init + [x];
      assert Elements(d) == Elements(init) + {x};
      assert x !in Elements(init);
      UniqueLength(init);
    }
  }

  /** parser.py's query_keys_count: 0 for an empty query, else the number of distinct names. */
  function QueryKeysCount(query: string, unquote: string -> string): (n: nat)
    ensures query == "" ==> n == 0
    ensures query != "" ==> n == |Elements(QueryNames(query, unquote))|
  {
    if query == "" then 0
    else
      var d := Distinct(QueryNames(query, unquote));
      UniqueLength(d);
      assert Elements(d) == Elements(QueryNames(query, unquote));
      |d|
  }

  /** A further piece whose name has already been seen does not change the count. */
  lemma RepeatedName(query: string, piece: string, unquote: string -> string)
    requires query != "" && '&' !in piece
    requires forall x :: x in PieceName(piece, unquote) ==> x in QueryNames(query, unquote)
    ensures QueryKeysCount(query + "&" + piece, unquote) == QueryKeysCount(query, unquote)
  {
    SplitOnAppend(query, '&', piece);
    assert SplitOn(piece, '&') == [piece] by {
      assert IndexOf(piece, '&') == |piece|;
    }
    NamesOfAppend(SplitOn(query, '&'), [piece], unquote);
    assert NamesOf([piece], unquote) == PieceName(piece, unquote) by {
      assert [piece][1..] == [];
    }
    assert Elements(QueryNames(query + "&" + piece, unquote)) == Elements(QueryNames(query, unquote));
  }
}
