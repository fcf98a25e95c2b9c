/**
 * Character classes and string helpers shared by the log parser model.
 *
 * Whitespace is the set of characters Python's `str.isspace()` accepts; the
 * same set is used by the regular expression class `\s` on text patterns, by
 * `str.split()` and by `str.strip()`. Digits are ASCII decimal digits only.
 */
module Text {

  /** A non-empty sequence is its head followed by its tail. */
  lemma HeadTail<T>(s: seq<T>)
    requires |s| >= 1
    ensures [s[0]] + s[1..] == s
  {
  }

  /** Python's whitespace characters. */
  predicate IsSpace(c: char) {
    || c == ' '
    || ('\t' <= c <= '\r')             // \t \n \v \f \r
    || ('\U{1c}' <= c <= '\U{1f}')     // file, group, record and unit separators
    || c == '\U{85}' || c == '\U{a0}' || c == '\U{1680}'
    || ('\U{2000}' <= c <= '\U{200a}')
    || c == '\U{2028}' || c == '\U{2029}' || c == '\U{202f}' || c == '\U{205f}' || c == '\U{3000}'
  }

  /** The complement of IsSpace: what `\S` matches. */
  predicate IsSolid(c: char) {
    !IsSpace(c)
  }

  predicate IsDigit(c: char) {
    '0' <= c <= '9'
  }

  predicate IsNewline(c: char) {
    c == '\n'
  }

  function DigitValue(c: char): (d: nat)
    requires IsDigit(c)
    ensures d < 10
  {
    (c as int) - ('0' as int)
  }

  function DigitChar(d: nat): (c: char)
    requires d < 10
    ensures IsDigit(c) && DigitValue(c) == d
  {
    (('0' as int) + d) as char
  }

  predicate AllSpace(s: string) {
    forall i :: 0 <= i < |s| ==> IsSpace(s[i])
  }

  predicate NoSpace(s: string) {
    forall i :: 0 <= i < |s| ==> !IsSpace(s[i])
  }

  predicate AllDigits(s: string) {
    forall i :: 0 <= i < |s| ==> IsDigit(s[i])
  }

  /** A non-empty run of ASCII digits (what `str.isdigit()` accepts, restricted to ASCII). */
  predicate IsDigitString(s: string) {
    |s| > 0 && AllDigits(s)
  }

  /** Length of the longest prefix of `s` whose characters all satisfy `p`. */
  function Span(p: char -> bool, s: string): (n: nat)
    ensures n <= |s|
    ensures forall i :: 0 <= i < n ==> p(s[i])
    ensures n < |s| ==> !p(s[n])
  {
    if s == [] || !p(s[0]) then 0 else 1 + Span(p, s[1..])
  }

  /** The span of a run followed by a character outside the class is the run itself. */
  lemma SpanOfRun(p: char -> bool, run: string, rest: string)
    requires forall i :: 0 <= i < |run| ==> p(run[i])
    requires rest == [] || !p(rest[0])
    ensures Span(p, run + rest) == |run|
  {
    var s := run + rest;
    assert forall i :: 0 <= i < |run| ==> s[i] == run[i];
    assert |run| < |s| ==> s[|run|] == rest[0];
  }

  /** Split `s` into its leading whitespace and the rest. */
  function LeadingSpace(s: string): (r: (string, string))
    ensures AllSpace(r.0) && s == r.0 + r.1
    ensures r.1 == [] || !IsSpace(r.1[0])
  {
    var n := Span(IsSpace, s);
    assert s == s[..n] + s[n..];
    (s[..n], s[n..])
  }

  /** Split `s` into its leading run of non-whitespace and the rest. */
  function LeadingSolid(s: string): (r: (string, string))
    ensures NoSpace(r.0) && s == r.0 + r.1
    ensures r.1 == [] || IsSpace(r.1[0])
  {
    var n := Span(IsSolid, s);
    assert forall i :: 0 <= i < n ==> s[..n][i] == s[i] && IsSolid(s[i]);
    assert s == s[..n] + s[n..];
    (s[..n], s[n..])
  }

  /** The leading run of `w + t` is `w` when `t` is empty or starts with whitespace. */
  lemma LeadingSolidOf(w: string, t: string)
    requires NoSpace(w)
    requires t == [] || IsSpace(t[0])
    ensures LeadingSolid(w + t) == (w, t)
  {
    SpanOfRun(IsSolid, w, t);
    assert (w + t)[..|w|] == w && (w + t)[|w|..] == t;
  }

  /** The leading whitespace of `g + t` is `g` when `t` does not start with whitespace. */
  lemma LeadingSpaceOf(g: string, t: string)
    requires AllSpace(g)
    requires t == [] || !IsSpace(t[0])
    ensures LeadingSpace(g + t) == (g, t)
  {
    SpanOfRun(IsSpace, g, t);
    assert (g + t)[..|g|] == g && (g + t)[|g|..] == t;
  }

  /** Index of the first occurrence of `c` in `s`, or `|s|` if there is none. */
  function IndexOf(s: string, c: char): (k: nat)
    ensures k <= |s|
    ensures c !in s[..k]
    ensures k < |s| ==> s[k] == c
  {
    if s == [] then 0
    else if s[0] == c then 0
    else
      var k := 1 + IndexOf(s[1..], c);
      assert s[..k] == [s[0]] + s[1..][..k - 1];
      k
  }

  predicate StartsWith(s: string, prefix: string) {
    |prefix| <= |s| && s[..|prefix|] == prefix
  }

  /** Python's `sub in s` on strings (the empty string occurs everywhere). */
  function Contains(s: string, sub: string): bool
  {
    StartsWith(s, sub) || (|s| > 0 && Contains(s[1..], sub))
  }

  ghost predicate OccursAt(s: string, sub: string, k: int) {
    0 <= k && k + |sub| <= |s| && s[k..k + |sub|] == sub
  }

  /** The recursive search agrees with the positional definition of substring. */
  lemma {:induction false} ContainsIff(s: string, sub: string)
    ensures Contains(s, sub) <==> exists k :: OccursAt(s, sub, k)
  {
    if StartsWith(s, sub) {
      assert OccursAt(s, sub, 0);
    } else if |s| > 0 {
      ContainsIff(s[1..], sub);
      if Contains(s[1..], sub) {
        var k :| OccursAt(s[1..], sub, k);
        assert s[1..][k..k + |sub|] == s[k + 1..k + 1 + |sub|];
        assert OccursAt(s, sub, k + 1);
      } else {
        forall k | OccursAt(s, sub, k) ensures false {
          assert k != 0;
          assert s[1..][k - 1..k - 1 + |sub|] == s[k..k + |sub|];
          assert OccursAt(s[1..], sub, k - 1);
        }
      }
    }
  }

  /** A single character occurs as a substring exactly when it is an element. */
  lemma ContainsChar(s: string, c: char)
    ensures Contains(s, [c]) <==> c in s
  {
    ContainsIff(s, [c]);
    if c in s {
      var k :| 0 <= k < |s| && s[k] == c;
      assert s[k..k + 1] == [c];
      assert OccursAt(s, [c], k);
    }
    if Contains(s, [c]) {
      var k :| OccursAt(s, [c], k);
      assert s[k] == s[k..k + 1][0];
    }
  }

  /** Drop the trailing characters satisfying `p` (Python's `rstrip(chars)`). */
  function TrimEnd(p: char -> bool, s: string): (t: string)
    ensures t <= s
    ensures t == [] || !p(t[|t| - 1])
    ensures forall i :: |t| <= i < |s| ==> p(s[i])
  {
    if s != [] && p(s[|s| - 1]) then TrimEnd(p, s[..|s| - 1]) else s
  }

  /** Python's `str.strip()`: drop leading and trailing whitespace. */
  function Strip(s: string): (t: string)
    ensures t == [] || (!IsSpace(t[0]) && !IsSpace(t[|t| - 1]))
  {
    var lead := Span(IsSpace, s);
    TrimEnd(IsSpace, s[lead..])
  }

  lemma StripBlank(s: string)
    ensures Strip(s) == [] <==> AllSpace(s)
  {
    var lead := Span(IsSpace, s);
    if AllSpace(s) {
      assert lead == |s|;
    }
    if Strip(s) == [] {
      forall i | 0 <= i < |s| ensures IsSpace(s[i]) {
      }
    }
  }

  /** A non-blank character of `s` survives `strip()`, offset by the leading blanks. */
  lemma StripKeeps(s: string, i: nat)
    requires i < |s| && !IsSpace(s[i])
    ensures Span(IsSpace, s) <= i < Span(IsSpace, s) + |Strip(s)|
    ensures Strip(s)[i - Span(IsSpace, s)] == s[i]
  {
    var lead := Span(IsSpace, s);
    assert lead <= i;
    var u := s[lead..];
    var t := TrimEnd(IsSpace, u);
    assert u[i - lead] == s[i];
    assert i - lead < |t|;
    assert t[i - lead] == u[i - lead];
  }

  lemma StripSolidEnds(s: string)
    requires s != [] && !IsSpace(s[0]) && !IsSpace(s[|s| - 1])
    ensures Strip(s) == s
  {
  }

  /** Value of a string of decimal digits, most significant first. */
  function DigitsValue(s: string): nat
    requires AllDigits(s)
  {
    if s == [] then 0 else DigitsValue(s[..|s| - 1]) * 10 + DigitValue(s[|s| - 1])
  }

  function Pow10(n: nat): (p: nat)
    ensures p >= 1
  {
    if n == 0 then 1 else 10 * Pow10(n - 1)
  }

  /** `n` written with exactly `width` digits, zero-padded (`%0<width>d`). */
  function Padded(n: nat, width: nat): (s: string)
    ensures |s| == width && AllDigits(s)
  {
    if width == 0 then [] else Padded(n / 10, width - 1) + [DigitChar(n % 10)]
  }

  lemma {:induction false} PaddedValue(n: nat, width: nat)
    requires n < Pow10(width)
    ensures DigitsValue(Padded(n, width)) == n
  {
    if width > 0 {
      var s := Padded(n, width);
      var high := Padded(n / 10, width - 1);
      assert s == high + [DigitChar(n % 10)];
      assert s[..|s| - 1] == high;
      assert Pow10(width) == 10 * Pow10(width - 1);
      assert n / 10 < Pow10(width - 1);
      PaddedValue(n / 10, width - 1);
      assert DigitsValue(s) == DigitsValue(high) * 10 + n % 10;
    }
  }

  /** `n` in decimal without leading zeros (Python's `str(n)` for `n >= 0`). */
  function ShowNat(n: nat): (s: string)
    ensures IsDigitString(s)
  {
    if n < 10 then [DigitChar(n)] else ShowNat(n / 10) + [DigitChar(n % 10)]
  }

  lemma {:induction false} ShowNatValue(n: nat)
    ensures DigitsValue(ShowNat(n)) == n
  {
    if n >= 10 {
      var s := ShowNat(n);
      assert s[..|s| - 1] == ShowNat(n / 10);
      ShowNatValue(n / 10);
    } else {
      assert ShowNat(n)[..0] == [];
    }
  }

  /** Python's `s.split(c)`: the pieces between occurrences of `c`; never empty. */
  function SplitOn(s: string, c: char): (parts: seq<string>)
    ensures |parts| >= 1
    ensures forall i :: 0 <= i < |parts| ==> c !in parts[i]
    decreases |s|
  {
    var k := IndexOf(s, c);
    if k == |s| then [s] else [s[..k]] + SplitOn(s[k + 1..], c)
  }

  /** Python's `c.join(parts)`. */
  function JoinWith(parts: seq<string>, c: char): string
    requires |parts| >= 1
  {
    if |parts| == 1 then parts[0] else parts[0] + [c] + JoinWith(parts[1..], c)
  }

  /** Joining the pieces of a split gives back the original string. */
  lemma {:induction false} JoinSplit(s: string, c: char)
    ensures JoinWith(SplitOn(s, c), c) == s
    decreases |s|
  {
    var k := IndexOf(s, c);
    if k < |s| {
      var parts := SplitOn(s, c);
      var more := SplitOn(s[k + 1..], c);
      assert parts == [s[..k]] + more;
      assert |parts| >= 2 && parts[1..] == more;
      assert JoinWith(parts, c) == s[..k] + [c] + JoinWith(more, c);
      JoinSplit(s[k + 1..], c);
      assert s == s[..k] + [c] + s[k + 1..];
    }
  }

  /** Splitting a join of separator-free pieces gives back the pieces. */
  lemma {:induction false} SplitJoin(parts: seq<string>, c: char)
    requires |parts| >= 1
    requires forall i :: 0 <= i < |parts| ==> c !in parts[i]
    ensures SplitOn(JoinWith(parts, c), c) == parts
  {
    var s := JoinWith(parts, c);
    if |parts| == 1 {
      assert IndexOf(s, c) == |s|;
    } else {
      var rest := JoinWith(parts[1..], c);
      assert s == parts[0] + ([c] + rest);
      IndexOfAfterFree(parts[0], c, [c] + rest);
      assert s[..|parts[0]|] == parts[0];
      assert s[|parts[0]| + 1..] == rest;
      SplitJoin(parts[1..], c);
    }
  }

  /** The first `c` is at `k` when none comes before `k` and `k` holds one (or is the end). */
  lemma IndexOfAt(s: string, c: char, k: nat)
    requires k <= |s| && c !in s[..k] && (k < |s| ==> s[k] == c)
    ensures IndexOf(s, c) == k
  {
    var j := IndexOf(s, c);
    forall m | 0 <= m < k ensures s[m] != c {
      assert s[..k][m] == s[m];
    }
    forall m | 0 <= m < j ensures s[m] != c {
      assert s[..j][m] == s[m];
    }
  }

  /** One step of SplitOn at the first separator, found at `k`. */
  lemma SplitOnCut(s: string, c: char, k: nat)
    requires k < |s| && IndexOf(s, c) == k
    ensures SplitOn(s, c) == [s[..k]] + SplitOn(s[k + 1..], c)
  {
  }

  /** Dropping a prefix of the left operand of a concatenation. */
  lemma DropConcat<T>(x: seq<T>, y: seq<T>, n: nat)
    requires n <= |x|
    ensures (x + y)[n..] == x[n..] + y
  {
  }

  /** Splitting `a + [c] + b` when `a` holds no separator. */
  lemma SplitOnAppendFree(a: string, c: char, b: string)
    requires IndexOf(a, c) == |a|
    ensures SplitOn(a + [c] + b, c) == [a] + SplitOn(b, c)
  {
    var s := a + [c] + b;
    IndexOfAfterFree(a, c, [c] + b);
    assert s == a + ([c] + b);
    SplitOnCut(s, c, |a|);
    assert s[..|a|] == a;
    assert s[|a| + 1..] == b;
  }

  /** Where `a + [c] + b` agrees with `a` around an index of `a`. */
  lemma CutConcat(a: string, c: char, b: string, k: nat)
    requires k < |a|
    ensures (a + [c] + b)[..k] == a[..k]
    ensures (a + [c] + b)[k] == a[k]
    ensures (a + [c] + b)[k + 1..] == a[k + 1..] + [c] + b
  {
    var t := [c] + b;
    assert a + [c] + b == a + t;
    DropConcat(a, t, k + 1);
    assert a[k + 1..] + t == a[k + 1..] + [c] + b;
  }

  /** Splitting `a + [c] + b` when the first separator of `a` is at `k`, given the split of what follows it. */
  lemma SplitOnAppendCut(a: string, c: char, b: string, k: nat)
    requires k < |a| && IndexOf(a, c) == k
    requires SplitOn(a[k + 1..] + [c] + b, c) == SplitOn(a[k + 1..], c) + SplitOn(b, c)
    ensures SplitOn(a + [c] + b, c) == SplitOn(a, c) + SplitOn(b, c)
  {
    var s, r := a + [c] + b, a[k + 1..];
    var x, y, z := [a[..k]], SplitOn(r, c), SplitOn(b, c);
    calc {
      SplitOn(s, c);
    == { CutConcat(a, c, b, k); IndexOfAt(s, c, k); SplitOnCut(s, c, k); }
      x + SplitOn(r + [c] + b, c);
    ==
      x + (y + z);
    == { assert x + (y + z) == (x + y) + z; }
      (x + y) + z;
    == { SplitOnCut(a, c, k); }
      SplitOn(a, c) + z;
    }
  }

  /** Splitting at a separator distributes over the pieces on either side of it. */
  lemma {:induction false} SplitOnAppend(a: string, c: char, b: string)
    ensures SplitOn(a + [c] + b, c) == SplitOn(a, c) + SplitOn(b, c)
    decreases |a|
  {
    var k := IndexOf(a, c);
    if k < |a| {
      SplitOnAppend(a[k + 1..], c, b);
      SplitOnAppendCut(a, c, b, k);
    } else {
      SplitOnAppendFree(a, c, b);
    }
  }

  /** Cutting `pre + [c] + post` at its first `c` gives back `pre` and `post`. */
  lemma CutAt(pre: string, c: char, post: string)
    requires c !in pre
    ensures IndexOf(pre + [c] + post, c) == |pre|
    ensures (pre + [c] + post)[..|pre|] == pre
    ensures (pre + [c] + post)[|pre| + 1..] == post
  {
    IndexOfAfterFree(pre, c, [c] + post);
    assert pre + [c] + post == pre + ([c] + post);
  }

  lemma NotInDigits(s: string, c: char)
    requires AllDigits(s) && !IsDigit(c)
    ensures c !in s
  {
  }

  /** The first `c` in `pre + post` is in `post` when `pre` has none. */
  lemma IndexOfAfterFree(pre: string, c: char, post: string)
    requires c !in pre
    requires post != [] && post[0] == c
    ensures IndexOf(pre + post, c) == |pre|
  {
    var s := pre + post;
    assert s[|pre|] == c;
    assert s[..|pre|] == pre;
  }
}
