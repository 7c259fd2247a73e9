/** The few JavaScript string operations the chat client relies on:
    `String.prototype.trim`, `.length` (counted in UTF-16 code units) and
    `Array.prototype.join`. Strings are sequences of Unicode scalar values. */
module JsString {

  /** The code points ECMA-262 classifies as WhiteSpace (tab, vertical tab,
      form feed, space, no-break space, the byte order mark and the other
      space separators) or LineTerminator (line feed, carriage return, line
      and paragraph separators); `trim` removes exactly these from both ends
      of a string. */
  predicate IsWhitespace(c: char) {
    || c == '\t' || c == '\n' || c == '\U{B}' || c == '\U{C}' || c == '\r'
    || c == ' ' || c == '\U{A0}' || c == '\U{1680}'
    || ('\U{2000}' <= c <= '\U{200A}')
    || c == '\U{2028}' || c == '\U{2029}' || c == '\U{202F}' || c == '\U{205F}'
    || c == '\U{3000}' || c == '\U{FEFF}'
  }

  predicate AllWhitespace(s: string) {
    forall k :: 0 <= k < |s| ==> IsWhitespace(s[k])
  }

  /** The first index at or after `i` that does not hold whitespace, or `|s|`. */
  function SkipForward(s: string, i: nat): (j: nat)
    requires i <= |s|
    ensures i <= j <= |s|
    ensures forall k :: i <= k < j ==> IsWhitespace(s[k])
    ensures j < |s| ==> !IsWhitespace(s[j])
    decreases |s| - i
  {
    if i == |s| || !IsWhitespace(s[i]) then i else SkipForward(s, i + 1)
  }

  /** Scanning down from `j`, the end of the last non-whitespace run that
      lies at or after `lo`, or `lo` when there is none. */
  function SkipBackward(s: string, lo: nat, j: nat): (e: nat)
    requires lo <= j <= |s|
    ensures lo <= e <= j
    ensures forall k :: e <= k < j ==> IsWhitespace(s[k])
    ensures lo < e ==> !IsWhitespace(s[e - 1])
    decreases j
  {
    if j == lo || !IsWhitespace(s[j - 1]) then j else SkipBackward(s, lo, j - 1)
  }

  /** Where the trimmed text starts in `s`. */
  function TrimFrom(s: string): nat {
    SkipForward(s, 0)
  }

  /** Where the trimmed text ends in `s`. */
  function TrimTo(s: string): nat {
    SkipBackward(s, TrimFrom(s), |s|)
  }

  /** `s.trim()`: the slice of `s` between whitespace-only margins. */
  function Trim(s: string): (r: string)
    ensures TrimFrom(s) <= TrimTo(s) <= |s| && r == s[TrimFrom(s)..TrimTo(s)]
    ensures forall k :: 0 <= k < TrimFrom(s) ==> IsWhitespace(s[k])
    ensures forall k :: TrimTo(s) <= k < |s| ==> IsWhitespace(s[k])
    ensures r == [] || (!IsWhitespace(r[0]) && !IsWhitespace(r[|r| - 1]))
    ensures r == [] <==> AllWhitespace(s)
  {
    var i, j := TrimFrom(s), TrimTo(s);
    var r := s[i..j];
    assert r != [] ==> r[0] == s[i] && r[|r| - 1] == s[j - 1];
    assert i < |s| ==> !AllWhitespace(s) by {
      if i < |s| {
        assert !IsWhitespace(s[i]);
      }
    }
    r
  }

  /** JavaScript treats the empty string as false: `!s.trim()` holds exactly
      for strings made of whitespace only. */
  predicate IsBlank(s: string) {
    Trim(s) == []
  }

  /** Trimming a string that neither starts nor ends with whitespace changes nothing. */
  lemma TrimOfTrimmed(s: string)
    requires s == [] || (!IsWhitespace(s[0]) && !IsWhitespace(s[|s| - 1]))
    ensures Trim(s) == s
  {
    if s != [] {
      assert TrimFrom(s) == 0;
      assert TrimTo(s) == |s|;
    }
  }

  lemma TrimIdempotent(s: string)
    ensures Trim(Trim(s)) == Trim(s)
  {
    TrimOfTrimmed(Trim(s));
  }

  /** `s.length`: the number of UTF-16 code units, where code points beyond
      the Basic Multilingual Plane take a surrogate pair. */
  function Utf16Length(s: string): (n: nat)
    ensures |s| <= n <= 2 * |s|
    ensures n == |s| <==> forall i :: 0 <= i < |s| ==> s[i] < '\U{10000}'
  {
    if s == [] then 0
    else (if s[0] < '\U{10000}' then 1 else 2) + Utf16Length(s[1..])
  }

  function TotalLength(xs: seq<string>): nat {
    if xs == [] then 0 else |xs[0]| + TotalLength(xs[1..])
  }

  /** `xs.join(sep)`: the elements in order, `sep` between neighbours. */
  function Join(xs: seq<string>, sep: string): (r: string)
    ensures xs == [] ==> r == []
    ensures TotalLength(xs) <= |r|
  {
    if xs == [] then []
    else if |xs| == 1 then xs[0]
    else xs[0] + sep + Join(xs[1..], sep)
  }

  /** Joining splits at every gap: the joined text is the join of the
      elements before position `i`, one separator, then the join of the rest.
      With `Join([x], sep) == x` this fixes every element's position. */
  lemma {:induction false} JoinSplits(xs: seq<string>, sep: string, i: int)
    requires 0 < i < |xs|
    ensures Join(xs, sep) == Join(xs[..i], sep) + sep + Join(xs[i..], sep)
    decreases i
  {
    var head, init, tail := xs[0], xs[..i], xs[i..];
    if i == 1 {
      assert init == [head];
      assert Join(init, sep) == head;
      assert xs[1..] == tail;
    } else {
      var rest := xs[1..];
      JoinSplits(rest, sep, i - 1);
      var a, b := Join(init[1..], sep), Join(tail, sep);
      assert Join(rest, sep) == a + sep + b by {
        assert rest[..i - 1] == init[1..] && rest[i - 1..] == tail;
      }
      assert Join(init, sep) == head + sep + a by {
        assert init[0] == head && |init| > 1;
      }
      assert Join(xs, sep) == head + sep + Join(rest, sep);
    }
  }

  /** One separator per gap: the joined length is the total length of the
      elements plus `|sep|` for each of the `|xs| - 1` gaps. */
  lemma {:induction false} JoinLength(xs: seq<string>, sep: string)
    requires xs != []
    ensures |Join(xs, sep)| == TotalLength(xs) + |sep| * (|xs| - 1)
  {
    if |xs| > 1 {
      JoinLength(xs[1..], sep);
      assert |sep| * (|xs| - 1) == |sep| + |sep| * (|xs| - 2);
    }
  }

  /** The joined text begins with the first element. */
  lemma JoinStartsWithFirst(xs: seq<string>, sep: string)
    requires xs != []
    ensures |xs[0]| <= |Join(xs, sep)| && Join(xs, sep)[..|xs[0]|] == xs[0]
  {
    if |xs| > 1 {
      assert Join(xs, sep) == xs[0] + (sep + Join(xs[1..], sep));
    }
  }

  /** The joined text ends with the last element. */
  lemma JoinEndsWithLast(xs: seq<string>, sep: string)
    requires xs != []
    ensures var last := xs[|xs| - 1];
      |last| <= |Join(xs, sep)| && Join(xs, sep)[|Join(xs, sep)| - |last|..] == last
  {
    var n := |xs| - 1;
    if n > 0 {
      JoinSplits(xs, sep, n);
      assert xs[n..] == [xs[n]];
      assert Join(xs, sep) == (Join(xs[..n], sep) + sep) + xs[n];
    }
  }
}
