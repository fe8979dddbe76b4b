/** `String.prototype.trim`, as `addTodo` applies it to the text typed into the
    to-do form. */
module Text {

  /** The code points `trim` strips: the WhiteSpace and LineTerminator
      characters of the ECMAScript Language Specification (tab, vertical tab,
      form feed, the byte-order mark, the Unicode space separators, and the
      four line terminators). */
  predicate IsWhitespace(c: char) {
    || c == '\t' || c == '\n' || c == '\U{000B}' || c == '\U{000C}' || c == '\r'
    || c == ' ' || c == '\U{00A0}' || c == '\U{1680}'
    || ('\U{2000}' <= c <= '\U{200A}')
    || c == '\U{2028}' || c == '\U{2029}' || c == '\U{202F}' || c == '\U{205F}'
    || c == '\U{3000}' || c == '\U{FEFF}'
  }

  predicate AllWhitespace(s: string) {
    forall k :: 0 <= k < |s| ==> IsWhitespace(s[k])
  }

  /** The length of the run of whitespace at the front of `s`: the index of
      the first character that is not whitespace, or `|s|` if there is none. */
  function LeadingWs(s: string): (n: nat)
    ensures n <= |s|
    ensures forall k :: 0 <= k < n ==> IsWhitespace(s[k])
    ensures n == |s| || !IsWhitespace(s[n])
  {
    if s != [] && IsWhitespace(s[0]) then 1 + LeadingWs(s[1..]) else 0
  }

  /** The length of the run of whitespace at the end of `s`. */
  function TrailingWs(s: string): (n: nat)
    ensures n <= |s|
    ensures forall k :: |s| - n <= k < |s| ==> IsWhitespace(s[k])
    ensures n == |s| || !IsWhitespace(s[|s| - n - 1])
  {
    if s != [] && IsWhitespace(s[|s| - 1]) then 1 + TrailingWs(s[..|s| - 1]) else 0
  }

  /** Non-empty text with no whitespace at either end. */
  predicate IsTrimmed(s: string) {
    s != [] && !IsWhitespace(s[0]) && !IsWhitespace(s[|s| - 1])
  }

  /** `s.trim()`: the text between the leading and the trailing run of
      whitespace. It is empty exactly when `s` is all whitespace, and
      otherwise starts and ends with a character that is not whitespace. */
  function Trim(s: string): (r: string)
    ensures r == [] <==> AllWhitespace(s)
    ensures r != [] ==> IsTrimmed(r)
  {
    var lo, hi := LeadingWs(s), |s| - TrailingWs(s);
    if lo < hi then s[lo..hi] else []
  }

  /** `trim` is characterised by what it removes: text made of a run of
      whitespace, a trimmed middle and a run of whitespace trims to that
      middle, whatever the two runs are. */
  lemma TrimUnique(front: string, middle: string, back: string)
    requires AllWhitespace(front) && IsTrimmed(middle) && AllWhitespace(back)
    ensures Trim(front + middle + back) == middle
  {
    var s := front + middle + back;
    var lo, n := LeadingWs(s), TrailingWs(s);
    assert s[|front|] == middle[0];
    assert lo == |front|;
    assert s[|s| - |back| - 1] == middle[|middle| - 1];
    assert n == |back|;
    assert s[lo..|s| - n] == middle;
  }

  /** Trimming text that is already trimmed changes nothing. */
  lemma TrimIdempotent(s: string)
    ensures Trim(Trim(s)) == Trim(s)
  {
    var r := Trim(s);
    if r != [] {
      TrimUnique([], r, []);
      assert [] + r + [] == r;
    }
  }

  /** `s` is its leading whitespace, then its trimmed text, then its trailing
      whitespace: `trim` drops nothing else. */
  lemma TrimSplits(s: string)
    ensures LeadingWs(s) + |Trim(s)| <= |s|
    ensures s == s[..LeadingWs(s)] + Trim(s) + s[LeadingWs(s) + |Trim(s)|..]
    ensures AllWhitespace(s[..LeadingWs(s)])
    ensures AllWhitespace(s[LeadingWs(s) + |Trim(s)|..])
  {
    var lo, r := LeadingWs(s), Trim(s);
    var hi := lo + |r|;
    assert hi <= |s| && r == s[lo..hi] by {
      if r == [] {
        assert lo == |s|;
      }
    }
    SplitThree(s, lo, hi);
    assert AllWhitespace(s[..lo]) by {
      forall k | 0 <= k < lo ensures IsWhitespace(s[..lo][k]) {
        assert s[..lo][k] == s[k];
      }
    }
    assert AllWhitespace(s[hi..]) by {
      TrailingRun(s, hi);
    }
  }

  lemma SplitThree(s: string, lo: nat, hi: nat)
    requires lo <= hi <= |s|
    ensures s == s[..lo] + s[lo..hi] + s[hi..]
  {
  }

  lemma TrailingRun(s: string, hi: nat)
    requires hi <= |s| && hi >= |s| - TrailingWs(s)
    ensures AllWhitespace(s[hi..])
  {
    forall k | 0 <= k < |s| - hi ensures IsWhitespace(s[hi..][k]) {
      assert s[hi..][k] == s[hi + k];
    }
  }
}
