/**
 The handful of Python `str` operations the bot relies on, over `seq<char>`:
 `isspace` (its ASCII range), `strip`, `split()`, `' '.join`, `lower()`
 (ASCII letters) and `str(n)` for natural numbers.
 */
module Text {

  /** The ASCII characters for which Python's `str.isspace` holds. */
  predicate IsSpace(c: char) {
    c == ' ' || ('\t' <= c <= '\r') || ('\U{1C}' <= c <= '\U{1F}')
  }

  predicate IsQuote(c: char) {
    c == '"'
  }

  predicate All(s: string, p: char -> bool) {
    forall k :: 0 <= k < |s| ==> p(s[k])
  }

  predicate AllSpace(s: string) {
    All(s, IsSpace)
  }

  predicate QuoteFree(s: string) {
    forall k :: 0 <= k < |s| ==> s[k] != '"'
  }

  predicate NoSpace(s: string) {
    forall k :: 0 <= k < |s| ==> !IsSpace(s[k])
  }

  /** Neither end of `s` is a character that `p` would strip. */
  predicate Bare(s: string, p: char -> bool) {
    s == [] || (!p(s[0]) && !p(s[|s| - 1]))
  }

  predicate IsTrimmed(s: string) {
    Bare(s, IsSpace)
  }

  /** The first index at or after `i` whose character does not satisfy `p`, or `|s|`. */
  function SkipFrom(s: string, p: char -> bool, i: nat): (r: nat)
    requires i <= |s|
    ensures i <= r <= |s|
    ensures forall k :: i <= k < r ==> p(s[k])
    ensures r == |s| || !p(s[r])
    decreases |s| - i
  {
    if i < |s| && p(s[i]) then SkipFrom(s, p, i + 1) else i
  }

  /** The last index at or before `hi`, but not below `lo`, whose preceding character does not satisfy `p`. */
  function BackFrom(s: string, p: char -> bool, lo: nat, hi: nat): (r: nat)
    requires lo <= hi <= |s|
    ensures lo <= r <= hi
    ensures forall k :: r <= k < hi ==> p(s[k])
    ensures r == lo || !p(s[r - 1])
    decreases hi
  {
    if lo < hi && p(s[hi - 1]) then BackFrom(s, p, lo, hi - 1) else hi
  }

  /** Where the characters stripped from the front of `s` end. */
  function Lead(s: string, p: char -> bool): nat
    ensures Lead(s, p) <= |s|
  {
    SkipFrom(s, p, 0)
  }

  /**
   Python's `s.strip(chars)`: the characters satisfying `p` are removed from
   both ends. The result is bare at both ends, and it is the slice of `s`
   between a run of such characters in front and another behind.
   */
  function StripBy(s: string, p: char -> bool): (r: string)
    ensures Bare(r, p)
    ensures var lo := Lead(s, p);
      lo + |r| <= |s| && r == s[lo..lo + |r|] && All(s[..lo], p) && All(s[lo + |r|..], p)
  {
    var lo := Lead(s, p);
    var hi := BackFrom(s, p, lo, |s|);
    assert hi > lo ==> s[lo..hi][0] == s[lo];
    s[lo..hi]
  }

  /** Python's `s.strip()`. */
  function Trim(s: string): string {
    StripBy(s, IsSpace)
  }

  /** Python's `s.strip('"')`. */
  function StripQuotes(s: string): string {
    StripBy(s, IsQuote)
  }

  /** Whitespace skipped from the front (the inner loop of `split_choices`). */
  function TrimLeft(s: string): string {
    s[Lead(s, IsSpace)..]
  }

  lemma BareStripIsIdentity(s: string, p: char -> bool)
    requires Bare(s, p)
    ensures StripBy(s, p) == s
  {
  }

  lemma StripKeepsQuoteFree(s: string, p: char -> bool)
    requires QuoteFree(s)
    ensures QuoteFree(StripBy(s, p))
  {
    var lo := Lead(s, p);
    var r := StripBy(s, p);
    forall k | 0 <= k < |r| ensures r[k] != '"' {
      assert r[k] == s[lo..lo + |r|][k] == s[lo + k];
    }
  }

  /**
   Stripping is determined by its result: a slice of `s` that is bare at both
   ends, with only strippable characters before and after it, is the strip.
   */
  lemma StripUnique(s: string, p: char -> bool, a: nat, b: nat)
    requires a <= b <= |s|
    requires All(s[..a], p) && All(s[b..], p) && Bare(s[a..b], p)
    ensures StripBy(s, p) == s[a..b]
  {
    var lo := Lead(s, p);
    var r := StripBy(s, p);
    assert forall k :: 0 <= k < a ==> p(s[k]) by {
      forall k | 0 <= k < a ensures p(s[k]) { assert s[..a][k] == s[k]; }
    }
    assert forall k :: b <= k < |s| ==> p(s[k]) by {
      forall k | b <= k < |s| ensures p(s[k]) { assert s[b..][k - b] == s[k]; }
    }
    assert forall k :: 0 <= k < lo ==> p(s[k]) by {
      forall k | 0 <= k < lo ensures p(s[k]) { assert s[..lo][k] == s[k]; }
    }
    assert forall k :: lo + |r| <= k < |s| ==> p(s[k]) by {
      forall k | lo + |r| <= k < |s| ensures p(s[k]) { assert s[lo + |r|..][k - lo - |r|] == s[k]; }
    }
    if a < b {
      assert !p(s[a]) && !p(s[b - 1]) by { assert s[a..b][0] == s[a] && s[a..b][b - a - 1] == s[b - 1]; }
      assert lo == a;
      if |r| > 0 {
        assert r[|r| - 1] == s[lo + |r| - 1];
      }
      assert |r| == b - a;
    }
  }

  /** A strippable first character makes no difference to the strip. */
  lemma StripDropFirst(s: string, p: char -> bool)
    requires |s| > 0 && p(s[0])
    ensures StripBy(s[1..], p) == StripBy(s, p)
  {
    var t := s[1..];
    var lo := Lead(t, p);
    var r := StripBy(t, p);
    ShiftFront(s, p, lo, lo + |r|);
    StripUnique(s, p, 1 + lo, 1 + lo + |r|);
  }

  /** Putting a strippable character in front of `s[1..]` moves a strip-shaped split of it one place right. */
  lemma ShiftFront(s: string, p: char -> bool, a: nat, b: nat)
    requires |s| > 0 && p(s[0]) && a <= b <= |s| - 1
    requires All(s[1..][..a], p) && All(s[1..][b..], p) && Bare(s[1..][a..b], p)
    ensures All(s[..1 + a], p) && All(s[1 + b..], p) && s[1 + a..1 + b] == s[1..][a..b]
  {
    var t := s[1..];
    var front := s[..1 + a];
    forall k | 0 <= k < |front| ensures p(front[k]) {
      if k > 0 {
        assert front[k] == t[..a][k - 1];
      }
    }
    assert s[1 + b..] == t[b..];
  }

  /** A strippable last character makes no difference to the strip. */
  lemma StripDropLast(s: string, p: char -> bool)
    requires |s| > 0 && p(s[|s| - 1])
    ensures StripBy(s[..|s| - 1], p) == StripBy(s, p)
  {
    var t := s[..|s| - 1];
    var lo := Lead(t, p);
    var r := StripBy(t, p);
    assert s[lo..lo + |r|] == r;
    assert s[..lo] == t[..lo];
    var back := s[lo + |r|..];
    forall k | 0 <= k < |back| ensures p(back[k]) {
      if k < |t| - lo - |r| {
        assert back[k] == t[lo + |r|..][k];
      }
    }
    StripUnique(s, p, lo, lo + |r|);
  }

  lemma QuoteFreeStripQuotes(s: string)
    requires QuoteFree(s)
    ensures StripQuotes(s) == s
  {
    BareStripIsIdentity(s, IsQuote);
  }

  /** Leading spaces before a string that does not start with one are all that `TrimLeft` removes. */
  lemma TrimLeftSpaces(sp: string, t: string)
    requires AllSpace(sp)
    requires t == [] || !IsSpace(t[0])
    ensures TrimLeft(sp + t) == t
  {
    var s := sp + t;
    var lo := Lead(s, IsSpace);
    assert lo == |sp| by {
      assert forall k :: 0 <= k < |sp| ==> s[k] == sp[k];
      assert |sp| < |s| ==> s[|sp|] == t[0];
    }
    assert s[|sp|..] == t;
  }

  /** The length of the run of non-space characters at the front of `s`. */
  function WordLen(s: string): (n: nat)
    ensures n <= |s|
    ensures forall k :: 0 <= k < n ==> !IsSpace(s[k])
    ensures n == |s| || IsSpace(s[n])
  {
    if s == [] || IsSpace(s[0]) then 0 else 1 + WordLen(s[1..])
  }

  /**
   Python's `s.split()` with no separator: the maximal runs of non-space
   characters, in order.
   */
  function Words(s: string): (r: seq<string>)
    ensures forall k :: 0 <= k < |r| ==> r[k] != [] && NoSpace(r[k])
    decreases |s|
  {
    if s == [] then []
    else if IsSpace(s[0]) then Words(s[1..])
    else
      var n := WordLen(s);
      [s[..n]] + Words(s[n..])
  }

  /** Python's `sep.join(parts)`. */
  function JoinWith(parts: seq<string>, sep: string): string {
    if |parts| == 0 then []
    else if |parts| == 1 then parts[0]
    else parts[0] + sep + JoinWith(parts[1..], sep)
  }

  lemma {:induction false} WordLenOfWord(w: string, t: string)
    requires NoSpace(w)
    requires t == [] || IsSpace(t[0])
    ensures WordLen(w + t) == |w|
    decreases |w|
  {
    if w != [] {
      assert (w + t)[1..] == w[1..] + t;
      WordLenOfWord(w[1..], t);
    } else {
      assert w + t == t;
    }
  }

  /** Splitting the single-space join of non-empty, space-free tokens gives the tokens back. */
  lemma {:induction false} WordsOfJoin(ts: seq<string>)
    requires forall k :: 0 <= k < |ts| ==> ts[k] != [] && NoSpace(ts[k])
    ensures Words(JoinWith(ts, " ")) == ts
    decreases |ts|
  {
    if |ts| == 0 {
    } else if |ts| == 1 {
      var w := ts[0];
      WordLenOfWord(w, []);
      assert w + [] == w;
      assert w[..|w|] == w;
      assert w[|w|..] == [];
    } else {
      var w := ts[0];
      var rest := " " + JoinWith(ts[1..], " ");
      var s := JoinWith(ts, " ");
      assert s == w + rest;
      WordLenOfWord(w, rest);
      assert s[..|w|] == w;
      assert s[|w|..] == rest;
      assert rest[1..] == JoinWith(ts[1..], " ");
      WordsOfJoin(ts[1..]);
    }
  }

  /** ASCII case folding of Python's `str.lower()`. */
  function LowerChar(c: char): char {
    if 'A' <= c <= 'Z' then (c as int + 32) as char else c
  }

  function Lower(s: string): (r: string)
    ensures |r| == |s|
    ensures forall k :: 0 <= k < |s| ==> r[k] == LowerChar(s[k])
  {
    if s == [] then [] else [LowerChar(s[0])] + Lower(s[1..])
  }

  predicate IsLower(s: string) {
    forall k :: 0 <= k < |s| ==> !('A' <= s[k] <= 'Z')
  }

  lemma LowerIsLower(s: string)
    ensures IsLower(Lower(s))
  {
  }

  lemma {:induction false} LowerOfLower(s: string)
    requires IsLower(s)
    ensures Lower(s) == s
  {
    assert forall k :: 0 <= k < |s| ==> Lower(s)[k] == s[k];
  }

  predicate IsDigit(c: char) {
    '0' <= c <= '9'
  }

  predicate AllDigits(s: string) {
    forall k :: 0 <= k < |s| ==> IsDigit(s[k])
  }

  function DigitChar(d: nat): (c: char)
    requires d < 10
    ensures IsDigit(c)
  {
    ('0' as int + d) as char
  }

  function DigitValue(c: char): (d: nat)
    requires IsDigit(c)
    ensures d < 10
  {
    c as int - '0' as int
  }

  /** Python's `str(n)` for a natural number: decimal digits, no leading zero. */
  function Decimal(n: nat): (r: string)
    ensures |r| >= 1 && AllDigits(r)
    ensures r[0] == '0' ==> n == 0
  {
    if n < 10 then [DigitChar(n)] else Decimal(n / 10) + [DigitChar(n % 10)]
  }

  /** Reads a string of decimal digits back as a number. */
  function DecimalValue(s: string): nat
    requires AllDigits(s)
  {
    if s == [] then 0 else DecimalValue(s[..|s| - 1]) * 10 + DigitValue(s[|s| - 1])
  }

  lemma {:induction false} DecimalRoundTrip(n: nat)
    ensures DecimalValue(Decimal(n)) == n
  {
    if n >= 10 {
      var r := Decimal(n);
      assert r[..|r| - 1] == Decimal(n / 10);
      DecimalRoundTrip(n / 10);
    }
  }

  /** Distinct numbers have distinct decimal renderings, so option keys never collide. */
  lemma DecimalInjective(m: nat, n: nat)
    requires Decimal(m) == Decimal(n)
    ensures m == n
  {
    DecimalRoundTrip(m);
    DecimalRoundTrip(n);
  }
}
