/** The optional value that stands for Python's `None`. */
module Wrappers {
  datatype Option<+T> = None | Some(value: T)
}

/**
 * The few Python `str` operations the extractors rely on: `isspace` (which is also
 * what `\s` matches in a `str` pattern), `\d`, `in`, `startswith`, `strip`,
 * `split` and `replace`, over strings as sequences of code points.
 */
module PyText {

  /** `c.isspace()`: the characters Python treats as whitespace. */
  predicate IsSpace(c: char) {
    || ('\t' <= c <= '\r')
    || ('\U{1C}' <= c <= '\U{1F}')
    || c == ' ' || c == '\U{85}' || c == '\U{A0}' || c == '\U{1680}'
    || ('\U{2000}' <= c <= '\U{200A}')
    || c == '\U{2028}' || c == '\U{2029}' || c == '\U{202F}' || c == '\U{205F}'
    || c == '\U{3000}'
  }

  predicate IsAsciiDigit(c: char) {
    '0' <= c <= '9'
  }

  /** `\d`: an ASCII or a fullwidth decimal digit. */
  predicate IsDigit(c: char) {
    IsAsciiDigit(c) || ('\U{FF10}' <= c <= '\U{FF19}')
  }

  /** `[：:]`: a fullwidth or an ASCII colon. */
  predicate IsColon(c: char) {
    c == '：' || c == ':'
  }

  /** A string of `\d` characters only. */
  predicate AllDigits(t: string) {
    forall k :: 0 <= k < |t| ==> IsDigit(t[k])
  }

  /** `n` characters of `\d` start at `i`. */
  predicate DigitsAt(s: string, i: nat, n: nat) {
    i + n <= |s| && forall k :: i <= k < i + n ==> IsDigit(s[k])
  }

  /** `s[i..i + n]` when it is a run of digits. */
  function DigitRun(s: string, i: nat, n: nat): (t: string)
    requires DigitsAt(s, i, n)
    ensures |t| == n && AllDigits(t)
  {
    s[i..i + n]
  }

  /** What `int(c)` gives for a single digit character. */
  function DigitValue(c: char): (v: nat)
    requires IsDigit(c)
    ensures v <= 9
  {
    if IsAsciiDigit(c) then c as int - '0' as int else c as int - '\U{FF10}' as int
  }

  /** `int(s)` for a non-empty run of digits. */
  function Number(s: string): (n: nat)
    requires forall i :: 0 <= i < |s| ==> IsDigit(s[i])
    decreases |s|
  {
    if |s| == 0 then 0 else Number(s[..|s| - 1]) * 10 + DigitValue(s[|s| - 1])
  }

  /** `t` occurs in `s` at position `i`. */
  predicate HasPrefixAt(s: string, i: nat, t: string) {
    i + |t| <= |s| && s[i..i + |t|] == t
  }

  /** `t` occurs somewhere in `s`. */
  predicate IsInfix(s: string, t: string) {
    exists i :: 0 <= i <= |s| && HasPrefixAt(s, i, t)
  }

  /** A piece of a piece of `s` is a piece of `s`. */
  lemma InfixTrans(s: string, t: string, u: string)
    requires IsInfix(s, t) && IsInfix(t, u)
    ensures IsInfix(s, u)
  {
    var i :| 0 <= i <= |s| && HasPrefixAt(s, i, t);
    var j :| 0 <= j <= |t| && HasPrefixAt(t, j, u);
    forall k | 0 <= k < |u| ensures s[i + j + k] == u[k] {
      assert u[k] == t[j + k];
    }
    assert s[i + j..i + j + |u|] == u;
    assert HasPrefixAt(s, i + j, u);
  }

  /** `s.startswith(t)`. */
  predicate HasPrefix(s: string, t: string) {
    |t| <= |s| && s[..|t|] == t
  }

  /** `t in s`. */
  function Contains(s: string, t: string): (r: bool)
    ensures r <==> exists i :: 0 <= i <= |s| && HasPrefixAt(s, i, t)
    decreases |s|
  {
    if HasPrefix(s, t) then
      assert HasPrefixAt(s, 0, t);
      true
    else if |s| == 0 then
      false
    else
      var r := Contains(s[1..], t);
      ShiftPrefix(s, t, r);
      r
  }

  /** An occurrence in `s` after position 0 is an occurrence in `s[1..]`, one place earlier. */
  lemma ShiftPrefix(s: string, t: string, r: bool)
    requires |s| > 0 && !HasPrefixAt(s, 0, t)
    requires r <==> exists i :: 0 <= i <= |s[1..]| && HasPrefixAt(s[1..], i, t)
    ensures r <==> exists i :: 0 <= i <= |s| && HasPrefixAt(s, i, t)
  {
    if r {
      var i :| 0 <= i <= |s[1..]| && HasPrefixAt(s[1..], i, t);
      assert s[1..][i..i + |t|] == s[i + 1..i + 1 + |t|];
      assert HasPrefixAt(s, i + 1, t);
    } else {
      forall i | 0 <= i <= |s| ensures !HasPrefixAt(s, i, t) {
        if i > 0 && i + |t| <= |s| {
          assert s[1..][i - 1..i - 1 + |t|] == s[i..i + |t|];
          assert !HasPrefixAt(s[1..], i - 1, t);
        }
      }
    }
  }

  /** `s[max(0, start - before):min(len(s), end + after)]`: the context window around a span. */
  function Window(s: string, start: nat, end: nat, before: nat, after: nat): (w: string)
    requires start <= end <= |s|
  {
    var lo := if start < before then 0 else start - before;
    var hi := if end + after > |s| then |s| else end + after;
    s[lo..hi]
  }

  /** A window is a piece of `s` that holds the span, and it adds at most `before` and `after` characters to it. */
  lemma WindowAround(s: string, start: nat, end: nat, before: nat, after: nat)
    requires start <= end <= |s|
    ensures var w := Window(s, start, end, before, after);
      IsInfix(s, w) && IsInfix(w, s[start..end]) && |w| <= before + (end - start) + after
  {
    var lo := if start < before then 0 else start - before;
    var hi := if end + after > |s| then |s| else end + after;
    var w := s[lo..hi];
    assert HasPrefixAt(s, lo, w);
    assert w[start - lo..end - lo] == s[start..end] by {
      forall k | 0 <= k < end - start ensures w[start - lo..end - lo][k] == s[start..end][k] {
        assert w[start - lo + k] == s[start + k];
      }
    }
    assert HasPrefixAt(w, start - lo, s[start..end]);
  }

  /** `s.lstrip(chars)`, with `strip(c)` telling which characters are in `chars`. */
  function LStripBy(s: string, strip: char -> bool): (r: string)
    ensures |r| <= |s| && r == s[|s| - |r|..]
    ensures |r| > 0 ==> !strip(r[0])
    decreases |s|
  {
    if |s| > 0 && strip(s[0]) then LStripBy(s[1..], strip) else s
  }

  /** `s.rstrip(chars)`. */
  function RStripBy(s: string, strip: char -> bool): (r: string)
    ensures |r| <= |s| && r == s[..|r|]
    ensures |r| > 0 ==> !strip(r[|r| - 1])
    decreases |s|
  {
    if |s| > 0 && strip(s[|s| - 1]) then RStripBy(s[..|s| - 1], strip) else s
  }

  /** What `lstrip` and `rstrip` remove are characters of `chars` only. */
  lemma {:induction false} LStripByDropped(s: string, strip: char -> bool)
    ensures forall i :: 0 <= i < |s| - |LStripBy(s, strip)| ==> strip(s[i])
    decreases |s|
  {
    if |s| > 0 && strip(s[0]) {
      LStripByDropped(s[1..], strip);
      assert forall i :: 1 <= i < |s| ==> s[i] == s[1..][i - 1];
    }
  }

  lemma {:induction false} RStripByDropped(s: string, strip: char -> bool)
    ensures forall i :: |RStripBy(s, strip)| <= i < |s| ==> strip(s[i])
    decreases |s|
  {
    if |s| > 0 && strip(s[|s| - 1]) {
      RStripByDropped(s[..|s| - 1], strip);
      assert forall i :: 0 <= i < |s| - 1 ==> s[i] == s[..|s| - 1][i];
    }
  }

  /** `s.strip(chars)`: what remains neither begins nor ends with one of `chars`. */
  function StripBy(s: string, strip: char -> bool): (r: string)
    ensures |r| <= |s|
    ensures |r| > 0 ==> !strip(r[0]) && !strip(r[|r| - 1])
  {
    RStripBy(LStripBy(s, strip), strip)
  }

  /** What `strip` leaves is a piece of the string it was given. */
  lemma StripByInfix(s: string, strip: char -> bool)
    ensures IsInfix(s, StripBy(s, strip))
  {
    var l := LStripBy(s, strip);
    var r := RStripBy(l, strip);
    assert r == s[|s| - |l|..|s| - |l| + |r|];
    assert HasPrefixAt(s, |s| - |l|, r);
  }

  /** `r` is the slice of `s` from `lo`, and every character of `s` outside it satisfies `dropped`. */
  predicate SliceDropping(s: string, r: string, lo: nat, dropped: char -> bool) {
    && lo + |r| <= |s| && r == s[lo..lo + |r|]
    && forall i :: 0 <= i < |s| && !(lo <= i < lo + |r|) ==> dropped(s[i])
  }

  /** `strip` keeps a slice of `s`, and every character it drops on either side is one of `chars`. */
  lemma StripByDropped(s: string, strip: char -> bool)
    ensures exists lo :: SliceDropping(s, StripBy(s, strip), lo, strip)
  {
    var lo := StripBySlice(s, strip);
  }

  /** Where the slice `strip` keeps begins. */
  lemma StripBySlice(s: string, strip: char -> bool) returns (lo: nat)
    ensures SliceDropping(s, StripBy(s, strip), lo, strip)
  {
    var l := LStripBy(s, strip);
    var r := RStripBy(l, strip);
    lo := |s| - |l|;
    LStripByDropped(s, strip);
    RStripByDropped(l, strip);
    SuffixPrefix(s, l, r, lo);
    DroppedOutside(s, l, r, lo, strip);
  }

  /** What `lstrip` dropped from `s` and `rstrip` dropped from `l` lies outside the slice. */
  lemma DroppedOutside(s: string, l: string, r: string, lo: nat, strip: char -> bool)
    requires lo + |l| == |s| && |r| <= |l|
    requires forall i :: 0 <= i < |s| - |l| ==> strip(s[i])
    requires forall i :: |r| <= i < |l| ==> strip(l[i])
    requires l == s[lo..]
    ensures forall i :: 0 <= i < |s| && !(lo <= i < lo + |r|) ==> strip(s[i])
  {
    forall i | 0 <= i < |s| && !(lo <= i < lo + |r|)
      ensures strip(s[i])
    {
      if i >= lo {
        assert s[i] == l[i - lo];
      }
    }
  }

  /** A prefix `r` of the suffix `l` of `s` from `lo` is a slice of `s`. */
  lemma SuffixPrefix(s: string, l: string, r: string, lo: nat)
    requires lo + |l| == |s| && l == s[lo..] && |r| <= |l| && r == l[..|r|]
    ensures r == s[lo..lo + |r|]
  {
  }

  /**
   * Cutting a slice out of a slice: what the two cuts drop together is dropped by
   * `dropped` when each cut's own dropped characters are.
   */
  lemma SliceDroppingCompose(g: string, t: string, r: string, lo1: nat, lo2: nat,
                             d1: char -> bool, d2: char -> bool, dropped: char -> bool)
    requires SliceDropping(g, t, lo1, d1) && SliceDropping(t, r, lo2, d2)
    requires forall c :: d1(c) ==> dropped(c)
    requires forall c :: d2(c) ==> dropped(c)
    ensures SliceDropping(g, r, lo1 + lo2, dropped)
  {
    var lo := lo1 + lo2;
    assert r == g[lo..lo + |r|] by {
      forall k | 0 <= k < |r| ensures r[k] == g[lo + k] {
        assert r[k] == t[lo2 + k] == g[lo1 + lo2 + k];
      }
    }
    forall i | 0 <= i < |g| && !(lo <= i < lo + |r|)
      ensures dropped(g[i])
    {
      if lo1 <= i < lo1 + |t| {
        assert g[i] == t[i - lo1];
      }
    }
  }

  /** `s.lstrip()`. */
  function LStrip(s: string): string {
    LStripBy(s, IsSpace)
  }

  /** `s.strip()`. */
  function Strip(s: string): string {
    StripBy(s, IsSpace)
  }

  /** Stripping a string that neither begins nor ends with one of the characters leaves it alone. */
  lemma StripByUnpadded(s: string, strip: char -> bool)
    requires |s| > 0 && !strip(s[0]) && !strip(s[|s| - 1])
    ensures StripBy(s, strip) == s
  {
    assert LStripBy(s, strip) == s;
  }

  /**
   * `s.split(sep)` for a non-empty separator: the pieces between the occurrences of
   * `sep` found by scanning from the left, without overlap.
   */
  function Split(s: string, sep: string): (parts: seq<string>)
    requires |sep| > 0
    ensures |parts| >= 1
    decreases |s|
  {
    if HasPrefix(s, sep) then [""] + Split(s[|sep|..], sep)
    else if |s| == 0 then [""]
    else
      var rest := Split(s[1..], sep);
      [[s[0]] + rest[0]] + rest[1..]
  }

  /** `sep.join(parts)`. */
  function Join(parts: seq<string>, sep: string): string
    decreases |parts|
  {
    if |parts| == 0 then ""
    else if |parts| == 1 then parts[0]
    else parts[0] + sep + Join(parts[1..], sep)
  }

  /** Joining the pieces of a split with the same separator gives the string back. */
  lemma {:induction false} JoinSplit(s: string, sep: string)
    requires |sep| > 0
    ensures Join(Split(s, sep), sep) == s
    decreases |s|
  {
    if HasPrefix(s, sep) {
      JoinSplit(s[|sep|..], sep);
      JoinSplitAtSep(s, sep);
    } else if |s| > 0 {
      JoinSplit(s[1..], sep);
      JoinSplitAtChar(s, sep);
    }
  }

  /** The step of `JoinSplit` where `s` starts with the separator. */
  lemma JoinSplitAtSep(s: string, sep: string)
    requires |sep| > 0 && HasPrefix(s, sep) && Join(Split(s[|sep|..], sep), sep) == s[|sep|..]
    ensures Join(Split(s, sep), sep) == s
  {
    var tail := s[|sep|..];
    assert Split(s, sep) == [""] + Split(tail, sep);
    JoinEmptyHead(Split(tail, sep), sep);
    assert s == s[..|sep|] + tail;
  }

  /** An empty first piece leaves the join starting with the separator. */
  lemma JoinEmptyHead(parts: seq<string>, sep: string)
    requires |parts| >= 1
    ensures Join([""] + parts, sep) == sep + Join(parts, sep)
  {
    var ps := [""] + parts;
    assert ps[1..] == parts;
    assert ps[0] + sep == sep;
  }

  /** The step of `JoinSplit` where `s` starts with a character that does not begin a separator. */
  lemma JoinSplitAtChar(s: string, sep: string)
    requires |sep| > 0 && !HasPrefix(s, sep) && |s| > 0 && Join(Split(s[1..], sep), sep) == s[1..]
    ensures Join(Split(s, sep), sep) == s
  {
    var rest := Split(s[1..], sep);
    assert Split(s, sep) == [[s[0]] + rest[0]] + rest[1..];
    JoinHead(s[0], rest, sep);
    assert s == [s[0]] + s[1..];
  }

  /** Putting a character in front of the first piece puts it in front of the join. */
  lemma JoinHead(c: char, parts: seq<string>, sep: string)
    requires |parts| >= 1
    ensures Join([[c] + parts[0]] + parts[1..], sep) == [c] + Join(parts, sep)
  {
    var ps := [[c] + parts[0]] + parts[1..];
    if |parts| > 1 {
      assert ps[1..] == parts[1..];
    }
  }

  /** `s.count(sep)`: the occurrences a split cuts at. */
  function Count(s: string, sep: string): nat
    requires |sep| > 0
    decreases |s|
  {
    if HasPrefix(s, sep) then 1 + Count(s[|sep|..], sep)
    else if |s| == 0 then 0
    else Count(s[1..], sep)
  }

  /** A split has one piece more than there are occurrences, so `sep in s` gives two pieces at least. */
  lemma {:induction false} SplitCount(s: string, sep: string)
    requires |sep| > 0
    ensures |Split(s, sep)| == Count(s, sep) + 1
    ensures Contains(s, sep) <==> Count(s, sep) > 0
    decreases |s|
  {
    if HasPrefix(s, sep) {
      SplitCount(s[|sep|..], sep);
      assert HasPrefixAt(s, 0, sep);
    } else if |s| > 0 {
      SplitCount(s[1..], sep);
      assert !HasPrefixAt(s, 0, sep);
    }
  }

  /** `s.replace(pat, rep)` for a non-empty `pat`, replacing left to right without overlap. */
  function Replace(s: string, pat: string, rep: string): string
    requires |pat| > 0
    decreases |s|
  {
    if HasPrefix(s, pat) then rep + Replace(s[|pat|..], pat, rep)
    else if |s| == 0 then ""
    else [s[0]] + Replace(s[1..], pat, rep)
  }

  /**
   * `s.replace(pat, rep)` equals `rep.join(s.split(pat))`: the scanning definition
   * above agrees with the split-and-join one.
   */
  lemma {:induction false} ReplaceIsJoinOfSplit(s: string, pat: string, rep: string)
    requires |pat| > 0
    ensures Replace(s, pat, rep) == Join(Split(s, pat), rep)
    decreases |s|
  {
    if HasPrefix(s, pat) {
      ReplaceIsJoinOfSplit(s[|pat|..], pat, rep);
    } else if |s| > 0 {
      ReplaceIsJoinOfSplit(s[1..], pat, rep);
      JoinHead(s[0], Split(s[1..], pat), rep);
    }
  }

  /** A string that does not contain `pat` is left alone by `replace`. */
  lemma {:induction false} ReplaceAbsent(s: string, pat: string, rep: string)
    requires |pat| > 0 && !Contains(s, pat)
    ensures Replace(s, pat, rep) == s
    decreases |s|
  {
    if |s| > 0 {
      ReplaceAbsent(s[1..], pat, rep);
    }
  }

  /** Replacing by a string one character shorter shortens by one for each occurrence replaced. */
  lemma {:induction false} ReplaceLength(s: string, pat: string, rep: string)
    requires |pat| == |rep| + 1
    ensures |Replace(s, pat, rep)| + Count(s, pat) == |s|
    decreases |s|
  {
    if HasPrefix(s, pat) {
      ReplaceLength(s[|pat|..], pat, rep);
    } else if |s| > 0 {
      ReplaceLength(s[1..], pat, rep);
    }
  }

  /** Replacing one character by another keeps the length and changes exactly the occurrences of it. */
  lemma {:induction false} ReplaceChar(s: string, a: char, b: char)
    ensures |Replace(s, [a], [b])| == |s|
    ensures forall i :: 0 <= i < |s| ==> Replace(s, [a], [b])[i] == (if s[i] == a then b else s[i])
    decreases |s|
  {
    if |s| > 0 {
      ReplaceChar(s[1..], a, b);
      var r := Replace(s[1..], [a], [b]);
      if HasPrefix(s, [a]) {
        assert s[1..] == s[|[a]|..];
        assert Replace(s, [a], [b]) == [b] + r;
      } else {
        assert Replace(s, [a], [b]) == [s[0]] + r;
      }
    }
  }

  /**
   * The index of the first longest of `xs[..n]`, found the way a scan that replaces its
   * choice only on a strictly longer item finds it (which is how `max(xs, key=len)`
   * breaks ties).
   */
  function LongestIndex(xs: seq<string>, n: nat): (k: nat)
    requires 0 < n <= |xs|
    ensures k < n
    ensures forall j :: 0 <= j < n ==> |xs[j]| <= |xs[k]|
    ensures forall j :: 0 <= j < k ==> |xs[j]| < |xs[k]|
    decreases n
  {
    if n == 1 then 0
    else
      var k := LongestIndex(xs, n - 1);
      if |xs[n - 1]| > |xs[k]| then n - 1 else k
  }

  /** `max(xs, key=len)`. */
  function Longest(xs: seq<string>): string
    requires |xs| > 0
  {
    xs[LongestIndex(xs, |xs|)]
  }

  /** `max` keeps the first of the longest: the element at `k` when none is longer and all before it are shorter. */
  lemma LongestFirst(xs: seq<string>, k: nat)
    requires k < |xs|
    requires forall j :: 0 <= j < |xs| ==> |xs[j]| <= |xs[k]|
    requires forall j :: 0 <= j < k ==> |xs[j]| < |xs[k]|
    ensures Longest(xs) == xs[k]
  {
    var m := LongestIndex(xs, |xs|);
    assert !(m < k) && !(k < m);
  }
}
