/**
 * Phone numbers in utils.py: the pattern `PHONE_RE`, `normalize_phone` and the
 * keyword-priority selection of `extract_phone`.
 *
 * The pattern is the single alternative
 *   \(?(0\d{1,2})\)?[ \-]?(\d{3,4})[ \-]?(\d{3,4})(?:[ \-]*(?:轉|ext\.?|#|分機)[ \-]?(?:([0-9\-、或/]{1,10})))?
 * and `PhoneAt` tries it at one position in the order the backtracking engine does.
 * The optional `(`, `)` and single separators are forced: leaving out one that is
 * present puts a character that is not a digit where a digit is needed. So the
 * only real choices are the lengths of the three digit groups (longest first), and
 * the optional extension, which is tried once the number itself has matched.
 */
module Phone {
  import opened Wrappers
  import opened PyText
  import opened Matching

  /** The groups of a match: area code, the two halves of the number, the extension. */
  datatype PhoneGroups = PhoneGroups(area: string, p1: string, p2: string, ext: Option<string>)

  /** A span `s[lo..hi]` of the subject. */
  datatype Span = Span(lo: nat, hi: nat)

  /** The keywords tried in this order by `extract_phone`. */
  const PhoneKeywords: seq<string> := ["電話", "聯絡", "分機", "承辦", "書記官"]

  /** The context around a match that `extract_phone` looks at. */
  const WindowSize: nat := 15

  /** `[ \-]`. */
  predicate IsSepChar(c: char) {
    c == ' ' || c == '-'
  }

  /** `[0-9\-、或/]`: the characters of an extension. */
  predicate IsExtChar(c: char) {
    IsAsciiDigit(c) || c == '-' || c == '、' || c == '或' || c == '/'
  }

  /** `[ \-]?`: one separator is taken when there is one. */
  function Sep(s: string, i: nat): (j: nat)
    ensures j == i || (j == i + 1 && i < |s| && IsSepChar(s[i]))
  {
    if i < |s| && IsSepChar(s[i]) then i + 1 else i
  }

  /** `\)?[ \-]?` after the area code. */
  function AfterArea(s: string, a: nat): (j: nat)
    ensures a <= j <= a + 2
  {
    Sep(s, if a < |s| && s[a] == ')' then a + 1 else a)
  }

  /** The last group `(\d{3,4})`: four digits when there are four, else three. */
  function LastDigits(s: string, q: nat): (n: Option<nat>)
    ensures n.Some? ==> (n.value == 3 || n.value == 4) && DigitsAt(s, q, n.value)
    ensures n.None? ==> !DigitsAt(s, q, 3)
    ensures n == Some(3) ==> !DigitsAt(s, q, 4)
  {
    if DigitsAt(s, q, 4) then Some(4) else if DigitsAt(s, q, 3) then Some(3) else None
  }

  /** A span of three or four digits. */
  predicate DigitGroup(s: string, g: Span) {
    g.lo <= g.hi <= |s| && 3 <= g.hi - g.lo <= 4 && DigitsAt(s, g.lo, g.hi - g.lo)
  }

  /** `(\d{3,4})[ \-]?(\d{3,4})` at `q`: the first group tries four digits before three. */
  function Subscriber(s: string, q: nat): (r: Option<(Span, Span)>)
    ensures r.Some? ==> r.value.0.lo == q && DigitGroup(s, r.value.0) && DigitGroup(s, r.value.1)
    ensures r.Some? ==> r.value.1.lo == Sep(s, r.value.0.hi)
  {
    if DigitsAt(s, q, 4) && LastDigits(s, Sep(s, q + 4)).Some? then
      var b := Sep(s, q + 4);
      Some((Span(q, q + 4), Span(b, b + LastDigits(s, b).value)))
    else if DigitsAt(s, q, 3) && LastDigits(s, Sep(s, q + 3)).Some? then
      var b := Sep(s, q + 3);
      Some((Span(q, q + 3), Span(b, b + LastDigits(s, b).value)))
    else
      None
  }

  /** The area code `(0\d{1,2})` after an optional `(`, and the number after it. */
  function PhoneCore(s: string, p: nat): (r: Option<(Span, Span, Span)>)
    ensures r.Some? ==> var (a, x, y) := r.value;
      && p <= a.lo <= p + 1 && a.lo < a.hi <= |s| && (a.hi - a.lo == 2 || a.hi - a.lo == 3)
      && s[a.lo] == '0' && DigitsAt(s, a.lo + 1, a.hi - a.lo - 1)
      && a.hi <= x.lo && DigitGroup(s, x) && DigitGroup(s, y) && x.hi <= y.lo
  {
    var z := if p < |s| && s[p] == '(' then p + 1 else p;
    if !(z < |s| && s[z] == '0') then None
    else if DigitsAt(s, z + 1, 2) && Subscriber(s, AfterArea(s, z + 3)).Some? then
      var (x, y) := Subscriber(s, AfterArea(s, z + 3)).value;
      Some((Span(z, z + 3), x, y))
    else if DigitsAt(s, z + 1, 1) && Subscriber(s, AfterArea(s, z + 2)).Some? then
      var (x, y) := Subscriber(s, AfterArea(s, z + 2)).value;
      Some((Span(z, z + 2), x, y))
    else
      None
  }

  /** Where the marker `轉|ext\.?|#|分機` ends, tried in that order. */
  function MarkerEnd(s: string, y: nat): (m: Option<nat>)
    ensures m.Some? ==> y < m.value <= |s|
  {
    if HasPrefixAt(s, y, "轉") then Some(y + 1)
    else if HasPrefixAt(s, y, "ext") then Some(if y + 3 < |s| && s[y + 3] == '.' then y + 4 else y + 3)
    else if HasPrefixAt(s, y, "#") then Some(y + 1)
    else if HasPrefixAt(s, y, "分機") then Some(y + 2)
    else None
  }

  /**
   * The optional extension `[ \-]*(?:marker)[ \-]?([0-9\-、或/]{1,10})` after the
   * number ending at `e`. The run of separators is taken whole (no marker begins
   * with one); the single separator after the marker is given back when no extension
   * character follows it, which matters only for `-`, itself an extension character.
   */
  function Extension(s: string, e: nat): (r: Option<Span>)
    ensures r.Some? ==> e < r.value.lo < r.value.hi <= |s| && r.value.hi - r.value.lo <= 10
    ensures r.Some? ==> forall k :: r.value.lo <= k < r.value.hi ==> IsExtChar(s[k])
  {
    var y := e + Run(s, e, IsSepChar);
    match MarkerEnd(s, y)
    case None => None
    case Some(m) =>
      var b := if m < |s| && IsSepChar(s[m]) && Run(s, m + 1, IsExtChar) >= 1 then m + 1 else m;
      var n := Min(Run(s, b, IsExtChar), 10);
      if n >= 1 then Some(Span(b, b + n)) else None
  }

  /** The area code `s[lo..lo + n]`: a `0` and one or two digits. */
  function AreaSlice(s: string, lo: nat, n: nat): (t: string)
    requires (n == 2 || n == 3) && lo + n <= |s| && s[lo] == '0' && DigitsAt(s, lo + 1, n - 1)
    ensures (|t| == 2 || |t| == 3) && t[0] == '0' && AllDigits(t)
  {
    s[lo..lo + n]
  }

  /** The extension `s[e.lo..e.hi]`. */
  function ExtSlice(s: string, e: Span): (t: string)
    requires e.lo < e.hi <= |s| && e.hi - e.lo <= 10
    requires forall k :: e.lo <= k < e.hi ==> IsExtChar(s[k])
    ensures 1 <= |t| <= 10 && forall k :: 0 <= k < |t| ==> IsExtChar(t[k])
  {
    s[e.lo..e.hi]
  }

  /** What the groups of every match look like. */
  predicate GroupsShape(g: PhoneGroups) {
    && (|g.area| == 2 || |g.area| == 3) && g.area[0] == '0' && AllDigits(g.area)
    && 3 <= |g.p1| <= 4 && AllDigits(g.p1) && 3 <= |g.p2| <= 4 && AllDigits(g.p2)
    && (g.ext.Some? ==> 1 <= |g.ext.value| <= 10 && forall k :: 0 <= k < |g.ext.value| ==> IsExtChar(g.ext.value[k]))
  }

  /** `PHONE_RE.match(s, p)`: the span and the four groups. */
  function PhoneAt(s: string, p: nat): (r: Option<Hit<PhoneGroups>>)
    ensures r.Some? ==> r.value.start == p && p < r.value.end <= |s|
    ensures r.Some? ==> GroupsShape(r.value.groups)
  {
    match PhoneCore(s, p)
    case None => None
    case Some((a, x, y)) =>
      var ext := Extension(s, y.hi);
      var end := if ext.Some? then ext.value.hi else y.hi;
      var g := PhoneGroups(AreaSlice(s, a.lo, a.hi - a.lo), DigitRun(s, x.lo, x.hi - x.lo),
        DigitRun(s, y.lo, y.hi - y.lo), if ext.Some? then Some(ExtSlice(s, ext.value)) else None);
      Some(Hit(p, end, g))
  }

  lemma PhoneSound(s: string)
    ensures Sound(PhoneAt, s)
  {
  }

  // ----- completeness: every number laid out like the pattern is matched -----

  /** `[ \-]?` laid out: `j` is `i`, or just after one separator at `i`. */
  ghost predicate SepLaid(s: string, i: nat, j: nat) {
    j == i || (j == i + 1 && i < |s| && IsSepChar(s[i]))
  }

  /** `\)?[ \-]?` laid out between `t` and `q`. */
  ghost predicate AreaGap(s: string, t: nat, q: nat) {
    SepLaid(s, t, q) || (t < |s| && s[t] == ')' && SepLaid(s, t + 1, q))
  }

  /**
   * `(\d{3,4})[ \-]?(\d{3,4})` laid out: `n1` digits at `q`, an optional separator,
   * `n2` digits at `r`.
   */
  ghost predicate SubscriberLaid(s: string, q: nat, n1: nat, r: nat, n2: nat) {
    && 3 <= n1 <= 4 && DigitsAt(s, q, n1) && SepLaid(s, q + n1, r)
    && 3 <= n2 <= 4 && DigitsAt(s, r, n2)
  }

  /** Before a digit, `[ \-]?` settles on that digit. */
  lemma SepRead(s: string, i: nat, j: nat)
    requires SepLaid(s, i, j) && j < |s| && IsDigit(s[j])
    ensures Sep(s, i) == j
  {
  }

  /** Before a digit, `\)?[ \-]?` settles on that digit. */
  lemma AreaGapRead(s: string, t: nat, q: nat)
    requires AreaGap(s, t, q) && q < |s| && IsDigit(s[q])
    ensures AfterArea(s, t) == q
  {
    if t < |s| && s[t] == ')' && SepLaid(s, t + 1, q) {
      SepRead(s, t + 1, q);
    } else {
      SepRead(s, t, q);
    }
  }

  /** A laid-out number is read, whichever length of the first group the engine keeps. */
  lemma SubscriberComplete(s: string, q: nat, n1: nat, r: nat, n2: nat)
    requires SubscriberLaid(s, q, n1, r, n2)
    ensures Subscriber(s, q).Some?
  {
    SepRead(s, q + n1, r);
    assert LastDigits(s, r).Some?;
    if n1 == 3 && !(DigitsAt(s, q, 4) && LastDigits(s, Sep(s, q + 4)).Some?) {
      assert DigitsAt(s, q, 3) && LastDigits(s, Sep(s, q + 3)).Some?;
    }
  }

  /**
   * Every number laid out like the pattern is matched at `p`: an optional `(`, then at
   * `z` a `0` and `na` more digits, `\)?[ \-]?`, and the number laid out at `q`. When
   * the area code has two digits after the `0`, the match keeps all three.
   */
  lemma PhoneComplete(s: string, p: nat, z: nat, na: nat, q: nat, n1: nat, r: nat, n2: nat)
    requires z == p || (z == p + 1 && p < |s| && s[p] == '(')
    requires z < |s| && s[z] == '0' && (na == 1 || na == 2) && DigitsAt(s, z + 1, na)
    requires AreaGap(s, z + 1 + na, q) && SubscriberLaid(s, q, n1, r, n2)
    ensures PhoneCore(s, p).Some?
    ensures na == 2 ==> PhoneCore(s, p).value.0 == Span(z, z + 3)
  {
    AreaGapRead(s, z + 1 + na, q);
    SubscriberComplete(s, q, n1, r, n2);
    if na == 2 {
      AreaTwoDigits(s, p, z, q);
    } else {
      AreaOneDigit(s, p, z, q);
    }
  }

  /** With two digits after the `0` and the number read at `q`, the area code keeps all three. */
  lemma AreaTwoDigits(s: string, p: nat, z: nat, q: nat)
    requires z == (if p < |s| && s[p] == '(' then p + 1 else p)
    requires z < |s| && s[z] == '0' && DigitsAt(s, z + 1, 2)
    requires AfterArea(s, z + 3) == q && Subscriber(s, q).Some?
    ensures PhoneCore(s, p).Some? && PhoneCore(s, p).value.0 == Span(z, z + 3)
  {
  }

  /** With one digit after the `0` and the number read at `q`, some area code is matched. */
  lemma AreaOneDigit(s: string, p: nat, z: nat, q: nat)
    requires z == (if p < |s| && s[p] == '(' then p + 1 else p)
    requires z < |s| && s[z] == '0' && DigitsAt(s, z + 1, 1)
    requires AfterArea(s, z + 2) == q && Subscriber(s, q).Some?
    ensures PhoneCore(s, p).Some?
  {
  }

  /** `PhoneComplete` for the whole match: it is found, and its area code is as laid out. */
  lemma PhoneMatched(s: string, p: nat, z: nat, na: nat, q: nat, n1: nat, r: nat, n2: nat)
    requires z == p || (z == p + 1 && p < |s| && s[p] == '(')
    requires z < |s| && s[z] == '0' && (na == 1 || na == 2) && DigitsAt(s, z + 1, na)
    requires AreaGap(s, z + 1 + na, q) && SubscriberLaid(s, q, n1, r, n2)
    ensures PhoneAt(s, p).Some?
    ensures na == 2 ==> PhoneAt(s, p).value.groups.area == AreaSlice(s, z, 3)
  {
    PhoneComplete(s, p, z, na, q, n1, r, n2);
  }

  /** `ext.replace('、', '或').replace('/', '或')`. */
  function MarkAlternatives(ext: string): (r: string)
    ensures |r| == |ext|
    ensures forall i :: 0 <= i < |ext| ==> r[i] == (if ext[i] == '、' || ext[i] == '/' then '或' else ext[i])
  {
    var once := Replace(ext, ['、'], ['或']);
    ReplaceChar(ext, '、', '或');
    ReplaceChar(once, '/', '或');
    Replace(once, ['/'], ['或'])
  }

  /** `normalize_phone(m)`. */
  function NormalizePhone(g: PhoneGroups): string {
    var base := g.area + "-" + g.p1 + g.p2;
    if g.ext.Some? && g.ext.value != "" then base + "#" + MarkAlternatives(g.ext.value) else base
  }

  /**
   * The normalized number is always `area-p1p2`; `#` and the extension follow exactly
   * when there is a non-empty extension, with every `、` and `/` in it written `或`
   * and every other character kept.
   */
  lemma NormalizePhoneShape(g: PhoneGroups)
    ensures var base := g.area + "-" + g.p1 + g.p2;
      HasPrefix(NormalizePhone(g), base)
      && (|NormalizePhone(g)| > |base| <==> g.ext.Some? && g.ext.value != "")
    ensures g.ext.Some? && g.ext.value != "" ==>
      var base := g.area + "-" + g.p1 + g.p2;
      var r := NormalizePhone(g);
      var e := g.ext.value;
      && |r| == |base| + 1 + |e| && r[|base|] == '#'
      && (forall i :: 0 <= i < |e| ==> r[|base| + 1 + i] == (if e[i] == '、' || e[i] == '/' then '或' else e[i]))
  {
    var base := g.area + "-" + g.p1 + g.p2;
    var r := NormalizePhone(g);
    assert r[..|base|] == base;
  }

  /**
   * For a match of the pattern the normalized number reads back: it starts with the
   * two- or three-digit area code beginning with `0`, a `-`, and six to eight digits;
   * whatever follows starts with `#` and holds neither `、` nor `/`.
   */
  lemma NormalizedMatch(s: string, p: nat)
    requires PhoneAt(s, p).Some?
    ensures var g := PhoneAt(s, p).value.groups;
      var r := NormalizePhone(g);
      var n := |g.area| + 1 + |g.p1| + |g.p2|;
      && n <= |r| && r[0] == '0' && (r[2] == '-' || r[3] == '-')
      && (forall k :: 0 <= k < n && k != |g.area| ==> IsDigit(r[k]))
      && 6 <= n - |g.area| - 1 <= 8
      && (n < |r| ==> r[n] == '#' && forall k :: n < k < |r| ==> r[k] != '、' && r[k] != '/')
  {
    NormalizedShape(PhoneAt(s, p).value.groups);
  }

  /** `NormalizedMatch` for any groups of the shape every match has. */
  lemma NormalizedShape(g: PhoneGroups)
    requires GroupsShape(g)
    ensures var r := NormalizePhone(g);
      var n := |g.area| + 1 + |g.p1| + |g.p2|;
      && n <= |r| && r[0] == '0' && (r[2] == '-' || r[3] == '-')
      && (forall k :: 0 <= k < n && k != |g.area| ==> IsDigit(r[k]))
      && 6 <= n - |g.area| - 1 <= 8
      && (n < |r| ==> r[n] == '#' && forall k :: n < k < |r| ==> r[k] != '、' && r[k] != '/')
  {
    var r := NormalizePhone(g);
    var n := |g.area| + 1 + |g.p1| + |g.p2|;
    NormalizePhoneShape(g);
    assert r[..n] == g.area + "-" + g.p1 + g.p2;
    forall k | 0 <= k < n && k != |g.area| ensures IsDigit(r[k]) {
      assert r[k] == r[..n][k];
      if k > |g.area| + |g.p1| {
        assert r[k] == g.p2[k - |g.area| - 1 - |g.p1|];
      } else if k > |g.area| {
        assert r[k] == g.p1[k - |g.area| - 1];
      }
    }
    if n < |r| {
      forall k | n < k < |r| ensures r[k] != '、' && r[k] != '/' {
        assert r[k] == r[n + 1 + (k - n - 1)];
      }
    }
  }

  /** `kw in text[max(0, start - 15):min(len(text), end + 15)]` for the match `m`. */
  predicate InWindow(text: string, m: Hit<PhoneGroups>, kw: string) {
    m.start <= m.end <= |text| && Contains(Window(text, m.start, m.end, WindowSize, WindowSize), kw)
  }

  /** The first match, in document order from `j` on, whose window contains `kw`. */
  function FirstInWindow(text: string, ms: seq<Hit<PhoneGroups>>, kw: string, j: nat): (r: Option<nat>)
    ensures r.Some? ==> j <= r.value < |ms| && InWindow(text, ms[r.value], kw)
    ensures r.Some? ==> forall i :: j <= i < r.value ==> !InWindow(text, ms[i], kw)
    ensures r.None? ==> forall i :: j <= i < |ms| ==> !InWindow(text, ms[i], kw)
    decreases |ms| - j
  {
    if j >= |ms| then None
    else if InWindow(text, ms[j], kw) then Some(j)
    else FirstInWindow(text, ms, kw, j + 1)
  }

  /**
   * The nested loops of `extract_phone`: the first keyword from `k` on for which some
   * match's window contains it, and the first such match; as a pair (keyword, match).
   */
  function FirstKeywordMatch(text: string, ms: seq<Hit<PhoneGroups>>, k: nat): (r: Option<(nat, nat)>)
    ensures r.Some? ==> k <= r.value.0 < |PhoneKeywords| && r.value.1 < |ms|
    ensures r.Some? ==> InWindow(text, ms[r.value.1], PhoneKeywords[r.value.0])
    ensures r.Some? ==> forall i :: 0 <= i < r.value.1 ==> !InWindow(text, ms[i], PhoneKeywords[r.value.0])
    ensures r.Some? ==> forall k', i :: k <= k' < r.value.0 && 0 <= i < |ms| ==> !InWindow(text, ms[i], PhoneKeywords[k'])
    ensures r.None? ==> forall k', i :: k <= k' < |PhoneKeywords| && 0 <= i < |ms| ==> !InWindow(text, ms[i], PhoneKeywords[k'])
    decreases |PhoneKeywords| - k
  {
    if k >= |PhoneKeywords| then None
    else match FirstInWindow(text, ms, PhoneKeywords[k], 0)
      case Some(j) => Some((k, j))
      case None => FirstKeywordMatch(text, ms, k + 1)
  }

  /** `list(PHONE_RE.finditer(text))`: matches of the pattern in text order, without overlap. */
  function PhoneMatches(text: string): (ms: seq<Hit<PhoneGroups>>)
    ensures forall j :: 0 <= j < |ms| ==> PhoneAt(text, ms[j].start) == Some(ms[j])
    ensures forall i, j :: 0 <= i < j < |ms| ==> ms[i].end <= ms[j].start
    ensures |ms| > 0 <==> (PhoneSound(text); Search(text, PhoneAt, 0).Some?)
    ensures |ms| > 0 ==> (PhoneSound(text); Search(text, PhoneAt, 0) == Some(ms[0]))
  {
    PhoneSound(text);
    FindIterOrdered(text, PhoneAt, 0);
    FindIter(text, PhoneAt, 0)
  }

  /** What `extract_phone(text)` returns. */
  function PhoneSpec(text: string): (r: Option<string>)
    ensures r.None? <==> |PhoneMatches(text)| == 0
  {
    var ms := PhoneMatches(text);
    match FirstKeywordMatch(text, ms, 0)
    case Some((_, j)) => Some(NormalizePhone(ms[j].groups))
    case None => if |ms| == 0 then None else Some(NormalizePhone(ms[0].groups))
  }

  /**
   * The keyword priority of `extract_phone`: when keyword `k` is the first keyword
   * that some match's window contains, and match `j` is the first whose window
   * contains it, the result is match `j`, normalized.
   */
  lemma ExtractPhonePriority(text: string, k: nat, j: nat)
    requires k < |PhoneKeywords| && j < |PhoneMatches(text)|
    requires InWindow(text, PhoneMatches(text)[j], PhoneKeywords[k])
    requires forall k', i :: 0 <= k' < k && 0 <= i < |PhoneMatches(text)| ==>
      !InWindow(text, PhoneMatches(text)[i], PhoneKeywords[k'])
    requires forall i :: 0 <= i < j ==> !InWindow(text, PhoneMatches(text)[i], PhoneKeywords[k])
    ensures PhoneSpec(text) == Some(NormalizePhone(PhoneMatches(text)[j].groups))
  {
    FirstKeywordMatchIs(text, PhoneMatches(text), k, j);
  }

  /** When no window contains any keyword, `extract_phone` gives the first match, if any. */
  lemma ExtractPhoneFallback(text: string)
    requires forall k, i :: 0 <= k < |PhoneKeywords| && 0 <= i < |PhoneMatches(text)| ==>
      !InWindow(text, PhoneMatches(text)[i], PhoneKeywords[k])
    ensures PhoneSpec(text) == if |PhoneMatches(text)| == 0 then None else Some(NormalizePhone(PhoneMatches(text)[0].groups))
  {
    NoKeywordMatch(text, PhoneMatches(text));
  }

  /** With no keyword in any window, the keyword loops find nothing. */
  lemma NoKeywordMatch(text: string, ms: seq<Hit<PhoneGroups>>)
    requires forall k, i :: 0 <= k < |PhoneKeywords| && 0 <= i < |ms| ==> !InWindow(text, ms[i], PhoneKeywords[k])
    ensures FirstKeywordMatch(text, ms, 0).None?
  {
  }

  /**
   * The nested `for kw ... for m ...` loops of `extract_phone` over the list of
   * matches: the (keyword, match) pair at which it returns, if any.
   */
  method KeywordLoops(text: string, ms: seq<Hit<PhoneGroups>>) returns (r: Option<(nat, nat)>)
    ensures r == FirstKeywordMatch(text, ms, 0)
  {
    var k := 0;
    while k < |PhoneKeywords|
      invariant 0 <= k <= |PhoneKeywords|
      invariant forall k', i :: 0 <= k' < k && 0 <= i < |ms| ==> !InWindow(text, ms[i], PhoneKeywords[k'])
    {
      var j := 0;
      while j < |ms|
        invariant 0 <= j <= |ms|
        invariant forall i :: 0 <= i < j ==> !InWindow(text, ms[i], PhoneKeywords[k])
      {
        if InWindow(text, ms[j], PhoneKeywords[k]) {
          FirstKeywordMatchIs(text, ms, k, j);
          return Some((k, j));
        }
        j := j + 1;
      }
      k := k + 1;
    }
    return None;
  }

  /**
   * `extract_phone(text)`: for each keyword in turn, the first match in document order
   * whose window of 15 characters on either side contains the keyword; failing all
   * keywords, the first match; `None` exactly when nothing matches.
   */
  method ExtractPhone(text: string) returns (r: Option<string>)
    ensures r == PhoneSpec(text)
  {
    var ms := PhoneMatches(text);
    var found := KeywordLoops(text, ms);
    if found.Some? {
      return Some(NormalizePhone(ms[found.value.1].groups));
    }
    PhoneSound(text);
    var m := Search(text, PhoneAt, 0);
    if m.Some? {
      r := Some(NormalizePhone(m.value.groups));
    } else {
      r := None;
    }
  }

  /** The pair of the nested loops is determined by the two minimality conditions. */
  lemma FirstKeywordMatchIs(text: string, ms: seq<Hit<PhoneGroups>>, k: nat, j: nat)
    requires k < |PhoneKeywords| && j < |ms| && InWindow(text, ms[j], PhoneKeywords[k])
    requires forall k', i :: 0 <= k' < k && 0 <= i < |ms| ==> !InWindow(text, ms[i], PhoneKeywords[k'])
    requires forall i :: 0 <= i < j ==> !InWindow(text, ms[i], PhoneKeywords[k])
    ensures FirstKeywordMatch(text, ms, 0) == Some((k, j))
  {
    var r := FirstKeywordMatch(text, ms, 0);
    assert r.Some?;
    assert r.value.0 == k;
  }
}
