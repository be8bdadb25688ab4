/**
 * `extract_doc_no` (utils.py): the reference number of a letter. `DOCNO_CANDIDATE_RE`
 * has two alternatives: a labelled number ("發文字號：府授人字第1130001號") and a bare
 * serial number of the form "○○字第…號". The first match in the text decides.
 */
module DocNo {
  import opened Wrappers
  import opened PyText
  import opened Matching

  /** `(?:發文字號|文號)`, in the order the alternation tries them. */
  const LabelWords: seq<string> := ["發文字號", "文號"]

  /** `{4,30}` on the labelled number. */
  const LabelledMin: nat := 4
  const LabelledMax: nat := 30

  /** `{1,6}` on the issuing office's prefix and `{3,20}` on the serial part. */
  const PrefixMin: nat := 1
  const PrefixMax: nat := 6
  const SerialMin: nat := 3
  const SerialMax: nat := 20

  /** The literals around the serial part: "…字第1130001號". */
  const SerialMark: string := "字第"
  const SerialEnd: char := '號'

  /** The characters the character class of the prefix lists besides `\w`. */
  const PrefixExtra: string := "一二三四五六七八九十○零〇台臺北新高桃竹苗中彰投雲嘉南高屏宜花東金馬"

  /**
   * `\w` of a `str` pattern, approximated by the letters and digits a letter of this
   * kind carries: ASCII letters and digits, `_`, fullwidth digits and letters, `〇`,
   * kana, Hangul and the CJK ideographs.
   */
  predicate IsWordChar(c: char) {
    || ('a' <= c <= 'z') || ('A' <= c <= 'Z') || IsDigit(c) || c == '_'
    || ('\U{FF21}' <= c <= '\U{FF3A}') || ('\U{FF41}' <= c <= '\U{FF5A}')
    || c == '〇' || ('\U{3041}' <= c <= '\U{3096}') || ('\U{30A1}' <= c <= '\U{30FA}')
    || ('\U{3400}' <= c <= '\U{4DBF}') || ('\U{4E00}' <= c <= '\U{9FFF}') || ('\U{F900}' <= c <= '\U{FAFF}')
    || ('\U{AC00}' <= c <= '\U{D7A3}')
  }

  /** `[^\n\r，。、]`: a character of the labelled number. */
  predicate IsLabelledChar(c: char) {
    c != '\n' && c != '\r' && c != '，' && c != '。' && c != '、'
  }

  /**
   * `[一二…金馬\w]`: a character of the prefix. Of the characters listed, only `○` is not
   * a word character.
   */
  predicate IsPrefixChar(c: char) {
    c == '○' || IsWordChar(c)
  }

  /** Every character the class lists is a prefix character. */
  lemma PrefixExtraListed()
    ensures forall i :: 0 <= i < |PrefixExtra| ==> IsPrefixChar(PrefixExtra[i])
  {
  }

  /** `[^\s，。、]`: a character of the serial part. */
  predicate IsSerialChar(c: char) {
    !IsSpace(c) && c != '，' && c != '。' && c != '、'
  }

  /** The characters `.strip('，。；；、 ')` removes from both ends. */
  predicate IsTrimChar(c: char) {
    c == '，' || c == '。' || c == '；' || c == '、' || c == ' '
  }

  /** `m.groups()`: the labelled number, the serial number, as spans. */
  datatype Groups = Groups(labelled: Option<(nat, nat)>, serial: Option<(nat, nat)>)

  /** How many characters `{4,30}` takes from `g`: after it nothing follows, so the count is final. */
  function LabelledLen(s: string, g: nat): nat {
    Min(Run(s, g, IsLabelledChar), LabelledMax)
  }

  /** The number may start `j` characters after `g`: at least four characters of it follow. */
  function LongEnough(s: string, g: nat): nat -> bool {
    (j: nat) => LabelledLen(s, g + j) >= LabelledMin
  }

  /**
   * `[：:]\s*([^\n\r，。、]{4,30})` after a label word that ends at `q`. Blanks are
   * characters of the number too, so when the number is too short after all the
   * whitespace the engine gives whitespace back to it, one character at a time.
   */
  function LabelledNumber(s: string, q: nat): (r: Option<(nat, nat)>)
    ensures r.Some? ==> q < r.value.0 && r.value.0 + LabelledMin <= r.value.1 <= r.value.0 + LabelledMax && r.value.1 <= |s|
    ensures r.Some? ==> IsColon(s[q]) && forall i :: q < i < r.value.0 ==> IsSpace(s[i])
    ensures r.Some? ==> forall i :: r.value.0 <= i < r.value.1 ==> IsLabelledChar(s[i])
  {
    if q < |s| && IsColon(s[q]) then
      var w := Run(s, q + 1, IsSpace);
      match Greedy(w, 0, LongEnough(s, q + 1))
      case None => None
      case Some(j) => Some((q + 1 + j, q + 1 + j + LabelledLen(s, q + 1 + j)))
    else None
  }

  /**
   * What the labelled alternative describes, stated without the engine: label word `k`
   * at `p`, a colon, only whitespace up to `lo`, and four to thirty characters of the
   * number from `lo` to `hi`.
   */
  ghost predicate IsLabelledNo(s: string, p: nat, k: nat, lo: nat, hi: nat) {
    && k < |LabelWords| && HasPrefixAt(s, p, LabelWords[k])
    && p + |LabelWords[k]| < lo && lo + LabelledMin <= hi <= lo + LabelledMax && hi <= |s|
    && IsColon(s[p + |LabelWords[k]|])
    && (forall i :: p + |LabelWords[k]| < i < lo ==> IsSpace(s[i]))
    && (forall i :: lo <= i < hi ==> IsLabelledChar(s[i]))
  }

  /** The label words from `k` on, tried at `p`: the first one the rest of the alternative can follow. */
  function LabelledFrom(s: string, p: nat, k: nat): (r: Option<(nat, nat)>)
    ensures r.Some? ==> exists j :: k <= j && IsLabelledNo(s, p, j, r.value.0, r.value.1)
    decreases |LabelWords| - k
  {
    if k >= |LabelWords| then None
    else if HasPrefixAt(s, p, LabelWords[k]) && LabelledNumber(s, p + |LabelWords[k]|).Some? then
      var r := LabelledNumber(s, p + |LabelWords[k]|);
      assert IsLabelledNo(s, p, k, r.value.0, r.value.1);
      r
    else LabelledFrom(s, p, k + 1)
  }

  /** A `號` follows the first `m` characters from `b`. */
  function EndsWithMark(s: string, b: nat): nat -> bool {
    (m: nat) => b + m < |s| && s[b + m] == SerialEnd
  }

  /** `[^\s，。、]{3,20}號` from `b`: the length of the serial part, the greedy count given back until a `號` follows. */
  function SerialTail(s: string, b: nat): (r: Option<nat>)
    ensures r.Some? ==> SerialMin <= r.value <= SerialMax && b + r.value < |s| && s[b + r.value] == SerialEnd
    ensures r.Some? ==> forall i :: b <= i < b + r.value ==> IsSerialChar(s[i])
  {
    Greedy(Min(Run(s, b, IsSerialChar), SerialMax), SerialMin, EndsWithMark(s, b))
  }

  /** The prefix of `c` characters is followed by `字第` and a serial part. */
  predicate SerialAfterPrefix(s: string, p: nat, c: nat) {
    HasPrefixAt(s, p + c, SerialMark) && SerialTail(s, p + c + |SerialMark|).Some?
  }

  /** A prefix of `c` characters from `p` lets the rest of the serial alternative match. */
  function PrefixWorks(s: string, p: nat): nat -> bool {
    (c: nat) => SerialAfterPrefix(s, p, c)
  }

  /** `[一二…\w]{1,6}` settled: the longest prefix, of at most six characters, that the rest can follow. */
  function PrefixCount(s: string, p: nat): (r: Option<nat>)
    ensures r.Some? ==> PrefixMin <= r.value <= PrefixMax && SerialAfterPrefix(s, p, r.value)
    ensures r.Some? ==> forall i :: p <= i < p + r.value ==> IsPrefixChar(s[i])
  {
    Greedy(Min(Run(s, p, IsPrefixChar), PrefixMax), PrefixMin, PrefixWorks(s, p))
  }

  /** `[一二…\w]{1,6}字第[^\s，。、]{3,20}號` tried at `p`: the lengths of the prefix and of the serial part. */
  function SerialAt(s: string, p: nat): (r: Option<(nat, nat)>)
    ensures r.Some? ==> IsSerialNo(s, p, r.value.0, r.value.1)
  {
    match PrefixCount(s, p)
    case None => None
    case Some(c) =>
      assert SerialAfterPrefix(s, p, c);
      var m := SerialTail(s, p + c + |SerialMark|).value;
      SerialParts(s, p, c, m);
      Some((c, m))
  }

  /** A settled prefix followed by a settled serial part is a described serial number. */
  lemma SerialParts(s: string, p: nat, c: nat, m: nat)
    requires PrefixCount(s, p) == Some(c) && SerialTail(s, p + c + |SerialMark|) == Some(m)
    ensures IsSerialNo(s, p, c, m)
  {
    var b := p + c + |SerialMark|;
    assert forall i :: p <= i < p + c ==> IsPrefixChar(s[i]);
    assert forall i :: b <= i < b + m ==> IsSerialChar(s[i]);
  }

  /**
   * What the serial alternative describes, stated without the engine: `c` prefix
   * characters, `字第`, `m` characters of the serial part and `號`.
   */
  ghost predicate IsSerialNo(s: string, p: nat, c: nat, m: nat) {
    && PrefixMin <= c <= PrefixMax && SerialMin <= m <= SerialMax
    && p + c + |SerialMark| + m < |s|
    && (forall i :: p <= i < p + c ==> IsPrefixChar(s[i]))
    && HasPrefixAt(s, p + c, SerialMark)
    && (forall i :: p + c + |SerialMark| <= i < p + c + |SerialMark| + m ==> IsSerialChar(s[i]))
    && s[p + c + |SerialMark| + m] == SerialEnd
  }

  /** `DOCNO_CANDIDATE_RE` tried at `p`: the labelled alternative first, then the serial one. */
  function DocNoAt(s: string, p: nat): (r: Option<Hit<Groups>>)
    ensures r.Some? ==> r.value.start == p && p < r.value.end <= |s|
    ensures r.Some? ==> r.value.groups.labelled.Some? != r.value.groups.serial.Some?
    ensures r.Some? && r.value.groups.labelled.Some? ==>
      var g := r.value.groups.labelled.value;
      p < g.0 < g.1 == r.value.end && exists k :: IsLabelledNo(s, p, k, g.0, g.1)
    ensures r.Some? && r.value.groups.serial.Some? ==> r.value.groups.serial.value == (p, r.value.end)
    ensures r.Some? && r.value.groups.serial.Some? ==> IsPrefixChar(s[p]) && s[r.value.end - 1] == SerialEnd
  {
    match LabelledFrom(s, p, 0)
    case Some(g) => Some(Hit(p, g.1, Groups(Some(g), None)))
    case None =>
      match SerialAt(s, p)
      case Some(cm) =>
        var e := p + cm.0 + |SerialMark| + cm.1 + 1;
        Some(Hit(p, e, Groups(None, Some((p, e)))))
      case None => None
  }

  lemma PatternSound(s: string)
    ensures Sound(DocNoAt, s)
  {
  }


  /** A described serial part with its `號` is found by `SerialTail`. */
  lemma SerialTailComplete(s: string, b: nat, m: nat)
    requires SerialMin <= m <= SerialMax && b + m < |s| && s[b + m] == SerialEnd
    requires forall i :: b <= i < b + m ==> IsSerialChar(s[i])
    ensures SerialTail(s, b).Some?
  {
    RunCovers(s, b, b + m, IsSerialChar);
    assert m <= Min(Run(s, b, IsSerialChar), SerialMax);
    assert EndsWithMark(s, b)(m);
  }

  /** A described serial number is a match of `SerialAt`. */
  lemma SerialComplete(s: string, p: nat, c: nat, m: nat)
    requires IsSerialNo(s, p, c, m)
    ensures SerialAt(s, p).Some?
  {
    var b := p + c + |SerialMark|;
    SerialTailComplete(s, b, m);
    assert PrefixWorks(s, p)(c);
    RunCovers(s, p, p + c, IsPrefixChar);
    assert c <= Min(Run(s, p, IsPrefixChar), PrefixMax);
    assert PrefixCount(s, p).Some?;
  }

  /** A described labelled number is found by the labelled alternative. */
  lemma {:induction false} LabelledComplete(s: string, p: nat, k: nat, j: nat, lo: nat, hi: nat)
    requires k <= j && IsLabelledNo(s, p, j, lo, hi)
    ensures LabelledFrom(s, p, k).Some?
    decreases j - k
  {
    if k < j && !(HasPrefixAt(s, p, LabelWords[k]) && LabelledNumber(s, p + |LabelWords[k]|).Some?) {
      LabelledComplete(s, p, k + 1, j, lo, hi);
    } else if k == j {
      var q := p + |LabelWords[k]|;
      var w := Run(s, q + 1, IsSpace);
      RunCovers(s, q + 1, lo, IsSpace);
      RunCovers(s, lo, hi, IsLabelledChar);
      assert lo - (q + 1) <= w;
      assert LabelledLen(s, lo) >= LabelledMin;
      assert q + 1 + (lo - (q + 1)) == lo;
      assert LongEnough(s, q + 1)(lo - (q + 1));
      assert LabelledNumber(s, q).Some?;
    }
  }

  /**
   * The pattern matches at `p` exactly when one of its alternatives is described there,
   * and the labelled alternative wins where both are.
   */
  lemma DocNoAtDescribed(s: string, p: nat)
    ensures DocNoAt(s, p).Some? <==>
      (exists k, lo, hi :: IsLabelledNo(s, p, k, lo, hi)) || (exists c, m :: IsSerialNo(s, p, c, m))
    ensures (exists k, lo, hi :: IsLabelledNo(s, p, k, lo, hi)) ==>
      DocNoAt(s, p).Some? && DocNoAt(s, p).value.groups.labelled.Some?
  {
    if exists k, lo, hi :: IsLabelledNo(s, p, k, lo, hi) {
      var k, lo, hi :| IsLabelledNo(s, p, k, lo, hi);
      LabelledComplete(s, p, 0, k, lo, hi);
    } else if exists c, m :: IsSerialNo(s, p, c, m) {
      var c, m :| IsSerialNo(s, p, c, m);
      SerialComplete(s, p, c, m);
    }
  }

  /** `m.group(n)` for a group that took part in the match, and `None` (falsy) otherwise. */
  function GroupText(s: string, g: Option<(nat, nat)>): string {
    if g.Some? && g.value.0 <= g.value.1 <= |s| then s[g.value.0..g.value.1] else ""
  }

  /** `next((x for x in m.groups() if x), None)`. */
  function FirstGroup(s: string, g: Groups): Option<string> {
    if GroupText(s, g.labelled) != "" then Some(GroupText(s, g.labelled))
    else if GroupText(s, g.serial) != "" then Some(GroupText(s, g.serial))
    else None
  }

  /** What `Clean` may cut off: whitespace and the marks. */
  predicate IsCleaned(c: char) {
    IsSpace(c) || IsTrimChar(c)
  }

  /**
   * `g.strip().strip('，。；；、 ')`: whitespace is stripped first, then the marks and the
   * ASCII space. What is left is a slice of `g`, everything cut off on either side is
   * whitespace or a mark, and the result neither begins nor ends with a mark. It can
   * begin or end with other whitespace that a mark hid from the first strip.
   */
  function Clean(g: string): (r: string)
    ensures r == StripBy(Strip(g), IsTrimChar)
    ensures exists lo :: SliceDropping(g, r, lo, IsCleaned)
    ensures |r| > 0 ==> !IsTrimChar(r[0]) && !IsTrimChar(r[|r| - 1])
  {
    var t := Strip(g);
    var r := StripBy(t, IsTrimChar);
    CleanDropped(g, t, r);
    r
  }

  /** The two strips of `Clean` together cut a slice out of `g` and drop only whitespace and marks. */
  lemma CleanDropped(g: string, t: string, r: string)
    requires t == Strip(g) && r == StripBy(t, IsTrimChar)
    ensures exists lo :: SliceDropping(g, r, lo, IsCleaned)
  {
    var lo1 := StripBySlice(g, IsSpace);
    var lo2 := StripBySlice(t, IsTrimChar);
    SliceDroppingCompose(g, t, r, lo1, lo2, IsSpace, IsTrimChar, IsCleaned);
  }

  /**
   * A mark in front of other whitespace hides that whitespace from the first strip, so
   * the result begins with it: `Clean("，　ab")` is `"　ab"`.
   */
  lemma CleanKeepsHiddenSpace(m: char, w: char, x: string)
    requires IsTrimChar(m) && !IsSpace(m) && IsSpace(w) && !IsTrimChar(w)
    requires |x| > 0 && !IsSpace(x[|x| - 1]) && !IsTrimChar(x[|x| - 1])
    ensures Clean([m, w] + x) == [w] + x && IsSpace(Clean([m, w] + x)[0])
  {
    var g := [m, w] + x;
    var h := [w] + x;
    StripByUnpadded(g, IsSpace);
    assert g[1..] == h;
    assert LStripBy(g, IsTrimChar) == LStripBy(h, IsTrimChar);
    StripByUnpadded(h, IsTrimChar);
  }

  /** `DOCNO_CANDIDATE_RE.search(text)`: the leftmost match. */
  function LeftmostDocNo(text: string): Option<Hit<Groups>> {
    PatternSound(text);
    Search(text, DocNoAt, 0)
  }

  /** `DOCNO_CANDIDATE_RE.finditer(text)`. */
  function DocNoMatches(text: string): (ms: seq<Hit<Groups>>)
    ensures forall j :: 0 <= j < |ms| ==> ms[j].start < ms[j].end <= |text| && DocNoAt(text, ms[j].start) == Some(ms[j])
    ensures |ms| > 0 <==> LeftmostDocNo(text).Some?
    ensures |ms| > 0 ==> ms[0] == LeftmostDocNo(text).value
  {
    PatternSound(text);
    FindIter(text, DocNoAt, 0)
  }

  /** The loop of `extract_doc_no` from match `i` on: the first match with a non-empty group, cleaned. */
  function FirstCandidate(text: string, ms: seq<Hit<Groups>>, i: nat): Option<string>
    decreases |ms| - i
  {
    if i >= |ms| then None
    else match FirstGroup(text, ms[i].groups)
      case Some(g) => Some(Clean(g))
      case None => FirstCandidate(text, ms, i + 1)
  }

  /** What `extract_doc_no(text)` returns. */
  function DocNoSpec(text: string): Option<string> {
    FirstCandidate(text, DocNoMatches(text), 0)
  }

  /** `extract_doc_no(text)`. */
  method ExtractDocNo(text: string) returns (r: Option<string>)
    ensures r == DocNoSpec(text)
  {
    var ms := DocNoMatches(text);
    var i := 0;
    while i < |ms|
      invariant 0 <= i <= |ms|
      invariant FirstCandidate(text, ms, i) == FirstCandidate(text, ms, 0)
    {
      var g := FirstGroup(text, ms[i].groups);
      if g.Some? {
        return Some(Clean(g.value));
      }
      i := i + 1;
    }
    return None;
  }

  /** The text of a match's group: every match has one, and it is not empty. */
  lemma MatchHasGroup(text: string, h: Hit<Groups>)
    requires h.end <= |text| && DocNoAt(text, h.start) == Some(h)
    ensures FirstGroup(text, h.groups) == Some(text[(if h.groups.labelled.Some? then h.groups.labelled.value.0 else h.start)..h.end])
  {
  }

  /**
   * Every match has a non-empty group, so the loop stops at the first match: the
   * result is the cleaned group of the leftmost match, and `None` exactly when the
   * pattern matches nowhere.
   */
  lemma DocNoFirstMatch(text: string)
    ensures var m := LeftmostDocNo(text);
      DocNoSpec(text) == (if m.Some? then Some(Clean(FirstGroup(text, m.value.groups).value)) else None)
  {
    var ms := DocNoMatches(text);
    if |ms| > 0 {
      MatchHasGroup(text, ms[0]);
    }
  }

  /** `extract_doc_no` finds nothing exactly when neither alternative is described anywhere in the text. */
  lemma DocNoNone(text: string)
    ensures DocNoSpec(text).None? <==>
      (forall p, k, lo, hi :: !IsLabelledNo(text, p, k, lo, hi)) && (forall p, c, m :: !IsSerialNo(text, p, c, m))
  {
    DocNoFirstMatch(text);
    PatternSound(text);
    if LeftmostDocNo(text).Some? {
      DocNoAtDescribed(text, LeftmostDocNo(text).value.start);
    } else {
      forall p, k, lo, hi ensures !IsLabelledNo(text, p, k, lo, hi) {
        if IsLabelledNo(text, p, k, lo, hi) {
          DocNoAtDescribed(text, p);
        }
      }
      forall p, c, m ensures !IsSerialNo(text, p, c, m) {
        if IsSerialNo(text, p, c, m) {
          DocNoAtDescribed(text, p);
        }
      }
    }
  }

  /** No prefix character, and no `號`, is whitespace or one of the marks the cleaning strips. */
  lemma SerialEndsUnpadded(c: char)
    requires IsPrefixChar(c) || c == SerialEnd
    ensures !IsSpace(c) && !IsTrimChar(c)
  {
  }

  /**
   * A serial number comes back verbatim: when the leftmost match is the serial
   * alternative, the result is the matched text from the prefix to the `號`, which the
   * cleaning leaves alone.
   */
  lemma DocNoSerialVerbatim(text: string)
    requires LeftmostDocNo(text).Some? && LeftmostDocNo(text).value.groups.serial.Some?
    ensures var m := LeftmostDocNo(text).value;
      DocNoSpec(text) == Some(text[m.start..m.end]) && text[m.end - 1] == SerialEnd
  {
    DocNoFirstMatch(text);
    LeftmostSerial(text);
    CleanedSerial(text, LeftmostDocNo(text).value);
  }

  /** A serial match: its span lies in the text, its group is the whole span, from a prefix character to `號`. */
  predicate SerialHit(text: string, h: Hit<Groups>) {
    && h.start < h.end <= |text| && h.groups.labelled.None? && h.groups.serial == Some((h.start, h.end))
    && IsPrefixChar(text[h.start]) && text[h.end - 1] == SerialEnd
  }

  /** The leftmost match, when it takes the serial alternative, is a serial match. */
  lemma LeftmostSerial(text: string)
    requires LeftmostDocNo(text).Some? && LeftmostDocNo(text).value.groups.serial.Some?
    ensures SerialHit(text, LeftmostDocNo(text).value)
  {
    var ms := DocNoMatches(text);
    SerialMatch(text, ms[0].start);
  }

  /** A match of the serial alternative is a serial match. */
  lemma SerialMatch(s: string, p: nat)
    requires DocNoAt(s, p).Some? && DocNoAt(s, p).value.groups.serial.Some?
    ensures SerialHit(s, DocNoAt(s, p).value)
  {
  }

  /** The group of a serial match is the whole matched text, from a prefix character to `號`, and the cleaning leaves it alone. */
  lemma CleanedSerial(text: string, h: Hit<Groups>)
    requires SerialHit(text, h)
    ensures FirstGroup(text, h.groups) == Some(text[h.start..h.end])
    ensures Clean(text[h.start..h.end]) == text[h.start..h.end]
  {
    assert GroupText(text, h.groups.labelled) == "";
    assert GroupText(text, h.groups.serial) == text[h.start..h.end];
    var g := text[h.start..h.end];
    assert g[0] == text[h.start] && g[|g| - 1] == text[h.end - 1];
    CleanSerial(g);
  }

  /** The cleaning leaves a serial number alone: it begins with a prefix character and ends with `號`. */
  lemma CleanSerial(g: string)
    requires |g| > 0 && IsPrefixChar(g[0]) && g[|g| - 1] == SerialEnd
    ensures Clean(g) == g
  {
    SerialEndsUnpadded(g[0]);
    SerialEndsUnpadded(g[|g| - 1]);
    StripByUnpadded(g, IsSpace);
    StripByUnpadded(g, IsTrimChar);
  }
}
