/**
 * Dates in utils.py: the era-year pattern `DATE_ROC_RE`, the common-era pattern
 * `DATE_ISO_RE`, `normalize_date_roc_to_iso` and the keyword-window search of
 * `extract_doc_date`.
 *
 * Every conversion goes through `datetime(y, m, d).strftime("%Y-%m-%d")` inside a
 * `try`; here that call is the parameter `fmt`, `None` standing for an exception.
 * utils.py imports only `date` from `datetime`, so as written the name `datetime` is
 * unbound, every call raises `NameError`, the `except` swallows it, and every
 * conversion yields `None` (`FormatAsWritten`). What the code evidently intends is a
 * calendar check and zero-padded output (`FormatIntended`).
 */
module DocDate {
  import opened Wrappers
  import opened PyText
  import opened Matching

  /** The three digit groups of a date match: year, month, day. */
  datatype DateGroups = DateGroups(y: string, m: string, d: string)

  type Converter = (int, int, int) -> Option<string>

  /** The keywords of `extract_doc_date`, an alternation tried in this order. */
  const DateKeywords: seq<string> := ["發文日期", "發文日", "來文日期", "來文日", "發文時間", "來文時間"]

  /** The era year 1 of the Republic of China is 1912. */
  const RocOffset: int := 1911

  /** How far the window around a keyword reaches before and after it. */
  const Before: nat := 20
  const After: nat := 30

  // ----- the two patterns -----

  /** `\s*` from `i`. */
  function SkipSpaces(s: string, i: nat): (j: nat)
    ensures i <= j && (j <= |s| || j == i)
    ensures forall k :: i <= k < j ==> IsSpace(s[k])
    ensures j < |s| ==> !IsSpace(s[j])
  {
    i + Run(s, i, IsSpace)
  }

  /** A one-character optional class `[...]?` at `i`. */
  function OptChar(s: string, i: nat, cls: char -> bool): (j: nat)
    ensures j == i || (j == i + 1 && i < |s| && cls(s[i]))
  {
    if i < |s| && cls(s[i]) then i + 1 else i
  }

  /** `[./\-年]`. */
  predicate IsYearSep(c: char) {
    c == '.' || c == '/' || c == '-' || c == '年'
  }

  /** `[./\-月]`. */
  predicate IsMonthSep(c: char) {
    c == '.' || c == '/' || c == '-' || c == '月'
  }

  /** The digit groups hold digits only, in the counts the patterns allow. */
  predicate DateShape(g: DateGroups, yMin: nat, yMax: nat) {
    && yMin <= |g.y| <= yMax && AllDigits(g.y)
    && 1 <= |g.m| <= 2 && AllDigits(g.m)
    && 1 <= |g.d| <= 2 && AllDigits(g.d)
  }

  /** One `\s*(\d{lo,hi})\s*lit` step of a pattern. */
  datatype FieldSpec = FieldSpec(lo: nat, hi: nat, lit: char)

  /** Where one step's digits begin, how many there are, and where its literal sits. */
  datatype FieldPos = FieldPos(digits: nat, count: nat, lit: nat)

  /** The three steps of `DATE_ROC_RE` after `民國`: year, month and day. */
  const RocSpecs: seq<FieldSpec> := [FieldSpec(2, 3, '年'), FieldSpec(1, 2, '月'), FieldSpec(1, 2, '日')]

  /**
   * The step `spec` at `i`: where the engine finds its digits and its literal. The
   * group can only be a whole run of digits: any digit it left behind would sit where
   * `\s*` and the literal are needed, so the run must have an allowed length.
   */
  function Field(s: string, i: nat, spec: FieldSpec): (r: Option<FieldPos>)
    ensures r.Some? ==> i <= r.value.digits && spec.lo <= r.value.count <= spec.hi
    ensures r.Some? ==> r.value.digits + r.value.count <= r.value.lit < |s|
  {
    var a := SkipSpaces(s, i);
    var n := Run(s, a, IsDigit);
    if !(spec.lo <= n <= spec.hi) then None
    else
      var b := SkipSpaces(s, a + n);
      if !(b < |s| && s[b] == spec.lit) then None
      else Some(FieldPos(a, n, b))
  }

  /** A way of reading one step at a position: where it finds the digits and the literal. */
  type Reader = (string, nat, FieldSpec) -> Option<FieldPos>

  /** A reader that only reports digits and a literal inside the text, at or after the start. */
  ghost predicate InText(read: Reader) {
    forall s: string, i: nat, spec: FieldSpec :: read(s, i, spec).Some? ==>
      var f := read(s, i, spec).value;
      i <= f.digits && f.digits + f.count <= f.lit < |s|
  }

  /** `Field` is such a reader. */
  lemma FieldInText()
    ensures InText(Field)
  {
  }

  /**
   * The steps `specs` read in turn from `i` with `read`, each going on just after the
   * previous literal.
   */
  function Steps(read: Reader, s: string, i: nat, specs: seq<FieldSpec>): (r: Option<seq<FieldPos>>)
    requires InText(read)
    ensures r.Some? ==> |r.value| == |specs|
    ensures r.Some? ==> forall t :: 0 <= t < |r.value| ==>
      i <= r.value[t].digits && r.value[t].digits + r.value[t].count <= r.value[t].lit < |s|
    decreases |specs|
  {
    if |specs| == 0 then Some([])
    else
      match read(s, i, specs[0])
      case None => None
      case Some(f) =>
        match Steps(read, s, f.lit + 1, specs[1..])
        case None => None
        case Some(fs) => Some([f] + fs)
  }

  /** The digit groups of the three era-year steps. */
  function RocGroups(s: string, fs: seq<FieldPos>): DateGroups
    requires |fs| == 3 && forall t :: 0 <= t < 3 ==> fs[t].digits + fs[t].count <= |s|
  {
    DateGroups(s[fs[0].digits..fs[0].digits + fs[0].count],
               s[fs[1].digits..fs[1].digits + fs[1].count],
               s[fs[2].digits..fs[2].digits + fs[2].count])
  }

  /**
   * `DATE_ROC_RE.match(s, p)` for `民國\s*(\d{2,3})\s*年\s*(\d{1,2})\s*月\s*(\d{1,2})\s*日`:
   * `民國` and then the three steps of `RocSpecs`; the match ends after `日`. What a
   * match satisfies is stated in `RocSound` and `RocComplete`.
   */
  function RocAt(s: string, p: nat): Option<Hit<DateGroups>> {
    if !HasPrefixAt(s, p, "民國") then None
    else
      FieldInText();
      match Steps(Field, s, p + 2, RocSpecs)
      case None => None
      case Some(fs) => Some(Hit(p, fs[2].lit + 1, RocGroups(s, fs)))
  }

  /** `\s*日?` after the day: the spaces are kept even when no `日` follows. */
  function DayEnd(s: string, i: nat): (j: nat)
    requires i <= |s|
    ensures i <= j <= |s|
  {
    var k := SkipSpaces(s, i);
    if HasPrefixAt(s, k, "日") then k + 1 else k
  }

  /**
   * `(\d{1,2})[./\-月]?\s*(\d{1,2})` at `a`: the lengths of month and day and where the
   * day begins. The month takes two digits when a day can still follow them, else
   * one; in the second case the day begins right after the month's digit.
   */
  function MonthDay(s: string, a: nat): (r: Option<(nat, nat, nat)>)
    ensures r.Some? ==> var (nm, b, nd) := r.value;
      && (nm == 1 || nm == 2) && DigitsAt(s, a, nm) && a + nm <= b
      && 1 <= nd <= 2 && DigitsAt(s, b, nd)
  {
    var n := Run(s, a, IsDigit);
    var b2 := SkipSpaces(s, OptChar(s, a + 2, IsMonthSep));
    var n2 := Run(s, b2, IsDigit);
    if n >= 2 && n2 >= 1 then Some((2, b2, Min(n2, 2)))
    else if n >= 1 then
      var b1 := SkipSpaces(s, OptChar(s, a + 1, IsMonthSep));
      var n1 := Run(s, b1, IsDigit);
      if n1 == 0 then None else Some((1, b1, Min(n1, 2)))
    else None
  }

  /** `DATE_ISO_RE.match(s, p)` for `(20\d{2})[./\-年]?\s*(\d{1,2})[./\-月]?\s*(\d{1,2})\s*日?`. */
  function IsoAt(s: string, p: nat): (r: Option<Hit<DateGroups>>)
    ensures r.Some? ==> r.value.start == p && p < r.value.end <= |s|
    ensures r.Some? ==> DateShape(r.value.groups, 4, 4) && r.value.groups.y[0] == '2' && r.value.groups.y[1] == '0'
  {
    // `2` and `0` are digits themselves, so `20\d{2}` is four digits starting with `20`.
    if !(DigitsAt(s, p, 4) && s[p] == '2' && s[p + 1] == '0') then None
    else
      var a := SkipSpaces(s, OptChar(s, p + 4, IsYearSep));
      match MonthDay(s, a)
      case None => None
      case Some((nm, b, nd)) =>
        var y := DigitRun(s, p, 4);
        assert y[0] == s[p] && y[1] == s[p + 1];
        Some(Hit(p, DayEnd(s, b + nd), DateGroups(y, DigitRun(s, a, nm), DigitRun(s, b, nd))))
  }

  /** The keyword alternation at one position. */
  function KeywordAt(s: string, p: nat): (r: Option<Hit<nat>>)
    ensures r.Some? ==> r.value.start == p && p < r.value.end <= |s| && r.value.groups < |DateKeywords|
    ensures r.Some? ==> HasPrefixAt(s, p, DateKeywords[r.value.groups]) && r.value.end == p + |DateKeywords[r.value.groups]|
  {
    LiteralAt(DateKeywords, s, p)
  }

  /** `\s*(\d+)\s*` laid out by positions: spaces on `[i, a)`, `n` digits, spaces up to `j`. */
  ghost predicate SpacedDigits(s: string, i: nat, a: nat, n: nat, j: nat) {
    && i <= a && a + n <= j <= |s| && DigitsAt(s, a, n)
    && (forall k :: i <= k < a ==> IsSpace(s[k]))
    && (forall k :: a + n <= k < j ==> IsSpace(s[k]))
  }

  /** The step `spec` laid out from `i` at the positions `f`. */
  ghost predicate FieldLaid(s: string, i: nat, f: FieldPos, spec: FieldSpec) {
    && SpacedDigits(s, i, f.digits, f.count, f.lit)
    && spec.lo <= f.count <= spec.hi && f.lit < |s| && s[f.lit] == spec.lit
  }

  /** The steps `specs` laid out from `i` at the positions `fs`, one after the other. */
  ghost predicate Laid(s: string, i: nat, specs: seq<FieldSpec>, fs: seq<FieldPos>)
    decreases |specs|
  {
    && |fs| == |specs|
    && (|specs| > 0 ==> FieldLaid(s, i, fs[0], specs[0]) && Laid(s, fs[0].lit + 1, specs[1..], fs[1..]))
  }

  /** What the engine reads for one step is a layout of that step. */
  lemma FieldSound(s: string, i: nat, spec: FieldSpec)
    ensures Field(s, i, spec).Some? ==> FieldLaid(s, i, Field(s, i, spec).value, spec)
  {
    var a := SkipSpaces(s, i);
    var n := Run(s, a, IsDigit);
    if Field(s, i, spec).Some? {
      RunCovers(s, a, a + n, IsDigit);
    }
  }

  /** A reading of the steps is a reading of the first step followed by one of the rest. */
  lemma StepsUncons(read: Reader, s: string, i: nat, specs: seq<FieldSpec>, fs: seq<FieldPos>)
    requires InText(read) && |specs| > 0 && Steps(read, s, i, specs) == Some(fs)
    ensures |fs| > 0 && read(s, i, specs[0]) == Some(fs[0])
    ensures Steps(read, s, fs[0].lit + 1, specs[1..]) == Some(fs[1..])
  {
    var f := read(s, i, specs[0]).value;
    var rest := Steps(read, s, f.lit + 1, specs[1..]).value;
    assert fs == [f] + rest;
    assert fs[1..] == rest;
  }

  /** A reading of the first step followed by one of the rest is a reading of the steps. */
  lemma StepsCons(read: Reader, s: string, i: nat, specs: seq<FieldSpec>, fs: seq<FieldPos>)
    requires InText(read) && |specs| > 0 && |fs| > 0 && read(s, i, specs[0]) == Some(fs[0])
    requires Steps(read, s, fs[0].lit + 1, specs[1..]) == Some(fs[1..])
    ensures Steps(read, s, i, specs) == Some(fs)
  {
    assert fs == [fs[0]] + fs[1..];
  }

  /** A reader that reads only layouts of a step. */
  ghost predicate ReadsLaid(read: Reader) {
    forall s: string, i: nat, spec: FieldSpec :: read(s, i, spec).Some? ==>
      FieldLaid(s, i, read(s, i, spec).value, spec)
  }

  /** A reader that reads every layout of a plain step as laid out. */
  ghost predicate ReadsLayouts(read: Reader) {
    forall s: string, i: nat, f: FieldPos, spec: FieldSpec :: FieldLaid(s, i, f, spec) && Plain(spec) ==>
      read(s, i, spec) == Some(f)
  }

  /** What a reader of layouts reads for the steps is a layout of the steps. */
  lemma {:induction false} StepsSound(read: Reader, s: string, i: nat, specs: seq<FieldSpec>, fs: seq<FieldPos>)
    requires InText(read) && ReadsLaid(read) && Steps(read, s, i, specs) == Some(fs)
    ensures Laid(s, i, specs, fs)
    decreases |specs|
  {
    if |specs| > 0 {
      StepsUncons(read, s, i, specs, fs);
      StepsSound(read, s, fs[0].lit + 1, specs[1..], fs[1..]);
    }
  }

  /** A reader of every layout reads every layout of plain steps as laid out. */
  lemma {:induction false} StepsComplete(read: Reader, s: string, i: nat, specs: seq<FieldSpec>, fs: seq<FieldPos>)
    requires InText(read) && ReadsLayouts(read) && Laid(s, i, specs, fs)
    requires forall t :: 0 <= t < |specs| ==> Plain(specs[t])
    ensures Steps(read, s, i, specs) == Some(fs)
    decreases |specs|
  {
    if |specs| > 0 {
      assert forall t :: 0 <= t < |specs[1..]| ==> specs[1..][t] == specs[t + 1];
      StepsComplete(read, s, fs[0].lit + 1, specs[1..], fs[1..]);
      StepsCons(read, s, i, specs, fs);
    }
  }

  /** Each laid-out group is a run of digits of a length its step allows. */
  lemma {:induction false} LaidShape(s: string, i: nat, specs: seq<FieldSpec>, fs: seq<FieldPos>)
    requires Laid(s, i, specs, fs)
    ensures forall t :: 0 <= t < |specs| ==>
      specs[t].lo <= fs[t].count <= specs[t].hi && DigitsAt(s, fs[t].digits, fs[t].count)
    decreases |specs|
  {
    if |specs| > 0 {
      LaidShape(s, fs[0].lit + 1, specs[1..], fs[1..]);
      forall t | 1 <= t < |specs|
        ensures specs[t].lo <= fs[t].count <= specs[t].hi && DigitsAt(s, fs[t].digits, fs[t].count)
      {
        assert specs[1..][t - 1] == specs[t] && fs[1..][t - 1] == fs[t];
      }
    }
  }

  /** A match of `DATE_ROC_RE` is non-empty and its groups are 2-3, 1-2 and 1-2 digits. */
  lemma RocSound(s: string, p: nat)
    ensures RocAt(s, p).Some? ==> RocAt(s, p).value.start == p && p < RocAt(s, p).value.end <= |s|
    ensures RocAt(s, p).Some? ==> DateShape(RocAt(s, p).value.groups, 2, 3)
  {
    FieldInText();
    if RocAt(s, p).Some? {
      var fs := Steps(Field, s, p + 2, RocSpecs).value;
      FieldsSound(s, p + 2, RocSpecs, fs);
      LaidShape(s, p + 2, RocSpecs, fs);
      RocGroupsShape(s, fs);
    }
  }

  /** Groups read by the three era-year steps have the lengths the steps allow. */
  lemma RocGroupsShape(s: string, fs: seq<FieldPos>)
    requires |fs| == 3
    requires 2 <= fs[0].count <= 3 && DigitsAt(s, fs[0].digits, fs[0].count)
    requires 1 <= fs[1].count <= 2 && DigitsAt(s, fs[1].digits, fs[1].count)
    requires 1 <= fs[2].count <= 2 && DigitsAt(s, fs[2].digits, fs[2].count)
    ensures DateShape(RocGroups(s, fs), 2, 3)
  {
    var g := RocGroups(s, fs);
    assert g.y == DigitRun(s, fs[0].digits, fs[0].count);
    assert g.m == DigitRun(s, fs[1].digits, fs[1].count);
    assert g.d == DigitRun(s, fs[2].digits, fs[2].count);
  }

  /** Every era-year match in `s` has the group shape `RocSound` states. */
  ghost predicate RocShaped(s: string) {
    forall p: nat :: RocAt(s, p).Some? ==> DateShape(RocAt(s, p).value.groups, 2, 3)
  }

  lemma PatternsSound(s: string)
    ensures Sound(RocAt, s) && Sound(IsoAt, s) && Sound(KeywordAt, s) && RocShaped(s)
  {
    forall p: nat
      ensures RocAt(s, p).Some? ==> RocAt(s, p).value.start == p && p < RocAt(s, p).value.end <= |s|
      ensures RocAt(s, p).Some? ==> DateShape(RocAt(s, p).value.groups, 2, 3)
    {
      RocSound(s, p);
    }
  }

  // ----- completeness: every text the patterns describe is matched -----

  /** No character is both `\s` and `\d`. */
  lemma SpaceNotDigit(c: char)
    ensures IsSpace(c) ==> !IsDigit(c)
  {
  }

  /** A step whose literal is neither space nor digit, and which needs a digit. */
  predicate Plain(spec: FieldSpec) {
    1 <= spec.lo && !IsSpace(spec.lit) && !IsDigit(spec.lit)
  }

  /**
   * For a plain step, the engine's greedy `\s*`, `\d+` and `\s*` settle exactly on
   * any layout, so the step is read as laid out.
   */
  lemma FieldComplete(s: string, i: nat, f: FieldPos, spec: FieldSpec)
    requires FieldLaid(s, i, f, spec) && Plain(spec)
    ensures Field(s, i, spec) == Some(f)
  {
    var a, n, j := f.digits, f.count, f.lit;
    assert SkipSpaces(s, i) == a by {
      SpaceNotDigit(s[a]);
      RunExact(s, i, a, IsSpace);
    }
    assert Run(s, a, IsDigit) == n by {
      if a + n < j {
        SpaceNotDigit(s[a + n]);
      }
      RunExact(s, a, a + n, IsDigit);
    }
    assert SkipSpaces(s, a + n) == j by {
      RunExact(s, a + n, j, IsSpace);
    }
    FieldReads(s, i, spec, a, n, j);
  }

  /** `Field` keeps the positions its three runs settle on. */
  lemma FieldReads(s: string, i: nat, spec: FieldSpec, a: nat, n: nat, j: nat)
    requires SkipSpaces(s, i) == a && Run(s, a, IsDigit) == n && spec.lo <= n <= spec.hi
    requires SkipSpaces(s, a + n) == j && j < |s| && s[j] == spec.lit
    ensures Field(s, i, spec) == Some(FieldPos(a, n, j))
  {
  }

  /** `Field` reads only layouts, and every layout of a plain step. */
  lemma FieldReadsLayouts()
    ensures ReadsLaid(Field) && ReadsLayouts(Field)
  {
    forall s: string, i: nat, spec: FieldSpec
      ensures Field(s, i, spec).Some? ==> FieldLaid(s, i, Field(s, i, spec).value, spec)
    {
      FieldSound(s, i, spec);
    }
    forall s: string, i: nat, f: FieldPos, spec: FieldSpec | FieldLaid(s, i, f, spec) && Plain(spec)
      ensures Field(s, i, spec) == Some(f)
    {
      FieldComplete(s, i, f, spec);
    }
  }

  /** What `Field` reads for the steps is a layout of the steps. */
  lemma FieldsSound(s: string, i: nat, specs: seq<FieldSpec>, fs: seq<FieldPos>)
    requires (FieldInText(); Steps(Field, s, i, specs) == Some(fs))
    ensures Laid(s, i, specs, fs)
  {
    FieldReadsLayouts();
    StepsSound(Field, s, i, specs, fs);
  }

  /** `Field` reads every layout of plain steps as laid out. */
  lemma FieldsComplete(s: string, i: nat, specs: seq<FieldSpec>, fs: seq<FieldPos>)
    requires Laid(s, i, specs, fs) && forall t :: 0 <= t < |specs| ==> Plain(specs[t])
    ensures (FieldInText(); Steps(Field, s, i, specs) == Some(fs))
  {
    FieldInText();
    FieldReadsLayouts();
    StepsComplete(Field, s, i, specs, fs);
  }

  /** For plain steps, the engine reads exactly the layouts: nothing else and nothing less. */
  lemma FieldsExact(s: string, i: nat, specs: seq<FieldSpec>, fs: seq<FieldPos>)
    requires forall t :: 0 <= t < |specs| ==> Plain(specs[t])
    ensures (FieldInText(); Steps(Field, s, i, specs) == Some(fs)) <==> Laid(s, i, specs, fs)
  {
    FieldInText();
    if Steps(Field, s, i, specs) == Some(fs) {
      FieldsSound(s, i, specs, fs);
    }
    if Laid(s, i, specs, fs) {
      FieldsComplete(s, i, specs, fs);
    }
  }

  /**
   * Every era-year date is matched: when `民國` at `p` is followed by the year, month
   * and day steps laid out at `fs`, the match ends just after the laid-out `日` and its
   * groups are the laid-out digits.
   */
  lemma RocComplete(s: string, p: nat, fs: seq<FieldPos>)
    requires HasPrefixAt(s, p, "民國") && Laid(s, p + 2, RocSpecs, fs)
    ensures (FieldInText(); Steps(Field, s, p + 2, RocSpecs) == Some(fs))
    ensures RocAt(s, p).Some? && RocAt(s, p).value.start == p && RocAt(s, p).value.end == fs[2].lit + 1
    ensures RocAt(s, p).value.groups == RocGroups(s, fs)
  {
    FieldsComplete(s, p + 2, RocSpecs, fs);
    RocOfFields(s, p, fs);
  }

  /** Once the steps are read at `fs`, the match is built from them. */
  lemma RocOfFields(s: string, p: nat, fs: seq<FieldPos>)
    requires HasPrefixAt(s, p, "民國") && (FieldInText(); Steps(Field, s, p + 2, RocSpecs) == Some(fs))
    ensures RocAt(s, p).Some? && RocAt(s, p).value.start == p && RocAt(s, p).value.end == fs[2].lit + 1
    ensures RocAt(s, p).value.groups == RocGroups(s, fs)
  {
  }

  /**
   * `[sep]?\s*` laid out by positions: what lies on `[i, j)` is an optional separator
   * followed by spaces.
   */
  ghost predicate SepSpaces(s: string, i: nat, j: nat, sep: char -> bool) {
    && i <= j <= |s|
    && (i < j ==> IsSpace(s[i]) || sep(s[i]))
    && (forall k :: i < k < j ==> IsSpace(s[k]))
  }

  /** Before a digit, `OptChar` then `SkipSpaces` settle on that digit. */
  lemma SepSpacesRead(s: string, i: nat, j: nat, sep: char -> bool)
    requires SepSpaces(s, i, j, sep) && j < |s| && IsDigit(s[j])
    requires forall c :: sep(c) ==> !IsSpace(c) && !IsDigit(c)
    ensures SkipSpaces(s, OptChar(s, i, sep)) == j
  {
    SpaceNotDigit(s[j]);
    if i < j && sep(s[i]) {
      RunExact(s, i + 1, j, IsSpace);
    } else {
      RunExact(s, i, j, IsSpace);
    }
  }

  lemma SepsNotSpaceOrDigit()
    ensures forall c :: IsYearSep(c) ==> !IsSpace(c) && !IsDigit(c)
    ensures forall c :: IsMonthSep(c) ==> !IsSpace(c) && !IsDigit(c)
  {
  }

  /** Whenever a month and a day are laid out after `a`, `MonthDay` finds a reading. */
  lemma MonthDayComplete(s: string, a: nat, nm: nat, b: nat, nd: nat)
    requires (nm == 1 || nm == 2) && DigitsAt(s, a, nm) && SepSpaces(s, a + nm, b, IsMonthSep)
    requires 1 <= nd <= 2 && DigitsAt(s, b, nd)
    ensures MonthDay(s, a).Some?
  {
    if nm == 2 {
      MonthDayLaid(s, a, 2, b, nd);
      MonthDayTwo(s, a, b);
    } else {
      MonthDayLaid(s, a, 1, b, nd);
      MonthDayOne(s, a, b);
    }
  }

  /** On a laid-out month and day, the runs and skips `MonthDay` uses settle on the layout. */
  lemma MonthDayLaid(s: string, a: nat, nm: nat, b: nat, nd: nat)
    requires (nm == 1 || nm == 2) && DigitsAt(s, a, nm) && SepSpaces(s, a + nm, b, IsMonthSep)
    requires 1 <= nd <= 2 && DigitsAt(s, b, nd)
    ensures Run(s, a, IsDigit) >= nm && Run(s, b, IsDigit) >= 1
    ensures SkipSpaces(s, OptChar(s, a + nm, IsMonthSep)) == b
  {
    RunCovers(s, a, a + nm, IsDigit);
    RunCovers(s, b, b + 1, IsDigit);
    SepsNotSpaceOrDigit();
    SepSpacesRead(s, a + nm, b, IsMonthSep);
  }

  /** A two-digit month followed by a day digit is read. */
  lemma MonthDayTwo(s: string, a: nat, b: nat)
    requires Run(s, a, IsDigit) >= 2 && Run(s, b, IsDigit) >= 1
    requires SkipSpaces(s, OptChar(s, a + 2, IsMonthSep)) == b
    ensures MonthDay(s, a).Some?
  {
  }

  /** A month digit followed by a day digit is read, with one month digit or two. */
  lemma MonthDayOne(s: string, a: nat, b: nat)
    requires Run(s, a, IsDigit) >= 1 && Run(s, b, IsDigit) >= 1
    requires SkipSpaces(s, OptChar(s, a + 1, IsMonthSep)) == b
    ensures MonthDay(s, a).Some?
  {
  }

  /**
   * A date in the common-era layout: four digits `20..` at `p`, an optional year
   * separator and spaces up to `a`, the month's digits, an optional month separator
   * and spaces up to `b`, the day's digits.
   */
  ghost predicate IsIsoDate(s: string, p: nat, a: nat, nm: nat, b: nat, nd: nat) {
    && DigitsAt(s, p, 4) && s[p] == '2' && s[p + 1] == '0'
    && SepSpaces(s, p + 4, a, IsYearSep)
    && (nm == 1 || nm == 2) && DigitsAt(s, a, nm) && SepSpaces(s, a + nm, b, IsMonthSep)
    && 1 <= nd <= 2 && DigitsAt(s, b, nd)
  }

  /** Every common-era date is matched, and its year group is its own four digits. */
  lemma IsoComplete(s: string, p: nat, a: nat, nm: nat, b: nat, nd: nat)
    requires IsIsoDate(s, p, a, nm, b, nd)
    ensures IsoAt(s, p).Some? && IsoAt(s, p).value.groups.y == s[p..p + 4]
  {
    SepsNotSpaceOrDigit();
    SepSpacesRead(s, p + 4, a, IsYearSep);
    MonthDayComplete(s, a, nm, b, nd);
  }

  // ----- the conversions -----

  predicate IsLeap(y: int) {
    y % 4 == 0 && (y % 100 != 0 || y % 400 == 0)
  }

  function DaysInMonth(y: int, m: int): int
    requires 1 <= m <= 12
  {
    if m == 2 then (if IsLeap(y) then 29 else 28)
    else if m == 4 || m == 6 || m == 9 || m == 11 then 30
    else 31
  }

  /** What `datetime(y, m, d)` accepts: years 1..9999 of the proleptic Gregorian calendar. */
  predicate ValidDate(y: int, m: int, d: int) {
    1 <= y <= 9999 && 1 <= m <= 12 && 1 <= d <= DaysInMonth(y, m)
  }

  /** The last `w` decimal digits of `n`, zero-padded. */
  function Pad(n: nat, w: nat): (t: string)
    ensures |t| == w && forall k :: 0 <= k < w ==> IsAsciiDigit(t[k])
  {
    if w == 0 then "" else Pad(n / 10, w - 1) + [('0' as int + n % 10) as char]
  }

  function Pow10(w: nat): nat {
    if w == 0 then 1 else 10 * Pow10(w - 1)
  }

  /** A number of at most `w` digits is read back from its padded form. */
  lemma {:induction false} PadNumber(n: nat, w: nat)
    requires n < Pow10(w)
    ensures Number(Pad(n, w)) == n
  {
    if w > 0 {
      var t := Pad(n, w);
      assert t[..w - 1] == Pad(n / 10, w - 1);
      assert n / 10 < Pow10(w - 1);
      PadNumber(n / 10, w - 1);
      assert DigitValue(t[w - 1]) == n % 10;
      assert Number(t) == Number(t[..w - 1]) * 10 + n % 10;
    }
  }

  /** `datetime(y, m, d).strftime("%Y-%m-%d")` as the code intends it. */
  function FormatIntended(y: int, m: int, d: int): Option<string> {
    if ValidDate(y, m, d) then Some(Pad(y, 4) + "-" + Pad(m, 2) + "-" + Pad(d, 2)) else None
  }

  /** The same call as written: `datetime` is not imported, so it always raises. */
  function FormatAsWritten(y: int, m: int, d: int): Option<string> {
    None
  }

  /** `YYYY-MM-DD`: four, two and two digits. */
  predicate IsoShaped(t: string) {
    && |t| == 10 && t[4] == '-' && t[7] == '-'
    && AllDigits(t[..4]) && AllDigits(t[5..7]) && AllDigits(t[8..])
  }

  /**
   * The intended conversion succeeds exactly on calendar dates, and then gives the
   * year, month and day back, zero-padded: it never coerces an invalid date.
   */
  lemma FormatIntendedRoundTrip(y: int, m: int, d: int)
    ensures FormatIntended(y, m, d).Some? <==> ValidDate(y, m, d)
    ensures FormatIntended(y, m, d).Some? ==>
      var t := FormatIntended(y, m, d).value;
      IsoShaped(t) && Number(t[..4]) == y && Number(t[5..7]) == m && Number(t[8..]) == d
  {
    if ValidDate(y, m, d) {
      assert Pow10(4) == 10000 && Pow10(2) == 100;
      PadNumber(y, 4);
      PadNumber(m, 2);
      PadNumber(d, 2);
      IsoJoin(Pad(y, 4), Pad(m, 2), Pad(d, 2));
    }
  }

  /** Four, two and two digits joined by dashes are `YYYY-MM-DD`, and the pieces can be read back. */
  lemma IsoJoin(a: string, b: string, c: string)
    requires |a| == 4 && |b| == 2 && |c| == 2 && AllDigits(a) && AllDigits(b) && AllDigits(c)
    ensures var t := a + "-" + b + "-" + c;
      IsoShaped(t) && t[..4] == a && t[5..7] == b && t[8..] == c
  {
    var t := a + "-" + b + "-" + c;
    assert t[..4] == a;
    assert t[5..7] == b;
    assert t[8..] == c;
  }

  /** `normalize_date_roc_to_iso(y, m, d)`, with the call to `datetime` as `fmt`. */
  function NormalizeRocToIso(fmt: Converter, y: int, m: int, d: int): Option<string> {
    fmt(RocOffset + y, m, d)
  }

  /** With the intended conversion: the era year plus 1911, checked against the calendar. */
  lemma NormalizeRocToIsoIntended(y: int, m: int, d: int)
    ensures NormalizeRocToIso(FormatIntended, y, m, d).Some? <==> ValidDate(y + 1911, m, d)
    ensures NormalizeRocToIso(FormatIntended, y, m, d).Some? ==>
      var t := NormalizeRocToIso(FormatIntended, y, m, d).value;
      IsoShaped(t) && Number(t[..4]) == y + 1911 && Number(t[5..7]) == m && Number(t[8..]) == d
  {
    FormatIntendedRoundTrip(y + 1911, m, d);
  }

  /**
   * Era year 100, September 9th: as written the conversion gives `None`; as intended it
   * gives 2011-09-09. Month 13 is rejected, not wrapped into the next year.
   */
  lemma ConversionExample()
    ensures NormalizeRocToIso(FormatAsWritten, 100, 9, 9) == None
    ensures NormalizeRocToIso(FormatIntended, 100, 9, 9) == Some("2011-09-09")
    ensures NormalizeRocToIso(FormatIntended, 100, 13, 1) == None
  {
    assert Pad(2011, 4) == "2011";
    assert Pad(9, 2) == "09";
    assert ValidDate(2011, 9, 9);
    assert "2011" + "-" + "09" + "-" + "09" == "2011-09-09";
  }

  /** `map(int, m.groups())`, then the conversion. */
  function Convert(fmt: Converter, g: DateGroups, era: bool): Option<string>
    requires AllDigits(g.y) && AllDigits(g.m) && AllDigits(g.d)
  {
    if era then NormalizeRocToIso(fmt, Number(g.y), Number(g.m), Number(g.d))
    else fmt(Number(g.y), Number(g.m), Number(g.d))
  }

  // ----- extract_doc_date -----

  /** `text[max(0, start - 20):min(len(text), end + 30)]` around a keyword. */
  function KeywordWindow(text: string, h: Hit<nat>): string {
    if h.start <= h.end <= |text| then Window(text, h.start, h.end, Before, After) else ""
  }

  /**
   * The body of the keyword loop for one window: the first era-year match, kept when
   * its conversion is a non-empty string; else the first common-era match, kept when
   * its conversion does not raise. `None` means the loop goes on.
   */
  function WindowDate(win: string, fmt: Converter): Option<string> {
    PatternsSound(win);
    var m1 := Search(win, RocAt, 0);
    var fromRoc := if m1.Some? then Convert(fmt, m1.value.groups, true) else None;
    if fromRoc.Some? && fromRoc.value != "" then fromRoc
    else
      var m2 := Search(win, IsoAt, 0);
      if m2.Some? then Convert(fmt, m2.value.groups, false) else None
  }

  /** The keyword occurrences, in text order. */
  function KeywordHits(text: string): (ks: seq<Hit<nat>>)
    ensures forall j :: 0 <= j < |ks| ==> KeywordAt(text, ks[j].start) == Some(ks[j])
    ensures forall i, j :: 0 <= i < j < |ks| ==> ks[i].end <= ks[j].start
  {
    PatternsSound(text);
    FindIterOrdered(text, KeywordAt, 0);
    FindIter(text, KeywordAt, 0)
  }

  /**
   * The window around a keyword occurrence is a piece of the text that holds the
   * keyword, with at most 20 characters before it and 30 after it.
   */
  lemma KeywordWindowAround(text: string, h: Hit<nat>)
    requires KeywordAt(text, h.start) == Some(h)
    ensures var win := KeywordWindow(text, h);
      var kw := DateKeywords[h.groups];
      IsInfix(text, win) && Contains(win, kw) && |win| <= Before + |kw| + After
  {
    WindowAround(text, h.start, h.end, Before, After);
    assert text[h.start..h.end] == DateKeywords[h.groups];
  }

  /** The windows around the keyword occurrences, in text order. */
  function KeywordWindows(text: string): (wins: seq<string>)
    ensures |wins| == |KeywordHits(text)|
    ensures forall j :: 0 <= j < |wins| ==> wins[j] == KeywordWindow(text, KeywordHits(text)[j])
  {
    var ks := KeywordHits(text);
    seq(|ks|, j requires 0 <= j < |ks| => KeywordWindow(text, ks[j]))
  }

  /**
   * The keyword loop from window `i` on, with `attempt` as its body: the result of the
   * first window, in text order, for which the body returns.
   */
  function FirstAttempt(wins: seq<string>, attempt: string -> Option<string>, i: nat): Option<string>
    decreases |wins| - i
  {
    if i >= |wins| then None
    else if attempt(wins[i]).Some? then attempt(wins[i])
    else FirstAttempt(wins, attempt, i + 1)
  }

  /** The loop body of `extract_doc_date` for the conversion `fmt`. */
  function Attempt(fmt: Converter): string -> Option<string> {
    win => WindowDate(win, fmt)
  }

  /**
   * The fallback on the whole text: when an era-year match exists its conversion is
   * the answer, even `None`; only otherwise is the common-era pattern consulted.
   */
  function FallbackDate(text: string, fmt: Converter): Option<string> {
    PatternsSound(text);
    match Search(text, RocAt, 0)
    case Some(m1) => Convert(fmt, m1.groups, true)
    case None =>
      match Search(text, IsoAt, 0)
      case Some(m2) => Convert(fmt, m2.groups, false)
      case None => None
  }

  /** What `extract_doc_date(text)` returns when `datetime(...)` behaves as `fmt`. */
  function DocDateSpec(text: string, fmt: Converter): Option<string> {
    var fromKeywords := FirstAttempt(KeywordWindows(text), Attempt(fmt), 0);
    if fromKeywords.Some? then fromKeywords else FallbackDate(text, fmt)
  }

  /** `extract_doc_date(text)`: the keyword loop with early return, then the fallback. */
  method ExtractDocDate(text: string, fmt: Converter) returns (r: Option<string>)
    ensures r == DocDateSpec(text, fmt)
  {
    var ks := KeywordHits(text);
    ghost var wins := KeywordWindows(text);
    var i := 0;
    while i < |ks|
      invariant 0 <= i <= |ks|
      invariant FirstAttempt(wins, Attempt(fmt), i) == FirstAttempt(wins, Attempt(fmt), 0)
    {
      var iso := WindowDate(KeywordWindow(text, ks[i]), fmt);
      assert wins[i] == KeywordWindow(text, ks[i]);
      if iso.Some? {
        return iso;
      }
      i := i + 1;
    }
    r := FallbackDate(text, fmt);
  }

  /** A converted match is an output of the conversion. */
  lemma ConvertFromConverter(fmt: Converter, g: DateGroups, era: bool)
    requires AllDigits(g.y) && AllDigits(g.m) && AllDigits(g.d)
    ensures exists y, m, d :: fmt(y, m, d) == Convert(fmt, g, era)
  {
    if era {
      assert fmt(RocOffset + Number(g.y), Number(g.m), Number(g.d)) == Convert(fmt, g, era);
    } else {
      assert fmt(Number(g.y), Number(g.m), Number(g.d)) == Convert(fmt, g, era);
    }
  }

  /** A window's date is an output of the conversion. */
  lemma WindowDateFromConverter(win: string, fmt: Converter)
    ensures WindowDate(win, fmt).Some? ==> exists y, m, d :: fmt(y, m, d) == WindowDate(win, fmt)
  {
    PatternsSound(win);
    var m1 := Search(win, RocAt, 0);
    var m2 := Search(win, IsoAt, 0);
    if m1.Some? {
      ConvertFromConverter(fmt, m1.value.groups, true);
    }
    if m2.Some? {
      ConvertFromConverter(fmt, m2.value.groups, false);
    }
  }

  /** The fallback's date is an output of the conversion. */
  lemma FallbackFromConverter(text: string, fmt: Converter)
    ensures FallbackDate(text, fmt).Some? ==> exists y, m, d :: fmt(y, m, d) == FallbackDate(text, fmt)
  {
    PatternsSound(text);
    var m1 := Search(text, RocAt, 0);
    var m2 := Search(text, IsoAt, 0);
    if m1.Some? {
      ConvertFromConverter(fmt, m1.value.groups, true);
    } else if m2.Some? {
      ConvertFromConverter(fmt, m2.value.groups, false);
    }
  }

  /** What the loop returns is the body's result for one of the windows. */
  lemma {:induction false} FirstAttemptFrom(wins: seq<string>, attempt: string -> Option<string>, i: nat)
    ensures FirstAttempt(wins, attempt, i).Some? ==>
      exists j :: i <= j < |wins| && FirstAttempt(wins, attempt, i) == attempt(wins[j])
    decreases |wins| - i
  {
    if i < |wins| && attempt(wins[i]).None? {
      FirstAttemptFrom(wins, attempt, i + 1);
    }
  }

  /** Every answer of `extract_doc_date` is an output of the conversion. */
  lemma DocDateFromConverter(text: string, fmt: Converter)
    ensures DocDateSpec(text, fmt).Some? ==>
      exists y, m, d :: fmt(y, m, d) == DocDateSpec(text, fmt)
  {
    var wins := KeywordWindows(text);
    FirstAttemptFrom(wins, Attempt(fmt), 0);
    if FirstAttempt(wins, Attempt(fmt), 0).Some? {
      var j :| 0 <= j < |wins| && FirstAttempt(wins, Attempt(fmt), 0) == Attempt(fmt)(wins[j]);
      WindowDateFromConverter(wins[j], fmt);
    }
    FallbackFromConverter(text, fmt);
  }

  /**
   * The keyword priority: when window `k` is the first, in text order, for which the
   * body returns, the loop answers with that window's result.
   */
  lemma {:induction false} FirstAttemptIs(wins: seq<string>, attempt: string -> Option<string>, i: nat, k: nat)
    requires i <= k < |wins| && attempt(wins[k]).Some?
    requires forall j :: i <= j < k ==> attempt(wins[j]).None?
    ensures FirstAttempt(wins, attempt, i) == attempt(wins[k])
    decreases k - i
  {
    if i < k {
      FirstAttemptIs(wins, attempt, i + 1, k);
    }
  }

  /** The loop finds nothing exactly when the body returns for no window. */
  lemma {:induction false} FirstAttemptNone(wins: seq<string>, attempt: string -> Option<string>, i: nat)
    ensures FirstAttempt(wins, attempt, i).None? <==> forall j :: i <= j < |wins| ==> attempt(wins[j]).None?
    decreases |wins| - i
  {
    if i < |wins| {
      FirstAttemptNone(wins, attempt, i + 1);
    }
  }

  /**
   * In each window the era-year pattern comes first: a non-empty conversion of its
   * first match is the window's date, whatever the common-era pattern finds.
   */
  lemma WindowPrefersEra(win: string, fmt: Converter)
    requires (PatternsSound(win); Search(win, RocAt, 0).Some?)
    requires (PatternsSound(win); var v := Convert(fmt, Search(win, RocAt, 0).value.groups, true); v.Some? && v.value != "")
    ensures (PatternsSound(win); WindowDate(win, fmt) == Convert(fmt, Search(win, RocAt, 0).value.groups, true))
  {
  }

  /**
   * In the whole-text fallback an era-year match decides, even when its conversion
   * fails: the common-era pattern is then not consulted.
   */
  lemma FallbackPrefersEra(text: string, fmt: Converter)
    requires FirstAttempt(KeywordWindows(text), Attempt(fmt), 0).None?
    requires (PatternsSound(text); Search(text, RocAt, 0).Some?)
    ensures (PatternsSound(text); DocDateSpec(text, fmt) == Convert(fmt, Search(text, RocAt, 0).value.groups, true))
  {
  }

  /**
   * The defect: with `datetime` unbound, `extract_doc_date` returns `None` for every
   * text, whatever dates it contains.
   */
  lemma DocDateAsWrittenNone(text: string)
    ensures DocDateSpec(text, FormatAsWritten) == None
  {
    DocDateFromConverter(text, FormatAsWritten);
  }

  /**
   * With the intended conversion every answer is a zero-padded `YYYY-MM-DD` of a
   * calendar date.
   */
  lemma DocDateIntendedValid(text: string)
    ensures DocDateSpec(text, FormatIntended).Some? ==>
      var t := DocDateSpec(text, FormatIntended).value;
      IsoShaped(t) && ValidDate(Number(t[..4]), Number(t[5..7]), Number(t[8..]))
  {
    DocDateFromConverter(text, FormatIntended);
    if DocDateSpec(text, FormatIntended).Some? {
      var y, m, d :| FormatIntended(y, m, d) == DocDateSpec(text, FormatIntended);
      FormatIntendedRoundTrip(y, m, d);
    }
  }
}
