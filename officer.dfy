/**
 * `extract_officer` (utils.py): the role word of the officer in charge and, when the
 * letter labels it, the name after it ("承辦人：王小明"). The labelled form is looked
 * for first; failing that, a bare role word gives the role alone.
 */
module Officer {
  import opened Wrappers
  import opened PyText
  import opened Matching

  /** `ROLE_WORDS`, in the order the alternation tries them. */
  const RoleWords: seq<string> := ["書記官", "承辦人", "聯絡人", "承辦", "股員", "股長", "專員"]

  /** `NAME_HINT` takes two to four characters. */
  const NameMin: nat := 2
  const NameMax: nat := 4

  /** The longest name the code still accepts: `len(name) > 5` rejects the rest. */
  const NameLimit: nat := 5

  /** `[^\s，、()（）]`: a character `NAME_HINT` allows in a name. */
  predicate IsNameChar(c: char) {
    !IsSpace(c) && c != '，' && c != '、' && c != '(' && c != ')' && c != '（' && c != '）'
  }

  lemma RoleWordsNonEmpty()
    ensures forall i :: 0 <= i < |RoleWords| ==> |RoleWords[i]| > 0
  {
  }

  /** A labelled match: which role word matched and where the name group lies. */
  datatype Label = Label(role: nat, lo: nat, hi: nat)

  /**
   * `[：:]\s*([^\s，、()（）]{2,4})` after a role word that ends at `q`. Whitespace is not
   * a name character, so giving back any of the `\s*` cannot help, and nothing
   * follows the name, so its greedy count is final: the name span is returned.
   */
  function NameAfter(s: string, q: nat): (r: Option<(nat, nat)>)
    ensures r.Some? ==> q < r.value.0 && r.value.0 + NameMin <= r.value.1 <= r.value.0 + NameMax && r.value.1 <= |s|
    ensures r.Some? ==> IsColon(s[q]) && forall i :: q < i < r.value.0 ==> IsSpace(s[i])
    ensures r.Some? ==> forall i :: r.value.0 <= i < r.value.1 ==> IsNameChar(s[i])
  {
    if q < |s| && IsColon(s[q]) then
      var lo := q + 1 + Run(s, q + 1, IsSpace);
      var n := Min(Run(s, lo, IsNameChar), NameMax);
      if n >= NameMin then Some((lo, lo + n)) else None
    else None
  }

  /** Role word `k` at `p` followed by the rest of the labelled pattern: the name's span. */
  function NamedRole(s: string, p: nat, k: nat): Option<(nat, nat)> {
    if k < |RoleWords| && HasPrefixAt(s, p, RoleWords[k]) then NameAfter(s, p + |RoleWords[k]|) else None
  }

  /** The alternatives of the labelled pattern at `p`, one per role word. */
  function RoleAttempts(s: string, p: nat): nat -> Option<(nat, nat)> {
    k => NamedRole(s, p, k)
  }

  /** The alternation from role word `k` on at `p`: the first role word that the rest of the pattern can follow. */
  function LabelFrom(s: string, p: nat, k: nat): (r: Option<Hit<Label>>)
    ensures r.Some? ==> r.value.start == p && p < r.value.end <= |s| && r.value.end == r.value.groups.hi
    ensures r.Some? ==> k <= r.value.groups.role && IsLabel(s, p, r.value.groups.role, r.value.groups.lo, r.value.groups.hi)
  {
    match FirstSome(RoleAttempts(s, p), k, |RoleWords|)
    case None => None
    case Some((i, span)) =>
      assert NamedRole(s, p, i) == Some(span);
      Some(Hit(p, span.1, Label(i, span.0, span.1)))
  }

  /** The pattern `(書記官|承辦人|…)[：:]\s*(NAME_HINT)` tried at `p`. */
  function LabelAt(s: string, p: nat): Option<Hit<Label>> {
    LabelFrom(s, p, 0)
  }

  /** The pattern `(書記官|承辦人|…)[：:]?` tried at `p`: the optional colon never fails, so the role word decides. */
  function RoleAt(s: string, p: nat): Option<Hit<nat>> {
    RoleWordsNonEmpty();
    LiteralAt(RoleWords, s, p)
  }

  lemma PatternsSound(s: string)
    ensures Sound(LabelAt, s) && Sound(RoleAt, s)
  {
  }

  /**
   * What the labelled pattern describes, stated without the engine: role word `k` at
   * `p`, a colon, only whitespace up to `lo`, and name characters from `lo` to `hi`,
   * two to four of them.
   */
  ghost predicate IsLabel(s: string, p: nat, k: nat, lo: nat, hi: nat) {
    && k < |RoleWords| && HasPrefixAt(s, p, RoleWords[k])
    && p + |RoleWords[k]| < lo && lo + NameMin <= hi <= lo + NameMax && hi <= |s|
    && IsColon(s[p + |RoleWords[k]|])
    && (forall i :: p + |RoleWords[k]| < i < lo ==> IsSpace(s[i]))
    && (forall i :: lo <= i < hi ==> IsNameChar(s[i]))
  }

  /**
   * The engine finds every label the description allows: wherever role word `j` has a
   * label at `p`, the alternation succeeds at `p`, with role word `j` or one tried
   * before it; with `j` itself the name starts where the label's does and is at least
   * as long.
   */
  lemma LabelFromComplete(s: string, p: nat, k: nat, j: nat, lo: nat, hi: nat)
    requires k <= j && IsLabel(s, p, j, lo, hi)
    ensures LabelFrom(s, p, k).Some? && LabelFrom(s, p, k).value.groups.role <= j
    ensures LabelFrom(s, p, k).value.groups.role == j ==>
      LabelFrom(s, p, k).value.groups.lo == lo && LabelFrom(s, p, k).value.groups.hi >= hi
  {
    NameAfterComplete(s, p + |RoleWords[j]|, lo, hi);
    assert RoleAttempts(s, p)(j) == NamedRole(s, p, j);
  }

  /** An explicit label after a role word ending at `q` is found, with its name start and at least its length. */
  lemma NameAfterComplete(s: string, q: nat, lo: nat, hi: nat)
    requires q < lo && lo + NameMin <= hi <= lo + NameMax && hi <= |s| && IsColon(s[q])
    requires forall i :: q < i < lo ==> IsSpace(s[i])
    requires forall i :: lo <= i < hi ==> IsNameChar(s[i])
    ensures NameAfter(s, q).Some? && NameAfter(s, q).value.0 == lo && NameAfter(s, q).value.1 >= hi
  {
    RunCovers(s, q + 1, lo, IsSpace);
    RunCovers(s, lo, hi, IsNameChar);
  }


  /** `re.search` of the labelled pattern. */
  function LeftmostLabel(text: string): Option<Hit<Label>> {
    PatternsSound(text);
    Search(text, LabelAt, 0)
  }

  /** `re.search` of the bare role pattern. */
  function LeftmostRole(text: string): Option<Hit<nat>> {
    PatternsSound(text);
    Search(text, RoleAt, 0)
  }

  /** The name a labelled match gives, before the filter. */
  function NameOf(s: string, h: Hit<Label>): string {
    if h.groups.lo <= h.groups.hi <= |s| then s[h.groups.lo..h.groups.hi] else ""
  }

  /** The filter `len(name) > 5 or '電話' in name`. */
  predicate Rejected(name: string) {
    |name| > NameLimit || Contains(name, "電話")
  }

  /** `extract_officer(text)`: `(role, name)`. */
  function ExtractOfficer(text: string): (r: (Option<string>, Option<string>))
    ensures r.0.Some? ==> r.0.value in RoleWords
    ensures r.1.Some? ==> r.0.Some?
  {
    var m := LeftmostLabel(text);
    if m.Some? then
      var name := NameOf(text, m.value);
      (Some(RoleWords[m.value.groups.role]), if Rejected(name) then None else Some(name))
    else
      match LeftmostRole(text)
      case Some(h) => (Some(RoleWords[h.groups]), None)
      case None => (None, None)
  }

  /**
   * A name that comes back has two to four name characters and no "電話" in it; so the
   * length test of the filter never rejects anything the pattern can match, and only
   * the "電話" test does.
   */
  lemma OfficerName(text: string)
    ensures var r := ExtractOfficer(text);
      r.1.Some? ==> (NameMin <= |r.1.value| <= NameMax && !Contains(r.1.value, "電話") &&
        forall i :: 0 <= i < |r.1.value| ==> IsNameChar(r.1.value[i]))
    ensures var m := LeftmostLabel(text);
      m.Some? ==> (ExtractOfficer(text).1.None? <==> Contains(NameOf(text, m.value), "電話"))
  {
    PatternsSound(text);
    var m := Search(text, LabelAt, 0);
  }

  /**
   * The labelled form wins over a bare role word: if a label occurs anywhere, the role
   * is that of the leftmost label, which the role word comes from, and the name, when
   * it survives the filter, is that label's name.
   */
  lemma OfficerLabelled(text: string, p: nat, k: nat, lo: nat, hi: nat)
    requires IsLabel(text, p, k, lo, hi)
    ensures var m := LeftmostLabel(text);
      && m.Some? && m.value.start <= p
      && IsLabel(text, m.value.start, m.value.groups.role, m.value.groups.lo, m.value.groups.hi)
      && ExtractOfficer(text).0 == Some(RoleWords[m.value.groups.role])
      && (ExtractOfficer(text).1.Some? ==> ExtractOfficer(text).1.value == NameOf(text, m.value))
  {
    PatternsSound(text);
    LabelFromComplete(text, p, 0, k, lo, hi);
    assert LabelAt(text, p).Some? && p <= |text|;
    var m := Search(text, LabelAt, 0);
    assert m.Some?;
    assert m.value.start <= p;
    assert LabelAt(text, m.value.start) == m;
  }

  /**
   * Without a label anywhere the result is the leftmost role word alone, the first of
   * the list where several begin at the same place.
   */
  lemma OfficerRoleOnly(text: string)
    requires forall p, k, lo, hi :: !IsLabel(text, p, k, lo, hi)
    ensures var m := LeftmostRole(text);
      m.Some? ==> (ExtractOfficer(text) == (Some(RoleWords[m.value.groups]), None)
        && forall k :: 0 <= k < m.value.groups ==> !HasPrefixAt(text, m.value.start, RoleWords[k]))
  {
    PatternsSound(text);
    RoleWordsNonEmpty();
  }

  /** `(None, None)` comes back exactly when no role word occurs in the text. */
  lemma OfficerNone(text: string)
    ensures ExtractOfficer(text).0.None? <==>
      forall p, k :: 0 <= p <= |text| && 0 <= k < |RoleWords| ==> !HasPrefixAt(text, p, RoleWords[k])
  {
    PatternsSound(text);
    RoleWordsNonEmpty();
    var l := Search(text, LabelAt, 0);
    if l.Some? {
      var p := l.value.start;
      var k := l.value.groups.role;
      assert HasPrefixAt(text, p, RoleWords[k]);
    } else if Search(text, RoleAt, 0).None? {
      forall p, k | 0 <= p <= |text| && 0 <= k < |RoleWords| ensures !HasPrefixAt(text, p, RoleWords[k]) {
        assert RoleAt(text, p).None?;
      }
    }
  }
}
