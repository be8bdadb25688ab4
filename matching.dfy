/**
 * What the extractors need of Python's `re` module. A pattern is modelled by a
 * matcher: given the subject string and a position, it tries the pattern there the
 * way the backtracking engine does and yields the match (its span and its groups) or
 * nothing. `re.search` is then the leftmost position with a match, and `re.finditer`
 * the matches found by searching again from the end of the previous one. None of the
 * patterns modelled here can match the empty string.
 */
module Matching {
  import opened Wrappers
  import opened PyText

  /** A match object: `m.span() == (start, end)`, with the pattern's groups. */
  datatype Hit<G> = Hit(start: nat, end: nat, groups: G)

  type Matcher<G> = (string, nat) -> Option<Hit<G>>

  /** A matcher only reports non-empty matches that begin where it was asked to try. */
  ghost predicate Sound<G>(at: Matcher<G>, s: string) {
    forall p: nat :: at(s, p).Some? ==> at(s, p).value.start == p && p < at(s, p).value.end <= |s|
  }

  /** `pattern.search(s, pos)`: the match at the leftmost position from `pos` on. */
  function Search<G>(s: string, at: Matcher<G>, pos: nat): (r: Option<Hit<G>>)
    requires Sound(at, s)
    ensures r.Some? ==> pos <= r.value.start <= |s| && at(s, r.value.start) == r
    ensures r.Some? ==> forall q :: pos <= q < r.value.start ==> at(s, q).None?
    ensures r.None? ==> forall q :: pos <= q <= |s| ==> at(s, q).None?
    decreases |s| - pos
  {
    if pos > |s| then None
    else if at(s, pos).Some? then at(s, pos)
    else Search(s, at, pos + 1)
  }

  /** `pattern.finditer(s)` from `pos`: each match is searched for from the end of the previous one. */
  function FindIter<G>(s: string, at: Matcher<G>, pos: nat): (ms: seq<Hit<G>>)
    requires Sound(at, s)
    ensures forall j :: 0 <= j < |ms| ==> pos <= ms[j].start < ms[j].end <= |s|
    ensures forall j :: 0 <= j < |ms| ==> at(s, ms[j].start) == Some(ms[j])
    ensures |ms| > 0 <==> Search(s, at, pos).Some?
    ensures |ms| > 0 ==> ms[0] == Search(s, at, pos).value
    ensures forall i, j :: 0 <= i && j == i + 1 && j < |ms| ==> Search(s, at, ms[i].end) == Some(ms[j])
    ensures |ms| > 0 ==> Search(s, at, ms[|ms| - 1].end).None?
    decreases |s| - pos
  {
    match Search(s, at, pos)
    case None => []
    case Some(h) =>
      var rest := FindIter(s, at, h.end);
      ChainCons(s, at, pos, h, rest);
      [h] + rest
  }

  /** What `FindIter(s, at, pos)` promises of its matches `ms`. */
  ghost predicate Chain<G>(s: string, at: Matcher<G>, pos: nat, ms: seq<Hit<G>>)
    requires Sound(at, s)
  {
    && (forall j :: 0 <= j < |ms| ==> pos <= ms[j].start < ms[j].end <= |s|)
    && (forall j :: 0 <= j < |ms| ==> at(s, ms[j].start) == Some(ms[j]))
    && (|ms| > 0 <==> Search(s, at, pos).Some?)
    && (|ms| > 0 ==> ms[0] == Search(s, at, pos).value)
    && (forall i, j :: 0 <= i && j == i + 1 && j < |ms| ==> Search(s, at, ms[i].end) == Some(ms[j]))
    && (|ms| > 0 ==> Search(s, at, ms[|ms| - 1].end).None?)
  }

  /** The leftmost match from `pos`, followed by the matches from its end, are the matches from `pos`. */
  lemma ChainCons<G>(s: string, at: Matcher<G>, pos: nat, h: Hit<G>, rest: seq<Hit<G>>)
    requires Sound(at, s) && Search(s, at, pos) == Some(h) && Chain(s, at, h.end, rest)
    ensures Chain(s, at, pos, [h] + rest)
  {
    var ms := [h] + rest;
    assert forall j :: 0 < j < |ms| ==> ms[j] == rest[j - 1];
  }

  /** The matches of `finditer` come in text order and do not overlap. */
  lemma {:induction false} FindIterOrdered<G>(s: string, at: Matcher<G>, pos: nat)
    requires Sound(at, s)
    ensures forall i, j :: 0 <= i < j < |FindIter(s, at, pos)| ==>
      FindIter(s, at, pos)[i].end <= FindIter(s, at, pos)[j].start
    decreases |s| - pos
  {
    var ms := FindIter(s, at, pos);
    if |ms| > 1 {
      var h := Search(s, at, pos).value;
      var rest := FindIter(s, at, h.end);
      assert ms == [h] + rest;
      FindIterOrdered(s, at, h.end);
      forall i, j | 0 <= i < j < |ms| ensures ms[i].end <= ms[j].start {
        assert ms[j] == rest[j - 1];
        if i > 0 {
          assert ms[i] == rest[i - 1];
          assert rest[i - 1].end <= rest[j - 1].start;
        } else {
          assert ms[i] == h;
          assert h.end <= rest[j - 1].start;
        }
      }
    }
  }

  /**
   * Between two matches of `finditer`, before the first and after the last, the
   * pattern matches nowhere: each match is the leftmost one after the previous.
   */
  lemma FindIterGaps<G>(s: string, at: Matcher<G>, pos: nat)
    requires Sound(at, s)
    ensures var ms := FindIter(s, at, pos);
      forall q :: pos <= q <= |s| && (|ms| == 0 || q < ms[0].start) ==> at(s, q).None?
    ensures var ms := FindIter(s, at, pos);
      forall i, j, q :: 0 <= i && j == i + 1 && j < |ms| && ms[i].end <= q < ms[j].start ==> at(s, q).None?
    ensures var ms := FindIter(s, at, pos);
      forall q :: |ms| > 0 && ms[|ms| - 1].end <= q <= |s| ==> at(s, q).None?
  {
    var ms := FindIter(s, at, pos);
    assert Chain(s, at, pos, ms);
    ChainGaps(s, at, pos, ms);
  }

  /** `FindIterGaps` for any list with the properties of the matches of `finditer`. */
  lemma ChainGaps<G>(s: string, at: Matcher<G>, pos: nat, ms: seq<Hit<G>>)
    requires Sound(at, s) && Chain(s, at, pos, ms)
    ensures forall q :: pos <= q <= |s| && (|ms| == 0 || q < ms[0].start) ==> at(s, q).None?
    ensures forall i, j, q :: 0 <= i && j == i + 1 && j < |ms| && ms[i].end <= q < ms[j].start ==> at(s, q).None?
    ensures forall q :: |ms| > 0 && ms[|ms| - 1].end <= q <= |s| ==> at(s, q).None?
  {
    forall i, j, q | 0 <= i && j == i + 1 && j < |ms| && ms[i].end <= q < ms[j].start ensures at(s, q).None? {
      assert Search(s, at, ms[i].end) == Some(ms[j]);
    }
  }

  /** The first of an ordered list of literal alternatives that occurs at `p`. */
  function FirstLiteral(alts: seq<string>, s: string, p: nat, k: nat): (r: Option<nat>)
    requires forall i :: 0 <= i < |alts| ==> |alts[i]| > 0
    ensures r.Some? ==> k <= r.value < |alts| && HasPrefixAt(s, p, alts[r.value])
    ensures r.Some? ==> forall i :: k <= i < r.value ==> !HasPrefixAt(s, p, alts[i])
    ensures r.None? ==> forall i :: k <= i < |alts| ==> !HasPrefixAt(s, p, alts[i])
    decreases |alts| - k
  {
    if k >= |alts| then None
    else if HasPrefixAt(s, p, alts[k]) then Some(k)
    else FirstLiteral(alts, s, p, k + 1)
  }

  /**
   * The pattern `alt0|alt1|...` made of literals: at a position the engine takes the
   * first alternative that occurs there. The group is the alternative's index.
   */
  function LiteralAt(alts: seq<string>, s: string, p: nat): (r: Option<Hit<nat>>)
    requires forall i :: 0 <= i < |alts| ==> |alts[i]| > 0
    ensures r.Some? ==> r.value.start == p && p < r.value.end <= |s|
    ensures r.Some? ==> r.value.groups < |alts| && r.value.end == p + |alts[r.value.groups]|
  {
    match FirstLiteral(alts, s, p, 0)
    case None => None
    case Some(k) => Some(Hit(p, p + |alts[k]|, k))
  }

  /** Characters `s[i]`, `s[i + 1]`, ... for as long as `cls` holds of them. */
  function Run(s: string, i: nat, cls: char -> bool): (n: nat)
    ensures i + n <= |s| || (i > |s| && n == 0)
    ensures forall k :: i <= k < i + n ==> cls(s[k])
    ensures i + n < |s| ==> !cls(s[i + n])
    decreases |s| - i
  {
    if i < |s| && cls(s[i]) then 1 + Run(s, i + 1, cls) else 0
  }

  /** A run that covers `[i, j)` is at least that long. */
  lemma {:induction false} RunCovers(s: string, i: nat, j: nat, cls: char -> bool)
    requires i <= j <= |s| && forall k :: i <= k < j ==> cls(s[k])
    ensures Run(s, i, cls) >= j - i
    decreases j - i
  {
    if i < j {
      RunCovers(s, i + 1, j, cls);
    }
  }

  /** A run that covers `[i, j)` and cannot go on at `j` is exactly that long. */
  lemma RunExact(s: string, i: nat, j: nat, cls: char -> bool)
    requires i <= j <= |s| && forall k :: i <= k < j ==> cls(s[k])
    requires j < |s| ==> !cls(s[j])
    ensures Run(s, i, cls) == j - i
  {
    RunCovers(s, i, j, cls);
  }

  /**
   * How the engine settles a greedy count: it tries `hi`, `hi - 1`, ... down to `lo`
   * and keeps the first count with which the rest of the pattern (`ok`) matches.
   */
  function Greedy(hi: nat, lo: nat, ok: nat -> bool): (r: Option<nat>)
    ensures r.Some? ==> lo <= r.value <= hi && ok(r.value)
    ensures r.Some? ==> forall n :: r.value < n <= hi ==> !ok(n)
    ensures r.None? ==> forall n :: lo <= n <= hi ==> !ok(n)
    decreases hi
  {
    if hi < lo then None
    else if ok(hi) then Some(hi)
    else if hi == 0 then None
    else Greedy(hi - 1, lo, ok)
  }

  /**
   * An alternation: the alternatives `k`, `k + 1`, ... below `n` tried in order, and the
   * first that succeeds with what it gives. None before it succeeds, and when none
   * succeeds, none of them does.
   */
  function FirstSome<T>(attempt: nat -> Option<T>, k: nat, n: nat): (r: Option<(nat, T)>)
    ensures r.Some? ==> k <= r.value.0 < n && attempt(r.value.0) == Some(r.value.1)
    ensures r.Some? ==> forall i :: k <= i < r.value.0 ==> attempt(i).None?
    ensures r.None? ==> forall i :: k <= i < n ==> attempt(i).None?
    decreases n - k
  {
    if k >= n then None
    else if attempt(k).Some? then Some((k, attempt(k).value))
    else FirstSome(attempt, k + 1, n)
  }

  /** Python's `min` of two counts, as a quantifier `{m,n}` applies it to a run. */
  function Min(a: nat, b: nat): nat {
    if a < b then a else b
  }
}
