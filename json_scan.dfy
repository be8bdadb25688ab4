/**
 * `_extract_json_object` (llm_client.py): a single pass over the reply that tracks
 * whether it is inside a string literal, whether the previous character was an
 * escaping backslash, the current brace depth and where the current top-level object
 * began, and keeps the longest top-level object that closed.
 */
module JsonScan {
  import opened Wrappers
  import opened PyText

  /** The loop's variables: `in_str`, `esc`, `start` (-1 when unset), `depth`, `best`. */
  datatype ScanState = ScanState(inStr: bool, esc: bool, start: int, depth: int, best: Option<string>)

  /** The values before the first character. */
  const Init: ScanState := ScanState(false, false, -1, 0, None)

  /** Python's `text[a:b]` for `0 <= a`: clipped to the string, empty when `a >= b`. */
  function Slice(text: string, a: int, b: int): string {
    var lo := if a < 0 then 0 else if a > |text| then |text| else a;
    var hi := if b < lo then lo else if b > |text| then |text| else b;
    text[lo..hi]
  }

  /** What the quote test leaves of `in_str` before character `ch`. */
  function QuoteToggle(st: ScanState, ch: char): bool {
    if ch == '"' && !st.esc then !st.inStr else st.inStr
  }

  /**
   * The body of the loop for character `i`. The code strips each candidate before
   * comparing it; a candidate runs from a `{` to a `}`, so that strip never changes
   * it (`StripCandidate`), and it is left out here.
   */
  function Step(text: string, st: ScanState, i: nat): ScanState
    requires i < |text|
  {
    var ch := text[i];
    var inStr := QuoteToggle(st, ch);
    if inStr then
      st.(inStr := true, esc := ch == '\\' && !st.esc)
    else
      var st1 := st.(inStr := false, esc := false);
      if ch == '{' then
        st1.(start := if st1.depth == 0 then i else st1.start, depth := st1.depth + 1)
      else if ch == '}' && st1.depth > 0 then
        var d := st1.depth - 1;
        if d == 0 && st1.start != -1 then
          var cand := Slice(text, st1.start, i + 1);
          var best := if st1.best.None? || |cand| > |st1.best.value| then Some(cand) else st1.best;
          st1.(depth := d, best := best, start := -1)
        else
          st1.(depth := d)
      else
        st1
  }

  /** The loop's variables after the first `n` characters. */
  function Scan(text: string, n: nat): ScanState
    requires n <= |text|
  {
    if n == 0 then Init else Step(text, Scan(text, n - 1), n - 1)
  }

  /** Character `i` closes a top-level object outside any string. */
  predicate Closes(text: string, i: nat)
    requires i < |text|
  {
    var st := Scan(text, i);
    text[i] == '}' && !st.inStr && st.depth == 1 && st.start != -1
  }

  /** The top-level objects closed within the first `n` characters, in the order they close. */
  function Candidates(text: string, n: nat): seq<string>
    requires n <= |text|
  {
    if n == 0 then []
    else
      var before := Candidates(text, n - 1);
      if Closes(text, n - 1) then before + [Slice(text, Scan(text, n - 1).start, n)] else before
  }

  /** The first longest of the candidates, or `None` when there is none. */
  function LongestCandidate(cs: seq<string>): Option<string> {
    if |cs| == 0 then None else Some(Longest(cs))
  }

  /**
   * What holds of the variables at every step: `esc` is only armed inside a string,
   * `depth` is never negative, and `start` is set exactly when an object is open, at
   * the `{` that opened it.
   */
  ghost predicate Consistent(text: string, st: ScanState, n: nat) {
    && (st.esc ==> st.inStr)
    && st.depth >= 0
    && (st.depth == 0 <==> st.start == -1)
    && (st.depth > 0 ==> 0 <= st.start < n <= |text| && text[st.start] == '{')
  }

  lemma {:induction false} ScanConsistent(text: string, n: nat)
    requires n <= |text|
    ensures Consistent(text, Scan(text, n), n)
  {
    if n > 0 {
      ScanConsistent(text, n - 1);
    }
  }

  /** A candidate neither begins nor ends with whitespace, so the code's `.strip()` of it changes nothing. */
  lemma StripCandidate(text: string, st: ScanState, i: nat)
    requires i < |text| && Consistent(text, st, i) && st.depth > 0 && text[i] == '}'
    ensures Strip(Slice(text, st.start, i + 1)) == Slice(text, st.start, i + 1)
  {
    var raw := Slice(text, st.start, i + 1);
    assert raw == text[st.start..i + 1];
    StripByUnpadded(raw, IsSpace);
  }

  /**
   * The loop keeps the first longest candidate: a new candidate replaces `best` only
   * when it is strictly longer, so `best` is the longest object closed so far and the
   * earliest of those on a tie.
   */
  lemma {:induction false} ScanBest(text: string, n: nat)
    requires n <= |text|
    ensures Scan(text, n).best == LongestCandidate(Candidates(text, n))
  {
    if n > 0 {
      ScanBest(text, n - 1);
      var st := Scan(text, n - 1);
      StepBest(text, st, n - 1);
      if Closes(text, n - 1) {
        LongestAppend(Candidates(text, n - 1), Slice(text, st.start, n));
      }
    }
  }

  /** What one step does to `best`: only a `}` that closes a top-level object can replace it, and only by a longer candidate. */
  lemma StepBest(text: string, st: ScanState, i: nat)
    requires i < |text|
    ensures var cand := Slice(text, st.start, i + 1);
      Step(text, st, i).best ==
        if text[i] == '}' && !st.inStr && st.depth == 1 && st.start != -1 then
          (if st.best.None? || |cand| > |st.best.value| then Some(cand) else st.best)
        else st.best
  {
  }

  /** Appending a candidate changes the choice only when it is strictly longer than the one chosen so far. */
  lemma LongestAppend(cs: seq<string>, c: string)
    ensures LongestCandidate(cs + [c]) ==
      if LongestCandidate(cs).None? || |c| > |LongestCandidate(cs).value| then Some(c) else LongestCandidate(cs)
  {
    var cs' := cs + [c];
    if |cs| > 0 {
      assert cs'[..|cs|] == cs[..|cs|];
      LongestIndexPrefix(cs, cs', |cs|);
      var k := LongestIndex(cs, |cs|);
      assert cs'[k] == cs[k];
      assert LongestIndex(cs', |cs'|) == if |c| > |cs[k]| then |cs| else k;
    }
  }

  /** The choice among the first `n` items does not look past them. */
  lemma {:induction false} LongestIndexPrefix(xs: seq<string>, ys: seq<string>, n: nat)
    requires 0 < n <= |xs| && n <= |ys| && xs[..n] == ys[..n]
    ensures LongestIndex(xs, n) == LongestIndex(ys, n)
    decreases n
  {
    if n > 1 {
      assert xs[..n - 1] == ys[..n - 1] by {
        assert xs[..n - 1] == xs[..n][..n - 1];
        assert ys[..n - 1] == ys[..n][..n - 1];
      }
      LongestIndexPrefix(xs, ys, n - 1);
      assert xs[n - 1] == xs[..n][n - 1];
      assert ys[n - 1] == ys[..n][n - 1];
    }
  }

  /** A `{`, what follows it, and the `}` that ends it. */
  predicate Braced(c: string) {
    |c| >= 2 && c[0] == '{' && c[|c| - 1] == '}'
  }

  /** The candidate a closing `}` gives is the braced piece of text from the `{` that opened the object. */
  lemma NewCandidate(text: string, i: nat)
    requires i < |text| && Closes(text, i)
    ensures 0 <= Scan(text, i).start < i
    ensures var c := Slice(text, Scan(text, i).start, i + 1);
      Braced(c) && c == text[Scan(text, i).start..i + 1]
  {
    ScanConsistent(text, i);
  }

  /** Whatever the loop keeps is a braced piece of the text, so the result, when there is one, begins with `{` and ends with `}`. */
  lemma {:induction false} ScanBestBraced(text: string, n: nat)
    requires n <= |text|
    ensures Scan(text, n).best.Some? ==>
      Braced(Scan(text, n).best.value) && IsInfix(text, Scan(text, n).best.value)
  {
    if n > 0 {
      ScanBestBraced(text, n - 1);
      var st := Scan(text, n - 1);
      StepBest(text, st, n - 1);
      if Closes(text, n - 1) {
        NewCandidate(text, n - 1);
        assert HasPrefixAt(text, st.start, Slice(text, st.start, n));
      }
    }
  }

  /** The result is `None` exactly when no top-level object ever closes. */
  lemma ScanNone(text: string)
    ensures Scan(text, |text|).best.None? <==> forall i :: 0 <= i < |text| ==> !Closes(text, i)
  {
    ScanBest(text, |text|);
    CandidatesEmpty(text, |text|);
  }

  lemma {:induction false} CandidatesEmpty(text: string, n: nat)
    requires n <= |text|
    ensures |Candidates(text, n)| == 0 <==> forall i :: 0 <= i < n ==> !Closes(text, i)
  {
    if n > 0 {
      CandidatesEmpty(text, n - 1);
    }
  }

  /** A `"` flips `in_str` exactly when `esc` is not armed; no other character flips it. */
  lemma StepQuote(text: string, st: ScanState, i: nat)
    requires i < |text|
    ensures Step(text, st, i).inStr == (if text[i] == '"' && !st.esc then !st.inStr else st.inStr)
  {
  }

  /** `esc` is armed only by a backslash inside a string when it was not armed already, and cleared by every other character. */
  lemma StepEscape(text: string, st: ScanState, i: nat)
    requires i < |text|
    ensures Step(text, st, i).esc <==> Step(text, st, i).inStr && text[i] == '\\' && !st.esc
  {
  }

  /** Inside a string braces are plain characters: the depth, the start and the result do not change. */
  lemma StepInString(text: string, st: ScanState, i: nat)
    requires i < |text| && Step(text, st, i).inStr
    ensures Step(text, st, i).depth == st.depth && Step(text, st, i).start == st.start
    ensures Step(text, st, i).best == st.best
  {
  }

  /** A `}` with no object open is ignored: the depth stays at zero. */
  lemma StepStrayClose(text: string, st: ScanState, i: nat)
    requires i < |text| && text[i] == '}' && st.depth == 0
    ensures Step(text, st, i).depth == 0 && Step(text, st, i).start == st.start
    ensures Step(text, st, i).best == st.best
  {
  }

  /** `_extract_json_object(text)`. */
  method ExtractJsonObject(text: string) returns (best: Option<string>)
    ensures best == Scan(text, |text|).best
    ensures best == LongestCandidate(Candidates(text, |text|))
  {
    var inStr := false;
    var esc := false;
    var start := -1;
    var depth := 0;
    best := None;
    var i := 0;
    while i < |text|
      invariant 0 <= i <= |text|
      invariant ScanState(inStr, esc, start, depth, best) == Scan(text, i)
    {
      ghost var st := Scan(text, i);
      var ch := text[i];
      if ch == '"' && !esc {
        inStr := !inStr;
      }
      if inStr {
        esc := ch == '\\' && !esc;
        assert ScanState(inStr, esc, start, depth, best) == Step(text, st, i);
        i := i + 1;
        continue;
      }
      esc := false;
      if ch == '{' {
        if depth == 0 {
          start := i;
        }
        depth := depth + 1;
      } else if ch == '}' {
        if depth > 0 {
          depth := depth - 1;
          if depth == 0 && start != -1 {
            ScanConsistent(text, i);
            StripCandidate(text, st, i);
            var cand := Strip(Slice(text, start, i + 1));
            if best.None? || |cand| > |best.value| {
              best := Some(cand);
            }
            start := -1;
            assert ScanState(inStr, esc, start, depth, best) == Step(text, st, i);
          }
        }
      }
      assert ScanState(inStr, esc, start, depth, best) == Step(text, st, i);
      i := i + 1;
    }
    ScanBest(text, |text|);
  }
}
