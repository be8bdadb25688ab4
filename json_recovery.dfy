/**
 * `chat_ollama_json` (llm_client.py) after the reply has arrived: the ways it tries to
 * turn the model's reply into a JSON object. The reply is parsed as it is; failing an
 * object, code fences are cut away, the longest balanced object is taken out of what is
 * left and parsed, and then parsed once more with trailing commas removed. `json.loads`
 * is the parameter `parse`, whose `None` stands for the exception it raises.
 */
module JsonRecovery {
  import opened Wrappers
  import opened PyText
  import opened Json
  import opened JsonScan

  /** What the function does with a reply: it returns a value, or an exception escapes. */
  datatype Reply = Returned(value: Json) | Raised

  /** The Markdown code fence. */
  const Fence: string := "```"

  /**
   * `b.lstrip().lower().startswith("json")`. Only `J`, `S`, `O` and `N` lowercase to
   * those letters, and the one character whose lowercase is longer than one character
   * (`İ`) lowercases to something starting with `i`, so a letter-by-letter test is exact.
   */
  predicate IsJsonTagged(b: string) {
    var t := LStrip(b);
    && |t| >= 4
    && (t[0] == 'j' || t[0] == 'J')
    && (t[1] == 's' || t[1] == 'S')
    && (t[2] == 'o' || t[2] == 'O')
    && (t[3] == 'n' || t[3] == 'N')
  }

  /** The first position of `c` in `s`. */
  function IndexOf(s: string, c: char): (r: Option<nat>)
    ensures r.Some? ==> r.value < |s| && s[r.value] == c
    ensures r.Some? ==> forall i :: 0 <= i < r.value ==> s[i] != c
    ensures r.None? ==> forall i :: 0 <= i < |s| ==> s[i] != c
    decreases |s|
  {
    if |s| == 0 then None
    else if s[0] == c then Some(0)
    else match IndexOf(s[1..], c)
      case Some(k) => Some(k + 1)
      case None => None
  }

  /** `b.split("\n", 1)[1] if "\n" in b else ""`: what follows the first line. */
  function AfterFirstLine(b: string): string {
    match IndexOf(b, '\n')
    case Some(k) => b[k + 1..]
    case None => ""
  }

  /** What the fence loop keeps of block `b`: a block tagged `json` loses its first line. */
  function BlockBody(b: string): string {
    if IsJsonTagged(b) then AfterFirstLine(b) else b
  }

  /** The loop over the blocks between the fences. */
  method FenceParts(blocks: seq<string>) returns (parts: seq<string>)
    ensures |parts| == |blocks|
    ensures forall i :: 0 <= i < |blocks| ==> parts[i] == BlockBody(blocks[i])
  {
    parts := [];
    var i := 0;
    while i < |blocks|
      invariant 0 <= i <= |blocks| && |parts| == i
      invariant forall j :: 0 <= j < i ==> parts[j] == BlockBody(blocks[j])
    {
      var b := blocks[i];
      ghost var before := parts;
      if IsJsonTagged(b) {
        parts := parts + [AfterFirstLine(b)];
      } else {
        parts := parts + [b];
      }
      assert parts == before + [BlockBody(b)];
      i := i + 1;
    }
  }

  /** The pieces the fence loop produces for `text`. */
  function Parts(text: string): (ps: seq<string>)
    ensures |ps| >= 1
  {
    var blocks := Split(text, Fence);
    seq(|blocks|, i requires 0 <= i < |blocks| => BlockBody(blocks[i]))
  }

  /** The text after the fence step: `max(parts, key=len).strip()` when the reply has a fence, else the reply. */
  function Unfenced(text: string): string {
    if Contains(text, Fence) then Strip(Longest(Parts(text))) else text
  }

  /** `cand.replace(",}", "}").replace(",]", "]")`. */
  function Repair(c: string): string {
    Replace(Replace(c, ",}", "}"), ",]", "]")
  }

  /** The candidate `_extract_json_object` finds in `text`. */
  function CandidateOf(text: string): Option<string> {
    Scan(text, |text|).best
  }

  /** The fence step of `chat_ollama_json`. */
  method Unfence(reply: string) returns (text: string)
    ensures text == Unfenced(reply)
  {
    text := reply;
    if Contains(text, Fence) {
      var blocks := Split(text, Fence);
      var parts := FenceParts(blocks);
      assert parts == Parts(reply);
      text := Strip(Longest(parts));
    }
  }

  /** What `chat_ollama_json` does with the reply `reply`. */
  function ChatJsonSpec(reply: string, parse: string -> Option<Json>): Reply {
    var first := parse(reply);
    if first.Some? && first.value.JObject? then Returned(first.value)
    else
      var text := Unfenced(reply);
      var cand := CandidateOf(text);
      if cand.Some? && |cand.value| > 0 then
        match parse(cand.value)
        case Some(v) => Returned(v)
        case None =>
          match parse(Repair(cand.value))
          case Some(v) => Returned(v)
          case None => Raised
      else
        match parse(text)
        case Some(v) => Returned(v)
        case None => Raised
  }

  /** `chat_ollama_json` from the point where the reply's text is known. */
  method ChatJson(reply: string, parse: string -> Option<Json>) returns (r: Reply)
    ensures r == ChatJsonSpec(reply, parse)
  {
    var first := parse(reply);
    if first.Some? && first.value.JObject? {
      return Returned(first.value);
    }
    var text := Unfence(reply);
    var cand := ExtractJsonObject(text);
    if cand.Some? && |cand.value| > 0 {
      var v := parse(cand.value);
      if v.Some? {
        return Returned(v.value);
      }
      var v2 := parse(Repair(cand.value));
      if v2.Some? {
        return Returned(v2.value);
      }
      return Raised;
    }
    var last := parse(text);
    if last.Some? {
      return Returned(last.value);
    }
    return Raised;
  }

  /** A reply that already parses to an object is returned as it is parsed. */
  lemma ChatJsonDirect(reply: string, parse: string -> Option<Json>)
    requires parse(reply).Some? && parse(reply).value.JObject?
    ensures ChatJsonSpec(reply, parse) == Returned(parse(reply).value)
  {
  }

  /**
   * The candidate is never empty: whenever one is found it begins with `{`, ends with
   * `}` and is a piece of the text, so the `if cand:` test only asks whether there is one.
   */
  lemma CandidateShape(text: string)
    ensures CandidateOf(text).Some? ==>
      |CandidateOf(text).value| > 0 && Braced(CandidateOf(text).value) && IsInfix(text, CandidateOf(text).value)
  {
    ScanBestBraced(text, |text|);
  }

  /**
   * Once a balanced object has been found, the reply's own text is never parsed again:
   * the candidate is parsed, then its repaired form, and an exception escapes when
   * both fail.
   */
  lemma ChatJsonCandidate(reply: string, parse: string -> Option<Json>)
    requires !(parse(reply).Some? && parse(reply).value.JObject?)
    requires CandidateOf(Unfenced(reply)).Some?
    ensures var c := CandidateOf(Unfenced(reply)).value;
      ChatJsonSpec(reply, parse) ==
        if parse(c).Some? then Returned(parse(c).value)
        else if parse(Repair(c)).Some? then Returned(parse(Repair(c)).value)
        else Raised
  {
    CandidateShape(Unfenced(reply));
  }

  /** Without a balanced object the text after the fence step is parsed, and whatever that gives comes back, an object or not. */
  lemma ChatJsonNoCandidate(reply: string, parse: string -> Option<Json>)
    requires !(parse(reply).Some? && parse(reply).value.JObject?)
    requires forall i :: 0 <= i < |Unfenced(reply)| ==> !Closes(Unfenced(reply), i)
    ensures ChatJsonSpec(reply, parse) ==
      match parse(Unfenced(reply)) case Some(v) => Returned(v) case None => Raised
  {
    ScanNone(Unfenced(reply));
  }

  /**
   * An exception escapes exactly when every attempt fails: the reply is not an object,
   * and either the candidate and its repaired form both fail to parse, or there is no
   * candidate and the text after the fence step does not parse.
   */
  lemma ChatJsonRaised(reply: string, parse: string -> Option<Json>)
    ensures ChatJsonSpec(reply, parse).Raised? <==>
      && !(parse(reply).Some? && parse(reply).value.JObject?)
      && var cand := CandidateOf(Unfenced(reply));
      (if cand.Some? then parse(cand.value).None? && parse(Repair(cand.value)).None?
       else parse(Unfenced(reply)).None?)
  {
    CandidateShape(Unfenced(reply));
  }

  /** A reply without a fence goes to the object search untouched. */
  lemma UnfencedNoFence(text: string)
    requires !Contains(text, Fence)
    ensures Unfenced(text) == text
  {
  }

  /**
   * With a fence, the text kept is the first longest of the pieces, stripped: the
   * piece at `k` is kept whenever no piece is longer and every piece before it is
   * shorter.
   */
  lemma UnfencedFirstLongest(text: string, k: nat)
    requires Contains(text, Fence) && k < |Parts(text)|
    requires forall j :: 0 <= j < |Parts(text)| ==> |Parts(text)[j]| <= |Parts(text)[k]|
    requires forall j :: 0 <= j < k ==> |Parts(text)[j]| < |Parts(text)[k]|
    ensures Unfenced(text) == Strip(Parts(text)[k])
  {
    LongestFirst(Parts(text), k);
  }

  /** A block tagged `json` loses exactly its first line. */
  lemma BlockBodyTagged(b: string, line: string, rest: string)
    requires IsJsonTagged(b) && b == line + "\n" + rest
    requires forall i :: 0 <= i < |line| ==> line[i] != '\n'
    ensures BlockBody(b) == rest
  {
    assert b[|line|] == '\n';
    assert forall i :: 0 <= i < |line| ==> b[i] == line[i];
    var k := IndexOf(b, '\n').value;
    assert k == |line|;
    assert b[k + 1..] == rest;
  }

  /** A block tagged `json` without a line break becomes the empty part, which stays in the list. */
  lemma BlockBodyTaggedOneLine(b: string)
    requires IsJsonTagged(b) && forall i :: 0 <= i < |b| ==> b[i] != '\n'
    ensures BlockBody(b) == ""
  {
    assert IndexOf(b, '\n').None?;
  }

  lemma BlockBodyUntagged(b: string)
    requires !IsJsonTagged(b)
    ensures BlockBody(b) == b
  {
  }

  /**
   * The repair only deletes: each `,}` and `,]` it replaces loses its comma, so the
   * result is shorter by the number of those it finds, and a candidate without any is
   * parsed again unchanged.
   */
  lemma RepairLength(c: string)
    ensures var once := Replace(c, ",}", "}");
      |Repair(c)| == |c| - Count(c, ",}") - Count(once, ",]")
  {
    ReplaceLength(c, ",}", "}");
    ReplaceLength(Replace(c, ",}", "}"), ",]", "]");
  }

  lemma RepairAbsent(c: string)
    requires !Contains(c, ",}") && !Contains(c, ",]")
    ensures Repair(c) == c
  {
    ReplaceAbsent(c, ",}", "}");
    ReplaceAbsent(c, ",]", "]");
  }
}
