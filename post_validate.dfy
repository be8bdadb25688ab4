/**
 * `post_validate` (main.py): the light repair of the record the model returned. It
 * turns a `class_specific` that came back as a string into its parsed value,
 * recomputes `id_valid` for every target from its `tw_id`, and fills the officer,
 * the contact phone, the document number and the document date from the letter's
 * text where the model left them empty. The record is changed in place.
 */
module Validate {
  import opened Wrappers
  import opened Json
  import opened IdNumber
  import opened Officer
  import opened Phone
  import opened DocNo
  import opened DocDate

  const ClassSpecificKey: string := "class_specific"
  const TargetsKey: string := "targets"
  const TwIdKey: string := "tw_id"
  const IdValidKey: string := "id_valid"
  const RoleKey: string := "officer_role"
  const NameKey: string := "officer_name"
  const PhoneKey: string := "contact_phone"
  const DocNoKey: string := "doc_no"
  const DocDateKey: string := "doc_date"

  /** The keys `post_validate` may write. */
  const Written: set<string> := {ClassSpecificKey, TargetsKey, RoleKey, NameKey, PhoneKey, DocNoKey, DocDateKey}

  /** A string result stored in the record: `None` becomes `null`. */
  function Stored(v: Option<string>): Json {
    match v
    case Some(s) => JString(s)
    case None => JNull
  }

  /** Step 1: a string `class_specific` is replaced by what it parses to, or by `{}` when it does not parse. */
  function CoerceClassSpecific(f: map<string, Json>, parse: string -> Option<Json>): map<string, Json> {
    match Get(f, ClassSpecificKey)
    case JString(s) => f[ClassSpecificKey := if parse(s).Some? then parse(s).value else JObject(map[])]
    case _ => f
  }

  /**
   * `bool(twid and validate_tw_id(twid))` for a target: `None` when it raises, which
   * it does for a truthy `tw_id` that is not a string.
   */
  function IdValidOf(tw: Json): Option<bool> {
    if !Truthy(tw) then Some(false)
    else if tw.JString? then Some(ValidateTwId(tw.s))
    else None
  }

  /** One pass of the target loop: `p["id_valid"] = …`, or `None` when `p` is not a mapping or its check raises. */
  function MarkTarget(p: Json): Option<Json> {
    if !p.JObject? then None
    else match IdValidOf(Get(p.fields, TwIdKey))
      case Some(b) => Some(JObject(p.fields[IdValidKey := JBool(b)]))
      case None => None
  }

  /** The index of the first target the loop cannot mark, at `i` or after; `|items|` when there is none. */
  function FirstFailing(items: seq<Json>, i: nat): (r: nat)
    requires i <= |items|
    ensures i <= r <= |items|
    ensures forall k :: i <= k < r ==> MarkTarget(items[k]).Some?
    ensures r < |items| ==> MarkTarget(items[r]).None?
    decreases |items| - i
  {
    if i == |items| then i
    else if MarkTarget(items[i]).None? then i
    else FirstFailing(items, i + 1)
  }

  /** The targets after the loop has marked the first `n` of them. */
  function Marked(items: seq<Json>, n: nat): seq<Json> {
    seq(|items|, k requires 0 <= k < |items| =>
      if k < n && MarkTarget(items[k]).Some? then MarkTarget(items[k]).value else items[k])
  }

  /** What a step leaves behind: whether it finished without raising, and the record. */
  datatype Outcome = Outcome(ok: bool, fields: map<string, Json>)

  /**
   * Step 2: `for p in payload.get("targets", []) or []`. A falsy `targets` is skipped;
   * iterating anything else than a list yields no mapping and raises at once; in a
   * list the targets are marked in order until one cannot be, which raises.
   */
  function MarkTargets(f: map<string, Json>): Outcome {
    var t := Get(f, TargetsKey);
    if !Truthy(t) then Outcome(true, f)
    else if !t.JArray? then Outcome(false, f)
    else
      var n := FirstFailing(t.items, 0);
      Outcome(n == |t.items|, f[TargetsKey := JArray(Marked(t.items, n))])
  }

  /** Step 3: the officer fields, set together to what the text gives (`r`, as `extract_officer` returns it) when both are empty. */
  function OfficerFallback(f: map<string, Json>, r: (Option<string>, Option<string>)): map<string, Json> {
    if !Truthy(Get(f, RoleKey)) && !Truthy(Get(f, NameKey)) then
      f[RoleKey := Stored(r.0)][NameKey := Stored(r.1)]
    else f
  }

  /** Steps 4 to 6: an empty `key` is filled with a truthy extracted value. */
  function Fill(f: map<string, Json>, key: string, v: Option<string>): map<string, Json> {
    if !Truthy(Get(f, key)) && v.Some? && |v.value| > 0 then f[key := JString(v.value)] else f
  }

  /** What the extractors give for the letter's text: officer, phone, document number, date. */
  datatype Extracted = Extracted(officer: (Option<string>, Option<string>), phone: Option<string>, docNo: Option<string>, docDate: Option<string>)

  function ExtractAll(raw: string, fmt: Converter): Extracted {
    Extracted(ExtractOfficer(raw), PhoneSpec(raw), DocNoSpec(raw), DocDateSpec(raw, fmt))
  }

  /** Steps 3 to 6, which run once the targets are marked, given what the extractors give. */
  function Fallbacks(f: map<string, Json>, e: Extracted): map<string, Json> {
    var g := OfficerFallback(f, e.officer);
    var g1 := Fill(g, PhoneKey, e.phone);
    var g2 := Fill(g1, DocNoKey, e.docNo);
    Fill(g2, DocDateKey, e.docDate)
  }

  /** What `post_validate(payload, raw_text)` does to the record `f`. */
  function PostValidated(f: map<string, Json>, raw: string, parse: string -> Option<Json>, fmt: Converter): Outcome {
    PostValidatedWith(f, parse, ExtractAll(raw, fmt))
  }

  /** The whole call, given what the extractors return for the text. */
  function PostValidatedWith(f: map<string, Json>, parse: string -> Option<Json>, e: Extracted): Outcome {
    var marked := MarkTargets(CoerceClassSpecific(f, parse));
    if !marked.ok then marked else Outcome(true, Fallbacks(marked.fields, e))
  }

  /** The record, a mapping from keys to JSON values that `post_validate` updates in place. */
  class Payload {
    var fields: map<string, Json>

    constructor (fields: map<string, Json>)
      ensures this.fields == fields
    {
      this.fields := fields;
    }

    /**
     * `post_validate(payload, raw_text)`: `ok` is false when it raises, with the record
     * as far as it got. `json.loads` is `parse` and the date conversion is `fmt`.
     */
    method PostValidate(raw: string, parse: string -> Option<Json>, fmt: Converter) returns (ok: bool)
      modifies this
      ensures Outcome(ok, fields) == PostValidated(old(fields), raw, parse, fmt)
    {
      CoerceStep(parse);
      ok := MarkStep();
      if ok {
        FallbackStep(raw, fmt);
      }
    }

    /** Lines 20 to 26: the `class_specific` coercion. */
    method CoerceStep(parse: string -> Option<Json>)
      modifies this
      ensures fields == CoerceClassSpecific(old(fields), parse)
    {
      var cs := Get(fields, ClassSpecificKey);
      if cs.JString? {
        var parsed := parse(cs.s);
        fields := fields[ClassSpecificKey := if parsed.Some? then parsed.value else JObject(map[])];
      }
    }

    /** Lines 29 to 31: the target loop, which updates each target in place and stops at the first that raises. */
    method MarkStep() returns (ok: bool)
      modifies this
      ensures Outcome(ok, fields) == MarkTargets(old(fields))
    {
      ghost var f0 := fields;
      var targets := Get(fields, TargetsKey);
      if !Truthy(targets) {
        return true;
      }
      if !targets.JArray? {
        return false;
      }
      var items := targets.items;
      assert Marked(items, 0) == items;
      assert TargetsKey in f0 && f0[TargetsKey := JArray(items)] == f0;
      var i := 0;
      while i < |items|
        invariant 0 <= i <= |items|
        invariant forall k :: 0 <= k < i ==> MarkTarget(items[k]).Some?
        invariant fields == f0[TargetsKey := JArray(Marked(items, i))]
      {
        var p := items[i];
        if !p.JObject? {
          FirstFailingIs(items, i);
          return false;
        }
        var tw := Get(p.fields, TwIdKey);
        var valid: bool;
        if !Truthy(tw) {
          valid := false;
        } else if tw.JString? {
          valid := ValidateTwId(tw.s);
        } else {
          FirstFailingIs(items, i);
          return false;
        }
        var current := Get(fields, TargetsKey).items;
        fields := fields[TargetsKey := JArray(current[i := JObject(p.fields[IdValidKey := JBool(valid)])])];
        assert Marked(items, i + 1) == Marked(items, i)[i := MarkTarget(items[i]).value];
        i := i + 1;
      }
      FirstFailingIs(items, |items|);
      return true;
    }

    /** Lines 34 to 44: the fallbacks from the letter's text, which never overwrite a truthy value. */
    method FallbackStep(raw: string, fmt: Converter)
      modifies this
      ensures fields == Fallbacks(old(fields), ExtractAll(raw, fmt))
    {
      if !Truthy(Get(fields, RoleKey)) && !Truthy(Get(fields, NameKey)) {
        var r := ExtractOfficer(raw);
        fields := fields[RoleKey := Stored(r.0)];
        fields := fields[NameKey := Stored(r.1)];
      }
      FillPhone(raw);
      FillDocNo(raw);
      FillDocDate(raw, fmt);
    }

    /** `if value: payload[key] = value` for a field found empty. */
    method Store(key: string, v: Option<string>)
      requires !Truthy(Get(fields, key))
      modifies this
      ensures fields == Fill(old(fields), key, v)
    {
      if v.Some? && |v.value| > 0 {
        fields := fields[key := JString(v.value)];
      }
    }

    /** Lines 36 to 38. */
    method FillPhone(raw: string)
      modifies this
      ensures fields == Fill(old(fields), PhoneKey, PhoneSpec(raw))
    {
      if !Truthy(Get(fields, PhoneKey)) {
        var phone := ExtractPhone(raw);
        Store(PhoneKey, phone);
      }
    }

    /** Lines 39 to 41. */
    method FillDocNo(raw: string)
      modifies this
      ensures fields == Fill(old(fields), DocNoKey, DocNoSpec(raw))
    {
      if !Truthy(Get(fields, DocNoKey)) {
        var docNo := ExtractDocNo(raw);
        Store(DocNoKey, docNo);
      }
    }

    /** Lines 42 to 44. */
    method FillDocDate(raw: string, fmt: Converter)
      modifies this
      ensures fields == Fill(old(fields), DocDateKey, DocDateSpec(raw, fmt))
    {
      if !Truthy(Get(fields, DocDateKey)) {
        var dd := ExtractDocDate(raw, fmt);
        Store(DocDateKey, dd);
      }
    }
  }

  /** The first failing target is the first one that cannot be marked. */
  lemma FirstFailingIs(items: seq<Json>, n: nat)
    requires n <= |items| && forall k :: 0 <= k < n ==> MarkTarget(items[k]).Some?
    requires n < |items| ==> MarkTarget(items[n]).None?
    ensures FirstFailing(items, 0) == n
  {
    var r := FirstFailing(items, 0);
    assert !(r < n) && !(n < r);
  }

  /** A target the loop cannot mark is one that is not a mapping, or whose `tw_id` is truthy but not a string. */
  lemma MarkTargetFails(p: Json)
    ensures MarkTarget(p).None? <==>
      !p.JObject? || (Truthy(Get(p.fields, TwIdKey)) && !Get(p.fields, TwIdKey).JString?)
  {
  }

  /**
   * A marked target is the same mapping with `id_valid` overwritten: true exactly when
   * `tw_id` is a non-empty string that passes the checksum, whatever flag the model gave.
   */
  lemma MarkTargetSets(p: Json)
    requires MarkTarget(p).Some?
    ensures p.JObject? && MarkTarget(p).value.JObject?
    ensures var tw := Get(p.fields, TwIdKey);
      MarkTarget(p).value.fields == p.fields[IdValidKey := JBool(tw.JString? && |tw.s| > 0 && ValidateTwId(tw.s))]
  {
  }

  /**
   * `class_specific` ends up parsed when it was a string, `{}` when that string does not
   * parse, and untouched otherwise, even when a later step raises, whatever the
   * extractors return.
   */
  lemma ClassSpecificResult(f: map<string, Json>, parse: string -> Option<Json>, e: Extracted)
    ensures var g := PostValidatedWith(f, parse, e).fields;
      match Get(f, ClassSpecificKey)
      case JString(s) => ClassSpecificKey in g && g[ClassSpecificKey] == (if parse(s).Some? then parse(s).value else JObject(map[]))
      case _ => (ClassSpecificKey in g <==> ClassSpecificKey in f) && Get(g, ClassSpecificKey) == Get(f, ClassSpecificKey)
  {
    var c := CoerceClassSpecific(f, parse);
    var m := MarkTargets(c);
    assert Get(m.fields, ClassSpecificKey) == Get(c, ClassSpecificKey) && (ClassSpecificKey in m.fields <==> ClassSpecificKey in c);
    if m.ok {
      FallbacksFrame(m.fields, e, ClassSpecificKey);
    }
  }

  /**
   * A falsy or missing `targets` is passed over: no exception, and the field stays as
   * it was, whatever the extractors return.
   */
  lemma TargetsSkipped(f: map<string, Json>, parse: string -> Option<Json>, e: Extracted)
    requires !Truthy(Get(f, TargetsKey))
    ensures PostValidatedWith(f, parse, e).ok
    ensures var g := PostValidatedWith(f, parse, e).fields;
      (TargetsKey in g <==> TargetsKey in f) && Get(g, TargetsKey) == Get(f, TargetsKey)
  {
    var c := CoerceClassSpecific(f, parse);
    FallbacksFrame(c, e, TargetsKey);
  }

  /**
   * The call raises exactly when `targets` is truthy and is not a list, or holds a
   * target that is not a mapping or has a truthy `tw_id` that is not a string; what the
   * extractors return plays no part.
   */
  lemma PostValidateRaises(f: map<string, Json>, parse: string -> Option<Json>, e: Extracted)
    ensures var t := Get(f, TargetsKey);
      !PostValidatedWith(f, parse, e).ok <==>
        Truthy(t) && (!t.JArray? || exists k :: 0 <= k < |t.items| && MarkTarget(t.items[k]).None?)
  {
    var c := CoerceClassSpecific(f, parse);
    assert Get(c, TargetsKey) == Get(f, TargetsKey);
    var t := Get(f, TargetsKey);
    if Truthy(t) && t.JArray? {
      var n := FirstFailing(t.items, 0);
      if n < |t.items| {
        assert MarkTarget(t.items[n]).None?;
      }
    }
  }

  /**
   * When the call returns, `targets` keeps its targets in order and each is its
   * mapping with `id_valid` recomputed from its `tw_id`, whatever the extractors return.
   */
  lemma TargetsMarked(f: map<string, Json>, parse: string -> Option<Json>, e: Extracted)
    requires PostValidatedWith(f, parse, e).ok && Truthy(Get(f, TargetsKey))
    ensures Get(f, TargetsKey).JArray?
    ensures var items := Get(f, TargetsKey).items;
      var g := PostValidatedWith(f, parse, e).fields;
      && TargetsKey in g && g[TargetsKey].JArray? && |g[TargetsKey].items| == |items|
      && forall k :: 0 <= k < |items| ==> MarkTarget(items[k]).Some? && g[TargetsKey].items[k] == MarkTarget(items[k]).value
  {
    var c := CoerceClassSpecific(f, parse);
    assert Get(c, TargetsKey) == Get(f, TargetsKey);
    MarkedTargets(c, e);
  }

  /** `TargetsMarked` for the record after step 1 and any extracted values. */
  lemma MarkedTargets(c: map<string, Json>, e: Extracted)
    requires MarkTargets(c).ok && Truthy(Get(c, TargetsKey))
    ensures Get(c, TargetsKey).JArray?
    ensures var items := Get(c, TargetsKey).items;
      var g := Fallbacks(MarkTargets(c).fields, e);
      && TargetsKey in g && g[TargetsKey].JArray? && |g[TargetsKey].items| == |items|
      && forall k :: 0 <= k < |items| ==> MarkTarget(items[k]).Some? && g[TargetsKey].items[k] == MarkTarget(items[k]).value
  {
    FallbacksFrame(MarkTargets(c).fields, e, TargetsKey);
  }

  /**
   * The officer fields are set together from the text, `None` as `null`, when both
   * were empty; otherwise both stay as they were.
   */
  lemma OfficerResult(f: map<string, Json>, raw: string, parse: string -> Option<Json>, fmt: Converter)
    requires PostValidated(f, raw, parse, fmt).ok
    ensures var g := PostValidated(f, raw, parse, fmt).fields;
      if !Truthy(Get(f, RoleKey)) && !Truthy(Get(f, NameKey)) then
        Get(g, RoleKey) == Stored(ExtractOfficer(raw).0) && Get(g, NameKey) == Stored(ExtractOfficer(raw).1)
      else
        Get(g, RoleKey) == Get(f, RoleKey) && Get(g, NameKey) == Get(f, NameKey)
  {
    var m := MarkTargets(CoerceClassSpecific(f, parse));
    var e := ExtractAll(raw, fmt);
    assert PostValidated(f, raw, parse, fmt).fields == Fallbacks(m.fields, e);
    assert e.officer == ExtractOfficer(raw);
    MarkedFrame(f, parse, RoleKey);
    MarkedFrame(f, parse, NameKey);
    FallbacksOfficer(m.fields, e);
    OfficerFallbackGet(m.fields, e.officer);
  }

  /** The officer fallback, read at its two keys. */
  lemma OfficerFallbackGet(f: map<string, Json>, r: (Option<string>, Option<string>))
    ensures var empty := !Truthy(Get(f, RoleKey)) && !Truthy(Get(f, NameKey));
      && Get(OfficerFallback(f, r), RoleKey) == (if empty then Stored(r.0) else Get(f, RoleKey))
      && Get(OfficerFallback(f, r), NameKey) == (if empty then Stored(r.1) else Get(f, NameKey))
  {
  }

  /**
   * A truthy contact phone, document number or document date is never overwritten; an
   * empty one is replaced only by a truthy extracted value (`FillKeeps`).
   */
  lemma FilledFields(f: map<string, Json>, raw: string, parse: string -> Option<Json>, fmt: Converter)
    requires PostValidated(f, raw, parse, fmt).ok
    ensures var g := PostValidated(f, raw, parse, fmt).fields;
      var e := ExtractAll(raw, fmt);
      && Get(g, PhoneKey) == Get(Fill(f, PhoneKey, e.phone), PhoneKey)
      && Get(g, DocNoKey) == Get(Fill(f, DocNoKey, e.docNo), DocNoKey)
      && Get(g, DocDateKey) == Get(Fill(f, DocDateKey, e.docDate), DocDateKey)
  {
    var m := MarkTargets(CoerceClassSpecific(f, parse));
    var e := ExtractAll(raw, fmt);
    assert PostValidated(f, raw, parse, fmt).fields == Fallbacks(m.fields, e);
    FallbacksFills(m.fields, e);
    MarkedFrame(f, parse, PhoneKey);
    MarkedFrame(f, parse, DocNoKey);
    MarkedFrame(f, parse, DocDateKey);
    FillSameKey(m.fields, f, PhoneKey, e.phone);
    FillSameKey(m.fields, f, DocNoKey, e.docNo);
    FillSameKey(m.fields, f, DocDateKey, e.docDate);
  }

  /** Steps 1 and 2 write only `class_specific` and `targets`. */
  lemma MarkedFrame(f: map<string, Json>, parse: string -> Option<Json>, key: string)
    requires key != ClassSpecificKey && key != TargetsKey
    ensures Get(MarkTargets(CoerceClassSpecific(f, parse)).fields, key) == Get(f, key)
  {
  }

  /** What `Fill` does to its key depends only on that key. */
  lemma FillSameKey(f: map<string, Json>, f': map<string, Json>, key: string, v: Option<string>)
    requires Get(f, key) == Get(f', key)
    ensures Get(Fill(f, key, v), key) == Get(Fill(f', key, v), key)
  {
  }

  /** `Fill` keeps a truthy value and takes a truthy extracted one for an empty field. */
  lemma FillKeeps(f: map<string, Json>, key: string, v: Option<string>)
    ensures Truthy(Get(f, key)) ==> Fill(f, key, v) == f
    ensures !Truthy(Get(f, key)) ==>
      Get(Fill(f, key, v), key) == (if v.Some? && |v.value| > 0 then JString(v.value) else Get(f, key))
  {
  }

  /**
   * Every other key of the record, and its value, is left as it was, raising or not,
   * whatever the extractors return.
   */
  lemma OtherKeysUnchanged(f: map<string, Json>, parse: string -> Option<Json>, e: Extracted, key: string)
    requires key !in Written
    ensures var g := PostValidatedWith(f, parse, e).fields;
      (key in g <==> key in f) && (key in f ==> g[key] == f[key])
  {
    var c := CoerceClassSpecific(f, parse);
    var m := MarkTargets(c);
    if m.ok {
      FallbacksFrame(m.fields, e, key);
    }
  }

  /** Steps 3 to 6 write the officer fields and the three filled fields and nothing else. */
  lemma FallbacksFrame(f: map<string, Json>, e: Extracted, key: string)
    requires key != RoleKey && key != NameKey && key != PhoneKey && key != DocNoKey && key != DocDateKey
    ensures var g := Fallbacks(f, e);
      (key in g <==> key in f) && (key in f ==> g[key] == f[key]) && Get(g, key) == Get(f, key)
  {
  }

  lemma FallbacksOfficer(f: map<string, Json>, e: Extracted)
    ensures var g := Fallbacks(f, e);
      Get(g, RoleKey) == Get(OfficerFallback(f, e.officer), RoleKey) && Get(g, NameKey) == Get(OfficerFallback(f, e.officer), NameKey)
  {
  }

  lemma FallbacksFills(f: map<string, Json>, e: Extracted)
    ensures var g := Fallbacks(f, e);
      && Get(g, PhoneKey) == Get(Fill(f, PhoneKey, e.phone), PhoneKey)
      && Get(g, DocNoKey) == Get(Fill(f, DocNoKey, e.docNo), DocNoKey)
      && Get(g, DocDateKey) == Get(Fill(f, DocDateKey, e.docDate), DocDateKey)
  {
  }
}