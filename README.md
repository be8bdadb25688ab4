# Official-letter field extraction and JSON recovery, in Dafny

This project models the deterministic core of a tool that reads an official letter
(a court or government notice) and the reply of a language model about it, and
produces one structured record. It has three pieces:

- **Field extractors and validators** (`utils.py`). The identity-number checksum
  `validate_tw_id` is modelled with its 26-letter code table. The phone pattern,
  `normalize_phone` and the keyword-priority selection `extract_phone` are modelled.
  So are the era-year and common-era date patterns, `normalize_date_roc_to_iso` and
  the keyword-window search `extract_doc_date`. The last two are `extract_officer`
  (role word and name) and `extract_doc_no` (the letter's reference number).
- **JSON recovery** (`llm_client.py`). `_extract_json_object` is a one-pass scanner.
  It tracks string mode, an escape flag, the brace depth and the start of the current
  object, and keeps the longest top-level `{…}`. Around it, `chat_ollama_json` parses
  the reply, cuts code fences, picks the longest piece, parses the candidate, and
  retries once with trailing commas removed.
- **Record post-validation** (`main.py`). `post_validate` updates the record in
  place. It coerces a string `class_specific`, recomputes `id_valid` for every
  target, and fills empty officer, phone, reference-number and date fields from the
  extractors.

Python's regular expressions are modelled by hand-written matchers. Each one tries
its pattern at one position in the order the backtracking engine does (module
`Matching`: `Search` is `re.search`, `FindIter` is `re.finditer`). Where a pattern
has a quantifier the engine may have to give back, the matcher is paired with a
declarative description of what the pattern accepts (`IsLabel`, `IsLabelledNo`,
`IsSerialNo`, `Laid` for the era-year date, `IsIsoDate`, and the layout of a phone
number), and lemmas prove that the matcher finds every described match.
`json.loads` is a parameter `parse: string -> Option<Json>`, where `None` stands
for the exception it raises. The call `datetime(y, m, d).strftime("%Y-%m-%d")` is
a parameter `fmt` (see Findings). The record is a class `Validate.Payload` whose
`fields` map the method `PostValidate` reassigns. An exception inside
`post_validate` is `ok == false`, with the record as far as the code got.

Modules: `Wrappers`, `PyText` (the `str` operations used), `Matching`, `Json`,
`IdNumber`, `Phone`, `DocDate`, `Officer`, `DocNo`, `JsonScan`, `JsonRecovery`,
`Validate`.

Behaviour of the code worth knowing:

- The code does not check that a parsed `class_specific` is a mapping. A string that
  parses to a list or a number is stored as that value.
- No default note is synthesised; `main.py:17` leaves notes to the prompt.
- The date search has no separator-only or compact numeric patterns beyond
  `DATE_ISO_RE`.
- `post_validate` raises for a truthy non-list `targets`, for a target that is not a
  mapping, and for a truthy non-string `tw_id`.

## Model

| member | source | states |
|---|---|---|
| IdNumber.ValidateTwIdSpec | utils.py:10-24 | `validate_tw_id(s)` holds iff `s` is one letter A-Z, then `1` or `2`, then 8 digits, and the weighted sum of the letter code's two digits and the nine digits with weights 1,9,8,7,6,5,4,3,2,1,1 is a multiple of 10 |
| IdNumber.LetterMapTotal | utils.py:5-20 | `LETTER_MAP` is defined exactly on `A`..`Z` with codes 10..35, so the `code is None` branch cannot be taken after the shape check |
| IdNumber.LetterMapInverse | utils.py:5-9 | every letter's code lies in 10..35 and leads back to that letter |
| IdNumber.LetterMapInjective | utils.py:5-9 | different letters have different codes |
| IdNumber.CheckDigitUnique | utils.py:21-24 | for a well-shaped first nine characters, exactly one value of the last digit makes the number valid: `(10 - partial % 10) % 10` |
| IdNumber.SingleDigitChangeDetected | utils.py:22-24 | changing one digit of weight 7, 3 or 1 (positions 2, 6, 8, 9) of a valid number always makes it invalid |
| IdNumber.SingleDigitChangeUndetected | utils.py:22-24 | a single changed digit of even weight can go undetected: A123456789 and A128456789 are both valid |
| Matching.Search | utils.py:56 | `re.search`: the match at the leftmost position that has one; no match before it; `None` only when no position matches |
| Matching.FindIter | utils.py:50 | `re.finditer`: every element is a match at its start, the first is the `search` result, each next one is the search from the previous end, and nothing is found after the last |
| Matching.FindIterOrdered | utils.py:50 | the matches of `finditer` are in text order and do not overlap |
| Matching.FindIterGaps | utils.py:79 | no match starts before the first, between two consecutive, or after the last match of `finditer` |
| Phone.PhoneAt | utils.py:32-35 | a match of `PHONE_RE` at a position starts there, is non-empty, and its groups are a 2-3 digit area code starting with `0`, two 3-4 digit groups and an optional 1-10 character extension of `[0-9\-、或/]` |
| Phone.PhoneComplete | utils.py:33 | every number laid out as the pattern describes (optional `(`, `0` and one or two digits, `)?[ -]?`, 3-4 digits, `[ -]?`, 3-4 digits) is matched at its start; with two digits after the `0` the area code keeps all three |
| Phone.PhoneMatched | utils.py:33-35 | such a number is a match of `PHONE_RE` at its start, and a three-character area code is its group 1 |
| Phone.AreaTwoDigits | utils.py:33 | `0\d{1,2}` takes two digits first whenever the rest of the number follows them |
| Phone.AreaOneDigit | utils.py:33 | `0\d{1,2}` falls back to one digit when only that lets the rest of the number follow |
| PyText.ReplaceChar | utils.py:43 | `str.replace` of one character by another keeps the length and changes exactly the occurrences of that character |
| Phone.MarkAlternatives | utils.py:43 | the extension keeps its length, every `、` and `/` becomes `或`, and every other character is kept |
| Phone.NormalizePhoneShape | utils.py:37-45 | the result always starts with `area-p1p2`; it is longer iff the extension is non-empty, and then it is `#` plus the extension with its separators rewritten |
| Phone.NormalizedMatch | utils.py:37-45 | for a real match, the normalized number is a `0`-led area code, `-`, six to eight digits, and optionally `#` and an extension free of `、` and `/` |
| Phone.PhoneMatches | utils.py:50 | the matches are in text order, without overlap, and the first is the `search` result |
| Phone.FirstKeywordMatch | utils.py:49-54 | the first keyword in priority order for which some match's window contains it, paired with the first such match; no earlier keyword occurs in any window |
| Phone.KeywordLoops | utils.py:49-54 | the nested keyword × match loops with early return compute exactly that pair |
| Phone.ExtractPhone | utils.py:47-57 | `extract_phone` returns what the keyword priority and the first-match fallback specify |
| Phone.PhoneSpec | utils.py:47-57 | the result is `None` iff the pattern matches nowhere in the text |
| Phone.ExtractPhonePriority | utils.py:49-54 | when keyword `k` is the first keyword found in any window and match `j` the first whose window contains it, the result is match `j` normalized |
| Phone.ExtractPhoneFallback | utils.py:55-57 | when no window contains any keyword, the result is the first match normalized, or `None` without a match |
| DocDate.RocSound | utils.py:62 | a match of `DATE_ROC_RE` starts at its position, is non-empty, and its groups are 2-3, 1-2 and 1-2 digits |
| DocDate.RocComplete | utils.py:62 | every era-year date laid out as the pattern describes (`民國`, then year, month and day digits each between optional spaces and followed by `年`, `月`, `日`) is matched, ending at its `日`, with those digits as its groups |
| DocDate.FieldsExact | utils.py:62 | the matcher reads the three `\s*(\d{a,b})\s*X` steps at exactly the positions of a layout: what it reads is a layout, and every layout is what it reads |
| DocDate.FieldsSound | utils.py:62 | what the matcher reads for the three steps is a layout of them |
| DocDate.FieldsComplete | utils.py:62 | every layout of the three steps is read by the matcher |
| DocDate.FieldComplete | utils.py:62 | one step `\s*(\d{a,b})\s*X` laid out is read at exactly its positions |
| DocDate.FieldReads | utils.py:62 | one step keeps the positions its space, digit and space runs settle on |
| DocDate.StepsSound | utils.py:62 | steps read one after the other by any reader that reads only layouts form a layout |
| DocDate.StepsComplete | utils.py:62 | steps laid out one after the other are read by any reader that reads every layout |
| DocDate.IsoAt | utils.py:63 | a match of `DATE_ISO_RE` is non-empty, its year is four digits starting `20`, and month and day are 1-2 digits |
| DocDate.IsoComplete | utils.py:63 | every common-era date laid out as the pattern describes (`20` and two digits, optional separator, spaces, month digits, optional separator, spaces, day digits) is matched, with its own four digits as the year |
| DocDate.MonthDayComplete | utils.py:63 | the month and day part of such a date is matched, whichever month length the engine keeps |
| DocDate.FormatIntendedRoundTrip | utils.py:65-70 | the intended conversion succeeds iff (y, m, d) is a calendar date in years 1..9999, and then gives `YYYY-MM-DD` whose fields read back as y, m and d |
| DocDate.NormalizeRocToIsoIntended | utils.py:65-70 | the intended `normalize_date_roc_to_iso(y, m, d)` succeeds iff (y + 1911, m, d) is a calendar date, and returns that date zero-padded; it never coerces |
| DocDate.ConversionExample | utils.py:65-70 | era 100-09-09 gives `None` as written and `2011-09-09` as intended; month 13 gives `None` |
| DocDate.KeywordHits | utils.py:77-79 | the keyword occurrences are matches of the keyword alternation, in text order, without overlap |
| DocDate.KeywordWindowAround | utils.py:79-81 | the window is a piece of the text that holds the keyword occurrence, with at most 20 characters before it and 30 after |
| PyText.WindowAround | utils.py:81 | `text[max(0, start-b):min(len, end+a)]` is a piece of the text that holds `text[start:end]` and is at most `b + (end - start) + a` long |
| DocDate.ExtractDocDate | utils.py:72-108 | `extract_doc_date` returns the first window's date in text order, else the whole-text fallback |
| DocDate.WindowPrefersEra | utils.py:82-87 | in a window, a non-empty era-year conversion is the result whatever the common-era pattern finds |
| DocDate.FallbackPrefersEra | utils.py:97-100 | in the fallback, an era-year match is returned even when its conversion is `None`; the common-era pattern is not consulted |
| DocDate.FirstAttemptIs | utils.py:79-95 | the keyword loop answers with the first window, in text order, that yields a date |
| DocDate.FirstAttemptNone | utils.py:79-96 | the keyword loop finds nothing iff no window yields a date |
| DocDate.DocDateFromConverter | utils.py:72-108 | every answer of `extract_doc_date` is an output of the date conversion |
| DocDate.DocDateAsWrittenNone | utils.py:65-108 | as written (`datetime` unbound) `extract_doc_date` returns `None` for every text |
| DocDate.DocDateIntendedValid | utils.py:72-108 | with the intended conversion, every answer is a zero-padded `YYYY-MM-DD` of a calendar date |
| Officer.NameAfter | utils.py:61 | after a role word: a colon, only whitespace, then a name of 2-4 characters outside `\s，、()（）` |
| Matching.FirstSome | utils.py:112 | an alternation tries its alternatives in order: the result is the first that succeeds, none before it succeeds, and `None` means none succeeds |
| Officer.LabelFrom | utils.py:112 | the role-word alternation at a position picks a role word that a labelled name follows, trying the words in list order |
| Officer.LabelFromComplete | utils.py:112 | wherever a labelled role word occurs, the alternation matches there with that word or an earlier one, and with that word finds the name at the same start, at least as long |
| Officer.ExtractOfficer | utils.py:110-124 | the role, when present, is one of `ROLE_WORDS`; a name is only returned with a role |
| Officer.OfficerName | utils.py:114-118 | a returned name has 2-4 name characters and no `電話`; the name is dropped iff it contains `電話` (the length test never fires) |
| Officer.OfficerLabelled | utils.py:112-119 | if any labelled role occurs, the result's role is that of the leftmost label, and a kept name is that label's name |
| Officer.OfficerRoleOnly | utils.py:120-123 | without any label, the result is the leftmost role word (first in list order at that position) and no name |
| Officer.OfficerNone | utils.py:110-124 | the role is `None` iff no role word occurs anywhere in the text |
| DocNo.LabelledNumber | utils.py:129 | after `發文字號` or `文號`: a colon, whitespace, then 4-30 characters outside `\n\r，。、` |
| DocNo.SerialTail | utils.py:130 | the serial part is 3-20 characters outside `\s，。、`, followed by `號` |
| DocNo.PrefixCount | utils.py:130 | the office prefix is 1-6 prefix characters followed by `字第` and a serial part |
| DocNo.PrefixExtraListed | utils.py:130 | every character listed in the prefix class is a prefix character |
| DocNo.SerialAt | utils.py:130 | a serial match satisfies the description prefix `字第` serial `號` |
| DocNo.DocNoAt | utils.py:128-131 | a match takes exactly one alternative; a labelled match's group ends the match; a serial match's group is the whole match |
| DocNo.DocNoAtDescribed | utils.py:128-131 | the pattern matches at a position iff one alternative is described there, and the labelled one wins where both are |
| DocNo.DocNoMatches | utils.py:134 | `finditer`: matches inside the text, the first one is the `search` result |
| DocNo.Clean | utils.py:138 | the cleaned number is `strip()` and then `strip('，。；；、 ')` of the group; it is a slice of the group, only whitespace and marks are cut off on either side, and it neither begins nor ends with a mark |
| DocNo.CleanKeepsHiddenSpace | utils.py:138 | a mark in front of other whitespace hides that whitespace from the first strip, so the cleaned number begins with it: `Clean("，　ab")` is `"　ab"` |
| PyText.StripByDropped | utils.py:138 | `strip` keeps a slice of its input and cuts off only characters of the stripped set |
| PyText.StripBySlice | utils.py:138 | the same, with the start of the kept slice |
| PyText.SliceDroppingCompose | utils.py:138 | two strips one after the other keep a slice of the input and cut off only characters either strip removes |
| PyText.StripByUnpadded | utils.py:138 | `strip` leaves a string alone when neither end is in the stripped set |
| PyText.StripByInfix | utils.py:138 | what `strip` leaves is a piece of the string it was given |
| PyText.LStripByDropped | utils.py:138 | `lstrip` removes only characters of the stripped set |
| PyText.RStripByDropped | utils.py:138 | `rstrip` removes only characters of the stripped set |
| DocNo.ExtractDocNo | utils.py:133-139 | `extract_doc_no` returns the cleaned first non-empty group of the first match that has one |
| DocNo.DocNoFirstMatch | utils.py:134-139 | every match has a non-empty group, so the result is the cleaned group of the leftmost match, or `None` |
| DocNo.DocNoNone | utils.py:133-139 | the result is `None` iff neither alternative is described anywhere in the text |
| DocNo.DocNoSerialVerbatim | utils.py:135-138 | a serial number comes back verbatim, from its prefix to its `號` |
| JsonScan.ExtractJsonObject | llm_client.py:6-38 | the scanning loop returns the first longest top-level object that closed |
| JsonScan.ScanConsistent | llm_client.py:17-37 | at every step `esc` implies string mode, depth is never negative, and `start` is set iff an object is open, at its `{` |
| JsonScan.StepQuote | llm_client.py:18-19 | a `"` flips string mode iff `esc` is not armed; no other character flips it |
| JsonScan.StepEscape | llm_client.py:18-23 | `esc` is armed iff the character is a `\` inside a string and `esc` was not armed |
| JsonScan.StepInString | llm_client.py:20-22 | inside a string no character changes depth, start or the result |
| JsonScan.StepStrayClose | llm_client.py:29-31 | a `}` at depth 0 is ignored |
| JsonScan.StepBest | llm_client.py:29-37 | only a `}` closing a top-level object outside a string can replace the result, and only by a strictly longer candidate |
| JsonScan.StripCandidate | llm_client.py:33 | the `.strip()` of a candidate changes nothing, as it runs from `{` to `}` |
| JsonScan.ScanBest | llm_client.py:32-36 | the result is the first longest of all candidates, in closing order |
| JsonScan.LongestAppend | llm_client.py:35-36 | a new candidate replaces the choice iff it is strictly longer |
| JsonScan.NewCandidate | llm_client.py:25-33 | a candidate is the text from the opening `{` to the closing `}` |
| JsonScan.ScanBestBraced | llm_client.py:25-37 | a result begins with `{`, ends with `}` and is a piece of the text |
| JsonScan.ScanNone | llm_client.py:15-38 | the result is `None` iff no top-level object ever closes |
| PyText.LongestFirst | llm_client.py:77 | `max(parts, key=len)` keeps the part no other part is longer than and every earlier part is shorter than |
| PyText.LongestIndex | llm_client.py:77 | `max(parts, key=len)`: no part is longer and every earlier part is strictly shorter |
| PyText.SplitCount | llm_client.py:68-71 | `split` gives one piece more than there are occurrences, so a reply with a fence has at least two pieces |
| PyText.JoinSplit | llm_client.py:71 | joining the pieces of a split with the fence gives the reply back |
| JsonRecovery.FenceParts | llm_client.py:70-76 | the loop keeps one part per block: a `json`-tagged block without its first line, any other block as it is |
| JsonRecovery.IndexOf | llm_client.py:74 | the first line break of a block, if any |
| JsonRecovery.BlockBodyTagged | llm_client.py:73-74 | a `json`-tagged block with a line break loses exactly its first line |
| JsonRecovery.BlockBodyTaggedOneLine | llm_client.py:74 | a `json`-tagged block without a line break becomes the empty part, which stays in the list |
| JsonRecovery.BlockBodyUntagged | llm_client.py:75-76 | an untagged block is kept as it is |
| JsonRecovery.Unfence | llm_client.py:68-77 | the fence step gives the reply untouched without a fence, else the first longest block body, stripped |
| JsonRecovery.UnfencedNoFence | llm_client.py:68 | a reply without a fence goes to the scan untouched |
| JsonRecovery.UnfencedFirstLongest | llm_client.py:77 | with a fence, the first longest part, stripped, is kept |
| JsonRecovery.ChatJson | llm_client.py:59-97 | the whole recovery: direct parse of an object, fence cutting, candidate parse, repaired parse, last parse of the text |
| JsonRecovery.ChatJsonDirect | llm_client.py:59-65 | a reply that parses to an object is returned as parsed |
| JsonRecovery.CandidateShape | llm_client.py:80-81 | a found candidate is non-empty, braced and a piece of the text, so `if cand:` only asks whether there is one |
| JsonRecovery.ChatJsonCandidate | llm_client.py:80-87 | with a candidate: its parse, else the parse of its repaired form, else an exception |
| JsonRecovery.ChatJsonNoCandidate | llm_client.py:89-97 | without a candidate the text is parsed and whatever it gives is returned, else the parse error escapes |
| JsonRecovery.ChatJsonRaised | llm_client.py:59-97 | an exception escapes iff every attempt fails |
| PyText.ReplaceIsJoinOfSplit | llm_client.py:86 | the scanning `replace` equals `rep.join(s.split(pat))` |
| JsonRecovery.RepairLength | llm_client.py:86 | the repair only deletes commas: one per `,}` and `,]` it replaces |
| JsonRecovery.RepairAbsent | llm_client.py:86 | a candidate without `,}` or `,]` is unchanged by the repair |
| Validate.Payload.PostValidate | main.py:18-46 | the record afterwards (and whether it raised) is `PostValidated` of the record before, that is `PostValidatedWith` of it and what the extractors return for the text |
| Validate.Payload.CoerceStep | main.py:20-26 | a string `class_specific` becomes its parse, or `{}`; anything else is untouched |
| Validate.Payload.MarkStep | main.py:29-31 | the target loop marks targets in order and stops, raising, at the first that cannot be marked |
| Validate.Payload.FallbackStep | main.py:34-44 | the officer fallback, then the three fills |
| Validate.Payload.FillPhone | main.py:36-38 | an empty contact phone is filled with a truthy extracted phone |
| Validate.Payload.FillDocNo | main.py:39-41 | an empty reference number is filled with a truthy extracted one |
| Validate.Payload.FillDocDate | main.py:42-44 | an empty document date is filled with a truthy extracted one |
| Validate.FirstFailing | main.py:29-31 | the first target that the loop cannot mark, all earlier ones markable |
| Validate.MarkTargetFails | main.py:30-31 | a target raises iff it is not a mapping or has a truthy `tw_id` that is not a string |
| Validate.MarkTargetSets | main.py:30-31 | a marked target is the same mapping with `id_valid` overwritten by "non-empty string `tw_id` that passes the checksum" |
| Validate.ClassSpecificResult | main.py:20-26 | after the call, `class_specific` is the parse of a string value or `{}`, and otherwise its old value, whatever the extractors return |
| Validate.TargetsSkipped | main.py:29 | a missing or falsy `targets` causes no exception and no change, whatever the extractors return |
| Validate.PostValidateRaises | main.py:29-31 | the call raises iff `targets` is truthy and not a list, or holds a target that cannot be marked; the extractors play no part |
| Validate.TargetsMarked | main.py:29-31 | when the call returns, `targets` keeps its order and length and each target has `id_valid` recomputed, whatever the extractors return |
| Validate.OfficerResult | main.py:34-35 | both officer fields are set from the extractor, `None` as `null`, iff both were empty; otherwise both are kept |
| Validate.FilledFields | main.py:36-44 | the phone, reference number and date end up as `Fill` makes them |
| Validate.FillKeeps | main.py:36-44 | a truthy field is never overwritten; an empty one takes a truthy extracted value and otherwise stays |
| Validate.FallbacksFrame | main.py:34-44 | the fallbacks write only the officer, phone, reference-number and date keys |
| Validate.OtherKeysUnchanged | main.py:18-46 | every key outside those `post_validate` writes keeps its presence and value, raising or not, whatever the extractors return |

## Findings

| source | as written | input that shows it | evidently intended | confidence | as-written member | corrected member |
|---|---|---|---|---|---|---|
| utils.py:68 | `datetime(...)` is called at lines 68, 93 and 105, but line 2 imports only `date`; the `NameError` is caught, so every conversion returns `None` | `發文日期：民國100年09月09日` (era date 100-09-09) gives `None` | the zero-padded `YYYY-MM-DD` of (y + 1911, m, d) when that is a calendar date, else `None` | high, not executed | DocDate.DocDateAsWrittenNone | DocDate.DocDateIntendedValid |

The date code and `Validate.Payload.PostValidate` take the conversion as the
parameter `fmt`. `DocDate.FormatAsWritten` is the code as written and
`DocDate.FormatIntended` is the intended conversion; the properties about dates are
proved for `FormatIntended`.

## Left out

- `chat_ollama_raw` and the network request: the reply text is the input of `JsonRecovery.ChatJson`.
- The debug file written before the last parse (llm_client.py:89-95): file I/O under a random name, best-effort. Only the raised parse error is modelled.
- `today_fields`: it reads the wall clock.
- `render_reply`, `main`, `load_prompt` and the scripts `connect.py`, `api.py`, `api_pull.py`: templating, argument parsing, file and network I/O.
- `json.loads`: an uninterpreted parameter. Its real grammar, and so which candidates parse, is not modelled.
- Python's regex engine: each pattern is a hand-written matcher of that pattern only.
- `\d` is modelled as ASCII and fullwidth digits only. `\w` is approximated by ASCII letters and digits, `_`, fullwidth letters and digits, kana, Hangul and the CJK ideograph blocks. Other Unicode digits and letters are not.
- The `\b` word boundaries of `ID_RE` are not modelled separately; under `fullmatch` of a ten-character letter-and-digits string they always hold.
- DocDate.FormatIntended: it zero-pads years below 1000, where the C library's `%Y` would not. The patterns only produce years 1911 and later (an era year `00` gives 1911), so this case is never reached.
- Validate.Payload.MarkStep: targets are JSON values, so the in-place update of a target dict is modelled as replacing the list element. Aliasing of a target dict from elsewhere is not captured.
- Validate.Payload.PostValidate: the record is one class instance that is updated in place, but an exception is modelled as a `false` result rather than as unwinding.
- A `payload` argument that is not a mapping: the record is a map by construction.
