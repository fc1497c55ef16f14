/** The tolerant reader of the language model's reply (`parse_llm_response`):
    the text before the first "TAGS:" marker is the summary (after the first
    "SUMMARY:" marker, if any), the text after it holds the tags, read first
    as the JSON array between the first `[` and the first `]` and otherwise
    line by line. The JSON decoder is an input; an exception it raises other
    than a decoding error is not caught. */
module LlmResponse {
  import opened Text

  /** A decoded JSON value: a string, or any other value (number, object,
      array, literal), which the tag filter drops. */
  datatype JsonValue = JString(str: string) | JOther

  /** What `json.loads` does with a text that starts with `[` and ends with
      `]`: an array (section 5 of RFC 8259), a decoding error (a
      `ValueError`), or some other exception, such as the `RecursionError`
      deeply nested brackets raise. */
  datatype JsonDecode = Decoded(items: seq<JsonValue>) | DecodeError | DecodeRaised(message: string)

  /** The summary and the tags read from one reply. */
  datatype Reply = Reply(summary: string, tags: seq<string>)

  const MaxTags: nat := 8

  // ---------------------------------------------------------------------
  // Lines
  // ---------------------------------------------------------------------

  /** The line boundaries of Python's `str.splitlines`. */
  predicate IsLineBreak(c: char) {
    c == '\n' || c == '\r' || c == '\U{0b}' || c == '\U{0c}' || ('\U{1c}' <= c <= '\U{1e}')
    || c == '\U{85}' || c == '\U{2028}' || c == '\U{2029}'
  }

  function FirstBreak(s: string): (k: nat)
    ensures k <= |s|
    ensures k < |s| ==> IsLineBreak(s[k])
    ensures forall j :: 0 <= j < k ==> !IsLineBreak(s[j])
  {
    if s == [] || IsLineBreak(s[0]) then 0 else 1 + FirstBreak(s[1..])
  }

  /** `s.splitlines()`: the text between line boundaries, `\r\n` counting as
      one boundary and a final boundary not opening an empty line. */
  function SplitLines(s: string): (r: seq<string>)
    decreases |s|
    ensures forall i, j :: 0 <= i < |r| && 0 <= j < |r[i]| ==> !IsLineBreak(r[i][j])
    ensures s == [] <==> r == []
  {
    if s == [] then []
    else
      var k := FirstBreak(s);
      if k == |s| then [s]
      else
        var skip := if s[k] == '\r' && k + 1 < |s| && s[k + 1] == '\n' then 2 else 1;
        [s[..k]] + SplitLines(s[k + skip..])
  }

  /** Lines separated by `\n` alone come back as they were joined. */
  lemma {:induction false} SplitJoinedLines(lines: seq<string>)
    requires lines != [] && lines[|lines| - 1] != ""
    requires forall i, j :: 0 <= i < |lines| && 0 <= j < |lines[i]| ==> !IsLineBreak(lines[i][j])
    ensures SplitLines(Join(lines, "\n")) == lines
  {
    var s := Join(lines, "\n");
    if |lines| == 1 {
      assert s == lines[0];
      assert FirstBreak(s) == |s|;
    } else {
      var rest := Join(lines[1..], "\n");
      assert s == lines[0] + "\n" + rest;
      var k := FirstBreak(s);
      assert FirstBreak(s) == |lines[0]| by {
        assert forall j :: 0 <= j < |lines[0]| ==> s[j] == lines[0][j];
        assert s[|lines[0]|] == '\n';
      }
      assert s[..k] == lines[0];
      assert s[k + 1..] == rest;
      SplitJoinedLines(lines[1..]);
    }
  }

  // ---------------------------------------------------------------------
  // Tags
  // ---------------------------------------------------------------------

  /** `s.strip("-")`. */
  function StripDashes(s: string): string {
    Trim(s, c => c == '-')
  }

  predicate IsBlankLine(line: string) {
    PyStrip(line) == ""
  }

  /** The candidate of one line: none for a blank line, otherwise
      `line.strip().strip("-").strip()`. */
  function LineCandidate(line: string): (r: Option<JsonValue>)
    ensures r.Some? <==> !IsBlankLine(line)
    ensures r.Some? ==> r.value == JString(PyStrip(StripDashes(PyStrip(line))))
  {
    if IsBlankLine(line) then None else Some(JString(PyStrip(StripDashes(PyStrip(line)))))
  }

  /** The line-by-line fallback: one candidate per non-blank line. */
  function LineTags(lines: seq<string>): (r: seq<JsonValue>)
    ensures |r| <= |lines|
    ensures forall v :: v in r ==> v.JString?
  {
    FilterMapAll(lines, LineCandidate, (v: JsonValue) => v.JString?);
    FilterMap(lines, LineCandidate)
  }

  /** The fallback reads one candidate per non-blank line, in line order:
      `idx` lists the non-blank lines, and candidate `k` is line `idx[k]`
      stripped, stripped of dashes and stripped again. */
  lemma LineTagsPerLine(lines: seq<string>) returns (idx: seq<nat>)
    ensures |idx| == |LineTags(lines)| && Increasing(idx)
    ensures forall k :: 0 <= k < |idx| ==> idx[k] < |lines| && !IsBlankLine(lines[idx[k]])
    ensures forall k :: 0 <= k < |idx| ==> LineTags(lines)[k] == JString(PyStrip(StripDashes(PyStrip(lines[idx[k]]))))
    ensures forall m :: 0 <= m < |lines| && !IsBlankLine(lines[m]) ==> m in idx
  {
    idx := FilterMapIndices(lines, LineCandidate);
  }

  /** A tag as the final filter leaves it: non-empty, and neither its
      first nor its last character is whitespace. */
  predicate IsCleanTag(t: string) {
    t != "" && !IsPySpace(t[0]) && !IsPySpace(t[|t| - 1])
  }

  /** Clean tags are exactly the non-empty texts that stripping leaves as
      they are. */
  lemma CleanTagIsStripped(t: string)
    ensures IsCleanTag(t) <==> t != "" && PyStrip(t) == t
  {
    if IsCleanTag(t) {
      TrimNoop(t, IsPySpace);
    }
  }

  /** One candidate after the final filter: a string, stripped, if it is
      not blank. */
  function CleanTag(v: JsonValue): (r: Option<string>)
    ensures r.Some? ==> IsCleanTag(r.value)
    ensures v.JOther? ==> r.None?
    ensures v.JString? && IsCleanTag(v.str) ==> r == Some(v.str)
  {
    if v.JString? && PyStrip(v.str) != "" then
      if IsCleanTag(v.str) then TrimNoop(v.str, IsPySpace); Some(PyStrip(v.str))
      else Some(PyStrip(v.str))
    else None
  }

  /** The final filter: string candidates only, stripped, blank ones dropped,
      in their original order. */
  function KeepStrings(items: seq<JsonValue>): (r: seq<string>)
    ensures |r| <= |items|
    ensures forall t :: t in r ==> IsCleanTag(t)
  {
    FilterMapAll(items, CleanTag, IsCleanTag);
    FilterMap(items, CleanTag)
  }

  /** The filter treats each candidate on its own, so it keeps the order of
      the candidates. */
  lemma KeepStringsAppend(a: seq<JsonValue>, b: seq<JsonValue>)
    ensures KeepStrings(a + b) == KeepStrings(a) + KeepStrings(b)
  {
    FilterMapAppend(a, b, CleanTag);
  }

  /** The candidates a list of strings decodes to. */
  function AsJson(tags: seq<string>): (r: seq<JsonValue>)
    ensures |r| == |tags| && forall i :: 0 <= i < |tags| ==> r[i] == JString(tags[i])
  {
    if tags == [] then [] else [JString(tags[0])] + AsJson(tags[1..])
  }

  /** Tags that are already stripped, non-blank strings pass unchanged. */
  lemma KeepStringsSingle(t: string)
    requires IsCleanTag(t)
    ensures KeepStrings([JString(t)]) == [t]
  {
    var one := [JString(t)];
    assert CleanTag(one[0]) == Some(t);
    assert one[1..] == [];
    assert FilterMap(one, CleanTag) == [t] + FilterMap(one[1..], CleanTag);
  }

  lemma {:induction false} KeepStringsKeepsCleanTags(tags: seq<string>)
    requires forall i :: 0 <= i < |tags| ==> IsCleanTag(tags[i])
    ensures KeepStrings(AsJson(tags)) == tags
  {
    if tags != [] {
      KeepStringsKeepsCleanTags(tags[1..]);
      var head := [JString(tags[0])];
      assert AsJson(tags) == head + AsJson(tags[1..]);
      KeepStringsAppend(head, AsJson(tags[1..]));
      KeepStringsSingle(tags[0]);
      assert tags == [tags[0]] + tags[1..];
    }
  }

  function TakeTags(tags: seq<string>): (r: seq<string>)
    ensures |r| <= MaxTags
    ensures |r| <= |tags| && r == tags[..|r|]
    ensures |tags| <= MaxTags ==> r == tags
  {
    if |tags| <= MaxTags then tags else tags[..MaxTags]
  }

  /** `pat` occurs at `i` and nowhere before it. */
  predicate FirstAt(s: string, pat: string, i: nat) {
    OccursAt(s, pat, i) && forall j :: 0 <= j < i ==> !OccursAt(s, pat, j)
  }

  lemma FirstAtIndex(s: string, pat: string, i: nat)
    requires FirstAt(s, pat, i)
    ensures IndexOf(s, pat) == Some(i)
  {
  }

  /** The text after the first `SUMMARY:` marker, or all of it. */
  function AfterSummaryMarker(s: string): (r: string)
    ensures !Contains(s, "SUMMARY:") ==> r == s
    ensures forall i: nat :: FirstAt(s, "SUMMARY:", i) ==> r == s[i + 8..]
  {
    if Contains(s, "SUMMARY:") then SplitOnce(s, "SUMMARY:").1 else s
  }

  /** The summary: the stripped text after the first `SUMMARY:` marker (or
      all of it) within the text before the first `TAGS:` marker (or all of
      it). */
  function SummaryOf(content: string): (r: string)
    ensures PyStrip(r) == r
    ensures !Contains(content, "TAGS:") ==> r == PyStrip(AfterSummaryMarker(content))
    ensures forall t: nat :: FirstAt(content, "TAGS:", t) ==> r == PyStrip(AfterSummaryMarker(content[..t]))
  {
    var before := if Contains(content, "TAGS:") then SplitOnce(content, "TAGS:").0 else content;
    TrimIdempotent(AfterSummaryMarker(before), IsPySpace);
    PyStrip(AfterSummaryMarker(before))
  }

  /** With a `TAGS:` marker first at `t`, the summary is the stripped text
      between the first `SUMMARY:` marker before `t` (or the start) and
      `t`, so it never contains the marker. */
  lemma SummaryStopsAtTagsMarker(content: string, t: nat)
    requires FirstAt(content, "TAGS:", t)
    ensures !Contains(content[..t], "SUMMARY:") ==> SummaryOf(content) == PyStrip(content[..t])
    ensures forall s: nat :: FirstAt(content[..t], "SUMMARY:", s) ==> SummaryOf(content) == PyStrip(content[s + 8..t])
    ensures !Contains(SummaryOf(content), "TAGS:")
  {
    FirstAtIndex(content, "TAGS:", t);
    var before := content[..t];
    SplitOnceHead(content, "TAGS:");
    assert before == SplitOnce(content, "TAGS:").0;
    var a := AfterSummaryMarker(before);
    forall s: nat | FirstAt(before, "SUMMARY:", s)
      ensures SummaryOf(content) == PyStrip(content[s + 8..t])
    {
      assert a == before[s + 8..];
      assert before[s + 8..] == content[s + 8..t];
    }
    if Contains(before, "SUMMARY:") {
      var s := IndexOf(before, "SUMMARY:").value;
      NotContainsSlice(before, "TAGS:", s + 8, |before|);
      assert a == before[s + 8..|before|];
    }
    NotContainsTrim(a, IsPySpace, "TAGS:");
  }

  /** The outcome of reading one part of the reply: the value, or the text
      of an exception the decoder raised and nobody caught. */
  datatype Parse<T> = Parsed(value: T) | ParseFailed(message: string)

  /** The candidates read from the tags section: the decoded slice from the
      first `[` through the first `]`, or the line fallback when either
      bracket is missing or the slice does not decode. A slice whose `]`
      comes before its `[` is empty, and no JSON text is empty. Any other
      exception of the decoder is not caught. */
  function TagCandidates(tagsPart: string, decode: string -> JsonDecode): (r: Parse<seq<JsonValue>>)
    ensures !Contains(tagsPart, "[") || !Contains(tagsPart, "]") ==> r == Parsed(LineTags(SplitLines(tagsPart)))
    ensures forall i: nat, j: nat :: FirstAt(tagsPart, "[", i) && FirstAt(tagsPart, "]", j) ==>
              r == if j < i then Parsed(LineTags(SplitLines(tagsPart)))
                   else match decode(tagsPart[i..j + 1])
                     case Decoded(items) => Parsed(items)
                     case DecodeError => Parsed(LineTags(SplitLines(tagsPart)))
                     case DecodeRaised(m) => ParseFailed(m)
  {
    var open := IndexOf(tagsPart, "[");
    var close := IndexOf(tagsPart, "]");
    if open.None? || close.None? then Parsed(LineTags(SplitLines(tagsPart)))
    else
      var slice := if open.value <= close.value + 1 then tagsPart[open.value..close.value + 1] else "";
      var decoded := if slice == "" then DecodeError else decode(slice);
      match decoded
      case Decoded(items) => Parsed(items)
      case DecodeError => Parsed(LineTags(SplitLines(tagsPart)))
      case DecodeRaised(m) => ParseFailed(m)
  }

  /** The text the tags are read from: the stripped text after the first
      `TAGS:` marker. */
  function TagsText(content: string): (r: string)
    requires Contains(content, "TAGS:")
    ensures forall t: nat :: FirstAt(content, "TAGS:", t) ==> r == PyStrip(content[t + 5..])
  {
    PyStrip(SplitOnce(content, "TAGS:").1)
  }

  /** The tags: none without a `TAGS:` marker; otherwise the first eight
      kept candidates read from the stripped text after it. */
  function TagsOf(content: string, decode: string -> JsonDecode): (r: Parse<seq<string>>)
    ensures !Contains(content, "TAGS:") ==> r == Parsed([])
    ensures r.Parsed? ==> |r.value| <= MaxTags && forall t :: t in r.value ==> IsCleanTag(t)
  {
    if Contains(content, "TAGS:") then
      match TagCandidates(TagsText(content), decode)
      case Parsed(items) => Parsed(TakeTags(KeepStrings(items)))
      case ParseFailed(m) => ParseFailed(m)
    else Parsed([])
  }

  /** `parse_llm_response`: the summary and the tags, or the exception the
      decoder raised; the summary is stripped, and there are at most eight
      tags, each stripped and non-blank. */
  function ParseLlmResponse(content: string, decode: string -> JsonDecode): (r: Parse<Reply>)
    ensures r.Parsed? <==> TagsOf(content, decode).Parsed?
    ensures r.Parsed? ==> r.value.summary == SummaryOf(content) && r.value.tags == TagsOf(content, decode).value
    ensures r.ParseFailed? ==> r.message == TagsOf(content, decode).message
    ensures r.Parsed? ==> |r.value.tags| <= MaxTags && forall t :: t in r.value.tags ==> IsCleanTag(t)
    ensures r.Parsed? ==> PyStrip(r.value.summary) == r.value.summary
  {
    match TagsOf(content, decode)
    case Parsed(tags) => Parsed(Reply(SummaryOf(content), tags))
    case ParseFailed(m) => ParseFailed(m)
  }

  /** Without a `TAGS:` marker there are no tags and the summary is the
      stripped text after the first `SUMMARY:` marker (or all of it). */
  lemma NoTagsMarker(content: string, decode: string -> JsonDecode)
    requires !Contains(content, "TAGS:")
    ensures !Contains(content, "SUMMARY:") ==> ParseLlmResponse(content, decode) == Parsed(Reply(PyStrip(content), []))
    ensures forall s: nat :: FirstAt(content, "SUMMARY:", s) ==>
              ParseLlmResponse(content, decode) == Parsed(Reply(PyStrip(content[s + 8..]), []))
  {
  }

  /** When the slice from the first `[` through the first `]` of the tags
      text decodes to an array, the tags are the first eight of its clean
      string items, in order. */
  lemma TagsFromJson(content: string, decode: string -> JsonDecode, t: nat, i: nat, j: nat, items: seq<JsonValue>)
    requires FirstAt(content, "TAGS:", t)
    requires var text := PyStrip(content[t + 5..]);
             FirstAt(text, "[", i) && FirstAt(text, "]", j) && i <= j && decode(text[i..j + 1]) == Decoded(items)
    ensures ParseLlmResponse(content, decode) == Parsed(Reply(SummaryOf(content), TakeTags(KeepStrings(items))))
  {
    assert TagsText(content) == PyStrip(content[t + 5..]);
  }

  /** When the tags text lacks a bracket, or its bracketed slice is empty or
      fails to decode, the tags are the first eight clean candidates of its
      non-blank lines, in order. */
  lemma TagsFromLines(content: string, decode: string -> JsonDecode, t: nat)
    requires FirstAt(content, "TAGS:", t)
    requires var text := PyStrip(content[t + 5..]);
             forall i: nat, j: nat :: FirstAt(text, "[", i) && FirstAt(text, "]", j) ==> j < i || decode(text[i..j + 1]) == DecodeError
    ensures var text := PyStrip(content[t + 5..]);
            ParseLlmResponse(content, decode) == Parsed(Reply(SummaryOf(content), TakeTags(KeepStrings(LineTags(SplitLines(text))))))
  {
    var text := PyStrip(content[t + 5..]);
    assert TagsText(content) == text;
    CandidatesFromLines(text, decode);
  }

  lemma CandidatesFromLines(text: string, decode: string -> JsonDecode)
    requires forall i: nat, j: nat :: FirstAt(text, "[", i) && FirstAt(text, "]", j) ==> j < i || decode(text[i..j + 1]) == DecodeError
    ensures TagCandidates(text, decode) == Parsed(LineTags(SplitLines(text)))
  {
    if Contains(text, "[") && Contains(text, "]") {
      var i, j := IndexOf(text, "[").value, IndexOf(text, "]").value;
      assert FirstAt(text, "[", i) && FirstAt(text, "]", j);
    }
  }

  /** An exception the decoder raises on the slice (Python's
      `RecursionError` on deeply nested brackets) is not caught: the whole
      parse fails with its text. */
  lemma DecoderRaisePropagates(content: string, decode: string -> JsonDecode, t: nat, i: nat, j: nat, m: string)
    requires FirstAt(content, "TAGS:", t)
    requires var text := PyStrip(content[t + 5..]);
             FirstAt(text, "[", i) && FirstAt(text, "]", j) && i <= j && decode(text[i..j + 1]) == DecodeRaised(m)
    ensures ParseLlmResponse(content, decode) == ParseFailed(m)
  {
    var text := PyStrip(content[t + 5..]);
    assert TagsText(content) == text;
    assert TagCandidates(text, decode) == ParseFailed(m);
    assert TagsOf(content, decode) == ParseFailed(m);
  }
}
