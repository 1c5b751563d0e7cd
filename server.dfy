/**
  The string logic of the code-generation server (server/index.js): the
  hand-written `.env` loader, the validation of a generation request, the
  assembly of the prompt, the normalisation of the image to a data URL, and
  the extraction of the answer from the upstream chat-completion response.
  The file system, Express, the upstream fetch and JSON parsing are not
  modelled; their results are parameters.
*/
module Server {
  import opened Wrappers
  import opened JsString
  import opened Types

  // ---------------------------------------------------------------------------
  // The `.env` loader

  /** `s.indexOf(c)`: the first index of `c`, or -1. */
  function IndexOf(s: string, c: char): (r: int)
    ensures -1 <= r < |s|
    ensures r == -1 <==> c !in s
    ensures r >= 0 ==> s[r] == c && c !in s[..r]
  {
    if s == [] then -1
    else if s[0] == c then 0
    else
      var k := IndexOf(s[1..], c);
      if k == -1 then -1
      else
        assert s[..k + 1] == [s[0]] + s[1..][..k];
        k + 1
  }

  predicate IsQuote(c: char) {
    c == '\'' || c == '"'
  }

  /** `v.replace(/^['"]|['"]$/g, '')`: one leading and one trailing quote
      removed, independently of each other. */
  function StripQuotes(v: string): string {
    var a := if v != [] && IsQuote(v[0]) then v[1..] else v;
    if a != [] && IsQuote(a[|a| - 1]) then a[..|a| - 1] else a
  }

  /** Quotes around a value come off, whether or not they match, and so does
      a quote on one side only; a value without quotes at its ends is kept. */
  lemma StripQuotesSpec(q1: char, s: string, q2: char)
    requires IsQuote(q1) && IsQuote(q2)
    ensures StripQuotes([q1] + s + [q2]) == s
    ensures (s == [] || !IsQuote(s[|s| - 1])) ==> StripQuotes([q1] + s) == s
    ensures (s == [] || !IsQuote(s[0])) ==> StripQuotes(s + [q2]) == s
    ensures (s == [] || (!IsQuote(s[0]) && !IsQuote(s[|s| - 1]))) ==> StripQuotes(s) == s
  {
    var v := [q1] + s + [q2];
    assert v[1..] == s + [q2];
    assert (s + [q2])[..|s|] == s;
    assert ([q1] + s)[1..] == s;
    if s != [] {
      assert (s + [q2])[0] == s[0];
    }
  }

  /** The key and value of a line, or nothing for a blank line, a comment or a
      line without `=`; the split is at the first `=`. */
  function ParseEnvLine(line: string): Option<(string, string)> {
    var trimmed := Trim(line);
    if trimmed == "" || StartsWith(trimmed, "#") then None
    else
      var eq := IndexOf(trimmed, '=');
      if eq == -1 then None
      else Some((Trim(trimmed[..eq]), StripQuotes(Trim(trimmed[eq + 1..]))))
  }

  /** A text without white space at its ends is its own trim. */
  lemma TrimUnpadded(r: string)
    requires r == [] || (!IsSpace(r[0]) && !IsSpace(r[|r| - 1]))
    ensures Trim(r) == r
  {
    if r != [] {
      TrimOfPadded("", r, "");
      assert "" + r + "" == r;
    }
  }

  lemma IndexOfIs(s: string, c: char, i: nat)
    requires i < |s| && s[i] == c && c !in s[..i]
    ensures IndexOf(s, c) == i
  {
    var r := IndexOf(s, c);
    assert s[..i + 1][i] == c;
  }

  /** The file's `KEY=value` lines read back as written: the key is cut at the
      first `=`, so the value may hold more of them. */
  lemma ParseAssignment(k: string, v: string)
    requires k != [] && '=' !in k && k[0] != '#'
    requires !IsSpace(k[0]) && !IsSpace(k[|k| - 1])
    requires v == [] || (!IsSpace(v[0]) && !IsSpace(v[|v| - 1]))
    ensures ParseEnvLine(k + "=" + v) == Some((k, StripQuotes(v)))
  {
    var line := k + "=" + v;
    assert line[0] == k[0];
    assert line[|line| - 1] == if v == [] then '=' else v[|v| - 1];
    TrimUnpadded(line);
    assert line[..|k|] == k;
    IndexOfIs(line, '=', |k|);
    assert line[|k| + 1..] == v;
    TrimUnpadded(k);
    TrimUnpadded(v);
  }

  /** The same line with white space around the key, around `=` and at its
      ends, as in `  KEY = 'v'  `: the three trims take all of it off. */
  lemma ParsePaddedAssignment(a: string, k: string, b: string, c: string, v: string, d: string)
    requires AllSpace(a) && AllSpace(b) && AllSpace(c) && AllSpace(d)
    requires k != [] && '=' !in k && k[0] != '#'
    requires !IsSpace(k[0]) && !IsSpace(k[|k| - 1])
    requires v == [] || (!IsSpace(v[0]) && !IsSpace(v[|v| - 1]))
    ensures ParseEnvLine(a + k + b + "=" + c + v + d) == Some((k, StripQuotes(v)))
  {
    var tail := if v == [] then "" else c + v;
    PaddedLineTrim(a, k, b, c, v, d);
    ParseTrimmedAssignment(a + k + b + "=" + c + v + d, k, b, tail);
    if v != [] {
      assert c + v + "" == c + v;
      TrimOfPadded(c, v, "");
    }
  }

  /** A line that trims to a key, white space, `=` and a tail assigns the key
      the trimmed, quote-stripped tail. */
  lemma ParseTrimmedAssignment(line: string, k: string, b: string, tail: string)
    requires AllSpace(b)
    requires k != [] && '=' !in k && k[0] != '#'
    requires !IsSpace(k[0]) && !IsSpace(k[|k| - 1])
    requires Trim(line) == k + b + "=" + tail
    ensures ParseEnvLine(line) == Some((k, StripQuotes(Trim(tail))))
  {
    var core := k + b + "=" + tail;
    assert core[0] == k[0];
    PaddedCoreCut(k, b, tail);
  }

  /** The outer trim leaves the text from the key to the value's end, or to
      `=` when the value is empty. */
  lemma PaddedLineTrim(a: string, k: string, b: string, c: string, v: string, d: string)
    requires AllSpace(a) && AllSpace(c) && AllSpace(d)
    requires k != [] && !IsSpace(k[0])
    requires v == [] || !IsSpace(v[|v| - 1])
    ensures Trim(a + k + b + "=" + c + v + d) == k + b + "=" + (if v == [] then "" else c + v)
  {
    var core := k + b + "=" + (if v == [] then "" else c + v);
    var trail := if v == [] then c + d else d;
    assert a + k + b + "=" + c + v + d == a + core + trail;
    if v == [] {
      forall i | 0 <= i < |trail| ensures IsSpace(trail[i]) {
        if i < |c| { assert trail[i] == c[i]; } else { assert trail[i] == d[i - |c|]; }
      }
    }
    assert core[0] == k[0];
    TrimOfPadded(a, core, trail);
  }

  /** A key, white space and `=` cut at that `=`, and the key side trims to
      the key. */
  lemma PaddedCoreCut(k: string, b: string, tail: string)
    requires AllSpace(b)
    requires k != [] && '=' !in k && !IsSpace(k[0]) && !IsSpace(k[|k| - 1])
    ensures var core := k + b + "=" + tail;
      && IndexOf(core, '=') == |k| + |b|
      && Trim(core[..|k| + |b|]) == k
      && core[|k| + |b| + 1..] == tail
  {
    var core := k + b + "=" + tail;
    var eq := |k| + |b|;
    assert core[..eq] == k + b;
    forall i | 0 <= i < |b| ensures b[i] != '=' { assert IsSpace(b[i]); }
    IndexOfIs(core, '=', eq);
    assert "" + k + b == k + b;
    TrimOfPadded("", k, b);
  }

  /** A variable that is set and not empty. */
  predicate IsSetNonEmpty(env: map<string, string>, k: string) {
    k in env && env[k] != ""
  }

  /** One line: assigns its key unless the key already holds a non-empty value. */
  function ApplyEnvLine(env: map<string, string>, line: string): map<string, string> {
    var p := ParseEnvLine(line);
    if p.None? || IsSetNonEmpty(env, p.value.0) then env else env[p.value.0 := p.value.1]
  }

  function ApplyEnvLines(env: map<string, string>, lines: seq<string>): map<string, string>
    decreases |lines|
  {
    if lines == [] then env else ApplyEnvLines(ApplyEnvLine(env, lines[0]), lines[1..])
  }

  /** A line the loader passes over: blank once trimmed, a `#` comment, or
      without `=`. */
  predicate SkippedLine(line: string) {
    var trimmed := Trim(line);
    trimmed == "" || StartsWith(trimmed, "#") || '=' !in trimmed
  }

  /** Exactly the skipped lines yield no assignment, and they leave the
      environment as it was. */
  lemma EnvLineSkips(env: map<string, string>, line: string)
    ensures ParseEnvLine(line).None? <==> SkippedLine(line)
    ensures SkippedLine(line) ==> ApplyEnvLine(env, line) == env
  {
  }

  /** The callback run for each line: skips blank lines, comments and lines
      without `=`, and assigns the key only when it holds no non-empty value. */
  method LoadEnvLine(env: map<string, string>, line: string) returns (result: map<string, string>)
    ensures result == ApplyEnvLine(env, line)
    ensures SkippedLine(line) ==> result == env
    ensures !SkippedLine(line) ==> ParseEnvLine(line).Some? && ParseEnvLine(line).value.0 in result
  {
    EnvLineSkips(env, line);
    result := env;
    var trimmed := Trim(line);
    if trimmed != "" && !StartsWith(trimmed, "#") {
      var eqIndex := IndexOf(trimmed, '=');
      if eqIndex != -1 {
        var key := Trim(trimmed[..eqIndex]);
        var value := StripQuotes(Trim(trimmed[eqIndex + 1..]));
        if !(key in result && result[key] != "") {
          result := result[key := value];
        }
      }
    }
  }

  /** The loader: the file's content split into lines, each applied in turn
      to the environment. */
  method LoadEnv(content: string, env: map<string, string>) returns (result: map<string, string>)
    ensures result == ApplyEnvLines(env, Split(content, "\n"))
  {
    var lines := Split(content, "\n");
    result := env;
    var i := 0;
    while i < |lines|
      invariant 0 <= i <= |lines|
      invariant ApplyEnvLines(result, lines[i..]) == ApplyEnvLines(env, lines)
    {
      ghost var before := result;
      assert ApplyEnvLines(before, lines[i..]) == ApplyEnvLines(ApplyEnvLine(before, lines[i]), lines[i + 1..]) by {
        assert lines[i..][1..] == lines[i + 1..];
      }
      result := LoadEnvLine(result, lines[i]);
      i := i + 1;
    }
  }

  /** A variable already set to a non-empty value is never overwritten. */
  lemma {:induction false} EnvKeepsNonEmpty(env: map<string, string>, lines: seq<string>, k: string)
    requires IsSetNonEmpty(env, k)
    ensures k in ApplyEnvLines(env, lines) && ApplyEnvLines(env, lines)[k] == env[k]
    decreases |lines|
  {
    if lines != [] {
      EnvKeepsNonEmpty(ApplyEnvLine(env, lines[0]), lines[1..], k);
    }
  }

  /** Of two lines for the same unset key, the first wins when its value is
      not empty; an empty first value is replaced by the second. */
  lemma EnvFirstNonEmptyWins(env: map<string, string>, a: string, b: string, k: string, va: string, vb: string)
    requires !IsSetNonEmpty(env, k)
    requires ParseEnvLine(a) == Some((k, va)) && ParseEnvLine(b) == Some((k, vb))
    ensures k in ApplyEnvLines(env, [a, b])
    ensures va != "" ==> ApplyEnvLines(env, [a, b])[k] == va
    ensures va == "" ==> ApplyEnvLines(env, [a, b])[k] == vb
  {
    var e1 := ApplyEnvLine(env, a);
    assert ApplyEnvLines(env, [a, b]) == ApplyEnvLine(e1, b) by {
      assert [a, b][1..] == [b];
      assert [b][1..] == [];
      assert ApplyEnvLines(env, [a, b]) == ApplyEnvLines(e1, [b]);
      assert ApplyEnvLines(e1, [b]) == ApplyEnvLines(ApplyEnvLine(e1, b), []);
    }
    assert ParseEnvLine(a).value.0 == k && ParseEnvLine(a).value.1 == va;
    assert e1 == env[k := va];
    assert k in e1 && e1[k] == va;
    assert ParseEnvLine(b).value.0 == k && ParseEnvLine(b).value.1 == vb;
  }

  /** `process.env.OPENROUTER_API_KEY || process.env.API_KEY`, or empty. */
  function ApiKey(env: map<string, string>): string {
    if IsSetNonEmpty(env, OpenRouterKeyName) then env[OpenRouterKeyName]
    else if ApiKeyName in env then env[ApiKeyName]
    else ""
  }

  const OpenRouterKeyName: string := "OPENROUTER_API_KEY"
  const ApiKeyName: string := "API_KEY"

  // ---------------------------------------------------------------------------
  // The generation request

  /** The `base64Image` field of a request body. */
  datatype ImageField = Absent | Text(value: string) | NotText

  datatype Request = Request(
    base64Image: ImageField,
    userGuidance: string,
    previousCode: Option<GeneratedCode>,
    model: Option<string>,
    systemPrompt: Option<string>)

  /** The call made upstream: model, system prompt, user prompt and image URL. */
  datatype UpstreamCall = UpstreamCall(model: string, systemPrompt: string, promptText: string, image: string)

  datatype Reply = Reply(status: nat, error: string, body: Option<string>)

  const DefaultModel: string := "openai/gpt-4o-mini"
  const DefaultSystemPrompt: string :=
    "You are a world-class Lead Frontend Engineer. Return JSON with html, css, javascript."
  const DefaultGuidance: string := "Follow the design exactly."
  const CurrentCodeHeader: string := "\n\n### CURRENT CODE TO MODIFY:\nHTML: "
  const RefineFooter: string :=
    "\n\nUpdate the current code based on this guidance. Maintain the 1350px width and specified heading classes."
  const CssLabel: string := "\nCSS: "
  const JsLabel: string := "\nJS: "
  const GuidanceHeader: string := "\n\n### NEW GUIDANCE:\n"
  const InitialHeader: string := "\n### INITIAL GUIDANCE:\n"
  const DataPrefix: string := "data:"
  const JpegPrefix: string := "data:image/jpeg;base64,"

  function OrDefault(s: Option<string>, default: string): string {
    if s.Some? && s.value != "" then s.value else default
  }

  /** The prompt: the system prompt, then either the code to modify with the
      new guidance, or the initial guidance. */
  function PromptText(systemPrompt: string, guidance: string, previous: Option<GeneratedCode>): string {
    match previous
    case Some(c) =>
      systemPrompt + CurrentCodeHeader + c.html + CssLabel + c.css + JsLabel + c.javascript
        + GuidanceHeader + guidance + RefineFooter
    case None =>
      systemPrompt + InitialHeader + (if guidance != "" then guidance else DefaultGuidance)
  }

  // The ten pieces of a refinement prompt, of whatever content: the first
  // three open it, the fifth and seventh are inside it, the last two close it.

  lemma RefineOpens(a1: string, a2: string, a3: string, a4: string, a5: string,
                     a6: string, a7: string, a8: string, a9: string, a10: string)
    ensures StartsWith(a1 + a2 + a3 + a4 + a5 + a6 + a7 + a8 + a9 + a10, a1 + a2 + a3)
  {
    var x := a1 + a2 + a3;
    assert StartsWith(x, x);
    AppendKeeps(x, a4, x);
    AppendKeeps(x + a4, a5, x);
    AppendKeeps(x + a4 + a5, a6, x);
    AppendKeeps(x + a4 + a5 + a6, a7, x);
    AppendKeeps(x + a4 + a5 + a6 + a7, a8, x);
    AppendKeeps(x + a4 + a5 + a6 + a7 + a8, a9, x);
    AppendKeeps(x + a4 + a5 + a6 + a7 + a8 + a9, a10, x);
  }

  lemma RefineHoldsFifth(a1: string, a2: string, a3: string, a4: string, a5: string,
                     a6: string, a7: string, a8: string, a9: string, a10: string)
    ensures Contains(a1 + a2 + a3 + a4 + a5 + a6 + a7 + a8 + a9 + a10, a5)
  {
    var x := a1 + a2 + a3 + a4;
    ConcatParts(x, a5, "");
    assert x + a5 + "" == x + a5;
    AppendKeeps(x + a5, a6, a5);
    AppendKeeps(x + a5 + a6, a7, a5);
    AppendKeeps(x + a5 + a6 + a7, a8, a5);
    AppendKeeps(x + a5 + a6 + a7 + a8, a9, a5);
    AppendKeeps(x + a5 + a6 + a7 + a8 + a9, a10, a5);
  }

  lemma RefineHoldsSeventh(a1: string, a2: string, a3: string, a4: string, a5: string,
                     a6: string, a7: string, a8: string, a9: string, a10: string)
    ensures Contains(a1 + a2 + a3 + a4 + a5 + a6 + a7 + a8 + a9 + a10, a7)
  {
    var x := a1 + a2 + a3 + a4 + a5 + a6;
    ConcatParts(x, a7, "");
    assert x + a7 + "" == x + a7;
    AppendKeeps(x + a7, a8, a7);
    AppendKeeps(x + a7 + a8, a9, a7);
    AppendKeeps(x + a7 + a8 + a9, a10, a7);
  }

  lemma RefineCloses(a1: string, a2: string, a3: string, a4: string, a5: string,
                     a6: string, a7: string, a8: string, a9: string, a10: string)
    ensures EndsWith(a1 + a2 + a3 + a4 + a5 + a6 + a7 + a8 + a9 + a10, a9 + a10)
  {
    var x := a1 + a2 + a3 + a4 + a5 + a6 + a7 + a8;
    ConcatParts(x, "", a9 + a10);
    assert x + "" + (a9 + a10) == x + a9 + a10;
  }

  /** A refinement prompt starts with the system prompt and the code to
      modify, carries every part of that code, and ends with the guidance and
      the fixed instruction. */
  lemma RefinePromptSpec(systemPrompt: string, guidance: string, c: GeneratedCode)
    ensures var p := PromptText(systemPrompt, guidance, Some(c));
      && StartsWith(p, systemPrompt + CurrentCodeHeader + c.html)
      && Contains(p, c.css) && Contains(p, c.javascript)
      && EndsWith(p, guidance + RefineFooter)
  {
    RefineOpens(systemPrompt, CurrentCodeHeader, c.html, CssLabel, c.css,
                JsLabel, c.javascript, GuidanceHeader, guidance, RefineFooter);
    RefineHoldsFifth(systemPrompt, CurrentCodeHeader, c.html, CssLabel, c.css,
                     JsLabel, c.javascript, GuidanceHeader, guidance, RefineFooter);
    RefineHoldsSeventh(systemPrompt, CurrentCodeHeader, c.html, CssLabel, c.css,
                       JsLabel, c.javascript, GuidanceHeader, guidance, RefineFooter);
    RefineCloses(systemPrompt, CurrentCodeHeader, c.html, CssLabel, c.css,
                 JsLabel, c.javascript, GuidanceHeader, guidance, RefineFooter);
  }

  /** A first prompt is the system prompt followed by the initial guidance,
      the default guidance when none was given. */
  lemma InitialPromptSpec(systemPrompt: string, guidance: string)
    ensures var p := PromptText(systemPrompt, guidance, None);
      && StartsWith(p, systemPrompt)
      && EndsWith(p, InitialHeader + if guidance != "" then guidance else DefaultGuidance)
  {
    var tail := InitialHeader + if guidance != "" then guidance else DefaultGuidance;
    assert PromptText(systemPrompt, guidance, None) == systemPrompt + "" + tail;
    ConcatParts(systemPrompt, "", tail);
  }

  /** Every prompt starts with the system prompt. */
  lemma PromptStartsWithSystem(systemPrompt: string, guidance: string, previous: Option<GeneratedCode>)
    ensures StartsWith(PromptText(systemPrompt, guidance, previous), systemPrompt)
  {
    if previous.Some? {
      var c := previous.value;
      var h := systemPrompt + CurrentCodeHeader + c.html;
      RefinePromptSpec(systemPrompt, guidance, c);
      assert h[..|systemPrompt|] == systemPrompt;
    } else {
      InitialPromptSpec(systemPrompt, guidance);
    }
  }

  /** `base64Image.split(',')[1] || base64Image` */
  function Base64Data(b: string): string {
    var parts := Split(b, ",");
    if |parts| > 1 && parts[1] != "" then parts[1] else b
  }

  /** A data URL is passed through; anything else is taken as (or cut down
      to) the base64 payload and labelled as JPEG. */
  function NormalizeImage(b: string): string {
    if StartsWith(b, DataPrefix) then b else JpegPrefix + Base64Data(b)
  }

  /** The result is always a data URL, and normalising it again changes
      nothing; an input is passed through exactly when it is a data URL. */
  lemma NormalizeImageIsDataUrl(b: string)
    ensures StartsWith(NormalizeImage(b), DataPrefix)
    ensures NormalizeImage(NormalizeImage(b)) == NormalizeImage(b)
    ensures NormalizeImage(b) == b <==> StartsWith(b, DataPrefix)
  {
    var n := NormalizeImage(b);
    if !StartsWith(b, DataPrefix) {
      assert n[..|DataPrefix|] == JpegPrefix[..|DataPrefix|];
    }
  }

  /** Without a comma the whole input is the payload; with a comma the payload
      is the segment up to the next comma, or the whole input when that
      segment is empty. */
  lemma NormalizeImagePayload(head: string, rest: string)
    requires !StartsWith(head, DataPrefix) && ',' !in head
    ensures NormalizeImage(head) == JpegPrefix + head
    ensures var seg := Split(rest, ",")[0];
      && StartsWith(rest, seg) && !Contains(seg, ",")
      && NormalizeImage(head + "," + rest) == JpegPrefix + (if seg != "" then seg else head + "," + rest)
  {
    NoCommaNotContained(head);
    SplitWithoutSeparator(head, ",");
    var b := head + "," + rest;
    assert b == head + [','] + rest;
    SplitAtJoint(head, ',', rest);
    CommaKeepsNonDataUrl(head, rest);
    SplitPiecesAreFree(rest, ",", 0);
  }

  lemma NoCommaNotContained(head: string)
    requires ',' !in head
    ensures !Contains(head, ",")
  {
    forall i | 0 <= i <= |head| - 1 ensures !OccursAt(head, ",", i) {
      assert head[i] in head;
      assert head[i..i + 1] == [head[i]];
    }
  }

  /** A comma after a text without one cannot complete the `data:` prefix. */
  lemma CommaKeepsNonDataUrl(head: string, rest: string)
    requires !StartsWith(head, DataPrefix) && ',' !in head
    ensures !StartsWith(head + "," + rest, DataPrefix)
  {
    var b := head + "," + rest;
    if |head| >= |DataPrefix| {
      assert b[..|DataPrefix|] == head[..|DataPrefix|];
    } else {
      assert |b| < |DataPrefix| || b[|head|] != DataPrefix[|head|];
    }
  }

  /** The checks made before any upstream call: the key, then the image. */
  function Prepare(apiKey: string, req: Request): Result<UpstreamCall> {
    if apiKey == "" then Err("OPENROUTER_API_KEY is not configured on the server.")
    else if !(req.base64Image.Text? && req.base64Image.value != "") then Err("base64Image is required.")
    else
      var sp := OrDefault(req.systemPrompt, DefaultSystemPrompt);
      Ok(UpstreamCall(OrDefault(req.model, DefaultModel), sp,
                      PromptText(sp, req.userGuidance, req.previousCode),
                      NormalizeImage(req.base64Image.value)))
  }

  // ---------------------------------------------------------------------------
  // The upstream response

  /** An element of an array `content`: its `type` and `text`, if a part at all. */
  datatype ContentPart = ContentPart(kind: Option<string>, text: Option<string>)

  /** `data.choices[0].message.content`, by its JavaScript shape. */
  datatype Content =
    | NoContent
    | StringContent(s: string)
    | ArrayContent(parts: seq<Option<ContentPart>>)
    | ObjectContent(text: Option<string>)

  predicate IsTextPart(p: Option<ContentPart>) {
    p.Some? && p.value.kind == Some("text")
  }

  /** `parts.find(part => part?.type === 'text')`, as an index. */
  function FindTextPart(parts: seq<Option<ContentPart>>): (k: Option<nat>)
    ensures k.Some? ==> k.value < |parts| && IsTextPart(parts[k.value])
    ensures k.Some? ==> forall i :: 0 <= i < k.value ==> !IsTextPart(parts[i])
    ensures k.None? ==> forall i :: 0 <= i < |parts| ==> !IsTextPart(parts[i])
  {
    if parts == [] then None
    else if IsTextPart(parts[0]) then Some(0)
    else match FindTextPart(parts[1..])
      case None => None
      case Some(j) => Some(j + 1)
  }

  function ExtractText(c: Content): string {
    match c
    case NoContent => ""
    case StringContent(s) => s
    case ArrayContent(parts) =>
      (match FindTextPart(parts)
       case None => ""
       case Some(k) => OrDefault(parts[k].value.text, ""))
    case ObjectContent(t) => OrDefault(t, "")
  }

  /** An array's text is the text of its first text part, whatever follows it. */
  lemma ExtractTextFirstPart(pre: seq<Option<ContentPart>>, part: ContentPart, post: seq<Option<ContentPart>>)
    requires forall i :: 0 <= i < |pre| ==> !IsTextPart(pre[i])
    requires part.kind == Some("text")
    ensures ExtractText(ArrayContent(pre + [Some(part)] + post)) == OrDefault(part.text, "")
  {
    var parts := pre + [Some(part)] + post;
    assert parts[|pre|] == Some(part);
  }

  /** A string content is the text itself, an object's `text` is read when
      present, and no content or an array without a text part gives none. */
  lemma ExtractTextShapes(s: string, t: Option<string>, parts: seq<Option<ContentPart>>)
    ensures ExtractText(StringContent(s)) == s
    ensures ExtractText(ObjectContent(t)) == if t.Some? then t.value else ""
    ensures ExtractText(NoContent) == ""
    ensures FindTextPart(parts).None? ==> ExtractText(ArrayContent(parts)) == ""
  {
  }

  /** The upstream reply: `response.ok`, and the message content if it was read. */
  datatype UpstreamReply = UpstreamReply(ok: bool, content: Content)

  /** What the server answers once the upstream call has returned; `parses`
      says whether a text is valid JSON. */
  function Finish(reply: UpstreamReply, parses: string -> bool): Reply {
    if !reply.ok then Reply(502, "OpenRouter API error", None)
    else
      var text := ExtractText(reply.content);
      if text == "" then Reply(502, "Empty or unexpected OpenRouter response format.", None)
      else if !parses(text) then Reply(502, "Unable to parse OpenRouter JSON response.", None)
      else Reply(200, "", Some(text))
  }

  /** The whole exchange: the call made upstream, if any, and the reply. */
  function Handle(apiKey: string, req: Request, upstream: UpstreamReply, parses: string -> bool): (Option<UpstreamCall>, Reply) {
    match Prepare(apiKey, req)
    case Err(e) => (None, Reply(if apiKey == "" then 500 else 400, e, None))
    case Ok(call) => (Some(call), Finish(upstream, parses))
  }

  /** A missing key answers 500 and a missing, empty or non-string image 400, and
      neither calls upstream; otherwise the answer is 200 exactly when the
      upstream reply is OK and has non-empty parsable text, which is then
      the body. */
  lemma HandleSpec(apiKey: string, req: Request, upstream: UpstreamReply, parses: string -> bool)
    ensures var (call, reply) := Handle(apiKey, req, upstream, parses);
      && (apiKey == "" ==> call == None && reply.status == 500)
      && (apiKey != "" && !(req.base64Image.Text? && req.base64Image.value != "") ==> call == None && reply.status == 400)
      && (call.Some? ==> StartsWith(call.value.image, DataPrefix)
                         && StartsWith(call.value.promptText, call.value.systemPrompt))
      && (reply.status == 200 <==>
            call.Some? && upstream.ok && ExtractText(upstream.content) != "" && parses(ExtractText(upstream.content)))
      && (reply.status == 200 ==> reply.body == Some(ExtractText(upstream.content)))
      && (call.Some? ==> reply.status == 200 || reply.status == 502)
  {
    if Prepare(apiKey, req).Ok? {
      var call := Prepare(apiKey, req).value;
      NormalizeImageIsDataUrl(req.base64Image.value);
      PromptStartsWithSystem(call.systemPrompt, req.userGuidance, req.previousCode);
    }
  }

  /** Once the call is made, each upstream failure is answered 502 with its own
      error and no body: a reply that is not OK, then a content with no text,
      then a text that is not JSON. */
  lemma UpstreamFailures(apiKey: string, req: Request, upstream: UpstreamReply, parses: string -> bool)
    requires Prepare(apiKey, req).Ok?
    ensures var reply := Handle(apiKey, req, upstream, parses).1;
      && (!upstream.ok ==> reply == Reply(502, "OpenRouter API error", None))
      && (upstream.ok && ExtractText(upstream.content) == "" ==>
            reply == Reply(502, "Empty or unexpected OpenRouter response format.", None))
      && (upstream.ok && ExtractText(upstream.content) != "" && !parses(ExtractText(upstream.content)) ==>
            reply == Reply(502, "Unable to parse OpenRouter JSON response.", None))
  {
  }

  /** The server has a key exactly when one of the two variables is set and
      not empty, the first one preferred; without one every request is
      answered 500 and nothing is sent upstream; and a key already set before
      the `.env` file is read is the one the server uses. */
  lemma ApiKeySpec(env: map<string, string>, lines: seq<string>, req: Request, upstream: UpstreamReply, parses: string -> bool)
    ensures ApiKey(env) != "" <==> IsSetNonEmpty(env, OpenRouterKeyName) || IsSetNonEmpty(env, ApiKeyName)
    ensures IsSetNonEmpty(env, OpenRouterKeyName) ==> ApiKey(env) == env[OpenRouterKeyName]
    ensures !IsSetNonEmpty(env, OpenRouterKeyName) && IsSetNonEmpty(env, ApiKeyName) ==> ApiKey(env) == env[ApiKeyName]
    ensures ApiKey(env) == "" ==>
      Handle(ApiKey(env), req, upstream, parses).0 == None && Handle(ApiKey(env), req, upstream, parses).1.status == 500
    ensures IsSetNonEmpty(env, OpenRouterKeyName) ==> ApiKey(ApplyEnvLines(env, lines)) == ApiKey(env)
  {
    if IsSetNonEmpty(env, OpenRouterKeyName) {
      EnvKeepsNonEmpty(env, lines, OpenRouterKeyName);
    }
  }
}
