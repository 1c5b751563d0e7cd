/**
  The template substitution engine of the application shell: detection of
  `{{ASSET_ID_name}}` placeholders, listing of editable text fragments, the
  three customisation passes (asset overrides, placeholder fallback, text
  edits) and the dashboard's count of saved placeholders.

  The browser's HTML parser and serialiser are not modelled: a parsed
  document is a sequence of text leaves and opaque markup, produced and
  consumed by the two functions of a `Dom` value.
*/
module Templates {
  import opened Wrappers
  import opened JsString
  import opened Seqs
  import opened Types

  // ---------------------------------------------------------------------------
  // Placeholder tokens: the pattern /\{\{ASSET_ID_([^}]+)\}\}/g

  const TokenOpen: string := "{{ASSET_ID_"
  const TokenClose: string := "}}"

  /** A name the pattern's `[^}]+` can capture. */
  predicate ValidName(name: string) {
    name != [] && '}' !in name
  }

  /** The placeholder token that carries `name`. */
  function TokenText(name: string): string {
    TokenOpen + name + TokenClose
  }

  /** The length of the run of characters other than `}` that starts `s`. */
  function NameRun(s: string): (n: nat)
    ensures n <= |s| && '}' !in s[..n]
    ensures n < |s| ==> s[n] == '}'
  {
    if s == [] || s[0] == '}' then 0
    else
      var k := NameRun(s[1..]);
      assert s[..k + 1] == [s[0]] + s[1..][..k];
      k + 1
  }

  /** The name the pattern captures when it matches at the start of `s`. */
  function MatchAt(s: string): (m: Option<string>)
    ensures m.Some? ==> ValidName(m.value) && StartsWith(s, TokenText(m.value))
  {
    if !StartsWith(s, TokenOpen) then None
    else
      var rest := s[|TokenOpen|..];
      var n := NameRun(rest);
      if 0 < n && n + 1 < |rest| && rest[n + 1] == '}' then
        assert s[..|TokenOpen| + n + 2] == TokenOpen + rest[..n] + TokenClose;
        Some(rest[..n])
      else None
  }

  /** The pattern matches at the start of `s` exactly when `s` starts with a
      complete token, and it then captures that token's name. */
  lemma MatchAtExact(s: string, name: string)
    requires ValidName(name) && StartsWith(s, TokenText(name))
    ensures MatchAt(s) == Some(name)
  {
    assert s[..|TokenOpen|] == TokenOpen;
    var rest := s[|TokenOpen|..];
    assert s[..|TokenText(name)|] == TokenOpen + (name + TokenClose);
    assert rest[..|name| + 2] == s[..|TokenText(name)|][|TokenOpen|..];
    assert rest[..|name| + 2] == name + TokenClose;
    assert rest[..|name|] == name;
    assert rest[|name|] == '}' && rest[|name| + 1] == '}';
    NameRunIs(rest, |name|);
  }

  lemma {:induction false} NameRunIs(s: string, k: nat)
    requires k <= |s| && '}' !in s[..k] && (k < |s| ==> s[k] == '}')
    ensures NameRun(s) == k
  {
    if k > 0 {
      assert s[0] == s[..k][0];
      assert s[1..][..k - 1] == s[..k][1..];
      NameRunIs(s[1..], k - 1);
    }
  }

  /** A scanned document: the pattern's matches and the characters between them. */
  datatype Piece = Lit(c: char) | Token(name: string)

  /** Scans left to right as a global regular-expression search does: a match
      is consumed whole, otherwise one character is passed over. */
  function Scan(s: string): (ps: seq<Piece>)
    ensures forall p :: p in ps && p.Token? ==> ValidName(p.name)
    decreases |s|
  {
    if s == [] then []
    else
      match MatchAt(s)
      case Some(name) => [Token(name)] + Scan(s[|TokenText(name)|..])
      case None => [Lit(s[0])] + Scan(s[1..])
  }

  function PieceText(p: Piece, spell: string -> string): string {
    match p
    case Lit(c) => [c]
    case Token(name) => spell(name)
  }

  /** The text of the pieces, each match written out by `spell`. */
  function Render(ps: seq<Piece>, spell: string -> string): string {
    if ps == [] then "" else PieceText(ps[0], spell) + Render(ps[1..], spell)
  }

  lemma RenderCons(p: Piece, ps: seq<Piece>, spell: string -> string)
    ensures Render([p] + ps, spell) == PieceText(p, spell) + Render(ps, spell)
  {
    assert ([p] + ps)[1..] == ps;
  }

  /** One step of the scan: a match at the front is consumed whole, otherwise
      one character. */
  lemma ScanStep(s: string)
    requires s != []
    ensures MatchAt(s).Some? ==>
      var name := MatchAt(s).value;
      && StartsWith(s, TokenText(name))
      && Scan(s) == [Token(name)] + Scan(s[|TokenText(name)|..])
    ensures MatchAt(s).None? ==> Scan(s) == [Lit(s[0])] + Scan(s[1..])
  {
  }

  /** Writing every match back as its token gives the scanned text back. */
  lemma {:induction false} ScanRoundTrip(s: string)
    ensures Render(Scan(s), TokenText) == s
    decreases |s|
  {
    if s != [] {
      ScanStep(s);
      var m := MatchAt(s);
      if m.Some? {
        var k := |TokenText(m.value)|;
        ScanRoundTrip(s[k..]);
        RenderCons(Token(m.value), Scan(s[k..]), TokenText);
        assert s == s[..k] + s[k..];
      } else {
        ScanRoundTrip(s[1..]);
        RenderCons(Lit(s[0]), Scan(s[1..]), TokenText);
        assert s == [s[0]] + s[1..];
      }
    }
  }

  function TokenTexts(ps: seq<Piece>): seq<string> {
    if ps == [] then []
    else (if ps[0].Token? then [TokenText(ps[0].name)] else []) + TokenTexts(ps[1..])
  }

  /** `html.match(/\{\{ASSET_ID_[^}]+\}\}/g) || []`: every match, in order. */
  function Matches(s: string): seq<string> {
    TokenTexts(Scan(s))
  }

  lemma ContainsInSuffix(s: string, k: nat, t: string)
    requires k <= |s| && Contains(s[k..], t)
    ensures Contains(s, t)
  {
    var j :| 0 <= j <= |s[k..]| - |t| && OccursAt(s[k..], t, j);
    assert s[k + j..k + j + |t|] == s[k..][j..j + |t|];
    assert OccursAt(s, t, k + j);
  }

  /** Every match is a complete token with a capturable name, and it occurs in the text. */
  lemma {:induction false} MatchesAreTokensOfText(s: string, i: nat)
    requires i < |Matches(s)|
    ensures exists name :: ValidName(name) && Matches(s)[i] == TokenText(name)
    ensures Contains(s, Matches(s)[i])
    decreases |s|
  {
    if s != [] {
      match MatchAt(s)
      case Some(name) =>
        var k := |TokenText(name)|;
        assert Scan(s)[0] == Token(name) && Scan(s)[1..] == Scan(s[k..]);
        assert Matches(s) == [TokenText(name)] + Matches(s[k..]);
        if i == 0 {
          assert OccursAt(s, TokenText(name), 0);
        } else {
          MatchesAreTokensOfText(s[k..], i - 1);
          ContainsInSuffix(s, k, Matches(s)[i]);
        }
      case None =>
        assert Scan(s)[0] == Lit(s[0]) && Scan(s)[1..] == Scan(s[1..]);
        assert Matches(s) == Matches(s[1..]);
        MatchesAreTokensOfText(s[1..], i);
        ContainsInSuffix(s, 1, Matches(s)[i]);
    }
  }

  lemma AbsentFromSuffix(s: string, k: nat, t: string)
    requires k <= |s| && !Contains(s, t)
    ensures !Contains(s[k..], t)
  {
    forall j | 0 <= j <= |s[k..]| - |t| ensures !OccursAt(s[k..], t, j) {
      assert s[k + j..k + j + |t|] == s[k..][j..j + |t|];
      assert !OccursAt(s, t, k + j);
    }
  }

  lemma MatchStartsWithMarker(s: string)
    ensures MatchAt(s).Some? ==> OccursAt(s, TokenOpen, 0)
  {
    if MatchAt(s).Some? {
      var t := TokenText(MatchAt(s).value);
      assert s[..|TokenOpen|] == t[..|TokenOpen|];
    }
  }

  /** A text without the `{{ASSET_ID_` marker has no match. */
  lemma {:induction false} NoMarkerNoMatches(s: string)
    requires !Contains(s, TokenOpen)
    ensures Matches(s) == []
    decreases |s|
  {
    if s != [] {
      MatchStartsWithMarker(s);
      assert MatchAt(s).None?;
      assert Scan(s)[0] == Lit(s[0]) && Scan(s)[1..] == Scan(s[1..]);
      assert Matches(s) == Matches(s[1..]);
      AbsentFromSuffix(s, 1, TokenOpen);
      NoMarkerNoMatches(s[1..]);
    }
  }

  /** `detectedAssets`: the distinct tokens of the current markup, or none
      when there is no generated code. */
  function DetectedAssets(code: Option<GeneratedCode>): seq<string> {
    match code
    case None => []
    case Some(c) => Dedup(Matches(c.html))
  }

  /** The distinct tokens come out once each, in the order of their first
      match; each is a complete token with a capturable name that occurs in
      the markup; there are none without generated code or without the marker. */
  lemma DetectedAssetsSpec(code: Option<GeneratedCode>)
    ensures code.None? ==> DetectedAssets(code) == []
    ensures code.Some? ==>
      var html := code.value.html;
      var r := DetectedAssets(code);
      && NoDup(r)
      && (forall i :: 0 <= i < |Matches(html)| ==> Matches(html)[i] in r)
      && (forall i :: 0 <= i < |r| ==>
            Contains(html, r[i]) && exists name :: ValidName(name) && r[i] == TokenText(name))
      && (forall i, j :: 0 <= i < j < |r| ==>
            FirstIndex(Matches(html), r[i]) < FirstIndex(Matches(html), r[j]))
      && (!Contains(html, TokenOpen) ==> r == [])
  {
    if code.Some? {
      var html := code.value.html;
      var m := Matches(html);
      var r := DetectedAssets(code);
      forall i | 0 <= i < |r|
        ensures Contains(html, r[i]) && exists name :: ValidName(name) && r[i] == TokenText(name)
      {
        var k := FirstIndex(m, r[i]);
        MatchesAreTokensOfText(html, k);
      }
      forall i, j | 0 <= i < j < |r| ensures FirstIndex(m, r[i]) < FirstIndex(m, r[j]) {
        DedupKeepsFirstOccurrenceOrder(m, i, j);
      }
      if !Contains(html, TokenOpen) {
        NoMarkerNoMatches(html);
      }
    }
  }

  // ---------------------------------------------------------------------------
  // Pass 1: asset overrides, each a literal global replacement

  /** The overrides apply in the order their keys were first set. */
  function ApplyAssetOverrides(s: string, overrides: seq<(string, string)>): string
    decreases |overrides|
  {
    if overrides == [] then s
    else ApplyAssetOverrides(ReplaceAll(s, overrides[0].0, overrides[0].1), overrides[1..])
  }

  /** One override cuts the text at every occurrence of its key and joins the
      pieces, none of which holds the key, with the URL. */
  lemma OverrideReplacesEveryOccurrence(s: string, key: string, url: string)
    requires key != []
    ensures ApplyAssetOverrides(s, [(key, url)]) == Join(Split(s, key), url)
    ensures Join(Split(s, key), key) == s
    ensures forall i :: 0 <= i < |Split(s, key)| ==> !Contains(Split(s, key)[i], key)
  {
    ReplaceAllIsJoinOfSplit(s, key, url);
    JoinSplit(s, key);
    forall i | 0 <= i < |Split(s, key)| ensures !Contains(Split(s, key)[i], key) {
      SplitPiecesAreFree(s, key, i);
    }
  }

  /** Applying two lists of overrides one after the other is applying their concatenation. */
  lemma {:induction false} OverridesInSequence(s: string, a: seq<(string, string)>, b: seq<(string, string)>)
    ensures ApplyAssetOverrides(s, a + b) == ApplyAssetOverrides(ApplyAssetOverrides(s, a), b)
    decreases |a|
  {
    if a != [] {
      assert (a + b)[0] == a[0] && (a + b)[1..] == a[1..] + b;
      OverridesInSequence(ReplaceAll(s, a[0].0, a[0].1), a[1..], b);
    } else {
      assert a + b == b;
    }
  }

  /** Text that holds none of the keys is left unchanged. */
  lemma {:induction false} OverridesWithoutKeys(s: string, overrides: seq<(string, string)>)
    requires forall i :: 0 <= i < |overrides| ==> overrides[i].0 != [] && !Contains(s, overrides[i].0)
    ensures ApplyAssetOverrides(s, overrides) == s
    decreases |overrides|
  {
    if overrides != [] {
      ReplaceAllWithoutPattern(s, overrides[0].0, overrides[0].1);
      OverridesWithoutKeys(s, overrides[1..]);
    }
  }

  // ---------------------------------------------------------------------------
  // Pass 2: every remaining token becomes a placeholder image URL

  const PlaceholderBase: string := "https://placehold.co/800x600/1e293b/6366f1?text="

  function PlaceholderUrl(name: string): string {
    PlaceholderBase + name
  }

  /** The fallback replacement over every left-to-right match. */
  function FallbackPass(s: string): string {
    Render(Scan(s), PlaceholderUrl)
  }

  /** A token at the front is replaced by the URL for its name, and the pass
      continues after it. */
  lemma FallbackAtToken(name: string, rest: string)
    requires ValidName(name)
    ensures FallbackPass(TokenText(name) + rest) == PlaceholderUrl(name) + FallbackPass(rest)
  {
    var s := TokenText(name) + rest;
    assert s[..|TokenText(name)|] == TokenText(name);
    MatchAtExact(s, name);
    assert s[|TokenText(name)|..] == rest;
    assert Scan(s)[1..] == Scan(rest);
  }

  /** A character where no match starts is kept, and the pass continues after it. */
  lemma FallbackAtCharacter(c: char, rest: string)
    requires MatchAt([c] + rest).None?
    ensures FallbackPass([c] + rest) == [c] + FallbackPass(rest)
  {
    var s := [c] + rest;
    assert s[1..] == rest;
    assert Scan(s)[1..] == Scan(rest);
  }

  /** Text without a match is left unchanged. */
  lemma {:induction false} FallbackWithoutMatches(s: string)
    requires Matches(s) == []
    ensures FallbackPass(s) == s
    decreases |s|
  {
    if s != [] {
      match MatchAt(s)
      case Some(name) =>
      case None =>
        assert s == [s[0]] + s[1..];
        assert Scan(s)[1..] == Scan(s[1..]);
        assert Matches(s) == Matches(s[1..]);
        FallbackWithoutMatches(s[1..]);
        FallbackAtCharacter(s[0], s[1..]);
    }
  }

  /** The fallback does not resolve every token: when a name itself holds the
      marker, the URL written for it ends with a complete token. */
  lemma FallbackCanLeaveAToken(a: string)
    requires ValidName(a)
    ensures FallbackPass(TokenText(TokenOpen + a) + TokenClose) == PlaceholderBase + TokenText(a)
    ensures MatchAt(TokenText(a)) == Some(a)
  {
    var name := TokenOpen + a;
    assert ValidName(name);
    FallbackAtToken(name, TokenClose);
    assert TokenClose == ['}'] + "}";
    FallbackAtCharacter('}', "}");
    assert "}" == ['}'] + "";
    FallbackAtCharacter('}', "");
    MatchAtExact(TokenText(a), a);
  }

  // ---------------------------------------------------------------------------
  // Pass 3: text edits over the text leaves of the parsed document

  /** A segment of a parsed document: a text leaf, or markup the walk passes over. */
  datatype Node = TextLeaf(text: string) | Markup(source: string)

  /** The browser's parser and serialiser, which the model leaves abstract. */
  datatype Dom = Dom(parse: string -> seq<Node>, serialize: seq<Node> -> string)

  /** `textEdits[key]` is truthy: the key is present and its replacement is not empty. */
  predicate HasEdit(edits: map<string, string>, key: string) {
    key in edits && edits[key] != ""
  }

  /** The leaf after the walk has visited it. */
  function RewriteNode(n: Node, edits: map<string, string>): Node {
    match n
    case Markup(_) => n
    case TextLeaf(t) =>
      var original := Trim(t);
      if original != "" && HasEdit(edits, original) then
        TextLeaf(LeadingSpace(t) + edits[original] + TrailingSpace(t))
      else n
  }

  function RewriteNodes(ns: seq<Node>, edits: map<string, string>): (r: seq<Node>)
    ensures |r| == |ns|
  {
    seq(|ns|, i requires 0 <= i < |ns| => RewriteNode(ns[i], edits))
  }

  /** A leaf is rewritten only when its trimmed text has a non-empty
      replacement; the replacement then takes the place of exactly the trimmed
      text, between the leaf's own leading and trailing white space. */
  lemma RewriteNodeSpec(n: Node, edits: map<string, string>)
    ensures RewriteNode(n, edits) != n ==> n.TextLeaf? && HasEdit(edits, Trim(n.text))
    ensures n.TextLeaf? && Trim(n.text) != "" && HasEdit(edits, Trim(n.text)) ==>
      exists lead, trail ::
        && AllSpace(lead) && AllSpace(trail)
        && n.text == lead + Trim(n.text) + trail
        && RewriteNode(n, edits).text == lead + edits[Trim(n.text)] + trail
  {
    if n.TextLeaf? && Trim(n.text) != "" && HasEdit(edits, Trim(n.text)) {
      var t := n.text;
      TrimSplitsText(t);
      var lead, trail := LeadingSpace(t), TrailingSpace(t);
      TrimStartSpec(t);
      TrimEndSpec(t);
      assert AllSpace(lead) && AllSpace(trail);
      assert t == lead + Trim(t) + trail;
    }
  }

  /** When the replacement has no white space at its ends, the rewritten leaf
      trims to the replacement and keeps the old leaf's white space. */
  lemma RewrittenLeafKeepsSpacing(t: string, edits: map<string, string>)
    requires Trim(t) != "" && HasEdit(edits, Trim(t))
    requires var r := edits[Trim(t)]; !IsSpace(r[0]) && !IsSpace(r[|r| - 1])
    ensures var u := RewriteNode(TextLeaf(t), edits).text;
      && Trim(u) == edits[Trim(t)]
      && LeadingSpace(u) == LeadingSpace(t)
      && TrailingSpace(u) == TrailingSpace(t)
  {
    TrimStartSpec(t);
    TrimEndSpec(t);
    TrimOfPadded(LeadingSpace(t), edits[Trim(t)], TrailingSpace(t));
  }

  /** The walk over the text leaves: each leaf whose trimmed text has a
      replacement is rewritten where it stands, every other node is kept. */
  method RewriteTextLeaves(nodes: array<Node>, edits: map<string, string>)
    modifies nodes
    ensures nodes[..] == RewriteNodes(old(nodes[..]), edits)
  {
    ghost var before := nodes[..];
    var i := 0;
    while i < nodes.Length
      invariant 0 <= i <= nodes.Length
      invariant nodes[..i] == RewriteNodes(before[..i], edits)
      invariant nodes[i..] == before[i..]
    {
      var node := nodes[i];
      assert node == before[i];
      match node {
        case TextLeaf(text) =>
          var originalText := Trim(text);
          if originalText != "" && HasEdit(edits, originalText) {
            nodes[i] := TextLeaf(LeadingSpace(text) + edits[originalText] + TrailingSpace(text));
          }
        case Markup(_) =>
      }
      assert nodes[i] == RewriteNode(before[i], edits);
      assert nodes[..i + 1] == nodes[..i] + [nodes[i]];
      assert before[..i + 1] == before[..i] + [before[i]];
      i := i + 1;
    }
    assert before[..i] == before;
  }

  /** What `applyCustomizations` returns: the overrides, then the fallback,
      then, only when some text edit exists, the rewrite of the parsed
      document's text leaves. */
  function Customized(rawHtml: string, assetUrls: seq<(string, string)>,
                      textEdits: map<string, string>, dom: Dom): string
  {
    var html := FallbackPass(ApplyAssetOverrides(rawHtml, assetUrls));
    if |textEdits| == 0 then html
    else dom.serialize(RewriteNodes(dom.parse(html), textEdits))
  }

  method ApplyCustomizations(rawHtml: string, assetUrls: seq<(string, string)>,
                             textEdits: map<string, string>, dom: Dom)
    returns (finalHtml: string)
    ensures finalHtml == Customized(rawHtml, assetUrls, textEdits, dom)
  {
    finalHtml := rawHtml;
    var i := 0;
    while i < |assetUrls|
      invariant 0 <= i <= |assetUrls|
      invariant ApplyAssetOverrides(finalHtml, assetUrls[i..]) == ApplyAssetOverrides(rawHtml, assetUrls)
    {
      var (placeholder, url) := assetUrls[i];
      assert assetUrls[i..][1..] == assetUrls[i + 1..];
      finalHtml := ReplaceAll(finalHtml, placeholder, url);
      i := i + 1;
    }
    assert assetUrls[i..] == [];
    finalHtml := FallbackPass(finalHtml);
    if |textEdits| > 0 {
      var parsed := dom.parse(finalHtml);
      var nodes := new Node[|parsed|](k requires 0 <= k < |parsed| => parsed[k]);
      assert nodes[..] == parsed;
      RewriteTextLeaves(nodes, textEdits);
      finalHtml := dom.serialize(nodes[..]);
    }
  }

  /** Markup without the marker and without any override key comes back
      unchanged when there are no text edits: no parse, no re-serialisation. */
  lemma CustomizedPlainMarkup(rawHtml: string, assetUrls: seq<(string, string)>, dom: Dom)
    requires !Contains(rawHtml, TokenOpen)
    requires forall i :: 0 <= i < |assetUrls| ==> assetUrls[i].0 != [] && !Contains(rawHtml, assetUrls[i].0)
    ensures Customized(rawHtml, assetUrls, map[], dom) == rawHtml
  {
    OverridesWithoutKeys(rawHtml, assetUrls);
    NoMarkerNoMatches(rawHtml);
    FallbackWithoutMatches(rawHtml);
  }

  // ---------------------------------------------------------------------------
  // Editable text fragments

  /** The trimmed texts of the leaves, in document order, that are longer than one character. */
  function Fragments(ns: seq<Node>): seq<string> {
    if ns == [] then []
    else
      var last := ns[|ns| - 1];
      Fragments(ns[..|ns| - 1])
        + (if last.TextLeaf? && |Trim(last.text)| > 1 then [Trim(last.text)] else [])
  }

  /** Every fragment is the trimmed text, two or more characters long, of some leaf. */
  lemma {:induction false} FragmentIsLeafText(ns: seq<Node>, i: nat)
    requires i < |Fragments(ns)|
    ensures |Fragments(ns)[i]| > 1
    ensures exists k :: 0 <= k < |ns| && ns[k].TextLeaf? && Trim(ns[k].text) == Fragments(ns)[i]
    decreases |ns|
  {
    var p := ns[..|ns| - 1];
    var last := ns[|ns| - 1];
    if i < |Fragments(p)| {
      FragmentIsLeafText(p, i);
      var k :| 0 <= k < |p| && p[k].TextLeaf? && Trim(p[k].text) == Fragments(p)[i];
      assert ns[k] == p[k];
    } else {
      assert Fragments(ns)[i] == Trim(last.text);
    }
  }

  /** Every leaf whose trimmed text is two or more characters long gives a fragment. */
  lemma {:induction false} LeafTextIsFragment(ns: seq<Node>, k: nat)
    requires k < |ns| && ns[k].TextLeaf? && |Trim(ns[k].text)| > 1
    ensures Trim(ns[k].text) in Fragments(ns)
    decreases |ns|
  {
    var p := ns[..|ns| - 1];
    if k < |p| {
      assert ns[k] == p[k];
      LeafTextIsFragment(p, k);
    }
  }

  /** `editableTextBlocks`: walks the leaves and collects each trimmed text
      longer than one character, the first time it is seen. */
  method EditableTextBlocks(code: Option<GeneratedCode>, dom: Dom) returns (texts: seq<string>)
    ensures code.None? ==> texts == []
    ensures code.Some? ==> texts == Dedup(Fragments(dom.parse(code.value.html)))
  {
    if code.None? {
      return [];
    }
    texts := CollectFragments(dom.parse(code.value.html));
  }

  /** The walk of `editableTextBlocks` over the leaves of a parsed document. */
  method CollectFragments(leaves: seq<Node>) returns (texts: seq<string>)
    ensures texts == Dedup(Fragments(leaves))
  {
    texts := [];
    var i := 0;
    while i < |leaves|
      invariant 0 <= i <= |leaves|
      invariant texts == Dedup(Fragments(leaves[..i]))
    {
      FragmentsStep(leaves, i);
      var leaf := leaves[i];
      if leaf.TextLeaf? {
        var content := Trim(leaf.text);
        if |content| > 1 {
          DedupSnoc(Fragments(leaves[..i]), content);
          if content !in texts {
            texts := texts + [content];
          }
        }
      }
      i := i + 1;
    }
    assert leaves[..i] == leaves;
  }

  lemma FragmentsStep(ns: seq<Node>, i: nat)
    requires i < |ns|
    ensures ns[i].TextLeaf? && |Trim(ns[i].text)| > 1 ==>
      Fragments(ns[..i + 1]) == Fragments(ns[..i]) + [Trim(ns[i].text)]
    ensures !(ns[i].TextLeaf? && |Trim(ns[i].text)| > 1) ==>
      Fragments(ns[..i + 1]) == Fragments(ns[..i])
  {
    assert ns[..i + 1][..i] == ns[..i];
    assert Fragments(ns[..i]) + [] == Fragments(ns[..i]);
  }

  /** The listed fragments are distinct, each the trimmed text (two or more
      characters) of a leaf; every such leaf text is listed; and they are in
      order of first appearance. */
  lemma TextBlocksSpec(ns: seq<Node>)
    ensures var r := Dedup(Fragments(ns));
      && NoDup(r)
      && (forall i :: 0 <= i < |r| ==>
            |r[i]| > 1 && exists k :: 0 <= k < |ns| && ns[k].TextLeaf? && Trim(ns[k].text) == r[i])
      && (forall k :: 0 <= k < |ns| && ns[k].TextLeaf? && |Trim(ns[k].text)| > 1 ==> Trim(ns[k].text) in r)
      && (forall i, j :: 0 <= i < j < |r| ==>
            FirstIndex(Fragments(ns), r[i]) < FirstIndex(Fragments(ns), r[j]))
  {
    var f := Fragments(ns);
    var r := Dedup(f);
    forall i | 0 <= i < |r|
      ensures |r[i]| > 1 && exists k :: 0 <= k < |ns| && ns[k].TextLeaf? && Trim(ns[k].text) == r[i]
    {
      FragmentIsLeafText(ns, FirstIndex(f, r[i]));
    }
    forall k | 0 <= k < |ns| && ns[k].TextLeaf? && |Trim(ns[k].text)| > 1 ensures Trim(ns[k].text) in r {
      LeafTextIsFragment(ns, k);
      var m := FirstIndex(f, Trim(ns[k].text));
    }
    forall i, j | 0 <= i < j < |r| ensures FirstIndex(f, r[i]) < FirstIndex(f, r[j]) {
      DedupKeepsFirstOccurrenceOrder(f, i, j);
    }
  }

  // ---------------------------------------------------------------------------
  // The dashboard's Saved Assets counter

  /** The number of `{{ASSET_ID_` markers over the markup of every history item. */
  function SavedAssets(history: seq<HistoryItem>): nat {
    if history == [] then 0
    else SavedAssets(history[..|history| - 1]) + Count(history[|history| - 1].code.html, TokenOpen)
  }

  /** The counter adds up over a split of the history. */
  lemma {:induction false} SavedAssetsAppend(a: seq<HistoryItem>, b: seq<HistoryItem>)
    ensures SavedAssets(a + b) == SavedAssets(a) + SavedAssets(b)
    decreases |b|
  {
    if b == [] {
      assert a + b == a;
    } else {
      var b' := b[..|b| - 1];
      assert (a + b)[..|a + b| - 1] == a + b';
      SavedAssetsAppend(a, b');
    }
  }

  /** The counter is zero exactly when no item's markup holds the marker, and
      then no item has a placeholder to detect. */
  lemma {:induction false} SavedAssetsZero(history: seq<HistoryItem>)
    ensures SavedAssets(history) == 0 <==> forall i :: 0 <= i < |history| ==> !Contains(history[i].code.html, TokenOpen)
    ensures SavedAssets(history) == 0 ==> forall i :: 0 <= i < |history| ==> DetectedAssets(Some(history[i].code)) == []
    decreases |history|
  {
    if history != [] {
      var p := history[..|history| - 1];
      var last := history[|history| - 1];
      SavedAssetsZero(p);
      CountZeroIffAbsent(last.code.html, TokenOpen);
      assert forall i :: 0 <= i < |p| ==> p[i] == history[i];
    }
    if SavedAssets(history) == 0 {
      forall i | 0 <= i < |history| ensures DetectedAssets(Some(history[i].code)) == [] {
        NoMarkerNoMatches(history[i].code.html);
      }
    }
  }
}
