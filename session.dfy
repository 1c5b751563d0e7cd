/**
  The application shell's session state (App.tsx): the view state machine,
  the guidance prompt, the generation history with its upsert and delete,
  and the override maps the customisation passes read.

  Every handler is a transition function over a `SessionState` snapshot,
  which the lemmas reason about, and a method of `AppSession` that updates
  the fields in place and is proved to follow that function.
*/
module Session {
  import opened Wrappers
  import opened JsString
  import opened Seqs
  import opened Types
  import opened Templates

  /** The most history items kept after a generation. */
  const MaxHistory: nat := 50

  const DefaultFont: string := "Inter"
  const DefaultError: string := "Synthesis failed."
  const HistoricalFileName: string := "historical.png"

  datatype Tab = PreviewTab | HtmlTab | CssTab | JavascriptTab

  /** A key of `GeneratedCode`. */
  datatype CodePart = HtmlPart | CssPart | JavascriptPart

  /** A JavaScript string-or-null in a condition: present and not empty. */
  predicate Truthy(s: Option<string>) {
    s.Some? && s.value != ""
  }

  // ---------------------------------------------------------------------------
  // History list

  /** `items.filter(item => item.id !== id)` */
  function Without(items: seq<HistoryItem>, id: string): (r: seq<HistoryItem>)
    ensures |r| <= |items|
    ensures forall x :: x in r <==> x in items && x.id != id
  {
    if items == [] then []
    else (if items[0].id == id then [] else [items[0]]) + Without(items[1..], id)
  }

  /** Filtering distributes over concatenation, so the kept items stay in order. */
  lemma {:induction false} WithoutConcat(a: seq<HistoryItem>, b: seq<HistoryItem>, id: string)
    ensures Without(a + b, id) == Without(a, id) + Without(b, id)
    decreases |a|
  {
    if a == [] {
      assert a + b == b;
    } else {
      assert (a + b)[0] == a[0] && (a + b)[1..] == a[1..] + b;
      WithoutConcat(a[1..], b, id);
    }
  }

  /** Removing an id no item carries changes nothing. */
  lemma {:induction false} WithoutAbsent(items: seq<HistoryItem>, id: string)
    requires forall i :: 0 <= i < |items| ==> items[i].id != id
    ensures Without(items, id) == items
    decreases |items|
  {
    if items != [] {
      WithoutAbsent(items[1..], id);
    }
  }

  /** The first `n` elements, or all of them: `s.slice(0, n)`. */
  function Take<T>(s: seq<T>, n: nat): (r: seq<T>)
    ensures |r| == if |s| <= n then |s| else n
    ensures r == s[..|r|]
  {
    if |s| <= n then s else s[..n]
  }

  /** The item recorded for a successful generation. */
  function NewHistoryItem(editingId: Option<string>, idClock: nat, sectionName: string,
                          historyLength: nat, stampClock: nat, code: GeneratedCode,
                          previewUrl: string, fontFamily: string): (item: HistoryItem)
    ensures item.id != "" && item.name != ""
    ensures Truthy(editingId) ==> item.id == editingId.value
    ensures !Truthy(editingId) ==> item.id == NatToString(idClock)
    ensures sectionName == "" ==> item.name == "Section " + NatToString(historyLength + 1)
    ensures sectionName != "" ==> item.name == sectionName
    ensures item.previewUrl == previewUrl && item.fontFamily == fontFamily
    ensures item.code == code && item.timestamp == stampClock
  {
    var id := if Truthy(editingId) then editingId.value else NatToString(idClock);
    var name := if sectionName != "" then sectionName else "Section " + NatToString(historyLength + 1);
    HistoryItem(id, name, stampClock, code, previewUrl, fontFamily)
  }

  /** The history after a successful generation: the new item first, then the
      previous items without the edited id, cut to the first fifty. */
  function Upserted(prev: seq<HistoryItem>, item: HistoryItem, editingId: Option<string>): seq<HistoryItem> {
    var filtered := if Truthy(editingId) then Without(prev, editingId.value) else prev;
    Take([item] + filtered, MaxHistory)
  }

  /** The new item leads; the rest is, in order, a prefix of the previous list
      without the edited id; at most fifty items remain. */
  lemma UpsertedShape(prev: seq<HistoryItem>, item: HistoryItem, editingId: Option<string>)
    ensures var r := Upserted(prev, item, editingId);
      var filtered := if Truthy(editingId) then Without(prev, editingId.value) else prev;
      && 1 <= |r| <= MaxHistory
      && r[0] == item
      && r[1..] == filtered[..|r| - 1]
      && |r| == if |filtered| < MaxHistory then |filtered| + 1 else MaxHistory
  {
    var filtered := if Truthy(editingId) then Without(prev, editingId.value) else prev;
    var all := [item] + filtered;
    var r := Upserted(prev, item, editingId);
    assert r == all[..|r|];
    assert r[1..] == all[1..|r|] == filtered[..|r| - 1];
  }

  /** While editing, exactly one item carries the edited id afterwards: the new one, at the front. */
  lemma UpsertedEditedIdOnce(prev: seq<HistoryItem>, item: HistoryItem, editingId: Option<string>)
    requires Truthy(editingId) && item.id == editingId.value
    ensures var r := Upserted(prev, item, editingId);
      r[0] == item && forall i :: 0 < i < |r| ==> r[i].id != editingId.value
  {
    var filtered := Without(prev, editingId.value);
    var r := Upserted(prev, item, editingId);
    UpsertedShape(prev, item, editingId);
    forall i | 0 < i < |r| ensures r[i].id != editingId.value {
      assert r[i] == filtered[i - 1];
      assert r[i] in filtered;
    }
  }

  /** Saving again the item being edited, when it is in the history once,
      keeps the history's length. */
  lemma UpsertedKeepsLength(prev: seq<HistoryItem>, item: HistoryItem, editingId: Option<string>, j: nat)
    requires Truthy(editingId) && |prev| <= MaxHistory
    requires j < |prev| && prev[j].id == editingId.value
    requires forall i :: 0 <= i < |prev| && i != j ==> prev[i].id != editingId.value
    ensures |Upserted(prev, item, editingId)| == |prev|
  {
    var id := editingId.value;
    var a, b := prev[..j], prev[j + 1..];
    assert prev == a + [prev[j]] + b;
    WithoutConcat(a + [prev[j]], b, id);
    WithoutConcat(a, [prev[j]], id);
    forall i | 0 <= i < |a| ensures a[i].id != id {
      assert a[i] == prev[i];
    }
    forall i | 0 <= i < |b| ensures b[i].id != id {
      assert b[i] == prev[j + 1 + i];
    }
    WithoutAbsent(a, id);
    WithoutAbsent(b, id);
    assert Without([prev[j]], id) == [];
    UpsertedShape(prev, item, editingId);
  }

  /** A new generation at capacity drops the oldest item. */
  lemma UpsertedAtCapacity(prev: seq<HistoryItem>, item: HistoryItem)
    requires |prev| >= MaxHistory
    ensures Upserted(prev, item, None) == [item] + prev[..MaxHistory - 1]
  {
    UpsertedShape(prev, item, None);
  }

  /** `history[0]?.fontFamily || 'Inter'`: the font of the latest item. */
  function LatestFont(history: seq<HistoryItem>): string {
    if history != [] && history[0].fontFamily != "" then history[0].fontFamily else DefaultFont
  }

  /** The dashboard's font is never empty: the latest item's font, or the
      default when there is no item or its font is empty; older items do not
      matter. */
  lemma LatestFontSpec(history: seq<HistoryItem>, older: seq<HistoryItem>)
    ensures LatestFont(history) != ""
    ensures history == [] ==> LatestFont(history) == DefaultFont
    ensures history != [] ==>
      LatestFont(history + older) == LatestFont(history)
      && (history[0].fontFamily != "" ==> LatestFont(history) == history[0].fontFamily)
  {
    if history != [] {
      assert (history + older)[0] == history[0];
    }
  }

  // ---------------------------------------------------------------------------
  // Asset overrides: an object keyed by placeholder, in insertion order

  function Keys(m: seq<(string, string)>): seq<string> {
    seq(|m|, i requires 0 <= i < |m| => m[i].0)
  }

  /** The value of the first entry with key `k`. */
  function Lookup(m: seq<(string, string)>, k: string): Option<string> {
    if m == [] then None
    else if m[0].0 == k then Some(m[0].1)
    else Lookup(m[1..], k)
  }

  /** `{ ...m, [k]: v }`: an existing key keeps its place and takes the new
      value, a new key goes last. */
  function Put(m: seq<(string, string)>, k: string, v: string): seq<(string, string)> {
    if m == [] then [(k, v)]
    else if m[0].0 == k then [(k, v)] + m[1..]
    else [m[0]] + Put(m[1..], k, v)
  }

  /** After a put the key reads back its new value and every other key reads
      what it read before. */
  lemma {:induction false} PutLookup(m: seq<(string, string)>, k: string, v: string, j: string)
    ensures Lookup(Put(m, k, v), k) == Some(v)
    ensures j != k ==> Lookup(Put(m, k, v), j) == Lookup(m, j)
    decreases |m|
  {
    if m != [] && m[0].0 != k {
      PutLookup(m[1..], k, v, j);
      assert Put(m, k, v)[1..] == Put(m[1..], k, v);
    }
  }

  lemma KeysCons(x: (string, string), m: seq<(string, string)>)
    ensures Keys([x] + m) == [x.0] + Keys(m)
  {
  }

  /** A key is listed exactly when looking it up finds an entry. */
  lemma {:induction false} KeysLookup(m: seq<(string, string)>, k: string)
    ensures k in Keys(m) <==> Lookup(m, k).Some?
    decreases |m|
  {
    if m != [] {
      KeysCons(m[0], m[1..]);
      assert m == [m[0]] + m[1..];
      KeysLookup(m[1..], k);
    }
  }

  /** A put keeps the keys in their order, adding a new key last. */
  lemma {:induction false} PutKeys(m: seq<(string, string)>, k: string, v: string)
    ensures Keys(Put(m, k, v)) == if k in Keys(m) then Keys(m) else Keys(m) + [k]
    decreases |m|
  {
    if m == [] {
      assert Keys([(k, v)]) == [k];
    } else {
      KeysCons(m[0], m[1..]);
      assert m == [m[0]] + m[1..];
      if m[0].0 != k {
        PutKeys(m[1..], k, v);
        KeysCons(m[0], Put(m[1..], k, v));
      } else {
        KeysCons((k, v), m[1..]);
      }
    }
  }

  /** A put keeps the keys distinct. */
  lemma PutKeepsKeysDistinct(m: seq<(string, string)>, k: string, v: string)
    requires NoDup(Keys(m))
    ensures NoDup(Keys(Put(m, k, v)))
  {
    PutKeys(m, k, v);
  }

  // ---------------------------------------------------------------------------
  // The session

  datatype SessionState = SessionState(
    currentView: AppView,
    previousView: AppView,
    status: AppStatus,
    uploadedFile: Option<FileUpload>,
    generatedCode: Option<GeneratedCode>,
    activeTab: Tab,
    errorMessage: Option<string>,
    sectionName: string,
    userGuidance: string,
    history: seq<HistoryItem>,
    editingId: Option<string>,
    fontFamily: string,
    assetUrls: seq<(string, string)>,
    localAssetInputs: map<string, string>,
    textEdits: map<string, string>)

  /** The arguments of the generation call. */
  datatype GenerateRequest = GenerateRequest(base64: string, guidance: string, previous: Option<GeneratedCode>)

  const Initial: SessionState := SessionState(
    Dashboard, Dashboard, Idle, None, None, PreviewTab, None, "", "", [], None,
    DefaultFont, [], map[], map[])

  /** What every handler keeps: the history is bounded and its ids are not
      empty, and the asset-override keys are distinct. */
  predicate ValidParts(history: seq<HistoryItem>, assetUrls: seq<(string, string)>) {
    && |history| <= MaxHistory
    && (forall i :: 0 <= i < |history| ==> history[i].id != "")
    && NoDup(Keys(assetUrls))
  }

  predicate ValidState(st: SessionState) {
    ValidParts(st.history, st.assetUrls)
  }

  /** `navigateTo`: the view left is remembered unless it is the documentation. */
  function Navigate(st: SessionState, view: AppView): SessionState {
    st.(currentView := view,
        previousView := if st.currentView != Documentation then st.currentView else st.previousView)
  }

  /** `handleCloseDocs` */
  function CloseDocs(st: SessionState): SessionState {
    st.(currentView := st.previousView)
  }

  /** Opening the documentation from a working view and closing it returns to
      that view; moving between views from the documentation never forgets
      where the documentation was opened from. */
  lemma DocsRoundTrip(st: SessionState, view: AppView)
    ensures st.currentView != Documentation ==>
      CloseDocs(Navigate(st, Documentation)) == st.(previousView := st.currentView)
    ensures st.currentView == Documentation ==> Navigate(st, view).previousView == st.previousView
  {
  }

  /** `handleInsertPrompt`: the text goes on a new line after any guidance. */
  function InsertPrompt(st: SessionState, text: string): SessionState {
    st.(userGuidance := if st.userGuidance != "" then st.userGuidance + "\n" + text else text,
        currentView := Converter)
  }

  /** The guidance's lines after an insertion are its old lines followed by the text's lines. */
  lemma InsertPromptAppendsLines(st: SessionState, text: string)
    requires st.userGuidance != ""
    ensures Split(InsertPrompt(st, text).userGuidance, "\n") == Split(st.userGuidance, "\n") + Split(text, "\n")
  {
    assert st.userGuidance + "\n" + text == st.userGuidance + ['\n'] + text;
    SplitAtJoint(st.userGuidance, '\n', text);
  }

  /** The call `handleGenerate` makes, if a file is uploaded. */
  function GenerateCall(st: SessionState, isRefine: bool): Option<GenerateRequest> {
    match st.uploadedFile
    case None => None
    case Some(f) => Some(GenerateRequest(f.base64, st.userGuidance, if isRefine then st.generatedCode else None))
  }

  /** `handleGenerate` once the call has settled with `outcome`; `idClock` and
      `stampClock` are the two readings of the clock. */
  function Generated(st: SessionState, outcome: Result<GeneratedCode>, idClock: nat, stampClock: nat): SessionState {
    match st.uploadedFile
    case None => st
    case Some(f) =>
      match outcome
      case Ok(code) =>
        var item := NewHistoryItem(st.editingId, idClock, st.sectionName, |st.history|, stampClock,
                                   code, f.previewUrl, st.fontFamily);
        st.(generatedCode := Some(code), status := Success, errorMessage := None,
            history := Upserted(st.history, item, st.editingId), editingId := Some(item.id))
      case Err(message) =>
        st.(status := Error, errorMessage := Some(if message != "" then message else DefaultError))
  }

  /** A success shows the code, records it at the front of the history and
      makes it the item being edited; every older entry kept was in the
      history before, and none of them carries the edited id. */
  lemma GeneratedSpec(st: SessionState, code: GeneratedCode, idClock: nat, stampClock: nat)
    requires st.uploadedFile.Some?
    ensures var st' := Generated(st, Ok(code), idClock, stampClock);
      && st'.status == Success && st'.generatedCode == Some(code)
      && st'.history != [] && st'.history[0].code == code
      && st'.editingId == Some(st'.history[0].id)
      && (forall i :: 0 < i < |st'.history| ==> st'.history[i] in st.history)
      && (Truthy(st.editingId) ==>
            st'.editingId == st.editingId
            && forall i :: 0 < i < |st'.history| ==> st'.history[i].id != st.editingId.value)
      && LatestFont(st'.history) == (if st.fontFamily != "" then st.fontFamily else DefaultFont)
  {
    var f := st.uploadedFile.value;
    var item := NewHistoryItem(st.editingId, idClock, st.sectionName, |st.history|, stampClock,
                               code, f.previewUrl, st.fontFamily);
    var filtered := if Truthy(st.editingId) then Without(st.history, st.editingId.value) else st.history;
    var r := Upserted(st.history, item, st.editingId);
    assert Generated(st, Ok(code), idClock, stampClock).history == r;
    UpsertedShape(st.history, item, st.editingId);
    forall i | 0 < i < |r| ensures r[i] in st.history {
      assert r[i] == filtered[i - 1];
    }
    if Truthy(st.editingId) {
      UpsertedEditedIdOnce(st.history, item, st.editingId);
    }
  }

  /** A failure records a non-empty message and leaves the code and the
      history as they were. */
  lemma GenerationFailedSpec(st: SessionState, message: string, idClock: nat, stampClock: nat)
    requires st.uploadedFile.Some?
    ensures var st' := Generated(st, Err(message), idClock, stampClock);
      && st'.status == Error && st'.errorMessage.Some? && st'.errorMessage.value != ""
      && (message != "" ==> st'.errorMessage.value == message)
      && st'.history == st.history && st'.generatedCode == st.generatedCode
  {
  }

  /** `handleLoadFromHistory` */
  function LoadFromHistory(st: SessionState, item: HistoryItem): SessionState {
    st.(generatedCode := Some(item.code), sectionName := item.name, editingId := Some(item.id),
        fontFamily := if item.fontFamily != "" then item.fontFamily else DefaultFont,
        uploadedFile := Some(FileUpload(FileInfo(HistoricalFileName, "", 0), item.previewUrl, item.previewUrl)),
        textEdits := map[], assetUrls := [], activeTab := PreviewTab, currentView := Converter)
  }

  /** `handleDeleteHistoryItem`, with the answer to the confirmation dialog. */
  function DeleteHistoryItem(st: SessionState, id: string, confirmed: bool): SessionState {
    if confirmed then st.(history := Without(st.history, id)) else st
  }

  /** A confirmed delete removes every item with the id and keeps the others in
      order; deleting an absent id, or declining, changes nothing. */
  lemma DeleteSpec(st: SessionState, id: string, confirmed: bool)
    ensures var h := DeleteHistoryItem(st, id, confirmed).history;
      && (confirmed ==> forall x :: x in h <==> x in st.history && x.id != id)
      && (confirmed ==> forall a, b :: st.history == a + b ==> h == Without(a, id) + Without(b, id))
      && ((!confirmed || forall i :: 0 <= i < |st.history| ==> st.history[i].id != id) ==> h == st.history)
  {
    if confirmed {
      forall a, b | st.history == a + b ensures Without(st.history, id) == Without(a, id) + Without(b, id) {
        WithoutConcat(a, b, id);
      }
      if forall i :: 0 <= i < |st.history| ==> st.history[i].id != id {
        WithoutAbsent(st.history, id);
      }
    }
  }

  /** `handleApplyAsset`: records the typed URL, only when it is not empty. */
  function ApplyAsset(st: SessionState, placeholder: string): SessionState {
    if placeholder in st.localAssetInputs && st.localAssetInputs[placeholder] != "" then
      st.(assetUrls := Put(st.assetUrls, placeholder, st.localAssetInputs[placeholder]))
    else st
  }

  /** The URL typed for a placeholder (the input's change handler). */
  function SetLocalAssetInput(st: SessionState, placeholder: string, url: string): SessionState {
    st.(localAssetInputs := st.localAssetInputs[placeholder := url])
  }

  /** `handleTextEdit` */
  function TextEdit(st: SessionState, original: string, updated: string): SessionState {
    st.(textEdits := st.textEdits[original := updated])
  }

  /** `handleManualCodeEdit`: one part of the shown code replaced, if code is shown. */
  function ManualCodeEdit(st: SessionState, part: CodePart, value: string): SessionState {
    match st.generatedCode
    case None => st
    case Some(c) =>
      st.(generatedCode := Some(match part
        case HtmlPart => c.(html := value)
        case CssPart => c.(css := value)
        case JavascriptPart => c.(javascript := value)))
  }

  /** The part of the code an edit addresses. */
  function PartOf(c: GeneratedCode, part: CodePart): string {
    match part
    case HtmlPart => c.html
    case CssPart => c.css
    case JavascriptPart => c.javascript
  }

  /** An edit reads back as written and leaves the other two parts and the
      rest of the session alone; a later edit of the same part overrides it,
      and writing back the old text undoes it. Without code nothing changes. */
  lemma ManualCodeEditSpec(st: SessionState, part: CodePart, other: CodePart, value: string, value2: string)
    ensures st.generatedCode.None? ==> ManualCodeEdit(st, part, value) == st
    ensures st.generatedCode.Some? ==>
      var st' := ManualCodeEdit(st, part, value);
      && st'.generatedCode.Some?
      && PartOf(st'.generatedCode.value, part) == value
      && (other != part ==> PartOf(st'.generatedCode.value, other) == PartOf(st.generatedCode.value, other))
      && st'.(generatedCode := st.generatedCode) == st
      && ManualCodeEdit(st', part, value2) == ManualCodeEdit(st, part, value2)
      && ManualCodeEdit(st', part, PartOf(st.generatedCode.value, part)) == st
  {
  }

  /** `resetState` */
  function Reset(st: SessionState): SessionState {
    st.(uploadedFile := None, generatedCode := None, status := Idle, errorMessage := None,
        assetUrls := [], localAssetInputs := map[], textEdits := map[], sectionName := "",
        userGuidance := "", editingId := None)
  }

  /** Applying a typed URL makes the asset pass replace the placeholder with
      it; an empty or missing URL changes nothing. */
  lemma ApplyAssetSpec(st: SessionState, placeholder: string)
    ensures var st' := ApplyAsset(st, placeholder);
      && (placeholder in st.localAssetInputs && st.localAssetInputs[placeholder] != "" ==>
            Lookup(st'.assetUrls, placeholder) == Some(st.localAssetInputs[placeholder])
            && forall j :: j != placeholder ==> Lookup(st'.assetUrls, j) == Lookup(st.assetUrls, j))
      && (placeholder !in st.localAssetInputs || st.localAssetInputs[placeholder] == "" ==> st' == st)
  {
    if placeholder in st.localAssetInputs && st.localAssetInputs[placeholder] != "" {
      var url := st.localAssetInputs[placeholder];
      PutLookup(st.assetUrls, placeholder, url, placeholder);
      forall j | j != placeholder ensures Lookup(Put(st.assetUrls, placeholder, url), j) == Lookup(st.assetUrls, j) {
        PutLookup(st.assetUrls, placeholder, url, j);
      }
    }
  }

  /** After a text edit to a non-empty replacement, every leaf whose trimmed
      text is the edited original is rewritten to it in place. */
  lemma TextEditRewritesLeaf(st: SessionState, original: string, updated: string, t: string)
    requires Trim(t) == original && original != "" && updated != ""
    ensures RewriteNode(TextLeaf(t), TextEdit(st, original, updated).textEdits)
      == TextLeaf(LeadingSpace(t) + updated + TrailingSpace(t))
  {
  }

  /** Loading an item and resetting both clear the overrides: the preview of
      any markup is then the fallback pass alone. Loading keeps the typed
      URLs, resetting clears them too. */
  lemma OverridesCleared(st: SessionState, item: HistoryItem, html: string, dom: Dom)
    ensures Customized(html, LoadFromHistory(st, item).assetUrls, LoadFromHistory(st, item).textEdits, dom) == FallbackPass(html)
    ensures Customized(html, Reset(st).assetUrls, Reset(st).textEdits, dom) == FallbackPass(html)
    ensures LoadFromHistory(st, item).localAssetInputs == st.localAssetInputs
    ensures Reset(st).localAssetInputs == map[]
  {
  }

  /** A generation keeps the session valid. */
  lemma GeneratedKeepsValid(st: SessionState, outcome: Result<GeneratedCode>, idClock: nat, stampClock: nat)
    requires ValidState(st)
    ensures ValidState(Generated(st, outcome, idClock, stampClock))
  {
    if st.uploadedFile.Some? && outcome.Ok? {
      var f := st.uploadedFile.value;
      var item := NewHistoryItem(st.editingId, idClock, st.sectionName, |st.history|, stampClock,
                                 outcome.value, f.previewUrl, st.fontFamily);
      var filtered := if Truthy(st.editingId) then Without(st.history, st.editingId.value) else st.history;
      var r := Upserted(st.history, item, st.editingId);
      UpsertedShape(st.history, item, st.editingId);
      forall i | 0 < i < |r| ensures r[i].id != "" {
        assert r[i] == filtered[i - 1] && r[i] in st.history;
      }
    }
  }

  /** A delete keeps the session valid. */
  lemma DeleteKeepsValid(st: SessionState, id: string, confirmed: bool)
    requires ValidState(st)
    ensures ValidState(DeleteHistoryItem(st, id, confirmed))
  {
    var h := DeleteHistoryItem(st, id, confirmed).history;
    forall i | 0 <= i < |h| ensures h[i].id != "" {
      assert h[i] in st.history;
    }
  }

  /** Applying an asset keeps the session valid. */
  lemma ApplyAssetKeepsValid(st: SessionState, placeholder: string)
    requires ValidState(st)
    ensures ValidState(ApplyAsset(st, placeholder))
  {
    if placeholder in st.localAssetInputs && st.localAssetInputs[placeholder] != "" {
      PutKeepsKeysDistinct(st.assetUrls, placeholder, st.localAssetInputs[placeholder]);
    }
  }

  /** The application shell's state, updated in place by its handlers. */
  class AppSession {
    var currentView: AppView
    var previousView: AppView
    var status: AppStatus
    var uploadedFile: Option<FileUpload>
    var generatedCode: Option<GeneratedCode>
    var activeTab: Tab
    var errorMessage: Option<string>
    var sectionName: string
    var userGuidance: string
    var history: seq<HistoryItem>
    var editingId: Option<string>
    var fontFamily: string
    var assetUrls: seq<(string, string)>
    var localAssetInputs: map<string, string>
    var textEdits: map<string, string>

    function State(): SessionState
      reads this
    {
      SessionState(currentView, previousView, status, uploadedFile, generatedCode, activeTab,
                   errorMessage, sectionName, userGuidance, history, editingId, fontFamily,
                   assetUrls, localAssetInputs, textEdits)
    }

    predicate Valid()
      reads this
    {
      ValidParts(history, assetUrls)
    }

    constructor ()
      ensures State() == Initial && Valid()
    {
      currentView, previousView := Dashboard, Dashboard;
      status := Idle;
      uploadedFile, generatedCode := None, None;
      activeTab := PreviewTab;
      errorMessage := None;
      sectionName, userGuidance := "", "";
      history := [];
      editingId := None;
      fontFamily := DefaultFont;
      assetUrls, localAssetInputs, textEdits := [], map[], map[];
    }

    method NavigateTo(view: AppView)
      requires Valid()
      modifies this
      ensures State() == Navigate(old(State()), view) && Valid()
    {
      if currentView != Documentation {
        previousView := currentView;
      }
      currentView := view;
    }

    method HandleCloseDocs()
      requires Valid()
      modifies this
      ensures State() == CloseDocs(old(State())) && Valid()
    {
      currentView := previousView;
    }

    method HandleInsertPrompt(text: string)
      requires Valid()
      modifies this
      ensures State() == InsertPrompt(old(State()), text) && Valid()
    {
      userGuidance := if userGuidance != "" then userGuidance + "\n" + text else text;
      currentView := Converter;
    }

    /** `handleGenerate`: returns the call it makes, and then takes the call's
        settled `outcome` and the two clock readings. */
    method HandleGenerate(isRefine: bool, outcome: Result<GeneratedCode>, idClock: nat, stampClock: nat)
      returns (request: Option<GenerateRequest>)
      requires Valid()
      modifies this
      ensures request == GenerateCall(old(State()), isRefine)
      ensures State() == Generated(old(State()), outcome, idClock, stampClock) && Valid()
    {
      GeneratedKeepsValid(State(), outcome, idClock, stampClock);
      if uploadedFile.None? {
        return None;
      }
      var file := uploadedFile.value;
      request := Some(GenerateRequest(file.base64, userGuidance, if isRefine then generatedCode else None));
      SetStatus(Analyzing, None);
      match outcome {
        case Ok(code) =>
          var item := NewHistoryItem(editingId, idClock, sectionName, |history|, stampClock,
                                     code, file.previewUrl, fontFamily);
          ShowCode(code);
          RecordItem(item);
        case Err(message) =>
          SetStatus(Error, Some(if message != "" then message else DefaultError));
      }
    }

    method SetStatus(s: AppStatus, message: Option<string>)
      modifies this
      ensures State() == old(State()).(status := s, errorMessage := message)
    {
      status, errorMessage := s, message;
    }

    method ShowCode(code: GeneratedCode)
      modifies this
      ensures State() == old(State()).(generatedCode := Some(code), status := Success)
    {
      generatedCode, status := Some(code), Success;
    }

    /** The history updater and the new edited id of a successful generation. */
    method RecordItem(item: HistoryItem)
      modifies this
      ensures State() == old(State()).(history := Upserted(old(history), item, old(editingId)),
                                       editingId := Some(item.id))
    {
      var filtered := if Truthy(editingId) then Without(history, editingId.value) else history;
      history := Take([item] + filtered, MaxHistory);
      editingId := Some(item.id);
    }

    method HandleLoadFromHistory(item: HistoryItem)
      requires Valid()
      modifies this
      ensures State() == LoadFromHistory(old(State()), item) && Valid()
    {
      ShowItem(item);
      SetSource(if item.fontFamily != "" then item.fontFamily else DefaultFont,
                FileUpload(FileInfo(HistoricalFileName, "", 0), item.previewUrl, item.previewUrl));
      ClearOverrides();
      OpenPreview();
    }

    method ShowItem(item: HistoryItem)
      modifies this
      ensures State() == old(State()).(generatedCode := Some(item.code), sectionName := item.name,
                                       editingId := Some(item.id))
    {
      generatedCode, sectionName, editingId := Some(item.code), item.name, Some(item.id);
    }

    method SetSource(font: string, file: FileUpload)
      modifies this
      ensures State() == old(State()).(fontFamily := font, uploadedFile := Some(file))
    {
      fontFamily, uploadedFile := font, Some(file);
    }

    method ClearOverrides()
      modifies this
      ensures State() == old(State()).(assetUrls := [], textEdits := map[])
    {
      assetUrls, textEdits := [], map[];
    }

    method OpenPreview()
      modifies this
      ensures State() == old(State()).(activeTab := PreviewTab, currentView := Converter)
    {
      activeTab, currentView := PreviewTab, Converter;
    }

    method HandleDeleteHistoryItem(id: string, confirmed: bool)
      requires Valid()
      modifies this
      ensures State() == DeleteHistoryItem(old(State()), id, confirmed) && Valid()
    {
      if confirmed {
        history := Without(history, id);
      }
      DeleteKeepsValid(old(State()), id, confirmed);
    }

    method HandleApplyAsset(placeholder: string)
      requires Valid()
      modifies this
      ensures State() == ApplyAsset(old(State()), placeholder) && Valid()
    {
      if placeholder in localAssetInputs {
        var url := localAssetInputs[placeholder];
        if url != "" {
          assetUrls := Put(assetUrls, placeholder, url);
        }
      }
      ApplyAssetKeepsValid(old(State()), placeholder);
    }

    method HandleLocalAssetInput(placeholder: string, url: string)
      requires Valid()
      modifies this
      ensures State() == SetLocalAssetInput(old(State()), placeholder, url) && Valid()
    {
      localAssetInputs := localAssetInputs[placeholder := url];
    }

    method HandleTextEdit(original: string, updated: string)
      requires Valid()
      modifies this
      ensures State() == TextEdit(old(State()), original, updated) && Valid()
    {
      textEdits := textEdits[original := updated];
    }

    method HandleManualCodeEdit(part: CodePart, value: string)
      requires Valid()
      modifies this
      ensures State() == ManualCodeEdit(old(State()), part, value) && Valid()
    {
      if generatedCode.None? {
        return;
      }
      var c := generatedCode.value;
      match part {
        case HtmlPart => generatedCode := Some(c.(html := value));
        case CssPart => generatedCode := Some(c.(css := value));
        case JavascriptPart => generatedCode := Some(c.(javascript := value));
      }
    }

    method ResetState()
      requires Valid()
      modifies this
      ensures State() == Reset(old(State())) && Valid()
    {
      uploadedFile, generatedCode := None, None;
      SetStatus(Idle, None);
      ClearOverrides();
      localAssetInputs := map[];
      ClearPrompt();
    }

    method ClearPrompt()
      modifies this
      ensures State() == old(State()).(sectionName := "", userGuidance := "", editingId := None)
    {
      sectionName, userGuidance, editingId := "", "", None;
    }
  }
}
