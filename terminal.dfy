/**
  The log window shown while a design is converted
  (components/TechnicalTerminal.tsx): two timers, one adding the next
  canned log message and keeping the last six, one appending a code snippet
  to a scrolling "thought" line and keeping its last 120 characters, and an
  error branch that appends one error line and starts no timer.
*/
module Terminal {
  import opened Wrappers
  import opened Seqs

  const LogMessages: seq<string> := [
    "Initializing DE-CODE Pro CODE Rev 5.2...",
    "Establishing Gemini 3 Pro secure stream...",
    "Uploading 11,000px high-res vision context...",
    "Analyzing visual hierarchy & typography...",
    "Mapping 12-column responsive grid...",
    "Detecting sections: Hero, Speakers, Agenda...",
    "Synthesizing Tailwind utility classes...",
    "Compiling semantic HTML5 structure...",
    "Injecting Backend Asset placeholders...",
    "Applying Inter (Variable) font weight mapping...",
    "Finalizing production-grade manifest..."
  ]

  const ThinkingSnippets: seq<string> := [
    "<section class='py-20 bg-white'>",
    "flex flex-col lg:flex-row gap-8",
    "text-4xl font-extrabold tracking-tight",
    "grid grid-cols-1 md:grid-cols-2 lg:grid-cols-4",
    "shadow-[0_20px_50px_rgba(0,0,0,0.1)]",
    "{{ASSET_ID_HERO_BG}}",
    "const [open, setOpen] = useState(false);",
    "rounded-[2.5rem] overflow-hidden border",
    "transition-all duration-700 ease-in-out"
  ]

  /** How many log lines and thought characters stay visible. */
  const LogWindow: nat := 6
  const ThoughtWindow: nat := 120

  const DefaultErrorMessage: string := "Design too complex for current token budget."

  /** The line appended when the terminal shows an error. */
  function ErrorLine(errorMessage: Option<string>): string {
    "ERROR: " + (if errorMessage.Some? && errorMessage.value != "" then errorMessage.value else DefaultErrorMessage)
  }

  // ---------------------------------------------------------------------------
  // The two timer callbacks, as functions of the state they read

  /** One log tick over the message list: the next message, if any is left,
      joins the window. */
  function LogStep(messages: seq<string>, logs: seq<string>, index: nat): seq<string> {
    if index < |messages| then TakeLast(logs + [messages[index]], LogWindow) else logs
  }

  function NextLogIndex(messages: seq<string>, index: nat): nat {
    if index < |messages| then index + 1 else index
  }

  /** `k` log ticks. */
  function LogsAfter(messages: seq<string>, logs: seq<string>, index: nat, k: nat): seq<string>
    decreases k
  {
    if k == 0 then logs else LogsAfter(messages, LogStep(messages, logs, index), NextLogIndex(messages, index), k - 1)
  }

  function Min(a: nat, b: nat): nat {
    if a <= b then a else b
  }

  /** The window over the first `n` messages: at most the last six of them. */
  function Shown(messages: seq<string>, n: nat): seq<string>
    requires n <= |messages|
  {
    messages[if n <= LogWindow then 0 else n - LogWindow..n]
  }

  /** A tick on a window that shows the first `i` messages shows the first
      `i + 1`, or the same when every message has been shown. */
  lemma LogStepAdvances(messages: seq<string>, i: nat)
    requires i <= |messages|
    ensures LogStep(messages, Shown(messages, i), i) == Shown(messages, NextLogIndex(messages, i))
  {
    if i < |messages| {
      var lo := if i <= LogWindow then 0 else i - LogWindow;
      SliceExtend(messages, lo, i);
    }
  }

  lemma {:induction false} LogsAfterFrom(messages: seq<string>, i: nat, k: nat)
    requires i <= |messages|
    ensures LogsAfter(messages, Shown(messages, i), i, k) == Shown(messages, Min(i + k, |messages|))
    decreases k
  {
    if k > 0 {
      var j := NextLogIndex(messages, i);
      var n := Min(i + k, |messages|);
      assert Min(j + (k - 1), |messages|) == n;
      var before := Shown(messages, i);
      assert LogsAfter(messages, before, i, k) == LogsAfter(messages, LogStep(messages, before, i), j, k - 1);
      LogStepAdvances(messages, i);
      LogsAfterFrom(messages, j, k - 1);
    }
  }

  /** From an empty window, `k` ticks show the last (up to six) of the first
      `k` messages, in list order; once every message has been shown nothing
      changes. */
  lemma LogsFromStart(messages: seq<string>, k: nat)
    ensures LogsAfter(messages, [], 0, k) == Shown(messages, Min(k, |messages|))
    ensures |LogsAfter(messages, [], 0, k)| <= LogWindow
  {
    assert Shown(messages, 0) == [];
    LogsAfterFrom(messages, 0, k);
  }

  /** A tick with a message left puts it last and keeps at most six lines;
      once all have been shown a tick changes nothing. */
  lemma LogStepSpec(messages: seq<string>, logs: seq<string>, index: nat)
    ensures index < |messages| ==>
      var r := LogStep(messages, logs, index);
      |r| <= LogWindow && r != [] && r[|r| - 1] == messages[index]
    ensures index >= |messages| ==> LogStep(messages, logs, index) == logs
  {
  }

  /** One thought tick: a space and the snippet in turn, the line cut to its
      last 120 characters. */
  function ThoughtStep(thought: string, index: nat): string {
    TakeLast(thought + " " + ThinkingSnippets[index % |ThinkingSnippets|], ThoughtWindow)
  }

  lemma SnippetsFit(i: nat)
    requires i < |ThinkingSnippets|
    ensures |ThinkingSnippets[i]| < ThoughtWindow
  {
    assert |ThinkingSnippets[0]| < ThoughtWindow && |ThinkingSnippets[1]| < ThoughtWindow;
    assert |ThinkingSnippets[2]| < ThoughtWindow && |ThinkingSnippets[3]| < ThoughtWindow;
    assert |ThinkingSnippets[4]| < ThoughtWindow && |ThinkingSnippets[5]| < ThoughtWindow;
    assert |ThinkingSnippets[6]| < ThoughtWindow && |ThinkingSnippets[7]| < ThoughtWindow;
    assert |ThinkingSnippets[8]| < ThoughtWindow;
  }

  /** The line never exceeds 120 characters, ends with the new snippet, and
      is the end of the old line followed by it; a short line loses nothing. */
  lemma ThoughtStepSpec(thought: string, index: nat)
    ensures var snippet := " " + ThinkingSnippets[index % |ThinkingSnippets|];
      var r := ThoughtStep(thought, index);
      && |r| <= ThoughtWindow
      && |snippet| <= |r| && r[|r| - |snippet|..] == snippet
      && r == (thought + snippet)[|thought + snippet| - |r|..]
      && (|thought + snippet| <= ThoughtWindow ==> r == thought + snippet)
  {
    var snippet := " " + ThinkingSnippets[index % |ThinkingSnippets|];
    SnippetsFit(index % |ThinkingSnippets|);
    var s := thought + snippet;
    var r := ThoughtStep(thought, index);
    assert s == thought + " " + ThinkingSnippets[index % |ThinkingSnippets|];
    assert r[|r| - |snippet|..] == s[|s| - |snippet|..];
  }

  // ---------------------------------------------------------------------------
  // The component's state

  class TerminalWindow {
    var logs: seq<string>
    var thought: string
    /** The counters the timer callbacks close over. */
    var logIndex: nat
    var thoughtIndex: nat
    /** Whether the two timers are running. */
    var ticking: bool

    /** The first render: no lines, no thought, no timer yet. */
    constructor ()
      ensures logs == [] && thought == "" && logIndex == 0 && thoughtIndex == 0 && !ticking
    {
      logs := [];
      thought := "";
      logIndex := 0;
      thoughtIndex := 0;
      ticking := false;
    }

    /** The effect, run whenever the error flag changes (after the previous
        run's timers have been cleared): an error appends its line, untruncated,
        and starts nothing; otherwise both counters restart and the timers run. */
    method RunEffect(isError: bool, errorMessage: Option<string>)
      modifies this
      ensures isError ==> logs == old(logs) + [ErrorLine(errorMessage)] && !ticking
                          && logIndex == old(logIndex) && thoughtIndex == old(thoughtIndex)
      ensures !isError ==> logs == old(logs) && ticking && logIndex == 0 && thoughtIndex == 0
      ensures thought == old(thought)
    {
      if isError {
        logs := logs + [ErrorLine(errorMessage)];
        ticking := false;
        return;
      }
      logIndex := 0;
      thoughtIndex := 0;
      ticking := true;
    }

    /** The one-second timer. */
    method LogTick()
      requires ticking
      modifies this
      ensures logs == LogStep(LogMessages, old(logs), old(logIndex)) && logIndex == NextLogIndex(LogMessages, old(logIndex))
      ensures old(logIndex) < |LogMessages| ==> |logs| <= LogWindow && logs[|logs| - 1] == LogMessages[old(logIndex)]
      ensures old(logIndex) >= |LogMessages| ==> logs == old(logs)
      ensures thought == old(thought) && thoughtIndex == old(thoughtIndex) && ticking
    {
      if logIndex < |LogMessages| {
        logs := TakeLast(logs + [LogMessages[logIndex]], LogWindow);
        logIndex := logIndex + 1;
      }
    }

    /** The 400-millisecond timer. */
    method ThoughtTick()
      requires ticking
      modifies this
      ensures thought == ThoughtStep(old(thought), old(thoughtIndex)) && thoughtIndex == old(thoughtIndex) + 1
      ensures |thought| <= ThoughtWindow
      ensures logs == old(logs) && logIndex == old(logIndex) && ticking
    {
      thought := TakeLast(thought + " " + ThinkingSnippets[thoughtIndex % |ThinkingSnippets|], ThoughtWindow);
      thoughtIndex := thoughtIndex + 1;
    }
  }
}
