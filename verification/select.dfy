/** The current single-select dialog (src/select.rs): a configuration record
    built by chained record updates, and a prompt that redraws the options
    after every key until one is confirmed with Enter. */
module Select {
  import opened Wrappers
  import opened Sequences
  import opened Navigation
  import opened Terminal

  /** One option: the text shown normally, an optional text shown instead
      while the option is selected, and the value handed back with it. */
  datatype Entry<T> = Entry(display: string, selected: Option<string>, value: T)

  /** The configuration of a dialog. */
  datatype Selection<T> = Selection(
    defaultIndex: nat,
    padding: nat,
    isAligned: bool,
    prefix: string,
    overriddenPrefixLen: Option<nat>,
    clearAfterResponse: bool,
    options: seq<Entry<T>>)
  {
    /** Adds an option after the existing ones. */
    function Opt(e: Entry<T>): (r: Selection<T>)
      ensures r.options == options + [e]
      ensures r.(options := options) == this
    {
      this.(options := options + [e])
    }

    /** Sets the number of blank lines printed above the message. */
    function Padding(numLines: nat): (r: Selection<T>)
      ensures r.padding == numLines
      ensures r.(padding := padding) == this
    {
      this.(padding := numLines)
    }

    /** Sets the text printed ahead of a selected option's selected-text. */
    function Prefix(selectedPrefix: string): (r: Selection<T>)
      ensures r.prefix == selectedPrefix
      ensures r.(prefix := prefix) == this
    {
      this.(prefix := selectedPrefix)
    }

    /** Sets the indentation of unselected rows explicitly, for prefixes whose
        escape sequences the grapheme count would measure wrongly. */
    function OverridePrefixLen(prefixLen: nat): (r: Selection<T>)
      ensures r.overriddenPrefixLen == Some(prefixLen)
      ensures r.(overriddenPrefixLen := overriddenPrefixLen) == this
    {
      this.(overriddenPrefixLen := Some(prefixLen))
    }

    /** Indents unselected rows to the column where selected text starts. */
    function Aligned(): (r: Selection<T>)
      ensures r.isAligned
      ensures r.(isAligned := isAligned) == this
    {
      this.(isAligned := true)
    }

    /** Erases the dialog from the terminal once an option is confirmed. */
    function ClearAfter(): (r: Selection<T>)
      ensures r.clearAfterResponse
      ensures r.(clearAfterResponse := clearAfterResponse) == this
    {
      this.(clearAfterResponse := true)
    }

    /** Sets the option the cursor starts on. */
    function DefaultOpt(index: nat): (r: Selection<T>)
      ensures r.defaultIndex == index
      ensures r.(defaultIndex := defaultIndex) == this
    {
      this.(defaultIndex := index)
    }

    /** The indentation of unselected rows when aligned: the override when one
        is set, otherwise the number of grapheme clusters of the prefix, escape
        sequences included. */
    function PrefixWidth(graphemes: string -> nat): (w: nat)
      ensures overriddenPrefixLen.Some? ==> w == overriddenPrefixLen.value
      ensures overriddenPrefixLen.None? ==> w == graphemes(prefix)
    {
      match overriddenPrefixLen
      case Some(len) => len
      case None => graphemes(prefix)
    }

    /** What the prompt needs to run: at least one option, and a default
        index among them. */
    predicate Ready()
    {
      0 < |options| && defaultIndex < |options|
    }
  }

  /** A new dialog: cursor on the first option, no padding, no alignment, no
      width override, nothing erased after the answer. */
  function New<T>(selectedPrefix: string, options: seq<Entry<T>>): (s: Selection<T>)
    ensures s.defaultIndex == 0 && s.padding == 0 && !s.isAligned
    ensures s.overriddenPrefixLen == None && !s.clearAfterResponse
    ensures s.prefix == selectedPrefix && s.options == options
  {
    Selection(0, 0, false, selectedPrefix, None, false, options)
  }

  /** One call of a configuration method, with its argument. */
  datatype Step<T> =
    | AddOption(e: Entry<T>)
    | SetPadding(numLines: nat)
    | SetPrefix(selectedPrefix: string)
    | SetPrefixLen(prefixLen: nat)
    | SetAligned
    | SetClearAfter
    | SetDefault(index: nat)

  /** The field of the configuration a step writes, numbered in the order the
      fields are declared. */
  function Field<T>(step: Step<T>): nat
  {
    match step
    case SetDefault(_) => 0
    case SetPadding(_) => 1
    case SetAligned => 2
    case SetPrefix(_) => 3
    case SetPrefixLen(_) => 4
    case SetClearAfter => 5
    case AddOption(_) => 6
  }

  /** The dialog a configuration step returns. */
  function Apply<T>(s: Selection<T>, step: Step<T>): Selection<T>
  {
    match step
    case AddOption(e) => s.Opt(e)
    case SetPadding(numLines) => s.Padding(numLines)
    case SetPrefix(selectedPrefix) => s.Prefix(selectedPrefix)
    case SetPrefixLen(prefixLen) => s.OverridePrefixLen(prefixLen)
    case SetAligned => s.Aligned()
    case SetClearAfter => s.ClearAfter()
    case SetDefault(index) => s.DefaultOpt(index)
  }

  /** Any two configuration steps that write different fields, `Opt`
      included, give the same dialog in either order. */
  lemma BuildersCommute<T>(s: Selection<T>, a: Step<T>, b: Step<T>)
    requires Field(a) != Field(b)
    ensures Apply(Apply(s, a), b) == Apply(Apply(s, b), a)
  {
  }

  /** Of two steps other than `Opt` that write the same field, the later one
      decides it: the earlier one leaves no trace. */
  lemma LaterStepWins<T>(s: Selection<T>, a: Step<T>, b: Step<T>)
    requires Field(a) == Field(b) && !a.AddOption?
    ensures Apply(Apply(s, a), b) == Apply(s, b)
  {
  }

  /** The width unselected rows are indented by is the override once one is
      set, whatever the prefix; before that it is the prefix's grapheme count. */
  lemma WidthFromBuilders<T>(s: Selection<T>, p: string, len: nat, graphemes: string -> nat)
    ensures s.OverridePrefixLen(len).Prefix(p).PrefixWidth(graphemes) == len
    ensures New(p, s.options).PrefixWidth(graphemes) == graphemes(p)
  {
  }

  /** `k` space characters. */
  function Spaces(k: nat): (sp: string)
    ensures |sp| == k
    ensures forall j :: 0 <= j < k ==> sp[j] == ' '
  {
    if k == 0 then "" else Spaces(k - 1) + " "
  }

  /** Builds the indentation of an unselected row one space at a time. */
  method BuildSpacing(k: nat) returns (spacing: string)
    ensures |spacing| == k
    ensures forall j :: 0 <= j < k ==> spacing[j] == ' '
  {
    spacing := "";
    for j := 0 to k
      invariant |spacing| == j
      invariant forall m :: 0 <= m < j ==> spacing[m] == ' '
    {
      spacing := spacing + " ";
    }
  }

  /** The text before an option's own text in row `i` when the cursor is at
      `sel`: the prefix on the selected row if it has a selected-text, the
      indentation on unselected rows of an aligned dialog, nothing otherwise. */
  function Lead<T>(i: nat, sel: nat, e: Entry<T>, prefix: string, isAligned: bool, width: nat): string
  {
    if i == sel then (if e.selected.Some? then prefix else "")
    else if isAligned then Spaces(width) else ""
  }

  /** The option's own text in row `i`: its selected-text while it is
      selected and has one, its display text otherwise. */
  function Text<T>(i: nat, sel: nat, e: Entry<T>): string
  {
    if i == sel && e.selected.Some? then e.selected.value else e.display
  }

  /** Row `i` of a frame whose cursor is at `sel`, case by case as the prompt
      formats it. Every case is a lead (prefix, indentation or nothing)
      followed by the option's own text. */
  function Row<T>(i: nat, sel: nat, e: Entry<T>, prefix: string, isAligned: bool, width: nat): (r: string)
    ensures r == Lead(i, sel, e, prefix, isAligned, width) + Text(i, sel, e)
  {
    match (i == sel, e.selected)
    case (true, Some(selStr)) => prefix + selStr
    case (true, None) => e.display
    case _ => if isAligned then Spaces(width) + e.display else e.display
  }

  /** Formats one row, building an aligned row's indentation with a loop. */
  method RenderRow<T>(i: nat, sel: nat, e: Entry<T>, prefix: string, isAligned: bool, width: nat)
    returns (s: string)
    ensures s == Lead(i, sel, e, prefix, isAligned, width) + Text(i, sel, e)
  {
    match (i == sel, e.selected)
    case (true, Some(selStr)) =>
      s := prefix + selStr;
    case (true, None) =>
      s := e.display;
    case _ =>
      if isAligned {
        var spacing := BuildSpacing(width);
        assert spacing == Spaces(width);
        s := spacing + e.display;
      } else {
        s := e.display;
      }
  }

  /** The rows of one frame, in option order. */
  function Frame<T>(s: Selection<T>, width: nat, sel: nat): (rows: seq<string>)
    ensures |rows| == |s.options|
  {
    seq(|s.options|, i requires 0 <= i < |s.options| => Row(i, sel, s.options[i], s.prefix, s.isAligned, width))
  }

  /** One pass of the prompt's output: erase the option rows drawn last time,
      print every row again, hide the cursor before waiting for a key. */
  function FrameEvents<T>(s: Selection<T>, width: nat, sel: nat): seq<Event>
  {
    [ClearLastLines(|s.options|)] + PrintAll(Frame(s, width, sel)) + [HideCursor]
  }

  /** Moving the cursor from `j` to `k` redraws only rows `j` and `k`
      differently; every other row is the same text in both frames. */
  lemma MoveRedrawsTwoRows<T>(s: Selection<T>, width: nat, j: nat, k: nat, i: nat)
    requires i < |s.options| && i != j && i != k
    ensures Frame(s, width, j)[i] == Frame(s, width, k)[i]
  {
  }

  /** In an aligned dialog without a width override, each unselected row is
      indented by exactly as many spaces as the prefix has grapheme clusters,
      so its text starts in the column where the selected row's text starts
      after the prefix. */
  lemma AlignedRowsShareColumn<T>(s: Selection<T>, graphemes: string -> nat, sel: nat, i: nat)
    requires s.isAligned && s.overriddenPrefixLen == None
    requires sel < |s.options| && i < |s.options|
    requires i != sel
    ensures Frame(s, s.PrefixWidth(graphemes), sel)[i] == Spaces(graphemes(s.prefix)) + s.options[i].display
    ensures |Spaces(graphemes(s.prefix))| == graphemes(s.prefix)
    ensures s.options[sel].selected.Some? ==>
              Frame(s, s.PrefixWidth(graphemes), sel)[sel] == s.prefix + s.options[sel].selected.value
  {
  }

  /** A selected option without a selected-text is drawn without the prefix,
      so in an unaligned dialog its row reads the same as when unselected. */
  lemma SelectionWithoutSelectedTextUnmarked<T>(s: Selection<T>, width: nat, sel: nat, other: nat)
    requires sel < |s.options| && other != sel
    requires !s.isAligned && s.options[sel].selected.None?
    ensures Frame(s, width, sel)[sel] == Frame(s, width, other)[sel] == s.options[sel].display
  {
  }

  /** Draws one frame, one row per option in index order. */
  method RenderFrame<T>(s: Selection<T>, width: nat, sel: nat) returns (events: seq<Event>)
    ensures events == FrameEvents(s, width, sel)
  {
    ghost var rows := Frame(s, width, sel);
    events := [ClearLastLines(|s.options|)];
    for i := 0 to |s.options|
      invariant events == [ClearLastLines(|s.options|)] + PrintAll(rows[..i])
    {
      var row := RenderRow(i, sel, s.options[i], s.prefix, s.isAligned, width);
      assert row == rows[i];
      assert rows[..i + 1] == rows[..i] + [row];
      events := events + [Println(row)];
    }
    assert rows[..|s.options|] == rows;
    events := events + [HideCursor];
  }

  /** The output before the first frame: `padding` blank lines, the message,
      then one blank line per option to draw the rows over. */
  function Preamble<T>(s: Selection<T>, msg: string): (r: seq<Event>)
    ensures |r| == s.padding + 1 + |s.options|
    ensures r[s.padding] == Println(msg)
    ensures forall j :: 0 <= j < |r| && j != s.padding ==> r[j] == Println("")
  {
    BlankLines(s.padding) + [Println(msg)] + BlankLines(|s.options|)
  }

  /** Prints the padding, the message and the lines the rows are drawn over. */
  method PrintPreamble<T>(s: Selection<T>, msg: string) returns (trace: seq<Event>)
    ensures trace == Preamble(s, msg)
  {
    trace := [];
    for k := 0 to s.padding
      invariant trace == BlankLines(k)
    {
      trace := trace + [Println("")];
    }
    trace := trace + [Println(msg)];
    for k := 0 to |s.options|
      invariant trace == BlankLines(s.padding) + [Println(msg)] + BlankLines(k)
    {
      trace := trace + [Println("")];
    }
  }

  /** The output on Enter: the whole dialog erased if so configured, then the
      cursor shown again. */
  function Closing<T>(s: Selection<T>): (r: seq<Event>)
    ensures 0 < |r| && r[|r| - 1] == ShowCursor
    ensures s.clearAfterResponse <==> |r| == 2
  {
    (if s.clearAfterResponse then [ClearLastLines(|s.options| + s.padding + 1)] else []) + [ShowCursor]
  }

  /** The erase request on Enter removes exactly the dialog: the preamble
      leaves `padding + 1 + options` lines on screen, and every frame erases
      the option rows before printing them again, so it adds none. */
  lemma {:induction false} ClosingErasesDialog<T>(s: Selection<T>, msg: string, width: nat, sel: nat)
    requires s.clearAfterResponse
    ensures Height(FrameEvents(s, width, sel)) == 0
    ensures Closing(s)[0].ClearLastLines? && Closing(s)[0].count == Height(Preamble(s, msg))
  {
    HeightAppend([ClearLastLines(|s.options|)], PrintAll(Frame(s, width, sel)));
    HeightAppend([ClearLastLines(|s.options|)] + PrintAll(Frame(s, width, sel)), [HideCursor]);
    HeightPrintAll(Frame(s, width, sel));
    HeightAppend(BlankLines(s.padding), [Println(msg)]);
    HeightAppend(BlankLines(s.padding) + [Println(msg)], BlankLines(|s.options|));
    HeightBlankLines(s.padding);
    HeightBlankLines(|s.options|);
  }

  /** Erases the dialog if so configured, then shows the cursor again. */
  method Close<T>(s: Selection<T>) returns (events: seq<Event>)
    ensures events == Closing(s)
  {
    events := [];
    if s.clearAfterResponse {
      events := events + [ClearLastLines(|s.options| + s.padding + 1)];
    }
    events := events + [ShowCursor];
  }

  /** What the prompt returns for a script of key reads. */
  function SessionOutcome<T>(s: Selection<T>, script: seq<Read>): Outcome<Entry<T>>
    requires s.Ready()
  {
    Resolve(Decide(|s.options|, s.defaultIndex, script), s.options)
  }

  /** The output of the prompt loop from cursor position `sel` on: a frame,
      then, after the key read, nothing more (a failed read, or no key yet),
      the closing output (Enter), or the loop again from the moved cursor. */
  function LoopTrace<T>(s: Selection<T>, width: nat, sel: nat, script: seq<Read>): seq<Event>
    requires sel < |s.options|
    decreases |script|
  {
    FrameEvents(s, width, sel)
      + if script == [] then []
        else match script[0]
          case ReadFailure => []
          case Press(Enter) => Closing(s)
          case Press(k) => LoopTrace(s, width, Navigate(k, sel, |s.options|), script[1..])
  }

  /** Everything the prompt writes to the terminal for a script of key reads. */
  function SessionTrace<T>(s: Selection<T>, msg: string, graphemes: string -> nat, script: seq<Read>): seq<Event>
    requires s.Ready()
  {
    Preamble(s, msg) + LoopTrace(s, s.PrefixWidth(graphemes), s.defaultIndex, script)
  }

  /** One pass of the loop, unfolded. */
  lemma LoopTraceStep<T>(s: Selection<T>, width: nat, sel: nat, script: seq<Read>)
    requires sel < |s.options|
    ensures script == [] ==> LoopTrace(s, width, sel, script) == FrameEvents(s, width, sel)
    ensures script != [] && script[0] == ReadFailure ==>
              LoopTrace(s, width, sel, script) == FrameEvents(s, width, sel)
    ensures script != [] && script[0] == Press(Enter) ==>
              LoopTrace(s, width, sel, script) == FrameEvents(s, width, sel) + Closing(s)
    ensures script != [] && script[0].Press? && script[0].key != Enter ==>
              LoopTrace(s, width, sel, script)
              == FrameEvents(s, width, sel) + LoopTrace(s, width, Navigate(script[0].key, sel, |s.options|), script[1..])
  {
  }

  /** Runs the dialog against a script of key reads: draws, reads a key,
      moves the cursor or answers, and draws again. */
  method Prompt<T>(s: Selection<T>, msg: string, graphemes: string -> nat, script: seq<Read>)
    returns (outcome: Outcome<Entry<T>>, trace: seq<Event>)
    requires s.Ready()
    ensures outcome == SessionOutcome(s, script)
    ensures trace == SessionTrace(s, msg, graphemes, script)
  {
    var n := |s.options|;
    var selected: nat := s.defaultIndex;
    var width := match s.overriddenPrefixLen case Some(len) => len case None => graphemes(s.prefix);
    assert width == s.PrefixWidth(graphemes);

    trace := PrintPreamble(s, msg);
    ghost var full := SessionTrace(s, msg, graphemes, script);

    var pos := 0;
    while true
      invariant pos <= |script| && selected < n
      invariant Decide(n, s.defaultIndex, script) == Decide(n, selected, script[pos..])
      invariant full == trace + LoopTrace(s, width, selected, script[pos..])
      decreases |script| - pos
    {
      LoopTraceStep(s, width, selected, script[pos..]);
      var frame := RenderFrame(s, width, selected);
      ghost var rest := if pos == |script| || script[pos] == ReadFailure then []
                        else if script[pos] == Press(Enter) then Closing(s)
                        else LoopTrace(s, width, Navigate(script[pos].key, selected, n), script[pos + 1..]);
      AppendAssoc(trace, frame, rest);
      trace := trace + frame;
      if pos == |script| {
        outcome := Blocked;
        return;
      }
      var read := script[pos];
      DecideStep(n, selected, script[pos..]);
      assert script[pos..][1..] == script[pos + 1..];
      pos := pos + 1;
      match read
      case ReadFailure =>
        outcome := IoError;
        return;
      case Press(ArrowUp) =>
        selected := Up(selected, n);
      case Press(ArrowDown) =>
        selected := Down(selected, n);
      case Press(Enter) =>
        outcome := Chosen(s.options[selected]);
        var closing := Close(s);
        trace := trace + closing;
        return;
      case Press(Other) =>
    }
  }

  /** The loop's output ends with the cursor shown again exactly when an
      option is confirmed, preceded, when the dialog erases itself, by a
      request to erase options + padding + 1 lines; otherwise it ends with the
      cursor hidden and the last frame left on screen. */
  lemma {:induction false} LoopTraceEnding<T>(s: Selection<T>, width: nat, sel: nat, script: seq<Read>)
    requires sel < |s.options|
    ensures var out := LoopTrace(s, width, sel, script);
            2 <= |out|
            && (Decide(|s.options|, sel, script).Confirm? ==>
                  out[|out| - 1] == ShowCursor
                  && (s.clearAfterResponse ==> out[|out| - 2] == ClearLastLines(|s.options| + s.padding + 1)))
            && (!Decide(|s.options|, sel, script).Confirm? ==> out[|out| - 1] == HideCursor)
    decreases |script|
  {
    LoopTraceStep(s, width, sel, script);
    var frame := FrameEvents(s, width, sel);
    assert frame[|frame| - 1] == HideCursor;
    if script == [] || script[0] == ReadFailure {
    } else if script[0] == Press(Enter) {
      EndsOfAppend(frame, Closing(s));
    } else {
      var next := Navigate(script[0].key, sel, |s.options|);
      LoopTraceEnding(s, width, next, script[1..]);
      EndsOfAppend(frame, LoopTrace(s, width, next, script[1..]));
    }
  }

  /** Whatever the keys, the prompt's last output is the cursor shown again
      exactly when it returns an option, and the hidden cursor otherwise. */
  lemma SessionEnding<T>(s: Selection<T>, msg: string, graphemes: string -> nat, script: seq<Read>)
    requires s.Ready()
    ensures var trace := SessionTrace(s, msg, graphemes, script);
            2 <= |trace|
            && (SessionOutcome(s, script).Chosen? <==> trace[|trace| - 1] == ShowCursor)
            && (!SessionOutcome(s, script).Chosen? ==> trace[|trace| - 1] == HideCursor)
            && (SessionOutcome(s, script).Chosen? && s.clearAfterResponse ==>
                  trace[|trace| - 2] == ClearLastLines(|s.options| + s.padding + 1))
  {
    LoopTraceEnding(s, s.PrefixWidth(graphemes), s.defaultIndex, script);
  }

  /** Confirming after some navigating keys returns the whole option at the
      default index moved by the net number of ArrowDown presses. */
  lemma ConfirmedOption<T>(s: Selection<T>, keys: seq<Key>)
    requires s.Ready() && Enter !in keys
    ensures SessionOutcome(s, Presses(keys) + [Press(Enter)])
         == Chosen(s.options[(s.defaultIndex + Net(keys)) % |s.options|])
  {
    ConfirmedIndex(|s.options|, s.defaultIndex, keys);
  }

  /** A failed key read after some navigating keys ends the prompt with an
      I/O error. */
  lemma ReadFailureAborts<T>(s: Selection<T>, keys: seq<Key>)
    requires s.Ready() && Enter !in keys
    ensures SessionOutcome(s, Presses(keys) + [ReadFailure]) == IoError
  {
    NavigateThenDecide(|s.options|, s.defaultIndex, keys, [ReadFailure]);
  }

  /** Options ("Up", 1) and ("Down", 2), cursor on the first: ArrowDown then
      Enter returns the second option. */
  lemma ScenarioDownThenEnter()
    ensures var s := New(">", [Entry("Up", None, 1), Entry("Down", None, 2)]);
            SessionOutcome(s, [Press(ArrowDown), Press(Enter)]) == Chosen(Entry("Down", None, 2))
  {
    var s := New(">", [Entry("Up", None, 1), Entry("Down", None, 2)]);
    ConfirmedIndex(2, 0, [ArrowDown]);
    assert Presses([ArrowDown]) + [Press(Enter)] == [Press(ArrowDown), Press(Enter)];
  }

  /** Four options, cursor on the first: ArrowUp wraps to the last. */
  lemma ScenarioUpWraps<T>(s: Selection<T>)
    requires |s.options| == 4 && s.defaultIndex == 0
    ensures SessionOutcome(s, [Press(ArrowUp), Press(Enter)]) == Chosen(s.options[3])
  {
    assert [Press(ArrowUp), Press(Enter)] == Presses([ArrowUp]) + [Press(Enter)];
    ConfirmedIndex(4, 0, [ArrowUp]);
  }

  /** Three options, padding 1, erased after the answer: Enter asks for
      3 + 1 + 1 = 5 lines to be erased. */
  lemma ScenarioClearAfter<T>(s: Selection<T>, msg: string, graphemes: string -> nat)
    requires |s.options| == 3 && s.defaultIndex < 3 && s.padding == 1 && s.clearAfterResponse
    ensures var trace := SessionTrace(s, msg, graphemes, [Press(Enter)]);
            trace[|trace| - 2] == ClearLastLines(5)
  {
    SessionEnding(s, msg, graphemes, [Press(Enter)]);
  }
}
