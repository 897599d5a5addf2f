/** The earlier single-select dialog (src/selection.rs): options are plain
    (text, value) pairs, the selected row is the prefix followed by the text,
    and the dialog is neither padded, aligned nor erased afterwards. */
module EarlySelection {
  import opened Sequences
  import opened Navigation
  import opened Terminal

  /** One option: the text printed for it and the value handed back with it. */
  datatype Choice<T> = Choice(text: string, value: T)

  /** Row `i` of a frame whose cursor is at `sel`: the prefix on the selected
      row only, then the option's text. */
  function Row<T>(i: nat, sel: nat, prefix: string, c: Choice<T>): string
  {
    (if i == sel then prefix else "") + c.text
  }

  /** The rows of one frame, in option order. */
  function Frame<T>(prefix: string, options: seq<Choice<T>>, sel: nat): (rows: seq<string>)
    ensures |rows| == |options|
  {
    seq(|options|, i requires 0 <= i < |options| => Row(i, sel, prefix, options[i]))
  }

  /** Every row is its option's text, preceded by the prefix exactly when it
      is the selected row. */
  lemma FrameMarksOnlySelected<T>(prefix: string, options: seq<Choice<T>>, sel: nat, i: nat)
    requires i < |options|
    ensures i == sel ==> Frame(prefix, options, sel)[i] == prefix + options[i].text
    ensures i != sel ==> Frame(prefix, options, sel)[i] == options[i].text
  {
  }

  /** One pass of the prompt's output: erase the rows, print them again, hide
      the cursor before waiting for a key. */
  function FrameEvents<T>(prefix: string, options: seq<Choice<T>>, sel: nat): seq<Event>
  {
    [ClearLastLines(|options|)] + PrintAll(Frame(prefix, options, sel)) + [HideCursor]
  }

  /** The output of the prompt loop from cursor position `sel` on: a frame,
      then, after the key read, nothing more (a failed read, or no key yet),
      the cursor shown again (Enter), or the loop again from the moved cursor. */
  function LoopTrace<T>(prefix: string, options: seq<Choice<T>>, sel: nat, script: seq<Read>): seq<Event>
    requires sel < |options|
    decreases |script|
  {
    FrameEvents(prefix, options, sel)
      + if script == [] then []
        else match script[0]
          case ReadFailure => []
          case Press(Enter) => [ShowCursor]
          case Press(k) => LoopTrace(prefix, options, Navigate(k, sel, |options|), script[1..])
  }

  /** One pass of the loop, unfolded. */
  lemma LoopTraceStep<T>(prefix: string, options: seq<Choice<T>>, sel: nat, script: seq<Read>)
    requires sel < |options|
    ensures script == [] ==> LoopTrace(prefix, options, sel, script) == FrameEvents(prefix, options, sel)
    ensures script != [] && script[0] == ReadFailure ==>
              LoopTrace(prefix, options, sel, script) == FrameEvents(prefix, options, sel)
    ensures script != [] && script[0] == Press(Enter) ==>
              LoopTrace(prefix, options, sel, script) == FrameEvents(prefix, options, sel) + [ShowCursor]
    ensures script != [] && script[0].Press? && script[0].key != Enter ==>
              LoopTrace(prefix, options, sel, script)
              == FrameEvents(prefix, options, sel)
                 + LoopTrace(prefix, options, Navigate(script[0].key, sel, |options|), script[1..])
  {
  }

  /** Everything the prompt writes for a script of key reads: the message, a
      blank line per option to draw over, then the loop's output. */
  function SessionTrace<T>(prefix: string, options: seq<Choice<T>>, defaultIndex: nat, msg: string, script: seq<Read>): seq<Event>
    requires defaultIndex < |options|
  {
    [Println(msg)] + BlankLines(|options|) + LoopTrace(prefix, options, defaultIndex, script)
  }

  /** A dialog's configuration. Each step changes one field of the dialog it
      is called on; `Opt` pushes onto its option list. */
  class Selection<T> {
    var defaultIndex: nat
    var selectedPrefix: string
    var options: seq<Choice<T>>

    /** A new dialog with the cursor starting on the first option. */
    constructor (selectedPrefix: string, options: seq<Choice<T>>)
      ensures this.defaultIndex == 0
      ensures this.selectedPrefix == selectedPrefix && this.options == options
    {
      this.defaultIndex := 0;
      this.selectedPrefix := selectedPrefix;
      this.options := options;
    }

    /** Adds an option after the existing ones. */
    method Opt(c: Choice<T>)
      modifies this
      ensures options == old(options) + [c]
      ensures selectedPrefix == old(selectedPrefix) && defaultIndex == old(defaultIndex)
    {
      options := options + [c];
    }

    /** Sets the text printed ahead of the selected option. */
    method Prefix(p: string)
      modifies this
      ensures selectedPrefix == p
      ensures options == old(options) && defaultIndex == old(defaultIndex)
    {
      selectedPrefix := p;
    }

    /** Sets the option the cursor starts on. */
    method SetDefault(index: nat)
      modifies this
      ensures defaultIndex == index
      ensures options == old(options) && selectedPrefix == old(selectedPrefix)
    {
      defaultIndex := index;
    }

    /** Draws one frame, one row per option in index order. */
    method RenderFrame(sel: nat) returns (events: seq<Event>)
      ensures events == FrameEvents(selectedPrefix, options, sel)
    {
      ghost var rows := Frame(selectedPrefix, options, sel);
      events := [ClearLastLines(|options|)];
      for i := 0 to |options|
        invariant events == [ClearLastLines(|options|)] + PrintAll(rows[..i])
      {
        var row := (if i == sel then selectedPrefix else "") + options[i].text;
        assert rows[..i + 1] == rows[..i] + [row];
        events := events + [Println(row)];
      }
      assert rows[..|options|] == rows;
      events := events + [HideCursor];
    }

    /** Runs the dialog against a script of key reads: prints the message,
        then draws, reads a key, moves the cursor or answers, and draws again. */
    method Prompt(msg: string, script: seq<Read>) returns (outcome: Outcome<Choice<T>>, trace: seq<Event>)
      requires 0 < |options| && defaultIndex < |options|
      ensures outcome == Resolve(Decide(|options|, defaultIndex, script), options)
      ensures trace == SessionTrace(selectedPrefix, options, defaultIndex, msg, script)
    {
      var n := |options|;
      var selected: nat := defaultIndex;
      ghost var full := SessionTrace(selectedPrefix, options, defaultIndex, msg, script);

      trace := [Println(msg)];
      for k := 0 to n
        invariant trace == [Println(msg)] + BlankLines(k)
      {
        trace := trace + [Println("")];
      }

      var pos := 0;
      while true
        invariant pos <= |script| && selected < n
        invariant Decide(n, defaultIndex, script) == Decide(n, selected, script[pos..])
        invariant full == trace + LoopTrace(selectedPrefix, options, selected, script[pos..])
        decreases |script| - pos
      {
        LoopTraceStep(selectedPrefix, options, selected, script[pos..]);
        var frame := RenderFrame(selected);
        ghost var rest := if pos == |script| || script[pos] == ReadFailure then []
                          else if script[pos] == Press(Enter) then [ShowCursor]
                          else LoopTrace(selectedPrefix, options, Navigate(script[pos].key, selected, n), script[pos + 1..]);
        AppendAssoc(trace, frame, rest);
        trace := trace + frame;
        if pos == |script| {
          outcome := Blocked;
          return;
        }
        var read := script[pos];
        DecideStep(n, selected, script[pos..]);
        assert script[pos..][1..] == script[pos + 1..];
        pos := pos + 1;
        match read
        case ReadFailure =>
          outcome := IoError;
          return;
        case Press(ArrowUp) =>
          selected := Up(selected, n);
        case Press(ArrowDown) =>
          selected := Down(selected, n);
        case Press(Enter) =>
          outcome := Chosen(options[selected]);
          trace := trace + [ShowCursor];
          return;
        case Press(Other) =>
      }
    }
  }

  /** Building a dialog and adding an option after changing the prefix and
      the default gives the options in the order they were added, with the
      new prefix and default. */
  method BuildInOrder<T>(prefix: string, first: Choice<T>, second: Choice<T>, other: string, index: nat)
    returns (s: Selection<T>)
    ensures s.options == [first, second] && s.selectedPrefix == other && s.defaultIndex == index
  {
    s := new Selection(prefix, [first]);
    s.Prefix(other);
    s.SetDefault(index);
    s.Opt(second);
  }

  /** The loop's output ends with the cursor shown again exactly when an
      option is confirmed, and with the cursor hidden otherwise. */
  lemma {:induction false} LoopTraceEnding<T>(prefix: string, options: seq<Choice<T>>, sel: nat, script: seq<Read>)
    requires sel < |options|
    ensures var out := LoopTrace(prefix, options, sel, script);
            2 <= |out|
            && (Decide(|options|, sel, script).Confirm? ==> out[|out| - 1] == ShowCursor)
            && (!Decide(|options|, sel, script).Confirm? ==> out[|out| - 1] == HideCursor)
    decreases |script|
  {
    LoopTraceStep(prefix, options, sel, script);
    var frame := FrameEvents(prefix, options, sel);
    assert frame[|frame| - 1] == HideCursor;
    if script == [] || script[0] == ReadFailure {
    } else if script[0] == Press(Enter) {
      EndsOfAppend(frame, [ShowCursor]);
    } else {
      var next := Navigate(script[0].key, sel, |options|);
      LoopTraceEnding(prefix, options, next, script[1..]);
      EndsOfAppend(frame, LoopTrace(prefix, options, next, script[1..]));
    }
  }

  /** Whatever the keys, the prompt's last output is the cursor shown again
      exactly when it returns an option, and the hidden cursor otherwise. */
  lemma SessionEnding<T>(prefix: string, options: seq<Choice<T>>, defaultIndex: nat, msg: string, script: seq<Read>)
    requires defaultIndex < |options|
    ensures var trace := SessionTrace(prefix, options, defaultIndex, msg, script);
            (Resolve(Decide(|options|, defaultIndex, script), options).Chosen? <==> trace[|trace| - 1] == ShowCursor)
            && (!Resolve(Decide(|options|, defaultIndex, script), options).Chosen? ==> trace[|trace| - 1] == HideCursor)
  {
    LoopTraceEnding(prefix, options, defaultIndex, script);
  }

  /** Confirming after some navigating keys returns the option at the
      default index moved by the net number of ArrowDown presses. */
  lemma ConfirmedChoice<T>(options: seq<Choice<T>>, defaultIndex: nat, keys: seq<Key>)
    requires defaultIndex < |options| && Enter !in keys
    ensures Resolve(Decide(|options|, defaultIndex, Presses(keys) + [Press(Enter)]), options)
         == Chosen(options[(defaultIndex + Net(keys)) % |options|])
  {
    ConfirmedIndex(|options|, defaultIndex, keys);
  }
}
