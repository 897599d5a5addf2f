/** The terminal as the dialogs see it: a trace of the output operations they
    perform, in order. Key input is in module Navigation. */
module Terminal {

  /** One output operation: text printed without a line break (`print!`), a
      printed line (`println!`), a request to erase the last `count` lines, or
      a change of cursor visibility. */
  datatype Event = Print(text: string) | Println(text: string) | ClearLastLines(count: nat) | HideCursor | ShowCursor

  /** `k` empty lines, as printed by a `for _ in 0..k { println!() }` loop. */
  function BlankLines(k: nat): seq<Event>
  {
    seq(k, _ => Println(""))
  }

  /** Each row printed on its own line, in order. */
  function PrintAll(rows: seq<string>): seq<Event>
  {
    seq(|rows|, j requires 0 <= j < |rows| => Println(rows[j]))
  }

  /** How many lines an event adds to the text on screen: one per printed
      line, minus the lines it erases; inline text and cursor changes add none.
      A printed text is taken to fill one screen line: line breaks inside it
      and wrapping at the terminal's width are not counted. */
  function Lines(e: Event): int
  {
    match e
    case Println(_) => 1
    case ClearLastLines(count) => -(count as int)
    case _ => 0
  }

  /** The net number of lines a run of events leaves on screen. */
  function Height(events: seq<Event>): int
  {
    if events == [] then 0 else Lines(events[0]) + Height(events[1..])
  }

  /** The height of two runs one after the other is the sum of their heights. */
  lemma {:induction false} HeightAppend(a: seq<Event>, b: seq<Event>)
    ensures Height(a + b) == Height(a) + Height(b)
  {
    if a != [] {
      assert (a + b)[1..] == a[1..] + b;
      HeightAppend(a[1..], b);
    } else {
      assert a + b == b;
    }
  }

  /** Printing `k` blank lines adds `k` lines. */
  lemma {:induction false} HeightBlankLines(k: nat)
    ensures Height(BlankLines(k)) == k
  {
    if 0 < k {
      assert BlankLines(k)[1..] == BlankLines(k - 1);
      HeightBlankLines(k - 1);
    }
  }

  /** Printing each row on its own line adds one line per row. */
  lemma {:induction false} HeightPrintAll(rows: seq<string>)
    ensures Height(PrintAll(rows)) == |rows|
  {
    if rows != [] {
      assert PrintAll(rows)[1..] == PrintAll(rows[1..]);
      HeightPrintAll(rows[1..]);
    }
  }
}
