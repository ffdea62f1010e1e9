/**
 * Line framing over a byte stream: the daemon's command buffer (packet/command.c,
 * packet/command_unix.c) and the front end's reply buffer (ui/cmdpipe.c).  Two different buffering
 * algorithms, one per-character automaton.
 */
module Framing {
  import opened Text

  const BUFFER_SIZE := 4096

  /** The most characters a line may have: one byte each is kept for the newline and the NUL. */
  const MAX_LINE := BUFFER_SIZE - 2

  datatype Event = Line(text: string) | Overflow

  // ----- the automaton -----

  datatype Scanner = Scanner(partial: string, events: seq<Event>)

  const START := Scanner("", [])

  function Step(s: Scanner, c: char): Scanner {
    if c == '\n' then Scanner("", s.events + [Line(s.partial)])
    else if |s.partial| == MAX_LINE then Scanner("", s.events + [Overflow])
    else Scanner(s.partial + [c], s.events)
  }

  function Scan(s: Scanner, input: string): Scanner
    decreases |input|
  {
    if input == "" then s else Scan(Step(s, input[0]), input[1..])
  }

  predicate OneLine(s: string) { '\n' !in s }
  predicate NoNul(s: string) { NUL !in s }

  lemma {:induction false} ScanAppend(s: Scanner, a: string, b: string)
    ensures Scan(s, a + b) == Scan(Scan(s, a), b)
    decreases |a|
  {
    if a == "" {
      assert a + b == b;
    } else {
      assert (a + b)[1..] == a[1..] + b;
      ScanAppend(Step(s, a[0]), a[1..], b);
    }
  }

  /** Text that neither ends a line nor fills the buffer just accumulates. */
  lemma {:induction false} ScanPlain(s: Scanner, w: string)
    requires OneLine(w) && |s.partial| + |w| <= MAX_LINE
    ensures Scan(s, w) == Scanner(s.partial + w, s.events)
    decreases |w|
  {
    if w == "" {
      assert s.partial + w == s.partial;
    } else {
      var t := Step(s, w[0]);
      ScanPlain(t, w[1..]);
      assert t.partial + w[1..] == s.partial + w;
    }
  }

  lemma ScanLine(events: seq<Event>, line: string, rest: string)
    requires OneLine(line) && |line| <= MAX_LINE
    ensures Scan(Scanner("", events), line + "\n" + rest)
         == Scan(Scanner("", events + [Line(line)]), rest)
  {
    ScanAppend(Scanner("", events), line + "\n", rest);
    ScanAppend(Scanner("", events), line, "\n");
    ScanPlain(Scanner("", events), line);
    assert "" + line == line;
  }

  lemma ScanFull(events: seq<Event>, w: string)
    requires OneLine(w) && |w| == MAX_LINE + 1
    ensures Scan(Scanner("", events), w) == Scanner("", events + [Overflow])
  {
    var head, last := w[..MAX_LINE], w[MAX_LINE..];
    assert w == head + last;
    ScanAppend(Scanner("", events), head, last);
    ScanPlain(Scanner("", events), head);
    assert last == [w[MAX_LINE]];
  }

  /** A partial line in the buffer is the same as one not yet scanned. */
  lemma ScanResume(s: Scanner, chunk: string)
    requires OneLine(s.partial) && |s.partial| <= MAX_LINE
    ensures Scan(s, chunk) == Scan(Scanner("", s.events), s.partial + chunk)
  {
    ScanAppend(Scanner("", s.events), s.partial, chunk);
    ScanPlain(Scanner("", s.events), s.partial);
    assert "" + s.partial == s.partial;
  }

  lemma {:induction false} ScanKeepsPartial(s: Scanner, input: string)
    requires OneLine(s.partial) && |s.partial| <= MAX_LINE
    ensures OneLine(Scan(s, input).partial) && |Scan(s, input).partial| <= MAX_LINE
    ensures s.events <= Scan(s, input).events
    decreases |input|
  {
    if input != "" {
      ScanKeepsPartial(Step(s, input[0]), input[1..]);
    }
  }

  // ----- what the automaton means, without reference to buffers -----

  /** What becomes of a line: each 4095 bytes are discarded, and what remains is delivered. */
  function Delivered(w: string): seq<Event>
    decreases |w|
  {
    if |w| <= MAX_LINE then [Line(w)] else [Overflow] + Delivered(w[MAX_LINE + 1..])
  }

  lemma {:induction false} LineDelivery(events: seq<Event>, w: string)
    requires OneLine(w)
    ensures Scan(Scanner("", events), w + "\n") == Scanner("", events + Delivered(w))
    decreases |w|
  {
    if |w| <= MAX_LINE {
      ScanLine(events, w, "");
      assert w + "\n" + "" == w + "\n";
    } else {
      var head, rest := w[..MAX_LINE + 1], w[MAX_LINE + 1..];
      assert w + "\n" == head + (rest + "\n");
      ScanAppend(Scanner("", events), head, rest + "\n");
      ScanFull(events, head);
      LineDelivery(events + [Overflow], rest);
      assert events + [Overflow] + Delivered(rest) == events + Delivered(w);
    }
  }

  /** A line is delivered whole, and nothing else happens, exactly when it has at most 4094 bytes. */
  lemma DeliveredWholeIff(events: seq<Event>, w: string)
    requires OneLine(w)
    ensures Scan(Scanner("", events), w + "\n").events == events + [Line(w)] <==> |w| <= 4094
  {
    LineDelivery(events, w);
    var all := events + Delivered(w);
    assert all[|events|] == Delivered(w)[0];
    assert (events + [Line(w)])[|events|] == Line(w);
  }

  function Encode(lines: seq<string>): string {
    if lines == [] then "" else lines[0] + "\n" + Encode(lines[1..])
  }

  /** Any sequence of short enough lines comes out line by line, in order, none lost. */
  lemma {:induction false} EncodedLinesArrive(events: seq<Event>, lines: seq<string>)
    requires forall l :: l in lines ==> OneLine(l) && |l| <= MAX_LINE
    ensures Scan(Scanner("", events), Encode(lines))
         == Scanner("", events + seq(|lines|, i requires 0 <= i < |lines| => Line(lines[i])))
    decreases |lines|
  {
    if lines == [] {
      assert events + seq(0, i requires 0 <= i < |lines| => Line(lines[i])) == events;
    } else {
      ScanLine(events, lines[0], Encode(lines[1..]));
      EncodedLinesArrive(events + [Line(lines[0])], lines[1..]);
      var tail := lines[1..];
      assert events + [Line(lines[0])] + seq(|tail|, i requires 0 <= i < |tail| => Line(tail[i]))
          == events + seq(|lines|, i requires 0 <= i < |lines| => Line(lines[i]));
    }
  }

  /** The delivered lines of an event log, in order. */
  function LinesOf(events: seq<Event>): seq<string> {
    if events == [] then []
    else if events[0].Line? then [events[0].text] + LinesOf(events[1..])
    else LinesOf(events[1..])
  }

  lemma {:induction false} LinesOfAppend(a: seq<Event>, b: seq<Event>)
    ensures LinesOf(a + b) == LinesOf(a) + LinesOf(b)
    decreases |a|
  {
    if a == [] {
      assert a + b == b;
    } else {
      assert (a + b)[1..] == a[1..] + b;
      LinesOfAppend(a[1..], b);
    }
  }
}
