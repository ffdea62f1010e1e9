/**
 * The two line buffers in the form the program gives them: the daemon shifts its buffer down after
 * every command, the front end walks a pointer and shifts once.  Each refines Framing's automaton.
 */
module LineBuffers {
  import opened Text
  import opened Framing

  /** What `read` on a non-blocking descriptor can do. */
  datatype ReadResult = Closed | Unavailable | Bytes(chunk: string)

  lemma LineCut(s: seq<char>, start: nat, k: nat, end: nat)
    requires start <= k < end <= |s| && s[k] == '\n'
    ensures s[start..end] == s[start..k] + "\n" + s[k + 1..end]
  {}

  /** `index(&buffer[from], '\n')` on the C string that ends at `end`. */
  method IndexNewline(buffer: array<char>, from: nat, ghost end: nat) returns (at: int)
    requires from <= end < buffer.Length && buffer[end] == NUL && NoNul(buffer[from..end])
    ensures at >= 0 ==> from <= at < end && buffer[at] == '\n' && OneLine(buffer[from..at])
    ensures at < 0 ==> OneLine(buffer[from..end])
  {
    assert forall i :: from <= i < end ==> buffer[i] == buffer[from..end][i - from];
    at := from;
    while buffer[at] != NUL
      invariant from <= at <= end
      invariant OneLine(buffer[from..at])
      decreases end - at
    {
      if buffer[at] == '\n' { return; }
      assert buffer[from..at + 1] == buffer[from..at] + [buffer[at]];
      at := at + 1;
    }
    assert at == end;
    at := -1;
  }

  /** `memmove` within one buffer. */
  method MoveDown(buffer: array<char>, source: nat, count: nat)
    requires source + count <= buffer.Length
    modifies buffer
    ensures buffer[..count] == old(buffer[source..source + count])
    ensures forall i :: count <= i < buffer.Length ==> buffer[i] == old(buffer[i])
  {
    forall i | 0 <= i < count {
      buffer[i] := buffer[source + i];
    }
  }

  /** What `read` does to the buffer it is given. */
  method StoreBytes(buffer: array<char>, position: nat, chunk: string)
    requires position + |chunk| <= buffer.Length
    modifies buffer
    ensures buffer[..position + |chunk|] == old(buffer[..position]) + chunk
  {
    forall i | 0 <= i < |chunk| {
      buffer[position + i] := chunk[i];
    }
    assert buffer[..position] == old(buffer[..position]);
    assert buffer[position..position + |chunk|] == chunk;
    assert buffer[..position + |chunk|] == buffer[..position] + buffer[position..position + |chunk|];
  }

  // ----- the daemon's command buffer -----

  class CommandBuffer {
    const incomingBuffer: array<char>
    var incomingReadPosition: nat

    ghost predicate Valid()
      reads this, incomingBuffer
    {
      incomingBuffer.Length == BUFFER_SIZE && incomingReadPosition < BUFFER_SIZE && NoNul(Contents())
    }

    ghost function Contents(): string
      requires incomingBuffer.Length == BUFFER_SIZE && incomingReadPosition < BUFFER_SIZE
      reads this, incomingBuffer
    {
      incomingBuffer[..incomingReadPosition]
    }

    /** Between iterations of the main loop only an unfinished line is left, with room to grow. */
    ghost predicate Idle()
      reads this, incomingBuffer
    {
      Valid() && OneLine(Contents()) && |Contents()| <= MAX_LINE
    }

    constructor ()
      ensures Idle() && Contents() == "" && fresh(incomingBuffer)
    {
      incomingBuffer := new char[BUFFER_SIZE](_ => NUL);
      incomingReadPosition := 0;
      new;
      assert Contents() == "";
    }

    /** The size passed to `read`; never zero, so a zero result always means end of file. */
    function SpaceRemaining(): (space: nat)
      requires Idle()
      reads this, incomingBuffer
      ensures 0 < space == MAX_LINE + 1 - |Contents()|
    {
      BUFFER_SIZE - incomingReadPosition - 1
    }

    /** Returns -1 when the stream has been closed, 0 otherwise. */
    method ReadCommands(result: ReadResult) returns (status: int)
      requires Idle()
      requires result.Bytes? ==> 0 < |result.chunk| <= SpaceRemaining() && NoNul(result.chunk)
      modifies this, incomingBuffer
      ensures Valid()
      ensures status == -1 <==> result.Closed?
      ensures Contents() == old(Contents()) + (if result.Bytes? then result.chunk else "")
    {
      match result
      case Closed =>
        status := -1;
      case Unavailable =>
        status := 0;
      case Bytes(chunk) =>
        StoreBytes(incomingBuffer, incomingReadPosition, chunk);
        incomingReadPosition := incomingReadPosition + |chunk|;
        status := 0;
    }

    /**
     * Take each complete command out of the buffer, shifting the rest down every time; discard
     * the data if it fills the buffer.  `events` is what is dispatched or reported, in order.
     */
    method DispatchBufferCommands() returns (events: seq<Event>)
      requires Valid()
      modifies this, incomingBuffer
      ensures Idle()
      ensures Scanner(Contents(), events) == Scan(START, old(Contents()))
    {
      events := [];
      while true
        invariant Valid()
        invariant Scan(Scanner("", events), Contents()) == Scan(START, old(Contents()))
        decreases incomingReadPosition
      {
        var content := incomingBuffer[..incomingReadPosition];
        incomingBuffer[incomingReadPosition] := NUL;
        assert incomingBuffer[..incomingReadPosition] == content;
        assert incomingBuffer[0..incomingReadPosition] == content;
        var endOfCommand := IndexNewline(incomingBuffer, 0, incomingReadPosition);
        if endOfCommand < 0 {
          break;
        }
        var commandLength := endOfCommand;
        var remainingCount := incomingReadPosition - commandLength - 1;
        var fullCommand := incomingBuffer[..commandLength];
        var rest := incomingBuffer[endOfCommand + 1..incomingReadPosition];
        assert content == fullCommand + "\n" + rest;
        ScanLine(events, fullCommand, rest);
        MoveDown(incomingBuffer, endOfCommand + 1, remainingCount);
        incomingReadPosition := incomingReadPosition - (commandLength + 1);
        assert Contents() == rest;
        events := events + [Line(fullCommand)];
      }
      if incomingReadPosition >= BUFFER_SIZE - 1 {
        ScanFull(events, Contents());
        events := events + [Overflow];
        incomingReadPosition := 0;
      } else {
        ScanPlain(Scanner("", events), Contents());
        assert "" + Contents() == Contents();
      }
    }
  }

  // ----- the front end's reply buffer -----

  class ReplyBuffer {
    const replyBuffer: array<char>
    var replyBufferUsed: nat

    ghost predicate Valid()
      reads this, replyBuffer
    {
      replyBuffer.Length == BUFFER_SIZE && replyBufferUsed < BUFFER_SIZE && NoNul(Contents())
    }

    ghost function Contents(): string
      requires replyBuffer.Length == BUFFER_SIZE && replyBufferUsed < BUFFER_SIZE
      reads this, replyBuffer
    {
      replyBuffer[..replyBufferUsed]
    }

    ghost predicate Idle()
      reads this, replyBuffer
    {
      Valid() && OneLine(Contents()) && |Contents()| <= MAX_LINE
    }

    constructor ()
      ensures Idle() && Contents() == "" && fresh(replyBuffer)
    {
      replyBuffer := new char[BUFFER_SIZE](_ => NUL);
      replyBufferUsed := 0;
      new;
      assert Contents() == "";
    }

    function BufferRemaining(): (space: nat)
      requires Idle()
      reads this, replyBuffer
      ensures 0 < space == MAX_LINE + 1 - |Contents()|
    {
      BUFFER_SIZE - replyBufferUsed - 1
    }

    /** Read one chunk; the replies it completes are returned in order. */
    method HandleCommandReplies(chunk: string) returns (replies: seq<string>)
      requires Idle()
      requires 0 < |chunk| <= BufferRemaining() && NoNul(chunk)
      modifies this, replyBuffer
      ensures Idle()
      ensures var s := Scan(START, old(Contents()) + chunk);
              Contents() == s.partial && replies == LinesOf(s.events)
    {
      StoreBytes(replyBuffer, replyBufferUsed, chunk);
      replyBufferUsed := replyBufferUsed + |chunk|;
      replies := ConsumeReplyBuffer();
    }

    /**
     * Each newline is overwritten with a NUL and the reply before it is handled where it lies; the
     * unfinished text moves to the start once, at the end.
     */
    method ConsumeReplyBuffer() returns (replies: seq<string>)
      requires Valid()
      modifies this, replyBuffer
      ensures Idle()
      ensures var s := Scan(START, old(Contents()));
              Contents() == s.partial && replies == LinesOf(s.events)
    {
      ghost var content := Contents();
      ghost var events: seq<Event> := [];
      replies := [];
      replyBuffer[replyBufferUsed] := NUL;
      var replyStart := 0;
      assert replyBuffer[0..replyBufferUsed] == content;
      while true
        invariant 0 <= replyStart <= replyBufferUsed < BUFFER_SIZE
        invariant replyBuffer[replyBufferUsed] == NUL
        invariant replyBufferUsed == old(replyBufferUsed)
        invariant NoNul(replyBuffer[replyStart..replyBufferUsed])
        invariant Scan(Scanner("", events), replyBuffer[replyStart..replyBufferUsed])
               == Scan(START, content)
        invariant replies == LinesOf(events)
        decreases replyBufferUsed - replyStart
      {
        ghost var pending := replyBuffer[replyStart..replyBufferUsed];
        var endOfReply := IndexNewline(replyBuffer, replyStart, replyBufferUsed);
        if endOfReply < 0 { break; }
        LineCut(replyBuffer[..], replyStart, endOfReply, replyBufferUsed);
        ghost var rest := replyBuffer[endOfReply + 1..replyBufferUsed];
        replyBuffer[endOfReply] := NUL;
        var reply := replyBuffer[replyStart..endOfReply];
        assert pending == reply + "\n" + rest;
        ScanLine(events, reply, rest);
        LinesOfAppend(events, [Line(reply)]);
        events := events + [Line(reply)];
        replies := replies + [reply];
        replyStart := endOfReply + 1;
      }
      var moveSize := replyBufferUsed - replyStart;
      ghost var pending := replyBuffer[replyStart..replyBufferUsed];
      MoveDown(replyBuffer, replyStart, moveSize);
      replyBufferUsed := moveSize;
      assert Contents() == pending;
      if replyBufferUsed >= BUFFER_SIZE - 1 {
        ScanFull(events, pending);
        LinesOfAppend(events, [Overflow]);
        replyBufferUsed := 0;
      } else {
        ScanPlain(Scanner("", events), pending);
        assert "" + pending == pending;
      }
    }
  }

  // ----- whole streams, under any schedule of reads -----

  function Min(a: nat, b: nat): nat { if a < b then a else b }

  /**
   * Feed a stream to the daemon.  Read number i is offered `wants[i] + 1` bytes and takes what fits.
   * Whatever the schedule, the events are those of the automaton on the bytes read so far.
   */
  method PumpCommands(stream: string, wants: seq<nat>) returns (read: nat, events: seq<Event>)
    requires NoNul(stream)
    ensures read <= |stream| && (|wants| >= |stream| ==> read == |stream|)
    ensures events == Scan(START, stream[..read]).events
  {
    var buffer := new CommandBuffer();
    read, events := 0, [];
    for i := 0 to |wants|
      invariant i <= read <= |stream| || read == |stream|
      invariant fresh(buffer) && fresh(buffer.incomingBuffer) && buffer.Idle()
      invariant Scanner(buffer.Contents(), events) == Scan(START, stream[..read])
    {
      if read == |stream| { break; }
      var n := Min(Min(wants[i] + 1, buffer.SpaceRemaining()), |stream| - read);
      var chunk := stream[read..read + n];
      ghost var before := Scanner(buffer.Contents(), events);
      var _ := buffer.ReadCommands(Bytes(chunk));
      var more := buffer.DispatchBufferCommands();
      Splice(before, chunk, more, buffer.Contents());
      ScanAppend(START, stream[..read], chunk);
      assert stream[..read + n] == stream[..read] + chunk;
      read, events := read + n, events + more;
    }
  }

  /** Feed a stream to the front end in the same way. */
  method PumpReplies(stream: string, wants: seq<nat>) returns (read: nat, replies: seq<string>)
    requires NoNul(stream)
    ensures read <= |stream| && (|wants| >= |stream| ==> read == |stream|)
    ensures replies == LinesOf(Scan(START, stream[..read]).events)
  {
    var buffer := new ReplyBuffer();
    read, replies := 0, [];
    ghost var events: seq<Event> := [];
    for i := 0 to |wants|
      invariant i <= read <= |stream| || read == |stream|
      invariant fresh(buffer) && fresh(buffer.replyBuffer) && buffer.Idle()
      invariant Scanner(buffer.Contents(), events) == Scan(START, stream[..read])
      invariant replies == LinesOf(events)
    {
      if read == |stream| { break; }
      var n := Min(Min(wants[i] + 1, buffer.BufferRemaining()), |stream| - read);
      var chunk := stream[read..read + n];
      ghost var before := Scanner(buffer.Contents(), events);
      ghost var more := Scan(START, buffer.Contents() + chunk).events;
      var got := buffer.HandleCommandReplies(chunk);
      Splice(before, chunk, more, buffer.Contents());
      LinesOfAppend(events, more);
      ScanAppend(START, stream[..read], chunk);
      assert stream[..read + n] == stream[..read] + chunk;
      read, replies := read + n, replies + got;
      events := events + more;
    }
  }

  /** Events already reported do not influence the scan. */
  lemma {:induction false} ScanShift(prior: seq<Event>, s: Scanner, input: string)
    ensures Scan(Scanner(s.partial, prior + s.events), input)
         == Scanner(Scan(s, input).partial, prior + Scan(s, input).events)
    decreases |input|
  {
    if input != "" {
      var t := Step(s, input[0]);
      assert prior + (s.events + [Line(s.partial)]) == prior + s.events + [Line(s.partial)];
      assert prior + (s.events + [Overflow]) == prior + s.events + [Overflow];
      ScanShift(prior, t, input[1..]);
    }
  }

  /** One read-and-dispatch round, seen from the automaton. */
  lemma Splice(before: Scanner, chunk: string, more: seq<Event>, partial: string)
    requires OneLine(before.partial) && |before.partial| <= MAX_LINE
    requires Scanner(partial, more) == Scan(START, before.partial + chunk)
    ensures Scanner(partial, before.events + more) == Scan(before, chunk)
  {
    ScanResume(before, chunk);
    ScanShift(before.events, START, before.partial + chunk);
    assert before.events + START.events == before.events;
  }

  /**
   * Both sides, each under a schedule of its own, deliver the same lines of a stream: the result
   * does not depend on how the reads were chunked nor on which buffering algorithm was used.
   */
  method SameLinesBothSides(stream: string, daemonReads: seq<nat>, frontReads: seq<nat>)
      returns (commands: seq<string>, replies: seq<string>)
    requires NoNul(stream) && |daemonReads| >= |stream| && |frontReads| >= |stream|
    ensures commands == replies == LinesOf(Scan(START, stream).events)
  {
    assert stream[..|stream|] == stream;
    var n, events := PumpCommands(stream, daemonReads);
    var m, lines := PumpReplies(stream, frontReads);
    commands, replies := LinesOf(events), lines;
  }
}
