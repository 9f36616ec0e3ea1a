/** The bounded newline framing of the MCP stdio transport (bin/atlas-mcp.rs). */
module Framing {
  import opened Common

  const LF: Byte := 10
  const CR: Byte := 13

  // ---------------------------------------------------------------- the input

  /** What the awaited `fill_buf` can do: deliver a chunk (an empty chunk is end of
      input), or not complete, because the future is dropped or the read fails. */
  datatype Event = Read(chunk: seq<Byte>) | Interrupted

  /** The input with chunk boundaries and interruptions forgotten. */
  datatype Symbol = Octet(b: Byte) | EndOfInput

  function Octets(bytes: seq<Byte>): (s: seq<Symbol>)
    ensures |s| == |bytes|
  {
    seq(|bytes|, i requires 0 <= i < |bytes| => Octet(bytes[i]))
  }

  function Symbols(script: seq<Event>): seq<Symbol> {
    if script == [] then []
    else match script[0]
      case Interrupted => Symbols(script[1..])
      case Read(chunk) =>
        (if chunk == [] then [EndOfInput] else Octets(chunk)) + Symbols(script[1..])
  }

  // ---------------------------------------------------------- the reference

  /** A line fits when it has at most `max` bytes, one final CR not counted. */
  predicate Fits(line: seq<Byte>, max: nat) {
    |line| <= max || (|line| == max + 1 && line[max] == CR)
  }

  datatype Frame = Complete(line: seq<Byte>) | Oversized | End

  function Classify(line: seq<Byte>, max: nat): Frame {
    if Fits(line, max) then Complete(line) else Oversized
  }

  /** The frames still owed when `pending` is the part of the current line already read. */
  function Frames(pending: seq<Byte>, input: seq<Symbol>, max: nat): seq<Frame>
    decreases |input|
  {
    if input == [] then []
    else match input[0]
      case EndOfInput => [End] + Frames([], input[1..], max)
      case Octet(b) =>
        if b == LF then [Classify(pending, max)] + Frames([], input[1..], max)
        else Frames(pending + [b], input[1..], max)
  }

  /** Text made of complete lines and an unterminated tail. */
  function Text(lines: seq<seq<Byte>>, tail: seq<Byte>): seq<Byte> {
    if lines == [] then tail else lines[0] + [LF] + Text(lines[1..], tail)
  }

  function Verdicts(lines: seq<seq<Byte>>, max: nat): (v: seq<Frame>)
    ensures |v| == |lines|
    ensures forall i :: 0 <= i < |lines| ==> v[i] == Classify(lines[i], max)
  {
    seq(|lines|, i requires 0 <= i < |lines| => Classify(lines[i], max))
  }

  lemma {:induction false} FramesSkipsContent(pending: seq<Byte>, content: seq<Byte>, rest: seq<Symbol>, max: nat)
    requires LF !in content
    ensures Frames(pending, Octets(content) + rest, max) == Frames(pending + content, rest, max)
    decreases |content|
  {
    if content == [] {
      assert Octets(content) + rest == rest;
      assert pending + content == pending;
    } else {
      var input := Octets(content) + rest;
      assert input[0] == Octet(content[0]);
      assert input[1..] == Octets(content[1..]) + rest;
      FramesSkipsContent(pending + [content[0]], content[1..], rest, max);
      assert pending + [content[0]] + content[1..] == pending + content;
    }
  }

  /** Reading lines, an unterminated tail and end of input owes exactly the verdicts of
      the lines, in order, and then the end; the tail is dropped. */
  lemma {:induction false} FramesAreLineVerdicts(lines: seq<seq<Byte>>, tail: seq<Byte>, rest: seq<Symbol>, max: nat)
    requires forall line :: line in lines ==> LF !in line
    requires LF !in tail
    ensures Frames([], Octets(Text(lines, tail)) + [EndOfInput] + rest, max)
         == Verdicts(lines, max) + [End] + Frames([], rest, max)
  {
    if lines == [] {
      assert Octets(tail) + [EndOfInput] + rest == Octets(tail) + ([EndOfInput] + rest);
      FramesSkipsContent([], tail, [EndOfInput] + rest, max);
      assert ([EndOfInput] + rest)[1..] == rest;
    } else {
      var more := Octets(Text(lines[1..], tail)) + [EndOfInput] + rest;
      assert Octets(Text(lines, tail)) + [EndOfInput] + rest == Octets(lines[0]) + ([Octet(LF)] + more);
      FramesSkipsContent([], lines[0], [Octet(LF)] + more, max);
      assert [] + lines[0] == lines[0];
      assert ([Octet(LF)] + more)[1..] == more;
      FramesAreLineVerdicts(lines[1..], tail, rest, max);
      assert Verdicts(lines, max) == [Classify(lines[0], max)] + Verdicts(lines[1..], max);
    }
  }

  /** Every byte string is such a text, so the lemma above speaks about every input. */
  lemma {:induction false} EveryTextHasLines(bytes: seq<Byte>) returns (lines: seq<seq<Byte>>, tail: seq<Byte>)
    ensures Text(lines, tail) == bytes
    ensures LF !in tail && forall line :: line in lines ==> LF !in line
  {
    if bytes == [] {
      lines, tail := [], [];
    } else {
      lines, tail := EveryTextHasLines(bytes[1..]);
      if bytes[0] == LF {
        lines := [[]] + lines;
      } else if lines == [] {
        tail := [bytes[0]] + tail;
      } else {
        assert Text(lines, tail) == lines[0] + [LF] + Text(lines[1..], tail);
        lines := [[bytes[0]] + lines[0]] + lines[1..];
        assert Text(lines, tail) == bytes;
      }
    }
  }

  /** A script of non-empty chunks and interruptions. */
  predicate Chunks(script: seq<Event>) {
    forall e :: e in script && e.Read? ==> e.chunk != []
  }

  function Bytes(script: seq<Event>): seq<Byte> {
    if script == [] then []
    else (match script[0] case Read(chunk) => chunk case Interrupted => []) + Bytes(script[1..])
  }

  lemma {:induction false} SymbolsIgnoreChunking(script: seq<Event>, rest: seq<Event>)
    requires Chunks(script)
    ensures Symbols(script + rest) == Octets(Bytes(script)) + Symbols(rest)
  {
    if script == [] {
      assert script + rest == rest;
    } else {
      assert (script + rest)[1..] == script[1..] + rest;
      SymbolsIgnoreChunking(script[1..], rest);
      match script[0] {
        case Interrupted =>
          assert Bytes(script) == Bytes(script[1..]);
        case Read(chunk) =>
          assert chunk != [];
          assert Octets(Bytes(script)) == Octets(chunk) + Octets(Bytes(script[1..]));
      }
    }
  }

  /** However the text is cut into chunks, and wherever the await is interrupted, the
      frames owed are the line verdicts and then the end of input. */
  lemma ChunkingAndCancellationIrrelevant(script: seq<Event>, rest: seq<Event>,
                                          lines: seq<seq<Byte>>, tail: seq<Byte>, max: nat)
    requires Chunks(script) && Bytes(script) == Text(lines, tail)
    requires LF !in tail && forall line :: line in lines ==> LF !in line
    ensures Frames([], Symbols(script + [Read([])] + rest), max)
         == Verdicts(lines, max) + [End] + Frames([], Symbols(rest), max)
  {
    assert script + [Read([])] + rest == script + ([Read([])] + rest);
    SymbolsIgnoreChunking(script, [Read([])] + rest);
    assert ([Read([])] + rest)[1..] == rest;
    assert Octets(Bytes(script)) + ([EndOfInput] + Symbols(rest))
        == Octets(Bytes(script)) + [EndOfInput] + Symbols(rest);
    FramesAreLineVerdicts(lines, tail, Symbols(rest), max);
  }

  // ------------------------------------------------------------- messages

  const BOM: seq<Byte> := [0xEF, 0xBB, 0xBF]

  function StripFinalCR(line: seq<Byte>): seq<Byte> {
    if line != [] && line[|line| - 1] == CR then line[..|line| - 1] else line
  }

  function StripBOM(line: seq<Byte>): seq<Byte> {
    if BOM <= line then line[|BOM|..] else line
  }

  datatype Delivery<+M> = Message(message: M) | Closed

  /** The messages owed for a list of frames: oversized, empty and unparsable lines vanish. */
  function Deliveries<M>(frames: seq<Frame>, parse: seq<Byte> -> Option<M>): seq<Delivery<M>> {
    if frames == [] then []
    else
      (match frames[0]
       case End => [Closed]
       case Oversized => []
       case Complete(line) =>
         if line == [] then []
         else match parse(StripBOM(StripFinalCR(line)))
           case Some(m) => [Message(m)]
           case None => []) + Deliveries(frames[1..], parse)
  }

  // ------------------------------------------------------------- the transport

  datatype FrameRead = ReadEnd | ReadComplete | ReadOversized | ReadInterrupted

  datatype NextMessage<+M> = Got(message: M) | Ended | Suspended

  /** How much input is left, counting each event and each byte. */
  ghost function Weight(script: seq<Event>): nat {
    if script == [] then 0
    else (match script[0] case Read(chunk) => 1 + |chunk| case Interrupted => 1) + Weight(script[1..])
  }

  /** One pass of the read loop: the content found, ended by a newline or not. */
  lemma FramesAfterChunk(line: seq<Byte>, available: seq<Byte>, contentLen: nat, rest: seq<Symbol>, max: nat)
    requires contentLen <= |available| && LF !in available[..contentLen]
    ensures contentLen == |available| ==>
              (Frames(line, Octets(available) + rest, max) == Frames(line + available[..contentLen], rest, max))
    ensures contentLen < |available| && available[contentLen] == LF ==>
              (Frames(line, Octets(available) + rest, max)
               == [Classify(line + available[..contentLen], max)]
                  + Frames([], Octets(available[contentLen + 1..]) + rest, max))
  {
    var content := available[..contentLen];
    if contentLen == |available| {
      assert content == available;
      FramesSkipsContent(line, content, rest, max);
    } else if available[contentLen] == LF {
      var after := Octets(available[contentLen + 1..]) + rest;
      assert Octets(available) + rest == Octets(content) + ([Octet(LF)] + after);
      FramesSkipsContent(line, content, [Octet(LF)] + after, max);
      assert ([Octet(LF)] + after)[1..] == after;
    }
  }

  /** `BoundedStdioTransport`. `buffered` and `script` are the BufReader: its unconsumed
      bytes, and what its awaited reads will do. `line` is what has been read of the
      current line, kept or not. */
  class Transport<M> {
    const max: nat
    const parse: seq<Byte> -> Option<M>
    var frame: seq<Byte>
    var isDiscarding: bool
    var buffered: seq<Byte>
    var script: seq<Event>
    ghost var line: seq<Byte>

    /** The frame holds at most max + 1 bytes: the current line, cut there. */
    ghost predicate Valid()
      reads this
    {
      && |frame| <= max + 1
      && frame == (if |line| <= max + 1 then line else line[..max + 1])
      && isDiscarding == (|line| > max + 1)
    }

    ghost function Unread(): nat
      reads this
    {
      |buffered| + Weight(script)
    }

    ghost function Input(): seq<Symbol>
      reads this
    {
      Octets(buffered) + Symbols(script)
    }

    /** The frames that the rest of the input owes. */
    ghost function Owed(): seq<Frame>
      reads this
    {
      Frames(line, Input(), max)
    }

    constructor (max: nat, parse: seq<Byte> -> Option<M>, script: seq<Event>)
      ensures Valid() && this.max == max && this.parse == parse
      ensures Owed() == Frames([], Symbols(script), max)
    {
      this.max := max;
      this.parse := parse;
      this.frame := [];
      this.isDiscarding := false;
      this.buffered := [];
      this.script := script;
      this.line := [];
      new;
      assert Input() == Symbols(script);
    }

    /** The only await: nothing but the BufReader changes, and no byte is lost. */
    method FillBuf() returns (available: Option<seq<Byte>>)
      modifies this`buffered, this`script
      ensures available.None? ==> Input() == old(Input()) && Unread() < old(Unread())
      ensures available.Some? ==> available.value == buffered && Unread() <= old(Unread())
      ensures available.Some? && buffered != [] ==> Input() == old(Input())
      ensures available.Some? && buffered == [] ==>
                (if old(Input()) == [] then Input() == [] && script == []
                 else old(Input()) == [EndOfInput] + Input() && Unread() < old(Unread()))
    {
      if buffered == [] && script != [] {
        var event := script[0];
        script := script[1..];
        if event.Interrupted? {
          return None;
        }
        buffered := event.chunk;
      }
      return Some(buffered);
    }

    /** Copy what fits of the content into the frame, and discard once something does not. */
    method Absorb(content: seq<Byte>)
      requires Valid()
      modifies this`frame, this`isDiscarding, this`line
      ensures Valid() && line == old(line) + content
    {
      if !isDiscarding {
        var remaining := max + 1 - |frame|;
        var copied := if |content| < remaining then |content| else remaining;
        frame := frame + content[..copied];
        isDiscarding := |content| > remaining;
      }
      line := line + content;
    }

    /** Consume the buffered bytes up to and including the first newline. */
    method Consume() returns (atNewline: bool)
      requires Valid() && buffered != []
      modifies this`frame, this`isDiscarding, this`line, this`buffered
      ensures Valid() && |buffered| < old(|buffered|)
      ensures !atNewline ==> Owed() == old(Owed())
      ensures atNewline ==> old(Owed()) == [Classify(line, max)] + Frames([], Input(), max)
    {
      var available := buffered;
      var newline := Position(available, LF);
      var consumed := if newline.Some? then newline.value + 1 else |available|;
      var contentLen := if newline.Some? then newline.value else |available|;
      FramesAfterChunk(line, available, contentLen, Symbols(script), max);
      Absorb(available[..contentLen]);
      buffered := buffered[consumed..];
      assert newline.None? ==> Input() == Symbols(script);
      return newline.Some?;
    }

    /** The newline was reached: judge the line, and start the next one. */
    method EndLine() returns (oversized: bool)
      requires Valid()
      modifies this`frame, this`isDiscarding, this`line
      ensures line == [] && !isDiscarding && |frame| <= max + 1
      ensures oversized ==> Classify(old(line), max) == Oversized && Valid()
      ensures !oversized ==> Classify(old(line), max) == Complete(frame)
    {
      var delimiterLen := if frame != [] && frame[|frame| - 1] == CR then 1 else 0;
      var messageLen := |frame| - delimiterLen;
      oversized := isDiscarding || messageLen > max;
      isDiscarding := false;
      line := [];
      if oversized {
        frame := [];
      }
    }

    method ReadFrame() returns (r: FrameRead)
      requires Valid()
      modifies this
      ensures Unread() < old(Unread()) || (r == ReadEnd && Owed() == [] && script == [])
      // The future was dropped or failed: everything owed is still owed.
      ensures r == ReadInterrupted ==> Valid() && Owed() == old(Owed())
      ensures r == ReadEnd ==> Valid() && (old(Owed()) == [End] + Owed() || old(Owed()) == Owed() == [])
      ensures r == ReadOversized ==> Valid() && old(Owed()) == [Oversized] + Owed()
      // A complete line is left in the frame, for the caller to clear.
      ensures r == ReadComplete ==> (line == [] && !isDiscarding && |frame| <= max + 1)
      ensures r == ReadComplete ==> old(Owed()) == [Complete(frame)] + Owed()
    {
      while true
        invariant Valid()
        invariant Owed() == old(Owed())
        invariant Unread() <= old(Unread())
        decreases Unread()
      {
        var fill := FillBuf();
        if fill.None? {
          return ReadInterrupted;
        }
        var available := fill.value;
        if available == [] {
          frame := [];
          isDiscarding := false;
          line := [];
          return ReadEnd;
        }
        var atNewline := Consume();
        if atNewline {
          var oversized := EndLine();
          return if oversized then ReadOversized else ReadComplete;
        }
      }
    }

    method Next() returns (r: NextMessage<M>)
      requires Valid()
      modifies this
      ensures Valid()
      ensures Unread() < old(Unread()) || (r.Ended? && script == [])
      ensures r.Suspended? ==> Deliveries(Owed(), parse) == old(Deliveries(Owed(), parse))
      ensures r.Got? ==> old(Deliveries(Owed(), parse)) == [Message(r.message)] + Deliveries(Owed(), parse)
      ensures r.Ended? ==> (old(Deliveries(Owed(), parse)) == [Closed] + Deliveries(Owed(), parse)
                            || old(Deliveries(Owed(), parse)) == Deliveries(Owed(), parse) == [])
    {
      while true
        invariant Valid()
        invariant Deliveries(Owed(), parse) == old(Deliveries(Owed(), parse))
        invariant Unread() <= old(Unread())
        decreases Unread()
      {
        ghost var owed := Owed();
        var read := ReadFrame();
        assert read != ReadInterrupted && owed != [] ==> owed[1..] == Owed();
        match read {
          case ReadInterrupted => return Suspended;
          case ReadEnd => return Ended;
          case ReadOversized =>
          case ReadComplete =>
            if frame != [] {
              var parsed := parse(StripBOM(StripFinalCR(frame)));
              frame := [];
              if parsed.Some? {
                return Got(parsed.value);
              }
            }
        }
      }
    }

    /** The service's receive loop: retry after a dropped future, stop at end of input. */
    method ReceiveAll() returns (messages: seq<M>)
      requires Valid()
      modifies this
      ensures messages == BeforeClosed(old(Deliveries(Owed(), parse)))
    {
      messages := [];
      while true
        invariant Valid()
        invariant BeforeClosed(old(Deliveries(Owed(), parse))) == messages + BeforeClosed(Deliveries(Owed(), parse))
        decreases Unread()
      {
        ghost var before := Deliveries(Owed(), parse);
        var r := Next();
        match r {
          case Suspended =>
          case Got(m) =>
            assert before[1..] == Deliveries(Owed(), parse);
            messages := messages + [m];
          case Ended => return;
        }
      }
    }
  }

  function BeforeClosed<M>(ds: seq<Delivery<M>>): seq<M> {
    if ds == [] || ds[0].Closed? then [] else [ds[0].message] + BeforeClosed(ds[1..])
  }

  /** The message a line carries, if it fits, is not empty and parses. */
  function LineMessage<M>(line: seq<Byte>, max: nat, parse: seq<Byte> -> Option<M>): Option<M> {
    if Fits(line, max) && line != [] then parse(StripBOM(StripFinalCR(line))) else None
  }

  function LineMessages<M>(lines: seq<seq<Byte>>, max: nat, parse: seq<Byte> -> Option<M>): seq<M> {
    if lines == [] then []
    else (match LineMessage(lines[0], max, parse) case Some(m) => [m] case None => [])
         + LineMessages(lines[1..], max, parse)
  }

  lemma {:induction false} DeliveriesOfVerdicts<M>(lines: seq<seq<Byte>>, more: seq<Frame>, max: nat,
                                                   parse: seq<Byte> -> Option<M>)
    ensures BeforeClosed(Deliveries(Verdicts(lines, max) + [End] + more, parse)) == LineMessages(lines, max, parse)
  {
    var frames := Verdicts(lines, max) + [End] + more;
    if lines != [] {
      assert frames[0] == Classify(lines[0], max);
      assert frames[1..] == Verdicts(lines[1..], max) + [End] + more;
      DeliveriesOfVerdicts(lines[1..], more, max, parse);
      var rest := Deliveries(frames[1..], parse);
      match LineMessage(lines[0], max, parse) {
        case None => assert Deliveries(frames, parse) == rest;
        case Some(m) => assert Deliveries(frames, parse)[1..] == rest;
      }
    }
  }

  /** The bytes of a line that are parsed: a final CR and then a leading byte order mark, each
      if it is there, are no part of them. */
  predicate Payload(line: seq<Byte>, body: seq<Byte>) {
    var end := if line != [] && line[|line| - 1] == CR then 1 else 0;
    var start := if |line| - end >= 3 && line[0] == 0xEF && line[1] == 0xBB && line[2] == 0xBF then 3 else 0;
    |body| == |line| - start - end && forall i :: 0 <= i < |body| ==> body[i] == line[start + i]
  }

  /** The line is not empty, fits, and its payload parses as this message. */
  ghost predicate Carries<M(!new)>(line: seq<Byte>, max: nat, parse: seq<Byte> -> Option<M>, m: M) {
    && line != []
    && (|line| <= max || (|line| == max + 1 && line[|line| - 1] == CR))
    && exists body :: Payload(line, body) && parse(body) == Some(m)
  }

  lemma CarriesIff<M(!new)>(line: seq<Byte>, max: nat, parse: seq<Byte> -> Option<M>, m: M)
    ensures LineMessage(line, max, parse) == Some(m) <==> Carries(line, max, parse, m)
  {
    var body := StripBOM(StripFinalCR(line));
    assert Payload(line, body);
    forall other | Payload(line, other)
      ensures other == body
    {
    }
  }

  ghost predicate ComesFrom<M(!new)>(lines: seq<seq<Byte>>, max: nat, parse: seq<Byte> -> Option<M>, m: M, i: nat) {
    i < |lines| && Carries(lines[i], max, parse, m)
  }

  /** From the `n`-th line on: each message comes from the line named at its place, these lines
      come in order, and no other line carries a message. */
  ghost predicate MessagesTell<M(!new)>(lines: seq<seq<Byte>>, n: nat, max: nat, parse: seq<Byte> -> Option<M>,
                                        messages: seq<M>, origins: seq<nat>) {
    && |origins| == |messages|
    && (forall k :: 0 <= k < |origins| ==> origins[k] >= n && ComesFrom(lines, max, parse, messages[k], origins[k]))
    && (forall k, l :: 0 <= k < l < |origins| ==> origins[k] < origins[l])
    && (forall i: nat, m :: i >= n && ComesFrom(lines, max, parse, m, i) ==> i in origins)
  }

  lemma {:induction false} LineMessagesTell<M(!new)>(lines: seq<seq<Byte>>, n: nat, max: nat,
                                                     parse: seq<Byte> -> Option<M>)
      returns (origins: seq<nat>)
    requires n <= |lines|
    ensures MessagesTell(lines, n, max, parse, LineMessages(lines[n..], max, parse), origins)
    decreases |lines| - n
  {
    hide MessagesTell, Carries, LineMessage;
    origins := [];
    if n == |lines| {
      NoLineTells(lines, max, parse);
      assert LineMessages(lines[n..], max, parse) == [];
    } else {
      var later := LineMessagesTell(lines, n + 1, max, parse);
      var messages := LineMessages(lines[n + 1..], max, parse);
      assert lines[n..][1..] == lines[n + 1..];
      var first := LineMessage(lines[n], max, parse);
      forall m
        ensures ComesFrom(lines, max, parse, m, n) <==> first == Some(m)
      {
        CarriesIff(lines[n], max, parse, m);
      }
      if first.Some? {
        origins := [n] + later;
        OneInFront(lines, n, max, parse, first.value, messages, later);
        assert LineMessages(lines[n..], max, parse) == [first.value] + messages;
      } else {
        origins := later;
        NoneInFront(lines, n, max, parse, messages, later);
        assert LineMessages(lines[n..], max, parse) == messages;
      }
    }
  }

  lemma NoLineTells<M(!new)>(lines: seq<seq<Byte>>, max: nat, parse: seq<Byte> -> Option<M>)
    ensures MessagesTell(lines, |lines|, max, parse, [], [])
  {
  }

  lemma OneInFront<M(!new)>(lines: seq<seq<Byte>>, n: nat, max: nat, parse: seq<Byte> -> Option<M>, m: M,
                            messages: seq<M>, later: seq<nat>)
    requires MessagesTell(lines, n + 1, max, parse, messages, later) && ComesFrom(lines, max, parse, m, n)
    ensures MessagesTell(lines, n, max, parse, [m] + messages, [n] + later)
  {
    hide ComesFrom;
    forall i: nat, m | i >= n && ComesFrom(lines, max, parse, m, i)
      ensures i in [n] + later
    {
    }
  }

  lemma NoneInFront<M(!new)>(lines: seq<seq<Byte>>, n: nat, max: nat, parse: seq<Byte> -> Option<M>,
                             messages: seq<M>, later: seq<nat>)
    requires MessagesTell(lines, n + 1, max, parse, messages, later)
    requires forall m :: !ComesFrom(lines, max, parse, m, n)
    ensures MessagesTell(lines, n, max, parse, messages, later)
  {
    hide ComesFrom;
  }

  /** What `ReceiveAll` returns on a fresh transport: the messages of the lines that fit,
      in order, for every chunking and every interruption of the stream. */
  lemma MessagesOfAnyScript<M(!new)>(script: seq<Event>, rest: seq<Event>, lines: seq<seq<Byte>>, tail: seq<Byte>,
                                     max: nat, parse: seq<Byte> -> Option<M>)
    requires Chunks(script) && Bytes(script) == Text(lines, tail)
    requires LF !in tail && forall line :: line in lines ==> LF !in line
    ensures exists origins :: MessagesTell(lines, 0, max, parse,
                                BeforeClosed(Deliveries(Frames([], Symbols(script + [Read([])] + rest), max), parse)),
                                origins)
  {
    ChunkingAndCancellationIrrelevant(script, rest, lines, tail, max);
    DeliveriesOfVerdicts(lines, Frames([], Symbols(rest), max), max, parse);
    var origins := LineMessagesTell(lines, 0, max, parse);
    assert lines[0..] == lines;
  }

  function Position(s: seq<Byte>, b: Byte): (r: Option<nat>)
    ensures r.None? ==> b !in s
    ensures r.Some? ==> r.value < |s| && s[r.value] == b && b !in s[..r.value]
  {
    if s == [] then None
    else if s[0] == b then Some(0)
    else match Position(s[1..], b)
      case None => None
      case Some(i) => Some(i + 1)
  }
}
