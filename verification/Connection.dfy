/**
  One client connection: `handle_connection` as a state machine over the events the runtime
  can deliver, in any order and any number.
 */
module Connection {
  import opened Wrappers
  import opened Bytes
  import opened Text
  import opened Request
  import opened Codec
  import opened Response

  datatype Reason =
    | ShutDown
    | PeerGone
    | CutOff       // the client hung up inside a block, an I/O error
    | ReadFailed   // an I/O error on the socket
    | BadRequest(error: RequestParseError)
    | WriteFailed(request: PolicyRequest, partial: seq<Byte>)

  datatype Phase = Waiting | Answering(request: PolicyRequest) | Closed(reason: Reason)

  /**
    `received` is everything read from the socket, `buffer` the part not decoded yet, `sent`
    everything written, and `answered` the requests answered with their answers.
   */
  datatype Conn = Conn(
    phase: Phase,
    eof: bool,
    received: seq<Byte>,
    buffer: seq<Byte>,
    sent: seq<Byte>,
    answered: seq<(PolicyRequest, Action)>)

  datatype Event =
    | Receive(chunk: seq<Byte>)              // the socket had bytes
    | HangUp                                 // the client closed its side
    | FailRead                               // reading the socket fails
    | Poll                                   // the framed stream is polled for the next request
    | SeeShutdown                            // the loop head sees the cancelled token
    | Answer(action: Action)                 // the handler is done and the answer is written
    | FailWrite(action: Action, count: nat)  // the write fails after at most `count` bytes

  const START: Conn := Conn(Waiting, false, [], [], [], [])

  function Min(a: nat, b: nat): nat {
    if a <= b then a else b
  }

  /** How the stream ends when no complete block is left. */
  function AtEnd(buffer: seq<Byte>): Reason {
    if buffer == [] then PeerGone else CutOff
  }

  /** The connection after a poll whose decoder call gave `step`. */
  function Polled(c: Conn, step: (Decoded, seq<Byte>)): Conn {
    match step.0
    case Ok(Some(req)) => c.(phase := Answering(req), buffer := step.1)
    case Ok(None) => if c.eof then c.(phase := Closed(AtEnd(c.buffer))) else c
    case Err(e) => c.(phase := Closed(BadRequest(e)), buffer := step.1)
  }

  /** Events the loop is not waiting for at this point change nothing. */
  function Step(c: Conn, e: Event, parse: BlockParser): Conn {
    match (c.phase, e)
    case (Waiting, Receive(chunk)) =>
      if c.eof then c else c.(received := c.received + chunk, buffer := c.buffer + chunk)
    case (Waiting, HangUp) => c.(eof := true)
    case (Waiting, FailRead) => c.(phase := Closed(ReadFailed))
    case (Waiting, SeeShutdown) => c.(phase := Closed(ShutDown))
    case (Waiting, Poll) =>
      Polled(c, DecodeStep(c.buffer, parse))
    case (Answering(req), Answer(action)) =>
      c.(phase := Waiting, sent := c.sent + Wire(action), answered := c.answered + [(req, action)])
    case (Answering(req), FailWrite(action, count)) =>
      var partial := Wire(action)[..Min(count, |Wire(action)|)];
      c.(phase := Closed(WriteFailed(req, partial)), sent := c.sent + partial)
    case _ => c
  }

  function Run(c: Conn, events: seq<Event>, parse: BlockParser): Conn
    decreases events
  {
    if events == [] then c else Run(Step(c, events[0], parse), events[1..], parse)
  }

  lemma {:induction false} RunAppend(c: Conn, events: seq<Event>, e: Event, parse: BlockParser)
    ensures Run(c, events + [e], parse) == Step(Run(c, events, parse), e, parse)
    decreases events
  {
    if events == [] {
      assert events + [e] == [e];
      assert Run(Step(c, e, parse), [e][1..], parse) == Step(c, e, parse);
    } else {
      RunAppend(Step(c, events[0], parse), events[1..], e, parse);
      assert (events + [e])[1..] == events[1..] + [e];
    }
  }

  /** The loop of the connection task, over the two buffers it changes in place. */
  method HandleConnection(events: seq<Event>, lossy: seq<Byte> -> string) returns (end: Conn)
    ensures end == Run(START, events, Parser(lossy))
  {
    ghost var parse := Parser(lossy);
    var input := new BytesMut();
    var output := new BytesMut();
    var phase: Phase, eof := Waiting, false;
    var received: seq<Byte> := [];
    var answered: seq<(PolicyRequest, Action)> := [];
    var i := 0;
    while i < |events|
      invariant 0 <= i <= |events|
      invariant input != output
      invariant Conn(phase, eof, received, input.bytes, output.bytes, answered) == Run(START, events[..i], parse)
    {
      ghost var c := Run(START, events[..i], parse);
      RunAppend(START, events[..i], events[i], parse);
      assert events[..i] + [events[i]] == events[..i + 1];
      match (phase, events[i]) {
        case (Waiting, Receive(chunk)) =>
          if !eof {
            received := received + chunk;
            input.Extend(chunk);
          }
        case (Waiting, HangUp) =>
          eof := true;
        case (Waiting, FailRead) =>
          phase := Closed(ReadFailed);
        case (Waiting, SeeShutdown) =>
          phase := Closed(ShutDown);
        case (Waiting, Poll) =>
          var decoded := Decode(input, lossy);
          match decoded {
            case Ok(Some(req)) => phase := Answering(req);
            case Ok(None) => if eof { phase := Closed(AtEnd(input.bytes)); }
            case Err(e) => phase := Closed(BadRequest(e));
          }
        case (Answering(req), Answer(action)) =>
          Encode(action, output);
          answered := answered + [(req, action)];
          phase := Waiting;
        case (Answering(req), FailWrite(action, count)) =>
          var partial := Wire(action)[..Min(count, |Wire(action)|)];
          output.Extend(partial);
          phase := Closed(WriteFailed(req, partial));
        case _ =>
      }
      i := i + 1;
    }
    assert events[..i] == events;
    end := Conn(phase, eof, received, input.bytes, output.bytes, answered);
  }

  // ---------- what holds in every reachable state ----------

  function Requests(answered: seq<(PolicyRequest, Action)>): (requests: seq<PolicyRequest>)
    ensures |requests| == |answered|
    ensures forall i :: 0 <= i < |answered| ==> requests[i] == answered[i].0
  {
    seq(|answered|, i requires 0 <= i < |answered| => answered[i].0)
  }

  function Actions(answered: seq<(PolicyRequest, Action)>): (actions: seq<Action>)
    ensures |actions| == |answered|
    ensures forall i :: 0 <= i < |answered| ==> actions[i] == answered[i].1
  {
    seq(|answered|, i requires 0 <= i < |answered| => answered[i].1)
  }

  /** The request taken from the stream but not (fully) answered, if any. */
  function Pending(phase: Phase): seq<PolicyRequest> {
    match phase
    case Answering(req) => [req]
    case Closed(WriteFailed(req, _)) => [req]
    case _ => []
  }

  function Consumed(c: Conn): seq<PolicyRequest> {
    Requests(c.answered) + Pending(c.phase)
  }

  /** The bytes of an answer whose write failed half-way. */
  function Partial(phase: Phase): seq<Byte> {
    if phase.Closed? && phase.reason.WriteFailed? then phase.reason.partial else []
  }

  /** What is left to decode, as the whole-stream parser sees it. */
  function Ahead(c: Conn, parse: BlockParser): Drained {
    if c.phase.Closed? && c.phase.reason.BadRequest? then Drained([], Some(c.phase.reason.error), c.buffer)
    else Drain(c.buffer, parse)
  }

  /** The client hung up, and all its complete blocks are decoded. */
  ghost predicate Ended(c: Conn) {
    c.phase == Closed(PeerGone) || c.phase == Closed(CutOff)
  }

  ghost predicate Inv(c: Conn, parse: BlockParser) {
    && Drain(c.received, parse) == Codec.Prepend(Consumed(c), Ahead(c, parse))
    && c.sent == Wires(Actions(c.answered)) + Partial(c.phase)
    && (Ended(c) ==> c.eof && NoBlank(c.buffer) && c.phase == Closed(AtEnd(c.buffer)))
  }

  lemma StepReceive(c: Conn, chunk: seq<Byte>, parse: BlockParser)
    requires Inv(c, parse) && c.phase == Waiting && !c.eof
    ensures Inv(Step(c, Receive(chunk), parse), parse)
  {
    var requests := Consumed(c);
    var d := Drain(c.buffer, parse);
    DrainAppend(c.received, chunk, parse);
    DrainAppend(c.buffer, chunk, parse);
    if d.error.None? {
      PrependPrepend(requests, d.requests, Drain(d.rest + chunk, parse));
    }
  }

  lemma PollKeepsInv(c: Conn, step: (Decoded, seq<Byte>), parse: BlockParser)
    requires Inv(c, parse) && c.phase == Waiting && step == DecodeStep(c.buffer, parse)
    ensures Inv(Polled(c, step), parse)
  {
    match step.0
    case Ok(Some(req)) => TakeKeepsInv(c, req, step.1, parse);
    case Ok(None) => if c.eof { EndKeepsInv(c, parse); }
    case Err(e) => RefuseKeepsInv(c, e, step.1, parse);
  }

  lemma EndKeepsInv(c: Conn, parse: BlockParser)
    requires Inv(c, parse) && c.phase == Waiting && DecodeStep(c.buffer, parse).0 == Ok(None) && c.eof
    ensures Inv(c.(phase := Closed(AtEnd(c.buffer))), parse)
  {
    assert Consumed(c) == Requests(c.answered);
  }

  lemma TakeKeepsInv(c: Conn, req: PolicyRequest, rest: seq<Byte>, parse: BlockParser)
    requires Inv(c, parse) && c.phase == Waiting && DecodeStep(c.buffer, parse) == (Ok(Some(req)), rest)
    ensures Inv(c.(phase := Answering(req), buffer := rest), parse)
  {
    assert Drain(c.buffer, parse) == Codec.Prepend([req], Drain(rest, parse));
    PrependPrepend(Requests(c.answered), [req], Drain(rest, parse));
    assert Requests(c.answered) + [] == Requests(c.answered);
  }

  lemma RefuseKeepsInv(c: Conn, e: RequestParseError, rest: seq<Byte>, parse: BlockParser)
    requires Inv(c, parse) && c.phase == Waiting && DecodeStep(c.buffer, parse) == (Err(e), rest)
    ensures Inv(c.(phase := Closed(BadRequest(e)), buffer := rest), parse)
  {
    assert Drain(c.buffer, parse) == Drained([], Some(e), rest);
  }

  lemma StepAnswer(c: Conn, action: Action, parse: BlockParser)
    requires Inv(c, parse) && c.phase.Answering?
    ensures Inv(Step(c, Answer(action), parse), parse)
  {
    AnsweredWires(c.answered, c.phase.request, action);
    AnswerKeepsInv(c, c.answered + [(c.phase.request, action)], Wire(action), parse);
  }

  lemma AnswerKeepsInv(c: Conn, answered: seq<(PolicyRequest, Action)>, wire: seq<Byte>, parse: BlockParser)
    requires Inv(c, parse) && c.phase.Answering?
    requires Wires(Actions(answered)) == Wires(Actions(c.answered)) + wire
    requires Requests(answered) == Requests(c.answered) + [c.phase.request]
    ensures Inv(c.(phase := Waiting, sent := c.sent + wire, answered := answered), parse)
  {
    assert Requests(answered) + [] == Requests(answered);
    assert c.sent == Wires(Actions(c.answered));
    assert (c.sent + wire) + [] == c.sent + wire;
  }

  lemma AnsweredWires(answered: seq<(PolicyRequest, Action)>, req: PolicyRequest, action: Action)
    ensures Wires(Actions(answered + [(req, action)])) == Wires(Actions(answered)) + Wire(action)
    ensures Requests(answered + [(req, action)]) == Requests(answered) + [req]
  {
    assert Actions(answered + [(req, action)]) == Actions(answered) + [action];
    assert Requests(answered + [(req, action)]) == Requests(answered) + [req];
    WiresAppend(Actions(answered), action);
  }

  lemma StepFailWrite(c: Conn, action: Action, count: nat, parse: BlockParser)
    requires Inv(c, parse) && c.phase.Answering?
    ensures Inv(Step(c, FailWrite(action, count), parse), parse)
  {
    FailKeepsInv(c, Wire(action)[..Min(count, |Wire(action)|)], parse);
  }

  lemma FailKeepsInv(c: Conn, partial: seq<Byte>, parse: BlockParser)
    requires Inv(c, parse) && c.phase.Answering?
    ensures Inv(c.(phase := Closed(WriteFailed(c.phase.request, partial)), sent := c.sent + partial), parse)
  {
    assert c.sent == Wires(Actions(c.answered));
  }

  lemma WaitingKeepsInv(c: Conn, e: Event, parse: BlockParser)
    requires Inv(c, parse) && c.phase == Waiting
    ensures Inv(Step(c, e, parse), parse)
  {
    if e.Receive? {
      if !c.eof { StepReceive(c, e.chunk, parse); }
    } else if e.Poll? {
      PollKeepsInv(c, DecodeStep(c.buffer, parse), parse);
    } else if e.HangUp? {
      IdleKeepsInv(c, Waiting, true, parse);
    } else if e.FailRead? {
      IdleKeepsInv(c, Closed(ReadFailed), c.eof, parse);
    } else if e.SeeShutdown? {
      IdleKeepsInv(c, Closed(ShutDown), c.eof, parse);
    } else {
      assert Step(c, e, parse) == c;
    }
  }

  lemma IdleKeepsInv(c: Conn, phase: Phase, eof: bool, parse: BlockParser)
    requires Inv(c, parse) && c.phase == Waiting && phase in {Waiting, Closed(ShutDown), Closed(ReadFailed)}
    ensures Inv(c.(phase := phase, eof := eof), parse)
  {
  }

  lemma StepKeepsInv(c: Conn, e: Event, parse: BlockParser)
    requires Inv(c, parse)
    ensures Inv(Step(c, e, parse), parse)
  {
    if c.phase == Waiting {
      WaitingKeepsInv(c, e, parse);
    } else if c.phase.Answering? && e.Answer? {
      StepAnswer(c, e.action, parse);
    } else if c.phase.Answering? && e.FailWrite? {
      StepFailWrite(c, e.action, e.count, parse);
    } else {
      assert Step(c, e, parse) == c;
    }
  }

  lemma {:induction false} RunKeepsInv(c: Conn, events: seq<Event>, parse: BlockParser)
    requires Inv(c, parse)
    ensures Inv(Run(c, events, parse), parse)
    decreases events
  {
    if events != [] {
      StepKeepsInv(c, events[0], parse);
      RunKeepsInv(Step(c, events[0], parse), events[1..], parse);
    }
  }

  /**
    In every reachable state, whatever the client still sends (`future`): the requests taken are
    the first ones of the whole stream, at most one of them is not answered, the answers were
    written in order, and nothing but part of one lost answer was written besides them.
   */
  lemma ConnectionRuns(events: seq<Event>, future: seq<Byte>, parse: BlockParser)
    ensures var c := Run(START, events, parse);
            var stream := Drain(c.received + future, parse);
            var k := |c.answered|;
            && k <= |Consumed(c)| <= k + 1
            && Consumed(c) <= stream.requests
            && Requests(c.answered) == stream.requests[..k]
            && c.sent == Wires(Actions(c.answered)) + Partial(c.phase)
            && (c.phase.Closed? && c.phase.reason.BadRequest? ==>
                  stream.requests == Requests(c.answered) && stream.error == Some(c.phase.reason.error))
            && (Ended(c) && future == [] ==>
                  && stream == Drained(Requests(c.answered), None, c.buffer)
                  && (c.phase == Closed(PeerGone) <==> stream.rest == []))
  {
    assert Inv(START, parse);
    RunKeepsInv(START, events, parse);
    InvMeaning(Run(START, events, parse), future, parse);
  }

  lemma InvMeaning(c: Conn, future: seq<Byte>, parse: BlockParser)
    requires Inv(c, parse)
    ensures var stream := Drain(c.received + future, parse);
            && Consumed(c) <= stream.requests
            && Requests(c.answered) == stream.requests[..|c.answered|]
            && (c.phase.Closed? && c.phase.reason.BadRequest? ==>
                  stream.requests == Requests(c.answered) && stream.error == Some(c.phase.reason.error))
            && (Ended(c) && future == [] ==>
                  && stream == Drained(Requests(c.answered), None, c.buffer)
                  && (c.phase == Closed(PeerGone) <==> stream.rest == []))
  {
    var now, ahead, taken := Drain(c.received, parse), Ahead(c, parse), Requests(c.answered);
    DrainAppend(c.received, future, parse);
    PrefixOfAll(taken, Pending(c.phase), ahead.requests, now, future, parse);
    if future == [] {
      assert c.received + future == c.received;
    }
    if Pending(c.phase) == [] && ahead.requests == [] {
      assert taken + [] + [] == taken;
    }
    if Ended(c) {
      assert ahead == Drained([], None, c.buffer);
    }
  }

  /** What was taken from the stream so far stays the beginning of all that is ever decoded. */
  lemma PrefixOfAll(taken: seq<PolicyRequest>, pending: seq<PolicyRequest>, ahead: seq<PolicyRequest>,
                    now: Drained, future: seq<Byte>, parse: BlockParser)
    requires now.requests == taken + pending + ahead
    ensures var all := Feed(now, future, parse).requests;
            taken + pending <= all && all[..|taken|] == taken
  {
    assert now.requests <= Feed(now, future, parse).requests;
  }

  /** Nothing is read, decoded or written after the connection is closed. */
  lemma {:induction false} ClosedStays(c: Conn, events: seq<Event>, parse: BlockParser)
    requires c.phase.Closed?
    ensures Run(c, events, parse) == c
    decreases events
  {
    if events != [] {
      ClosedStays(Step(c, events[0], parse), events[1..], parse);
    }
  }

  // ---------- what is done ----------

  /**
    At the loop head a complete block is taken: as a request that is then answered, or as an error
    that ends the loop.
   */
  lemma TakesBlock(c: Conn, block: seq<Byte>, tail: seq<Byte>, action: Action, parse: BlockParser)
    requires c.phase == Waiting && c.buffer == block + [NL, NL] + tail && NoBlank(block + [NL])
    ensures if parse(block).Ok? then
              Run(c, [Poll, Answer(action)], parse)
              == c.(buffer := tail, sent := c.sent + Wire(action), answered := c.answered + [(parse(block).value,
                  action)])
            else
              Step(c, Poll, parse) == c.(phase := Closed(BadRequest(parse(block).error)), buffer := tail)
  {
    FindsTerminator(block, tail);
    assert c.buffer[..|block|] == block && c.buffer[|block| + 2..] == tail;
    RunTwo(c, Poll, Answer(action), parse);
  }

  lemma RunTwo(c: Conn, e: Event, f: Event, parse: BlockParser)
    ensures Run(c, [e, f], parse) == Step(Step(c, e, parse), f, parse)
  {
    assert [e] + [f] == [e, f];
    RunAppend(c, [e], f, parse);
    assert [] + [e] == [e];
    RunAppend(c, [], e, parse);
  }

  lemma RunFirst(c: Conn, e: Event, more: seq<Event>, parse: BlockParser)
    ensures Run(c, [e] + more, parse) == Run(Step(c, e, parse), more, parse)
  {
    assert ([e] + more)[0] == e && ([e] + more)[1..] == more;
  }

  lemma {:induction false} RunThen(c: Conn, a: seq<Event>, b: seq<Event>, parse: BlockParser)
    ensures Run(c, a + b, parse) == Run(Run(c, a, parse), b, parse)
    decreases a
  {
    if a == [] {
      assert a + b == b;
    } else {
      calc {
        Run(c, a + b, parse);
        { assert a + b == [a[0]] + (a[1..] + b); RunFirst(c, a[0], a[1..] + b, parse); }
        Run(Step(c, a[0], parse), a[1..] + b, parse);
        { RunThen(Step(c, a[0], parse), a[1..], b, parse); }
        Run(Run(Step(c, a[0], parse), a[1..], parse), b, parse);
        { assert a == [a[0]] + a[1..]; RunFirst(c, a[0], a[1..], parse); }
        Run(Run(c, a, parse), b, parse);
      }
    }
  }

  /** The chunks of a stream arrive. */
  function Arriving(chunks: seq<seq<Byte>>): seq<Event> {
    if chunks == [] then [] else [Receive(chunks[0])] + Arriving(chunks[1..])
  }

  /** Requests are taken and answered, one by one. */
  function Serving(actions: seq<Action>): seq<Event> {
    if actions == [] then [] else [Poll, Answer(actions[0])] + Serving(actions[1..])
  }

  /** The first blocks' requests with their answers. */
  ghost function Served(blocks: seq<seq<Byte>>, actions: seq<Action>, parse: BlockParser): seq<(PolicyRequest, Action)>
    requires |actions| <= |blocks| && forall i :: 0 <= i < |actions| ==> parse(blocks[i]).Ok?
  {
    seq(|actions|, i requires 0 <= i < |actions| => (parse(blocks[i]).value, actions[i]))
  }

  lemma {:induction false} Arrives(c: Conn, chunks: seq<seq<Byte>>, parse: BlockParser)
    requires c.phase == Waiting && !c.eof
    ensures Run(c, Arriving(chunks), parse)
         == c.(received := c.received + Flatten(chunks), buffer := c.buffer + Flatten(chunks))
    decreases chunks
  {
    if chunks == [] {
      assert c.received + [] == c.received && c.buffer + [] == c.buffer;
    } else {
      var rest := Arriving(chunks[1..]);
      assert ([Receive(chunks[0])] + rest)[1..] == rest;
      Arrives(Step(c, Receive(chunks[0]), parse), chunks[1..], parse);
      Regroup(c.received, chunks[0], Flatten(chunks[1..]));
      Regroup(c.buffer, chunks[0], Flatten(chunks[1..]));
    }
  }

  lemma {:induction false} Serves(c: Conn, blocks: seq<seq<Byte>>, rest: seq<Byte>, actions: seq<Action>,
                                  parse: BlockParser)
    requires c.phase == Waiting && IsFraming(c.buffer, blocks, rest) && |actions| <= |blocks|
    requires forall i :: 0 <= i < |actions| ==> parse(blocks[i]).Ok?
    ensures Run(c, Serving(actions), parse)
         == c.(buffer := Frames(blocks[|actions|..]) + rest, sent := c.sent + Wires(actions),
               answered := c.answered + Served(blocks, actions, parse))
    decreases actions
  {
    if actions == [] {
      assert blocks[0..] == blocks && c.sent + [] == c.sent && c.answered + [] == c.answered;
    } else {
      var more, a := blocks[1..], actions[0];
      var tail := Frames(more) + rest;
      Regroup(blocks[0] + [NL, NL], Frames(more), rest);
      assert blocks[0] in blocks;
      TakesBlock(c, blocks[0], tail, a, parse);
      var next := Run(c, [Poll, Answer(a)], parse);
      RunThen(c, [Poll, Answer(a)], Serving(actions[1..]), parse);
      assert forall i :: 0 <= i < |actions| - 1 ==> parse(more[i]) == parse(blocks[i + 1]);
      assert IsFraming(next.buffer, more, rest);
      Serves(next, more, rest, actions[1..], parse);
      assert more[|actions| - 1..] == blocks[|actions|..];
      ServedFirst(c, blocks, actions, parse);
    }
  }

  lemma ServedFirst(c: Conn, blocks: seq<seq<Byte>>, actions: seq<Action>, parse: BlockParser)
    requires 0 < |actions| <= |blocks| && forall i :: 0 <= i < |actions| ==> parse(blocks[i]).Ok?
    requires forall i :: 0 <= i < |actions| - 1 ==> parse(blocks[1..][i]).Ok?
    ensures c.sent + Wire(actions[0]) + Wires(actions[1..]) == c.sent + Wires(actions)
    ensures c.answered + [(parse(blocks[0]).value, actions[0])] + Served(blocks[1..], actions[1..], parse)
         == c.answered + Served(blocks, actions, parse)
  {
    assert Encodings(actions)[0] == Wire(actions[0]) && Encodings(actions)[1..] == Encodings(actions[1..]);
    Regroup(c.sent, Wire(actions[0]), Wires(actions[1..]));
    assert [(parse(blocks[0]).value, actions[0])] + Served(blocks[1..], actions[1..], parse)
        == Served(blocks, actions, parse);
    Regroup(c.answered, [(parse(blocks[0]).value, actions[0])], Served(blocks[1..], actions[1..], parse));
  }

  /**
    A stream however cut into chunks, with answers for its first blocks, all well-formed: each gets its
    answer, in order. If a block is left and malformed, the connection is then closed with its error;
    if none is left and the client hangs up, it is closed as ended in the rest.
   */
  lemma ServesStream(chunks: seq<seq<Byte>>, blocks: seq<seq<Byte>>, rest: seq<Byte>, actions: seq<Action>,
                     parse: BlockParser)
    requires IsFraming(Flatten(chunks), blocks, rest) && |actions| <= |blocks|
    requires forall i :: 0 <= i < |actions| ==> parse(blocks[i]).Ok?
    ensures var k, stream := |actions|, Flatten(chunks);
            var answered := Served(blocks, actions, parse);
            var served := Run(START, Arriving(chunks) + Serving(actions), parse);
            && served == Conn(Waiting, false, stream, Frames(blocks[k..]) + rest, Wires(actions), answered)
            && (k < |blocks| && parse(blocks[k]).Err? ==>
                  Step(served, Poll, parse) ==
                  Conn(Closed(BadRequest(parse(blocks[k]).error)), false, stream,
                       Frames(blocks[k + 1..]) + rest, Wires(actions), answered))
            && (k == |blocks| ==>
                  Run(served, [HangUp, Poll], parse) ==
                  Conn(Closed(if rest == [] then PeerGone else CutOff), true, stream, rest, Wires(actions), answered))
  {
    var stream, k := Flatten(chunks), |actions|;
    Arrives(START, chunks, parse);
    assert [] + stream == stream && [] + Wires(actions) == Wires(actions);
    assert [] + Served(blocks, actions, parse) == Served(blocks, actions, parse);
    RunThen(START, Arriving(chunks), Serving(actions), parse);
    Serves(Run(START, Arriving(chunks), parse), blocks, rest, actions, parse);
    var served := Run(START, Arriving(chunks) + Serving(actions), parse);
    if k < |blocks| {
      NextBlock(served, blocks, k, rest, parse);
    } else {
      assert blocks[k..] == [] && Frames([]) + rest == rest;
      RunTwo(served, HangUp, Poll, parse);
    }
  }

  lemma NextBlock(c: Conn, blocks: seq<seq<Byte>>, k: nat, rest: seq<Byte>, parse: BlockParser)
    requires k < |blocks| && c.phase == Waiting && c.buffer == Frames(blocks[k..]) + rest
    requires forall b <- blocks :: NoBlank(b + [NL])
    ensures parse(blocks[k]).Err? ==>
              Step(c, Poll, parse)
              == c.(phase := Closed(BadRequest(parse(blocks[k]).error)), buffer := Frames(blocks[k + 1..]) + rest)
  {
    var more := blocks[k..];
    assert more[0] == blocks[k] && more[1..] == blocks[k + 1..] && blocks[k] in blocks;
    Regroup(blocks[k] + [NL, NL], Frames(blocks[k + 1..]), rest);
    TakesBlock(c, blocks[k], Frames(blocks[k + 1..]) + rest, Dunno, parse);
  }

  /** The other ways out of the loop: at its head on shutdown and on a failing read, and in a failing write. */
  lemma OtherExits(c: Conn, action: Action, count: nat, more: seq<Event>, parse: BlockParser)
    ensures c.phase == Waiting ==>
              && Run(c, [SeeShutdown] + more, parse) == c.(phase := Closed(ShutDown))
              && Run(c, [FailRead] + more, parse) == c.(phase := Closed(ReadFailed))
    ensures c.phase.Answering? ==>
              exists partial :: partial <= Wire(action) && |partial| <= count
                && Run(c, [FailWrite(action, count)] + more, parse)
                   == c.(phase := Closed(WriteFailed(c.phase.request, partial)), sent := c.sent + partial)
  {
    if c.phase == Waiting {
      RunFirst(c, SeeShutdown, more, parse);
      RunFirst(c, FailRead, more, parse);
      ClosedStays(Step(c, SeeShutdown, parse), more, parse);
      ClosedStays(Step(c, FailRead, parse), more, parse);
    } else if c.phase.Answering? {
      RunFirst(c, FailWrite(action, count), more, parse);
      ClosedStays(Step(c, FailWrite(action, count), parse), more, parse);
    }
  }
}
