/** Framing of the byte stream: one request per block, blocks ended by a blank line. */
module Codec {
  import opened Wrappers
  import opened Bytes
  import opened Text
  import opened Request

  /** The read and write buffers, cut and grown in place. */
  class BytesMut {
    var bytes: seq<Byte>

    constructor ()
      ensures bytes == []
    {
      bytes := [];
    }

    method Extend(chunk: seq<Byte>)
      modifies this
      ensures bytes == old(bytes) + chunk
    {
      bytes := bytes + chunk;
    }

    method SplitTo(at: nat) returns (front: seq<Byte>)
      requires at <= |bytes|
      modifies this
      ensures front + bytes == old(bytes) && |front| == at
    {
      front, bytes := bytes[..at], bytes[at..];
    }

    method Advance(count: nat)
      requires count <= |bytes|
      modifies this
      ensures bytes == old(bytes)[count..]
    {
      bytes := bytes[count..];
    }
  }

  /** A `\n\n` starts at `i`. */
  ghost predicate BlankAt(s: seq<Byte>, i: int) {
    0 <= i < |s| - 1 && s[i] == NL && s[i + 1] == NL
  }

  /** No two newlines in a row. */
  ghost predicate NoBlank(s: seq<Byte>) {
    forall i :: !BlankAt(s, i)
  }

  /** The offset of the first `\n\n`. */
  function FindDoubleNewline(buf: seq<Byte>): (r: Option<nat>)
    ensures r.None? <==> NoBlank(buf)
    ensures r.Some? ==> BlankAt(buf, r.value) && forall i :: i < r.value ==> !BlankAt(buf, i)
  {
    if |buf| < 2 then None
    else if buf[0] == NL && buf[1] == NL then
      assert BlankAt(buf, 0);
      Some(0)
    else
      assert forall i :: i != 0 ==> (BlankAt(buf, i) <==> BlankAt(buf[1..], i - 1));
      match FindDoubleNewline(buf[1..])
      case None => None
      case Some(i) => assert BlankAt(buf, i + 1); Some(i + 1)
  }

  /** What is before the first `\n\n` is a block: none inside, and no newline at its end. */
  lemma CutsBlock(buf: seq<Byte>, at: nat)
    requires FindDoubleNewline(buf) == Some(at)
    ensures NoBlank(buf[..at] + [NL])
    ensures buf == buf[..at] + [NL, NL] + buf[at + 2..]
  {
    var b := buf[..at] + [NL];
    forall i ensures !BlankAt(b, i) {
      assert BlankAt(b, i) ==> BlankAt(buf, i);
    }
  }

  /** The first `\n\n` is where a block without one, followed by `\n\n`, ends. */
  lemma FindsTerminator(block: seq<Byte>, rest: seq<Byte>)
    requires NoBlank(block + [NL])
    ensures FindDoubleNewline(block + [NL, NL] + rest) == Some(|block|)
  {
    var s := block + [NL, NL] + rest;
    assert BlankAt(s, |block|);
    forall i | i < |block| ensures !BlankAt(s, i) {
      assert BlankAt(s, i) ==> BlankAt(block + [NL], i);
    }
  }

  // ---------- lines of a block ----------

  function NonEmpty<T>(parts: seq<seq<T>>): seq<seq<T>> {
    if parts == [] then []
    else (if parts[0] == [] then [] else [parts[0]]) + NonEmpty(parts[1..])
  }

  function Texts(parts: seq<seq<Byte>>, lossy: seq<Byte> -> string): (lines: seq<string>)
    ensures |lines| == |parts|
    ensures forall i :: 0 <= i < |parts| ==> lines[i] == lossy(parts[i])
  {
    seq(|parts|, i requires 0 <= i < |parts| => lossy(parts[i]))
  }

  /** The attribute lines of a block; `lossy` is `from_utf8_lossy`. */
  function BlockLines(block: seq<Byte>, lossy: seq<Byte> -> string): seq<string> {
    Texts(NonEmpty(Split(block, NL)), lossy)
  }

  function ParseBlock(block: seq<Byte>, lossy: seq<Byte> -> string): Parsed {
    ParseLines(BlockLines(block, lossy))
  }

  // ---------- the decoder ----------

  type Decoded = Result<Option<PolicyRequest>, RequestParseError>

  type BlockParser = seq<Byte> -> Parsed

  function Parser(lossy: seq<Byte> -> string): BlockParser {
    block => ParseBlock(block, lossy)
  }

  /** One call of `decode`: its result and the buffer it leaves. */
  function DecodeStep(buf: seq<Byte>, parse: BlockParser): (Decoded, seq<Byte>) {
    match FindDoubleNewline(buf)
    case None => (Ok(None), buf)
    case Some(at) =>
      var rest := buf[at + 2..];
      match parse(buf[..at])
      case Ok(req) => (Ok(Some(req)), rest)
      case Err(e) => (Err(e), rest)
  }

  method Decode(src: BytesMut, lossy: seq<Byte> -> string) returns (r: Decoded)
    modifies src
    ensures (r, src.bytes) == DecodeStep(old(src.bytes), Parser(lossy))
    ensures r == Ok(None) <==> NoBlank(old(src.bytes))
    ensures |src.bytes| <= |old(src.bytes)| && (r != Ok(None) ==> |src.bytes| < |old(src.bytes)|)
  {
    match FindDoubleNewline(src.bytes)
    case None =>
      return Ok(None);
    case Some(terminatorAt) =>
      var block := src.SplitTo(terminatorAt);
      src.Advance(2);
      assert block == old(src.bytes)[..terminatorAt];
      assert src.bytes == old(src.bytes)[terminatorAt + 2..];
      var lines := BlockLines(block, lossy);
      var parsed := FromLines(lines);
      match parsed
      case Ok(req) => r := Ok(Some(req));
      case Err(e) => r := Err(e);
  }

  /** Requests decoded, the error decoding stopped at, and the bytes not decoded. */
  datatype Drained = Drained(requests: seq<PolicyRequest>, error: Option<RequestParseError>, rest: seq<Byte>)

  function Prepend(requests: seq<PolicyRequest>, d: Drained): Drained {
    d.(requests := requests + d.requests)
  }

  /** Decoding until more bytes are needed or a block is malformed. */
  function Drain(buf: seq<Byte>, parse: BlockParser): Drained
    decreases |buf|
  {
    match FindDoubleNewline(buf)
    case None => Drained([], None, buf)
    case Some(at) =>
      var rest := buf[at + 2..];
      match parse(buf[..at])
      case Ok(req) => Prepend([req], Drain(rest, parse))
      case Err(e) => Drained([], Some(e), rest)
  }

  /** More bytes arrive: nothing is decoded any more once a block was malformed. */
  function Feed(d: Drained, chunk: seq<Byte>, parse: BlockParser): Drained {
    if d.error.Some? then d.(rest := d.rest + chunk)
    else Prepend(d.requests, Drain(d.rest + chunk, parse))
  }

  function FeedAll(d: Drained, chunks: seq<seq<Byte>>, parse: BlockParser): Drained
    decreases chunks
  {
    if chunks == [] then d else FeedAll(Feed(d, chunks[0], parse), chunks[1..], parse)
  }

  function Flatten<T>(chunks: seq<seq<T>>): seq<T> {
    if chunks == [] then [] else chunks[0] + Flatten(chunks[1..])
  }

  /** Decoding a buffer that holds a complete block. */
  lemma DrainCut(buf: seq<Byte>, at: nat, parse: BlockParser)
    requires FindDoubleNewline(buf) == Some(at)
    ensures Drain(buf, parse) == AfterFirst(parse(buf[..at]), buf[at + 2..], Drain(buf[at + 2..], parse))
  {
  }

  /** Decoding a stream that starts with a complete block. */
  lemma DrainFirst(block: seq<Byte>, tail: seq<Byte>, parse: BlockParser)
    requires NoBlank(block + [NL])
    ensures Drain(block + [NL, NL] + tail, parse) ==
            AfterFirst(parse(block), tail, Drain(tail, parse))
  {
    var stream := block + [NL, NL] + tail;
    FindsTerminator(block, tail);
    assert stream[..|block|] == block && stream[|block| + 2..] == tail;
    DrainCut(stream, |block|, parse);
  }

  lemma PrependNothing(d: Drained)
    ensures Prepend([], d) == d
  {
  }

  lemma FeedPrepend(requests: seq<PolicyRequest>, d: Drained, b: seq<Byte>, parse: BlockParser)
    ensures Feed(Prepend(requests, d), b, parse) == Prepend(requests, Feed(d, b, parse))
  {
    if d.error.None? {
      PrependPrepend(requests, d.requests, Drain(d.rest + b, parse));
    }
  }

  lemma PrependPrepend(a: seq<PolicyRequest>, b: seq<PolicyRequest>, d: Drained)
    ensures Prepend(a, Prepend(b, d)) == Prepend(a + b, d)
  {
    assert a + (b + d.requests) == (a + b) + d.requests;
  }

  /** What decoding a stream gives when its first block parses as `parsed`. */
  function AfterFirst(parsed: Parsed, tail: seq<Byte>, d: Drained): Drained {
    if parsed.Ok? then Prepend([parsed.value], d) else Drained([], Some(parsed.error), tail)
  }

  lemma FeedAfterFirst(parsed: Parsed, tail: seq<Byte>, d: Drained, b: seq<Byte>, parse: BlockParser)
    ensures Feed(AfterFirst(parsed, tail, d), b, parse) == AfterFirst(parsed, tail + b, Feed(d, b, parse))
  {
    if parsed.Ok? {
      FeedPrepend([parsed.value], d, b, parse);
    }
  }

  /** Decoding what has arrived and then the rest is decoding everything. */
  lemma {:induction false} DrainAppend(a: seq<Byte>, b: seq<Byte>, parse: BlockParser)
    ensures Drain(a + b, parse) == Feed(Drain(a, parse), b, parse)
    decreases |a|
  {
    match FindDoubleNewline(a)
    case None =>
      assert Drain(a, parse) == Drained([], None, a);
      PrependNothing(Drain(a + b, parse));
    case Some(at) =>
      var rest := a[at + 2..];
      calc {
        Drain(a + b, parse);
        { FirstOfLonger(a, at, b, parse); }
        AfterFirst(parse(a[..at]), rest + b, Drain(rest + b, parse));
        { DrainAppend(rest, b, parse); }
        AfterFirst(parse(a[..at]), rest + b, Feed(Drain(rest, parse), b, parse));
        { FeedAfterFirst(parse(a[..at]), rest, Drain(rest, parse), b, parse); }
        Feed(AfterFirst(parse(a[..at]), rest, Drain(rest, parse)), b, parse);
        { DrainCut(a, at, parse); }
        Feed(Drain(a, parse), b, parse);
      }
  }

  /** The first block is the same, whatever follows it. */
  lemma FirstOfLonger(a: seq<Byte>, at: nat, b: seq<Byte>, parse: BlockParser)
    requires FindDoubleNewline(a) == Some(at)
    ensures Drain(a + b, parse) == AfterFirst(parse(a[..at]), a[at + 2..] + b, Drain(a[at + 2..] + b, parse))
  {
    CutsLonger(a, at, b);
    DrainFirst(a[..at], a[at + 2..] + b, parse);
  }

  lemma CutsLonger(a: seq<Byte>, at: nat, b: seq<Byte>)
    requires FindDoubleNewline(a) == Some(at)
    ensures NoBlank(a[..at] + [NL])
    ensures a + b == a[..at] + [NL, NL] + (a[at + 2..] + b)
  {
    CutsBlock(a, at);
    var block, rest := a[..at], a[at + 2..];
    Regroup(block + [NL, NL], rest, b);
  }

  /** However the stream is cut into chunks, decoding as they arrive is decoding the whole stream. */
  lemma {:induction false} ChunkInvariance(stream: seq<Byte>, chunks: seq<seq<Byte>>, parse: BlockParser)
    ensures FeedAll(Drain(stream, parse), chunks, parse) == Drain(stream + Flatten(chunks), parse)
    decreases chunks
  {
    if chunks == [] {
      assert stream + Flatten(chunks) == stream;
    } else {
      var tail := Flatten(chunks[1..]);
      calc {
        FeedAll(Drain(stream, parse), chunks, parse);
        FeedAll(Feed(Drain(stream, parse), chunks[0], parse), chunks[1..], parse);
        { DrainAppend(stream, chunks[0], parse); }
        FeedAll(Drain(stream + chunks[0], parse), chunks[1..], parse);
        { ChunkInvariance(stream + chunks[0], chunks[1..], parse); }
        Drain(stream + chunks[0] + tail, parse);
        { assert stream + chunks[0] + tail == stream + (chunks[0] + tail); }
        Drain(stream + Flatten(chunks), parse);
      }
    }
  }

  lemma ChunksFromStart(chunks: seq<seq<Byte>>, parse: BlockParser)
    ensures FeedAll(Drained([], None, []), chunks, parse) == Drain(Flatten(chunks), parse)
  {
    NothingBefore(Flatten(chunks));
    ChunkInvariance([], chunks, parse);
  }

  lemma NothingBefore<T>(s: seq<T>)
    ensures [] + s == s
  {
  }

  /** After draining without an error no complete block is left. */
  lemma {:induction false} DrainedBuffer(buf: seq<Byte>, parse: BlockParser)
    ensures Drain(buf, parse).error.None? ==> NoBlank(Drain(buf, parse).rest)
    ensures |Drain(buf, parse).rest| <= |buf|
    decreases |buf|
  {
    match FindDoubleNewline(buf)
    case None =>
      assert Drain(buf, parse) == Drained([], None, buf);
    case Some(at) =>
      DrainCut(buf, at, parse);
      DrainedBuffer(buf[at + 2..], parse);
  }

  /** Decoding until the buffer gives nothing more. */
  method DrainBuffer(buf: BytesMut, lossy: seq<Byte> -> string)
    returns (requests: seq<PolicyRequest>, error: Option<RequestParseError>)
    modifies buf
    ensures Drained(requests, error, buf.bytes) == Drain(old(buf.bytes), Parser(lossy))
  {
    requests, error := [], None;
    ghost var all := Drain(buf.bytes, Parser(lossy));
    assert Prepend([], all) == all;
    while true
      invariant Prepend(requests, Drain(buf.bytes, Parser(lossy))) == all
      decreases |buf.bytes|
    {
      var decoded := Decode(buf, lossy);
      match decoded
      case Ok(None) =>
        assert requests + [] == requests;
        return;
      case Ok(Some(req)) =>
        PrependPrepend(requests, [req], Drain(buf.bytes, Parser(lossy)));
        requests := requests + [req];
      case Err(e) =>
        assert requests + [] == requests;
        return requests, Some(e);
    }
  }

  /** One chunk is decoded and more is still to come. */
  lemma ChunkStep(buf: seq<Byte>, chunk: seq<Byte>, tail: seq<Byte>, parse: BlockParser)
    ensures Drain(buf + (chunk + tail), parse) == Feed(Drain(buf + chunk, parse), tail, parse)
  {
    Regroup(buf, chunk, tail);
    DrainAppend(buf + chunk, tail, parse);
  }

  lemma FedAfter(out: seq<PolicyRequest>, d: Drained, tail: seq<Byte>, parse: BlockParser)
    ensures Prepend(out, Feed(d, tail, parse)) ==
            if d.error.Some? then Drained(out + d.requests, d.error, d.rest + tail)
            else Prepend(out + d.requests, Drain(d.rest + tail, parse))
  {
    PrependPrepend(out, d.requests, Drain(d.rest + tail, parse));
  }

  lemma FlattenFrom<T>(chunks: seq<seq<T>>, i: nat)
    requires i < |chunks|
    ensures Flatten(chunks[i..]) == chunks[i] + Flatten(chunks[i + 1..])
  {
  }

  lemma NothingYet(chunks: seq<seq<Byte>>, parse: BlockParser)
    ensures Prepend([], Drain([] + Flatten(chunks[0..]), parse)) == Drain(Flatten(chunks), parse)
  {
    assert chunks[0..] == chunks;
    NothingBefore(Flatten(chunks));
    PrependNothing(Drain(Flatten(chunks), parse));
  }

  lemma NothingMore(out: seq<PolicyRequest>, buf: seq<Byte>, parse: BlockParser)
    requires NoBlank(buf)
    ensures Prepend(out, Drain(buf + [], parse)) == Drained(out, None, buf)
  {
    assert buf + [] == buf && out + [] == out;
  }

  /** Feeding chunks to the decoder as they come, and decoding all there is after each. */
  method FeedAndDrain(chunks: seq<seq<Byte>>, lossy: seq<Byte> -> string) returns (r: Drained)
    ensures r == Drain(Flatten(chunks), Parser(lossy))
  {
    ghost var parse := Parser(lossy);
    ghost var all := Drain(Flatten(chunks), parse);
    var buf := new BytesMut();
    var out: seq<PolicyRequest> := [];
    var i := 0;
    NothingYet(chunks, parse);
    while i < |chunks|
      invariant 0 <= i <= |chunks|
      invariant NoBlank(buf.bytes)
      invariant all == Prepend(out, Drain(buf.bytes + Flatten(chunks[i..]), parse))
    {
      FlattenFrom(chunks, i);
      ghost var before := buf.bytes;
      buf.Extend(chunks[i]);
      DrainedBuffer(buf.bytes, parse);
      var requests, error := DrainBuffer(buf, lossy);
      ChunkStep(before, chunks[i], Flatten(chunks[i + 1..]), parse);
      FedAfter(out, Drained(requests, error, buf.bytes), Flatten(chunks[i + 1..]), parse);
      i := i + 1;
      if error.Some? {
        return Drained(out + requests, error, buf.bytes + Flatten(chunks[i..]));
      }
      out := out + requests;
    }
    NothingMore(out, buf.bytes, parse);
    r := Drained(out, None, buf.bytes);
  }

  // ---------- what a framing is, without the decoder ----------

  /** The bytes of blocks, each with its terminator. */
  function Frames(blocks: seq<seq<Byte>>): seq<Byte> {
    if blocks == [] then [] else blocks[0] + [NL, NL] + Frames(blocks[1..])
  }

  /** A stream is these complete blocks and an incomplete rest. */
  ghost predicate IsFraming(stream: seq<Byte>, blocks: seq<seq<Byte>>, rest: seq<Byte>) {
    && stream == Frames(blocks) + rest
    && (forall b <- blocks :: NoBlank(b + [NL]))
    && NoBlank(rest)
  }

  lemma {:induction false} FramingUnique(stream: seq<Byte>, blocks: seq<seq<Byte>>, rest: seq<Byte>,
                                         blocks': seq<seq<Byte>>, rest': seq<Byte>)
    requires IsFraming(stream, blocks, rest) && IsFraming(stream, blocks', rest')
    ensures blocks == blocks' && rest == rest'
    decreases blocks
  {
    if blocks == [] || blocks' == [] {
      EmptyFraming(stream, blocks, rest);
      EmptyFraming(stream, blocks', rest');
    } else {
      var tail, tail' := Frames(blocks[1..]) + rest, Frames(blocks'[1..]) + rest';
      Regroup(blocks[0] + [NL, NL], Frames(blocks[1..]), rest);
      Regroup(blocks'[0] + [NL, NL], Frames(blocks'[1..]), rest');
      FirstBlockUnique(blocks[0], tail, blocks'[0], tail');
      FramingUnique(tail, blocks[1..], rest, blocks'[1..], rest');
      assert blocks == [blocks[0]] + blocks[1..] && blocks' == [blocks'[0]] + blocks'[1..];
    }
  }

  /** Without complete blocks the stream has no blank line, and with one it has. */
  lemma EmptyFraming(stream: seq<Byte>, blocks: seq<seq<Byte>>, rest: seq<Byte>)
    requires IsFraming(stream, blocks, rest)
    ensures if blocks == [] then stream == rest && NoBlank(stream) else !NoBlank(stream)
  {
    if blocks != [] {
      Regroup(blocks[0] + [NL, NL], Frames(blocks[1..]), rest);
      FindsTerminator(blocks[0], Frames(blocks[1..]) + rest);
    }
  }

  lemma FirstBlockUnique(block: seq<Byte>, tail: seq<Byte>, block': seq<Byte>, tail': seq<Byte>)
    requires block + [NL, NL] + tail == block' + [NL, NL] + tail'
    requires NoBlank(block + [NL]) && NoBlank(block' + [NL])
    ensures block == block' && tail == tail'
  {
    var stream := block + [NL, NL] + tail;
    FindsTerminator(block, tail);
    FindsTerminator(block', tail');
    assert block == stream[..|block|] && block' == stream[..|block|];
    assert tail == stream[|block| + 2..] && tail' == stream[|block| + 2..];
  }

  lemma {:induction false} FramingExists(stream: seq<Byte>) returns (blocks: seq<seq<Byte>>, rest: seq<Byte>)
    ensures IsFraming(stream, blocks, rest)
    decreases |stream|
  {
    match FindDoubleNewline(stream)
    case None =>
      blocks, rest := [], stream;
      assert Frames(blocks) + rest == stream;
    case Some(at) =>
      var more, end := FramingExists(stream[at + 2..]);
      blocks, rest := [stream[..at]] + more, end;
      CutsBlock(stream, at);
      assert blocks[1..] == more;
  }

  /** The whole-stream parser: read the blocks one by one up to the first malformed one. */
  function ParseBlocks(blocks: seq<seq<Byte>>, rest: seq<Byte>, parse: BlockParser): Drained {
    if blocks == [] then Drained([], None, rest)
    else match parse(blocks[0])
      case Ok(req) => Prepend([req], ParseBlocks(blocks[1..], rest, parse))
      case Err(e) => Drained([], Some(e), Frames(blocks[1..]) + rest)
  }

  /** The decoder reads exactly the blocks of the stream's one framing. */
  lemma {:induction false} DrainReadsFraming(stream: seq<Byte>, blocks: seq<seq<Byte>>, rest: seq<Byte>,
                                             parse: BlockParser)
    requires IsFraming(stream, blocks, rest)
    ensures Drain(stream, parse) == ParseBlocks(blocks, rest, parse)
    decreases blocks
  {
    if blocks == [] {
      assert Frames(blocks) + rest == rest;
    } else {
      var tail := Frames(blocks[1..]) + rest;
      assert stream == blocks[0] + [NL, NL] + tail;
      DrainFirst(blocks[0], tail, parse);
      DrainReadsFraming(tail, blocks[1..], rest, parse);
    }
  }

  // ---------- the shape of a block ----------

  lemma {:induction false} NonEmptyAll<T>(parts: seq<seq<T>>)
    requires forall i :: 0 <= i < |parts| ==> |parts[i]| > 0
    ensures NonEmpty(parts) == parts
  {
    if parts != [] {
      NonEmptyAll(parts[1..]);
    }
  }

  lemma {:induction false} NonEmptyMembers<T>(parts: seq<seq<T>>)
    ensures forall p <- NonEmpty(parts) :: p in parts && p != []
  {
    if parts != [] {
      NonEmptyMembers(parts[1..]);
    }
  }

  lemma FirstLine(s: seq<Byte>)
    ensures Split(s, NL)[0] == [] <==> s == [] || s[0] == NL
  {
    match SplitOnce(s, NL)
    case None =>
    case Some(cut) =>
      assert cut.0 != [] ==> s[0] == cut.0[0];
  }

  /** A non-empty slice without a blank line inside or at its end has only its first line possibly empty. */
  lemma {:induction false} LinesAfterFirst(s: seq<Byte>)
    requires s != [] && NoBlank(s + [NL])
    ensures var parts := Split(s, NL); forall i :: 1 <= i < |parts| ==> |parts[i]| > 0
    decreases |s|
  {
    match SplitOnce(s, NL)
    case None =>
    case Some(cut) =>
      var n := |cut.0|;
      assert s + [NL] == cut.0 + [NL] + (cut.1 + [NL]);
      assert !BlankAt(s + [NL], n);
      forall i ensures !BlankAt(cut.1 + [NL], i) {
        assert BlankAt(cut.1 + [NL], i) ==> BlankAt(s + [NL], n + 1 + i);
      }
      LinesAfterFirst(cut.1);
      var parts := Split(cut.1, NL);
      FirstLine(cut.1);
      forall i | 1 <= i < |Split(s, NL)| ensures |Split(s, NL)[i]| > 0 {
        assert Split(s, NL)[i] == parts[i - 1];
      }
  }

  /**
    A cut block has no blank line and does not end in a newline; the empty-line filter drops at
    most one line, the first; and the block is an empty request exactly when it has no bytes.
   */
  lemma BlockShape(buf: seq<Byte>, lossy: seq<Byte> -> string)
    requires FindDoubleNewline(buf).Some?
    ensures var block := buf[..FindDoubleNewline(buf).value];
            var parts := Split(block, NL);
            && NoBlank(block)
            && (block != [] ==> block[|block| - 1] != NL)
            && NonEmpty(parts) == (if parts[0] == [] then parts[1..] else parts)
            && (ParseBlock(block, lossy) == Err(EmptyRequest) <==> block == [])
            && (block == [] <==> buf[0] == NL && buf[1] == NL)
  {
    var at := FindDoubleNewline(buf).value;
    var block := buf[..at];
    CutsBlock(buf, at);
    forall i ensures !BlankAt(block, i) {
      assert BlankAt(block, i) ==> BlankAt(buf, i);
    }
    if block == [] {
      FirstLine(block);
    } else {
      assert !BlankAt(block + [NL], at - 1);
      assert !BlankAt(buf, 0);
      OneLineDropped(block);
    }
    EmptyRequestBlock(block, lossy);
  }

  /** At most the first line of a block is dropped, and not all of them. */
  lemma OneLineDropped(block: seq<Byte>)
    requires block != [] && NoBlank(block + [NL])
    ensures var parts := Split(block, NL);
            NonEmpty(parts) == (if parts[0] == [] then parts[1..] else parts) && NonEmpty(parts) != []
  {
    var parts := Split(block, NL);
    var others := parts[1..];
    LinesAfterFirst(block);
    forall i | 0 <= i < |others| ensures |others[i]| > 0 {
      assert others[i] == parts[i + 1] && |Split(block, NL)[i + 1]| > 0;
    }
    NonEmptyAll(others);
    JoinSplit(block, NL);
  }

  /** A block gives no attribute line exactly when all its lines are empty. */
  lemma EmptyRequestBlock(block: seq<Byte>, lossy: seq<Byte> -> string)
    ensures ParseBlock(block, lossy) == Err(EmptyRequest) <==> NonEmpty(Split(block, NL)) == []
  {
    ParseMeaning(BlockLines(block, lossy));
  }

  /** `from_utf8_lossy` keeps text on one line. */
  ghost predicate KeepsLines(lossy: seq<Byte> -> string) {
    forall line: seq<Byte> :: NL !in line ==> OneLine(lossy(line))
  }

  /** No attribute has a newline. */
  ghost predicate OneLineRequest(req: PolicyRequest) {
    forall k: string :: Get(req, k).Some? ==> OneLine(Get(req, k).value)
  }

  lemma ParsedBlockOneLine(block: seq<Byte>, lossy: seq<Byte> -> string)
    requires KeepsLines(lossy) && ParseBlock(block, lossy).Ok?
    ensures OneLineRequest(ParseBlock(block, lossy).value)
  {
    var parts := NonEmpty(Split(block, NL));
    NonEmptyMembers(Split(block, NL));
    var lines := BlockLines(block, lossy);
    forall l <- lines ensures OneLine(l) {
      var i :| 0 <= i < |lines| && lines[i] == l;
      assert parts[i] in parts;
    }
    ParsedOneLine(lines);
  }

  /** Whatever arrives, no attribute of a decoded request has a newline. */
  lemma {:induction false} DrainedOneLine(buf: seq<Byte>, lossy: seq<Byte> -> string)
    requires KeepsLines(lossy)
    ensures forall req <- Drain(buf, Parser(lossy)).requests :: OneLineRequest(req)
    decreases |buf|
  {
    match FindDoubleNewline(buf)
    case None =>
    case Some(at) =>
      if ParseBlock(buf[..at], lossy).Ok? {
        var rest := Drain(buf[at + 2..], Parser(lossy)).requests;
        DrainedOneLine(buf[at + 2..], lossy);
        ParsedBlockOneLine(buf[..at], lossy);
        assert Drain(buf, Parser(lossy)).requests == [ParseBlock(buf[..at], lossy).value] + rest;
      }
  }
}
