/** The daemon's answers and how they are written. */
module Response {
  import opened Wrappers
  import opened Bytes
  import opened Text
  import opened Codec

  datatype Action =
    | Dunno
    | Prepend(header: string)
    | Reject(reason: string)
    | DeferIfPermit(reason: string)

  function Display(action: Action): string {
    match action
    case Dunno => "action=dunno"
    case Prepend(header) => "action=PREPEND " + header
    case Reject(reason) => "action=" + reason
    case DeferIfPermit(reason) => "action=defer_if_permit " + reason
  }

  /** What Postfix makes of a reply: a verb it knows, or a reply to give. */
  function ReadReply(text: string): Option<Action> {
    if "action=" <= text then Some(ReadVerb(text[7..])) else None
  }

  function ReadVerb(reply: string): Action {
    if reply == "dunno" then Dunno
    else if "PREPEND " <= reply then Action.Prepend(reply[8..])
    else if "defer_if_permit " <= reply then DeferIfPermit(reply[16..])
    else Action.Reject(reply)
  }

  /** A rejection whose text is a verb. */
  predicate Disguised(action: Action) {
    action.Reject?
    && (action.reason == "dunno" || "PREPEND " <= action.reason || "defer_if_permit " <= action.reason)
  }

  /** A reply is read as the answer it was written for, but for rejections worded like a verb. */
  lemma ReplyReadBack(action: Action)
    ensures ReadReply(Display(action)) == Some(action) <==> !Disguised(action)
  {
    match action
    case Dunno => Shown("dunno", "", "action=dunno");
    case Prepend(header) =>
      Shown("PREPEND ", header, "action=PREPEND ");
      PrependRead(header);
    case Reject(reason) =>
      Shown("", reason, "action=");
      assert "" + reason == reason;
    case DeferIfPermit(reason) =>
      Shown("defer_if_permit ", reason, "action=defer_if_permit ");
      DeferRead(reason);
  }

  lemma Shown(verb: string, text: string, shown: string)
    requires shown == "action=" + verb
    ensures "action=" <= shown + text && (shown + text)[7..] == verb + text
  {
  }

  lemma PrependRead(header: string)
    ensures ReadVerb("PREPEND " + header) == Action.Prepend(header)
  {
    var reply := "PREPEND " + header;
    assert reply[8..] == header && reply[0] != "dunno"[0];
  }

  lemma DeferRead(reason: string)
    ensures ReadVerb("defer_if_permit " + reason) == DeferIfPermit(reason)
  {
    var reply := "defer_if_permit " + reason;
    assert reply[16..] == reason && reply[1] != "dunno"[1] && reply[0] != "PREPEND "[0];
  }

  /** The bytes of an answer, with the blank line that ends it. */
  function Wire(action: Action): seq<Byte> {
    Utf8(Display(action) + "\n\n")
  }

  method Encode(item: Action, dst: BytesMut)
    modifies dst
    ensures dst.bytes == old(dst.bytes) + Wire(item)
  {
    var wire := Display(item) + "\n\n";
    dst.Extend(Utf8(wire));
  }

  function Encodings(actions: seq<Action>): (wires: seq<seq<Byte>>)
    ensures |wires| == |actions|
    ensures forall i :: 0 <= i < |actions| ==> wires[i] == Wire(actions[i])
  {
    seq(|actions|, i requires 0 <= i < |actions| => Wire(actions[i]))
  }

  /** The bytes of several answers, one after the other. */
  function Wires(actions: seq<Action>): seq<Byte> {
    Flatten(Encodings(actions))
  }

  lemma WiresAppend(actions: seq<Action>, last: Action)
    ensures Wires(actions + [last]) == Wires(actions) + Wire(last)
  {
    assert Encodings(actions + [last]) == Encodings(actions) + [Wire(last)];
    FlattenAppend(Encodings(actions), Wire(last));
  }

  lemma {:induction false} FlattenAppend<T>(parts: seq<seq<T>>, last: seq<T>)
    ensures Flatten(parts + [last]) == Flatten(parts) + last
  {
    if parts == [] {
      assert parts + [last] == [last];
      assert Flatten([last]) == last + Flatten([]);
    } else {
      FlattenAppend(parts[1..], last);
      assert (parts + [last])[1..] == parts[1..] + [last];
    }
  }

  function Blocks(actions: seq<Action>): (blocks: seq<seq<Byte>>)
    ensures |blocks| == |actions|
    ensures forall i :: 0 <= i < |actions| ==> blocks[i] == Utf8(Display(actions[i]))
  {
    seq(|actions|, i requires 0 <= i < |actions| => Utf8(Display(actions[i])))
  }

  /** No newline at the end or before another one: the text has no empty line. */
  ghost predicate Solid(s: string) {
    forall i :: BreakAt(s, i) ==> i + 1 < |s| && s[i + 1] != '\n'
  }

  ghost predicate BreakAt(s: string, i: int) {
    0 <= i < |s| && s[i] == '\n'
  }

  /** The bytes of a text are one block exactly when it has no empty line. */
  lemma {:induction false} SolidBlock(s: string)
    ensures NoBlank(Utf8(s) + [NL]) <==> Solid(s)
  {
    if s != [] {
      var x, y, rest := Utf8Char(s[0]), Utf8(s[1..]) + [NL], s[1..];
      assert Utf8(s) + [NL] == x + y;
      SolidBlock(rest);
      FirstByte(rest);
      CharNewline(s[0]);
      BlankBehind(x, y);
      SolidBehind(s);
    } else {
      forall i ensures !BlankAt(Utf8(s) + [NL], i) {
      }
    }
  }

  lemma SolidBehind(s: string)
    requires s != []
    ensures Solid(s) <==> Solid(s[1..]) && (s[0] == '\n' ==> |s| > 1 && s[1] != '\n')
  {
    var rest := s[1..];
    if Solid(s) {
      assert BreakAt(s, 0) <==> s[0] == '\n';
      forall i | BreakAt(rest, i) ensures i + 1 < |rest| && rest[i + 1] != '\n' {
        assert BreakAt(s, i + 1);
      }
    }
    if Solid(rest) && (s[0] == '\n' ==> |s| > 1 && s[1] != '\n') {
      forall i | BreakAt(s, i) ensures i + 1 < |s| && s[i + 1] != '\n' {
        assert i > 0 ==> BreakAt(rest, i - 1);
      }
    }
  }

  lemma CharNewline(c: char)
    ensures if c == '\n' then Utf8Char(c) == [NL] else NL !in Utf8Char(c)
  {
  }

  lemma FirstByte(s: string)
    ensures (Utf8(s) + [NL])[0] == NL <==> s == [] || s[0] == '\n'
  {
    if s != [] {
      CharNewline(s[0]);
      assert Utf8(s)[0] == Utf8Char(s[0])[0];
    }
  }

  lemma BlankBehind(x: seq<Byte>, y: seq<Byte>)
    requires y != [] && x != [] && (NL !in x || x == [NL])
    ensures NoBlank(x + y) <==> NoBlank(y) && (x == [NL] ==> y[0] != NL)
  {
    var s := x + y;
    assert forall i :: BlankAt(y, i) ==> BlankAt(s, i + |x|);
    assert forall i :: i >= |x| && BlankAt(s, i) ==> BlankAt(y, i - |x|);
    assert forall i :: 0 <= i < |x| && BlankAt(s, i) ==> x[i] == NL;
    assert x == [NL] ==> (BlankAt(s, 0) <==> y[0] == NL);
  }

  /** Answers are read back as exactly one block each if and only if none has an empty line. */
  lemma AnswersFraming(actions: seq<Action>)
    ensures IsFraming(Wires(actions), Blocks(actions), [])
       <==> forall a <- actions :: Solid(Display(a))
  {
    WiresAreFrames(actions);
    assert Frames(Blocks(actions)) + [] == Frames(Blocks(actions));
    forall i | 0 <= i < |actions| ensures NoBlank(Blocks(actions)[i] + [NL]) <==> Solid(Display(actions[i])) {
      SolidBlock(Display(actions[i]));
    }
    if forall b <- Blocks(actions) :: NoBlank(b + [NL]) {
      forall a <- actions ensures Solid(Display(a)) {
        var i :| 0 <= i < |actions| && actions[i] == a;
        assert Blocks(actions)[i] in Blocks(actions);
      }
    }
    if forall a <- actions :: Solid(Display(a)) {
      forall b <- Blocks(actions) ensures NoBlank(b + [NL]) {
        var i :| 0 <= i < |actions| && Blocks(actions)[i] == b;
        assert actions[i] in actions;
      }
    }
  }

  lemma OneLineSolid(s: string)
    requires OneLine(s)
    ensures Solid(s)
  {
  }

  /**
    What is read of answers of which the last, `last`, was written only up to `partial`: a block
    for it too if all of it was written, and else a block for each one before it and an incomplete rest.
   */
  lemma CutShortFraming(actions: seq<Action>, last: Action, partial: seq<Byte>)
    requires partial <= Wire(last)
    requires forall a <- actions + [last] :: Solid(Display(a))
    ensures if partial == Wire(last) then IsFraming(Wires(actions) + partial, Blocks(actions + [last]), [])
            else IsFraming(Wires(actions) + partial, Blocks(actions), partial)
  {
    if partial == Wire(last) {
      WiresAppend(actions, last);
      AnswersFraming(actions + [last]);
    } else {
      assert forall a <- actions :: a in actions + [last];
      AnswersFraming(actions);
      WiresAreFrames(actions);
      assert last in actions + [last];
      SolidBlock(Display(last));
      WireOf(last);
      forall i ensures !BlankAt(partial, i) {
        assert BlankAt(partial, i) ==> BlankAt(Utf8(Display(last)) + [NL], i);
      }
    }
  }

  lemma WireOf(action: Action)
    ensures Wire(action) == Utf8(Display(action)) + [NL, NL]
  {
    Utf8Append(Display(action), "\n\n");
    TwoNewlines();
  }

  /** An answer whose text holds a blank line and another answer is written as two. */
  lemma WrittenAsTwo(reason: string, other: Action)
    ensures Wire(Action.Reject(reason + "\n\n" + Display(other))) == Wire(Action.Reject(reason)) + Wire(other)
  {
    var a, b := Display(Action.Reject(reason)) + "\n\n", Display(other) + "\n\n";
    assert Display(Action.Reject(reason + "\n\n" + Display(other))) + "\n\n" == a + b;
    Utf8Append(a, b);
  }

  lemma WiresAreFrames(actions: seq<Action>)
    ensures Wires(actions) == Frames(Blocks(actions))
  {
    forall i | 0 <= i < |actions| ensures Encodings(actions)[i] == Blocks(actions)[i] + [NL, NL] {
      WireOf(actions[i]);
    }
    FlattenFrames(Encodings(actions), Blocks(actions));
  }

  lemma {:induction false} FlattenFrames(wires: seq<seq<Byte>>, blocks: seq<seq<Byte>>)
    requires |wires| == |blocks|
    requires forall i :: 0 <= i < |wires| ==> wires[i] == blocks[i] + [NL, NL]
    ensures Flatten(wires) == Frames(blocks)
  {
    if wires != [] {
      FlattenFrames(wires[1..], blocks[1..]);
    }
  }

  lemma TwoNewlines()
    ensures Utf8("\n\n") == [NL, NL]
  {
    assert Utf8Char('\n') == [NL];
    assert "\n\n"[1..] == "\n";
  }
}
