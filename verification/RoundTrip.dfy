/** Printing pipelined requests the way Postfix sends them, and reading them back. */
module RoundTrip {
  import opened Wrappers
  import opened Bytes
  import opened Text
  import opened Request
  import opened Codec

  type Attributes = seq<(string, string)>

  function Line(attribute: (string, string)): string {
    attribute.0 + ['='] + attribute.1
  }

  function LinesOf(attributes: Attributes): (lines: seq<string>)
    ensures |lines| == |attributes|
    ensures forall i :: 0 <= i < |lines| ==> lines[i] == Line(attributes[i])
  {
    seq(|attributes|, i requires 0 <= i < |attributes| => Line(attributes[i]))
  }

  /** One request on the wire: its lines, each ended by a newline, and an empty line. */
  function Print(attributes: Attributes): string {
    if attributes == [] then "\n" else Line(attributes[0]) + "\n" + Print(attributes[1..])
  }

  function PrintAll(requests: seq<Attributes>): string {
    if requests == [] then "" else Print(requests[0]) + PrintAll(requests[1..])
  }

  /** What Postfix may send: at least one attribute, no `=` in a key, no newline anywhere. */
  ghost predicate Printable(attributes: Attributes) {
    attributes != [] && forall a <- attributes :: '=' !in a.0 && OneLine(a.0) && OneLine(a.1)
  }

  /** The attributes, in some order and possibly with overwritten ones, say what `req` says. */
  ghost predicate Describes(attributes: Attributes, req: PolicyRequest) {
    && WellFormed(req)
    && forall k :: LastAssigned(LinesOf(attributes), k, Get(req, k))
  }

  /** `from_utf8_lossy` gives back well-encoded text. */
  ghost predicate ReadsUtf8(lossy: seq<Byte> -> string) {
    forall s: string :: lossy(Utf8(s)) == s
  }

  /** The block of a request: its lines with newlines between them. */
  function Block(attributes: Attributes): seq<Byte>
    requires attributes != []
  {
    Join(Encoded(attributes), NL)
  }

  function Encoded(attributes: Attributes): (parts: seq<seq<Byte>>)
    ensures |parts| == |attributes|
    ensures forall i :: 0 <= i < |parts| ==> parts[i] == Utf8(Line(attributes[i]))
  {
    seq(|attributes|, i requires 0 <= i < |attributes| => Utf8(Line(attributes[i])))
  }

  lemma {:induction false} PrintIsBlock(attributes: Attributes)
    requires attributes != []
    ensures Utf8(Print(attributes)) == Block(attributes) + [NL, NL]
  {
    var line, rest := Line(attributes[0]), attributes[1..];
    var parts := Encoded(attributes);
    assert Utf8("\n") == [NL] by { assert Utf8Char('\n') == [NL]; }
    Utf8Append(line, "\n");
    Utf8Append(line + "\n", Print(rest));
    assert Utf8(Print(attributes)) == Utf8(line) + [NL] + Utf8(Print(rest));
    if rest == [] {
      assert Utf8(line) + [NL] + [NL] == Utf8(line) + [NL, NL];
    } else {
      PrintIsBlock(rest);
      assert parts[1..] == Encoded(rest);
      assert Utf8(line) + [NL] + (Block(rest) + [NL, NL]) == Utf8(line) + [NL] + Block(rest) + [NL, NL];
    }
  }

  lemma EncodedLine(attribute: (string, string))
    requires OneLine(attribute.0) && OneLine(attribute.1)
    ensures NL !in Utf8(Line(attribute)) && |Utf8(Line(attribute))| > 0
  {
    var line := Line(attribute);
    assert '\n' !in line;
    Utf8Newline(line);
    assert line != [];
    assert Utf8(line) == Utf8Char(line[0]) + Utf8(line[1..]);
  }

  /** Lines that are not empty and have no newline make a block. */
  lemma {:induction false} JoinedNoBlank(parts: seq<seq<Byte>>)
    requires parts != []
    requires forall i :: 0 <= i < |parts| ==> |parts[i]| > 0 && NL !in parts[i]
    ensures |Join(parts, NL)| > 0 && Join(parts, NL)[0] != NL
    ensures NoBlank(Join(parts, NL) + [NL])
  {
    var s, p := Join(parts, NL), parts[0];
    assert forall i :: 0 <= i < |p| ==> p[i] != NL;
    assert s[0] == p[0];
    if |parts| == 1 {
      forall i ensures !BlankAt(s + [NL], i) {}
    } else {
      var t := Join(parts[1..], NL);
      JoinedNoBlank(parts[1..]);
      forall i ensures !BlankAt(s + [NL], i) {
        assert s + [NL] == p + [NL] + (t + [NL]);
        assert i > |p| && BlankAt(s + [NL], i) ==> BlankAt(t + [NL], i - |p| - 1);
      }
    }
  }

  /** The decoder's reading of one printed block. */
  lemma BlockReadsBack(attributes: Attributes, req: PolicyRequest, lossy: seq<Byte> -> string)
    requires Printable(attributes) && Describes(attributes, req) && ReadsUtf8(lossy)
    ensures NoBlank(Block(attributes) + [NL])
    ensures ParseBlock(Block(attributes), lossy) == Ok(req)
  {
    var parts := Encoded(attributes);
    forall i | 0 <= i < |parts| ensures |parts[i]| > 0 && NL !in parts[i] {
      assert attributes[i] in attributes;
      EncodedLine(attributes[i]);
    }
    JoinedNoBlank(parts);
    assert forall p <- parts :: NL !in p;
    SplitJoin(parts, NL);
    NonEmptyAll(parts);
    var lines := BlockLines(Block(attributes), lossy);
    assert lines == LinesOf(attributes);
    ParsedDescribed(attributes, req);
  }

  lemma ParsedDescribed(attributes: Attributes, req: PolicyRequest)
    requires Printable(attributes) && Describes(attributes, req)
    ensures ParseLines(LinesOf(attributes)) == Ok(req)
  {
    var lines := LinesOf(attributes);
    ParseMeaning(lines);
    forall l <- lines ensures '=' in l {
      var i :| 0 <= i < |lines| && lines[i] == l;
      assert l[|attributes[i].0|] == '=';
    }
    var r := ParseLines(lines).value;
    forall k ensures Get(r, k) == Get(req, k) {
      LastAssignedUnique(lines, k, Get(r, k), Get(req, k));
    }
    SameAttributes(r, req);
  }

  lemma {:induction false} DrainReadsBack(printed: seq<Attributes>, requests: seq<PolicyRequest>,
                                          lossy: seq<Byte> -> string)
    requires |printed| == |requests| && ReadsUtf8(lossy)
    requires forall i :: 0 <= i < |printed| ==> Printable(printed[i]) && Describes(printed[i], requests[i])
    ensures Drain(Utf8(PrintAll(printed)), Parser(lossy)) == Drained(requests, None, [])
  {
    var parse := Parser(lossy);
    if printed != [] {
      var block, tail := Block(printed[0]), Utf8(PrintAll(printed[1..]));
      calc {
        Drain(Utf8(PrintAll(printed)), parse);
        { PrintedFirst(printed); }
        Drain(block + [NL, NL] + tail, parse);
        { BlockReadsBack(printed[0], requests[0], lossy); DrainFirst(block, tail, parse); }
        Prepend([requests[0]], Drain(tail, parse));
        { DrainReadsBack(printed[1..], requests[1..], lossy); }
        Prepend([requests[0]], Drained(requests[1..], None, []));
        { assert requests == [requests[0]] + requests[1..]; }
        Drained(requests, None, []);
      }
    }
  }

  lemma PrintedFirst(printed: seq<Attributes>)
    requires printed != [] && printed[0] != []
    ensures Utf8(PrintAll(printed)) == Block(printed[0]) + [NL, NL] + Utf8(PrintAll(printed[1..]))
  {
    PrintIsBlock(printed[0]);
    Utf8Append(Print(printed[0]), PrintAll(printed[1..]));
  }

  /** Any requests, printed one after the other and cut anywhere, are read back with nothing left over. */
  lemma PipelinedRoundTrip(printed: seq<Attributes>, requests: seq<PolicyRequest>, chunks: seq<seq<Byte>>,
                           lossy: seq<Byte> -> string)
    requires |printed| == |requests| && ReadsUtf8(lossy)
    requires forall i :: 0 <= i < |printed| ==> Printable(printed[i]) && Describes(printed[i], requests[i])
    requires Flatten(chunks) == Utf8(PrintAll(printed))
    ensures FeedAll(Drained([], None, []), chunks, Parser(lossy)) == Drained(requests, None, [])
  {
    DrainReadsBack(printed, requests, lossy);
    ChunksFromStart(chunks, Parser(lossy));
  }

  // ---------- every request can be printed ----------

  /** A decoded request can be described: print the attributes it was read from. */
  lemma {:induction false} DescriptionExists(lines: seq<string>) returns (attributes: Attributes)
    requires ParseLines(lines).Ok?
    requires forall l <- lines :: OneLine(l)
    ensures Printable(attributes) && Describes(attributes, ParseLines(lines).value)
  {
    ParseMeaning(lines);
    attributes := AttributesOf(lines);
    assert LinesOf(attributes) == lines;
    assert attributes != [];
    forall a <- attributes ensures '=' !in a.0 && OneLine(a.0) && OneLine(a.1) {
      var i :| 0 <= i < |attributes| && attributes[i] == a;
      assert lines[i] in lines && lines[i] == Line(a);
      assert forall c <- a.0 + a.1 :: c in lines[i];
    }
  }

  function AttributesOf(lines: seq<string>): (attributes: Attributes)
    requires forall l <- lines :: '=' in l
    ensures |attributes| == |lines|
    ensures forall i :: 0 <= i < |lines| ==> lines[i] == Line(attributes[i]) && '=' !in attributes[i].0
  {
    seq(|lines|, i requires 0 <= i < |lines| => assert lines[i] in lines; SplitOnce(lines[i], '=').value)
  }

  // ---------- exactly which requests can be printed ----------

  /** The request says something, and what it says fits on lines. */
  ghost predicate Representable(req: PolicyRequest) {
    && WellFormed(req)
    && (forall k :: Get(req, k).Some? ==> '=' !in k && OneLine(k) && OneLine(Get(req, k).value))
    && exists k :: Get(req, k).Some?
  }

  /** The keys the request says something about. */
  ghost function KeysOf(req: PolicyRequest): set<string> {
    set k | k in (set a <- RESERVED :: NameOf(a)) + req.extra.Keys && Get(req, k).Some?
  }

  lemma KeysComplete(req: PolicyRequest, k: string)
    ensures k in KeysOf(req) <==> Get(req, k).Some?
  {
    var a := AttributeOf(k);
    if Get(req, k).Some? && !a.Extra? {
      AttributeOfName(a);
      AttributeOfInjective(k, NameOf(a));
      EveryReserved(a);
    }
    if Get(req, k).Some? && a.Extra? {
      AttributeOfInjective(k, a.key);
    }
  }

  /** These attributes are the entries of a map, each once. */
  ghost predicate Lists(attributes: Attributes, content: map<string, string>) {
    && (forall a <- attributes :: a.0 in content && content[a.0] == a.1)
    && (forall k <- content :: exists i :: 0 <= i < |attributes| && attributes[i].0 == k)
    && (forall i, j :: 0 <= i < j < |attributes| ==> attributes[i].0 != attributes[j].0)
  }

  lemma {:induction false} Listing(content: map<string, string>) returns (attributes: Attributes)
    ensures Lists(attributes, content)
    decreases |content|
  {
    if content == map[] {
      attributes := [];
    } else {
      var k :| k in content;
      var rest := Listing(content - {k});
      attributes := [(k, content[k])] + rest;
      ListsMore(rest, content, k);
    }
  }

  lemma ListsMore(rest: Attributes, content: map<string, string>, k: string)
    requires k in content && Lists(rest, content - {k})
    ensures Lists([(k, content[k])] + rest, content)
  {
    var attributes := [(k, content[k])] + rest;
    forall l <- content ensures exists i :: 0 <= i < |attributes| && attributes[i].0 == l {
      if l == k {
        assert attributes[0].0 == l;
      } else {
        assert l in content - {k};
        var i :| 0 <= i < |rest| && rest[i].0 == l;
        assert attributes[i + 1].0 == l;
      }
    }
    forall i, j | 0 <= i < j < |attributes| ensures attributes[i].0 != attributes[j].0 {
      assert attributes[j] == rest[j - 1] && rest[j - 1] in rest;
      if i > 0 { assert attributes[i] == rest[i - 1]; }
    }
  }

  function Find(content: map<string, string>, k: string): Option<string> {
    if k in content then Some(content[k]) else None
  }

  /** The lines of a listing assign each key what the map has for it. */
  lemma ListingAssigns(attributes: Attributes, content: map<string, string>, k: string)
    requires Lists(attributes, content) && forall l <- content :: '=' !in l
    ensures LastAssigned(LinesOf(attributes), k, Find(content, k))
  {
    var lines := LinesOf(attributes);
    forall j, w | 0 <= j < |lines| && Assigns(lines[j], k, w) ensures attributes[j].0 == k {
      assert attributes[j] in attributes;
      AssignedBy(attributes[j], k, w);
    }
    if k in content {
      var i :| 0 <= i < |attributes| && attributes[i].0 == k;
      assert attributes[i] in attributes && Assigns(lines[i], k, content[k]);
      forall j, w | i < j < |lines| ensures !Assigns(lines[j], k, w) {
      }
    } else {
      forall j, w | 0 <= j < |lines| ensures !Assigns(lines[j], k, w) {
        assert attributes[j] in attributes;
      }
    }
  }

  /** All that a request says, as a map. */
  ghost function Content(req: PolicyRequest): map<string, string> {
    map k | k in KeysOf(req) :: Get(req, k).value
  }

  lemma ContentFound(req: PolicyRequest, k: string)
    ensures Find(Content(req), k) == Get(req, k)
  {
    KeysComplete(req, k);
  }

  lemma ContentFits(req: PolicyRequest)
    requires Representable(req)
    ensures Content(req) != map[]
    ensures forall k <- Content(req) :: '=' !in k && OneLine(k) && OneLine(Content(req)[k])
  {
    var k :| Get(req, k).Some?;
    KeysComplete(req, k);
    assert k in Content(req);
  }

  lemma AssignedBy(attribute: (string, string), k: string, w: string)
    requires '=' !in attribute.0 && Assigns(Line(attribute), k, w)
    ensures attribute == (k, w)
  {
    FirstCutUnique(attribute.0, attribute.1, k, w, '=');
  }

  /** What a described request says fits on lines. */
  lemma DescribedRepresentable(attributes: Attributes, req: PolicyRequest)
    requires Printable(attributes) && Describes(attributes, req)
    ensures Representable(req)
  {
    var lines := LinesOf(attributes);
    forall k | Get(req, k).Some? ensures '=' !in k && OneLine(k) && OneLine(Get(req, k).value) {
      var v := Get(req, k).value;
      assert LastAssigned(lines, k, Some(v));
      var i :| 0 <= i < |lines| && Assigns(lines[i], k, v);
      assert attributes[i] in attributes;
      AssignedBy(attributes[i], k, v);
    }
    var a := attributes[0];
    assert a in attributes && Assigns(lines[0], a.0, a.1);
    assert LastAssigned(lines, a.0, Get(req, a.0));
    assert Get(req, a.0).Some?;
  }

  lemma ListingPrintable(attributes: Attributes, content: map<string, string>)
    requires Lists(attributes, content) && content != map[]
    requires forall k <- content :: '=' !in k && OneLine(k) && OneLine(content[k])
    ensures Printable(attributes)
  {
    var k :| k in content;
    assert exists i :: 0 <= i < |attributes| && attributes[i].0 == k;
  }

  /** Exactly the requests that say something, in text that fits on lines, can be printed so as to be read back. */
  lemma PrintableExactly(req: PolicyRequest)
    ensures (exists attributes :: Printable(attributes) && Describes(attributes, req)) <==> Representable(req)
  {
    if Representable(req) {
      var attributes := Listing(Content(req));
      ContentFits(req);
      ListingPrintable(attributes, Content(req));
      forall k ensures LastAssigned(LinesOf(attributes), k, Get(req, k)) {
        ListingAssigns(attributes, Content(req), k);
        ContentFound(req, k);
      }
      assert Describes(attributes, req);
    }
    forall attributes | Printable(attributes) && Describes(attributes, req) ensures Representable(req) {
      DescribedRepresentable(attributes, req);
    }
  }
}
