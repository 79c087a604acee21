/** Postfix policy requests: parsing `attr=value` lines, last occurrence winning. */
module Request {
  import opened Wrappers
  import opened Text

  datatype RequestParseError =
    | MalformedLine(line: string)
    | EmptyRequest
    | MissingClientAddress
    | InvalidClientAddress(raw: string)

  datatype PolicyRequest = PolicyRequest(
    request: Option<string>,
    protocolState: Option<string>,
    protocolName: Option<string>,
    heloName: Option<string>,
    queueId: Option<string>,
    sender: Option<string>,
    recipient: Option<string>,
    clientAddress: Option<string>,
    clientName: Option<string>,
    reverseClientName: Option<string>,
    instance: Option<string>,
    saslUsername: Option<string>,
    extra: map<string, string>)

  const EMPTY: PolicyRequest :=
    PolicyRequest(None, None, None, None, None, None, None, None, None, None, None, None, map[])

  /** The attributes with a field of their own, and all others. */
  datatype Attribute =
    | Request | ProtocolState | ProtocolName | HeloName | QueueId | Sender | Recipient
    | ClientAddress | ClientName | ReverseClientName | Instance | SaslUsername
    | Extra(key: string)

  function AttributeOf(key: string): Attribute {
    if key == "request" then Request
    else if key == "protocol_state" then ProtocolState
    else if key == "protocol_name" then ProtocolName
    else if key == "helo_name" then HeloName
    else if key == "queue_id" then QueueId
    else if key == "sender" then Sender
    else if key == "recipient" then Recipient
    else if key == "client_address" then ClientAddress
    else if key == "client_name" then ClientName
    else if key == "reverse_client_name" then ReverseClientName
    else if key == "instance" then Instance
    else if key == "sasl_username" then SaslUsername
    else Extra(key)
  }

  function NameOf(attribute: Attribute): string {
    match attribute
    case Request => "request"
    case ProtocolState => "protocol_state"
    case ProtocolName => "protocol_name"
    case HeloName => "helo_name"
    case QueueId => "queue_id"
    case Sender => "sender"
    case Recipient => "recipient"
    case ClientAddress => "client_address"
    case ClientName => "client_name"
    case ReverseClientName => "reverse_client_name"
    case Instance => "instance"
    case SaslUsername => "sasl_username"
    case Extra(key) => key
  }

  const RESERVED: seq<Attribute> :=
    [Request, ProtocolState, ProtocolName, HeloName, QueueId, Sender, Recipient,
     ClientAddress, ClientName, ReverseClientName, Instance, SaslUsername]

  lemma EveryReserved(attribute: Attribute)
    requires !attribute.Extra?
    ensures attribute in RESERVED
  {
    match attribute
    case Request => assert RESERVED[0] == attribute;
    case ProtocolState => assert RESERVED[1] == attribute;
    case ProtocolName => assert RESERVED[2] == attribute;
    case HeloName => assert RESERVED[3] == attribute;
    case QueueId => assert RESERVED[4] == attribute;
    case Sender => assert RESERVED[5] == attribute;
    case Recipient => assert RESERVED[6] == attribute;
    case ClientAddress => assert RESERVED[7] == attribute;
    case ClientName => assert RESERVED[8] == attribute;
    case ReverseClientName => assert RESERVED[9] == attribute;
    case Instance => assert RESERVED[10] == attribute;
    case SaslUsername => assert RESERVED[11] == attribute;
  }

  lemma AttributeOfName(attribute: Attribute)
    requires !attribute.Extra?
    ensures AttributeOf(NameOf(attribute)) == attribute
  {
  }

  /** The body of the parsing loop: store one attribute. */
  function Set(req: PolicyRequest, key: string, value: string): PolicyRequest {
    match AttributeOf(key)
    case Request => req.(request := Some(value))
    case ProtocolState => req.(protocolState := Some(value))
    case ProtocolName => req.(protocolName := Some(value))
    case HeloName => req.(heloName := Some(value))
    case QueueId => req.(queueId := Some(value))
    case Sender => req.(sender := Some(value))
    case Recipient => req.(recipient := Some(value))
    case ClientAddress => req.(clientAddress := Some(value))
    case ClientName => req.(clientName := Some(value))
    case ReverseClientName => req.(reverseClientName := Some(value))
    case Instance => req.(instance := Some(value))
    case SaslUsername => req.(saslUsername := Some(value))
    case Extra(name) => req.(extra := req.extra[name := value])
  }

  /** What a request says about an attribute, wherever that is stored. */
  function Read(req: PolicyRequest, attribute: Attribute): Option<string> {
    match attribute
    case Request => req.request
    case ProtocolState => req.protocolState
    case ProtocolName => req.protocolName
    case HeloName => req.heloName
    case QueueId => req.queueId
    case Sender => req.sender
    case Recipient => req.recipient
    case ClientAddress => req.clientAddress
    case ClientName => req.clientName
    case ReverseClientName => req.reverseClientName
    case Instance => req.instance
    case SaslUsername => req.saslUsername
    case Extra(name) => if name in req.extra then Some(req.extra[name]) else None
  }

  function Get(req: PolicyRequest, key: string): Option<string> {
    Read(req, AttributeOf(key))
  }

  /** Which field holds which attribute. */
  lemma FieldsByName(req: PolicyRequest)
    ensures Get(req, "request") == req.request
    ensures Get(req, "protocol_state") == req.protocolState
    ensures Get(req, "protocol_name") == req.protocolName
    ensures Get(req, "helo_name") == req.heloName
    ensures Get(req, "queue_id") == req.queueId
    ensures Get(req, "sender") == req.sender
    ensures Get(req, "recipient") == req.recipient
    ensures Get(req, "client_address") == req.clientAddress
    ensures Get(req, "client_name") == req.clientName
    ensures Get(req, "reverse_client_name") == req.reverseClientName
    ensures Get(req, "instance") == req.instance
    ensures Get(req, "sasl_username") == req.saslUsername
  {
  }

  /** Reserved attributes never end up among the extra ones. */
  ghost predicate WellFormed(req: PolicyRequest) {
    forall k <- req.extra :: AttributeOf(k) == Extra(k)
  }

  /** Different keys are different attributes. */
  lemma AttributeOfInjective(key: string, other: string)
    requires AttributeOf(key) == AttributeOf(other)
    ensures key == other
  {
  }

  lemma GetSet(req: PolicyRequest, key: string, value: string, other: string)
    ensures Get(Set(req, key, value), other) == if other == key then Some(value) else Get(req, other)
    ensures WellFormed(req) ==> WellFormed(Set(req, key, value))
  {
    if AttributeOf(key) == AttributeOf(other) {
      AttributeOfInjective(key, other);
    }
  }

  /** A well-formed request is determined by what it says about every attribute. */
  lemma SameAttributes(a: PolicyRequest, b: PolicyRequest)
    requires WellFormed(a) && WellFormed(b)
    requires forall k :: Get(a, k) == Get(b, k)
    ensures a == b
  {
    forall t: Attribute | !t.Extra? ensures Read(a, t) == Read(b, t) {
      AttributeOfName(t);
      assert Get(a, NameOf(t)) == Get(b, NameOf(t));
    }
    assert Read(a, Request) == Read(b, Request) && Read(a, ProtocolState) == Read(b, ProtocolState);
    assert Read(a, ProtocolName) == Read(b, ProtocolName) && Read(a, HeloName) == Read(b, HeloName);
    assert Read(a, QueueId) == Read(b, QueueId) && Read(a, Sender) == Read(b, Sender);
    assert Read(a, Recipient) == Read(b, Recipient) && Read(a, ClientAddress) == Read(b, ClientAddress);
    assert Read(a, ClientName) == Read(b, ClientName);
    assert Read(a, ReverseClientName) == Read(b, ReverseClientName);
    assert Read(a, Instance) == Read(b, Instance) && Read(a, SaslUsername) == Read(b, SaslUsername);
    forall k ensures k in a.extra <==> k in b.extra
             ensures k in a.extra ==> a.extra[k] == b.extra[k]
    {
      assert Get(a, k) == Get(b, k);
    }
    assert a.extra == b.extra;
  }

  type Parsed = Result<PolicyRequest, RequestParseError>

  function ParseOnto(req: PolicyRequest, lines: seq<string>): Parsed
    decreases lines
  {
    if lines == [] then Ok(req)
    else match SplitOnce(lines[0], '=')
      case None => Err(MalformedLine(lines[0]))
      case Some(cut) => ParseOnto(Set(req, cut.0, cut.1), lines[1..])
  }

  function ParseLines(lines: seq<string>): Parsed {
    if lines == [] then Err(EmptyRequest) else ParseOnto(EMPTY, lines)
  }

  method FromLines(lines: seq<string>) returns (r: Parsed)
    ensures r == ParseLines(lines)
  {
    if lines == [] {
      return Err(EmptyRequest);
    }
    var req := EMPTY;
    var i := 0;
    while i < |lines|
      invariant 0 <= i <= |lines|
      invariant ParseOnto(req, lines[i..]) == ParseLines(lines)
    {
      assert lines[i..][0] == lines[i] && lines[i..][1..] == lines[i + 1..];
      match SplitOnce(lines[i], '=')
      case None => return Err(MalformedLine(lines[i]));
      case Some(cut) => req := Set(req, cut.0, cut.1);
      i := i + 1;
    }
    r := Ok(req);
  }

  /** Line `line` assigns `value` to `key`. */
  predicate Assigns(line: string, key: string, value: string) {
    line == key + ['='] + value && '=' !in key
  }

  /** `value` is what the last of `lines` with this key assigns, `None` when no line has it. */
  ghost predicate LastAssigned(lines: seq<string>, key: string, value: Option<string>) {
    match value
    case Some(v) =>
      exists i :: 0 <= i < |lines| && Assigns(lines[i], key, v)
               && forall j, w :: i < j < |lines| ==> !Assigns(lines[j], key, w)
    case None => forall j, w :: 0 <= j < |lines| ==> !Assigns(lines[j], key, w)
  }

  lemma {:induction false} ParseOntoMeaning(req: PolicyRequest, lines: seq<string>)
    requires WellFormed(req)
    ensures match ParseOnto(req, lines)
            case Ok(r) =>
              && WellFormed(r)
              && (forall l <- lines :: '=' in l)
              && (forall k :: if LastAssigned(lines, k, None) then Get(r, k) == Get(req, k)
                              else LastAssigned(lines, k, Get(r, k)))
            case Err(e) =>
              exists i :: 0 <= i < |lines| && '=' !in lines[i] && e == MalformedLine(lines[i])
                       && forall j :: 0 <= j < i ==> '=' in lines[j]
    decreases lines
  {
    if lines != [] {
      var rest := lines[1..];
      match SplitOnce(lines[0], '=')
      case None =>
      case Some(cut) =>
        var next := Set(req, cut.0, cut.1);
        GetSet(req, cut.0, cut.1, cut.0);
        ParseOntoMeaning(next, rest);
        match ParseOnto(next, rest)
        case Ok(r) =>
          assert forall l <- lines :: l == lines[0] || l in rest;
          forall k ensures if LastAssigned(lines, k, None) then Get(r, k) == Get(req, k)
                           else LastAssigned(lines, k, Get(r, k))
          {
            StepLast(req, cut, lines, k, r);
          }
        case Err(e) =>
          var i :| 0 <= i < |rest| && '=' !in rest[i] && e == MalformedLine(rest[i])
                   && forall j :: 0 <= j < i ==> '=' in rest[j];
          assert lines[i + 1] == rest[i];
          forall j | 0 <= j < i + 1 ensures '=' in lines[j] {
            if j > 0 { assert lines[j] == rest[j - 1]; }
          }
    }
  }

  lemma StepLast(req: PolicyRequest, cut: (string, string), lines: seq<string>, k: string, r: PolicyRequest)
    requires lines != [] && Assigns(lines[0], cut.0, cut.1)
    requires if LastAssigned(lines[1..], k, None) then Get(r, k) == Get(Set(req, cut.0, cut.1), k)
             else LastAssigned(lines[1..], k, Get(r, k))
    ensures if LastAssigned(lines, k, None) then Get(r, k) == Get(req, k)
            else LastAssigned(lines, k, Get(r, k))
  {
    var rest := lines[1..];
    assert forall j :: 0 <= j < |rest| ==> rest[j] == lines[j + 1];
    GetSet(req, cut.0, cut.1, k);
    forall key, v | Assigns(lines[0], key, v) ensures key == cut.0 && v == cut.1 {
      FirstCutUnique(key, v, cut.0, cut.1, '=');
    }
    if LastAssigned(rest, k, None) {
      if k == cut.0 {
        forall j, w | 0 < j < |lines| ensures !Assigns(lines[j], k, w) {
          assert lines[j] == rest[j - 1];
        }
        assert LastAssigned(lines, k, Some(cut.1));
      } else {
        forall j, w | 0 <= j < |lines| ensures !Assigns(lines[j], k, w) {
          if j > 0 { assert lines[j] == rest[j - 1]; }
        }
      }
    } else {
      var v := Get(r, k).value;
      var i :| 0 <= i < |rest| && Assigns(rest[i], k, v)
               && forall j, w :: i < j < |rest| ==> !Assigns(rest[j], k, w);
      assert Assigns(lines[i + 1], k, v);
      forall j, w | i + 1 < j < |lines| ensures !Assigns(lines[j], k, w) {
        assert lines[j] == rest[j - 1];
      }
    }
  }

  /**
    What parsing means: an empty block is `EmptyRequest`, otherwise the first line without `=`
    is the error, otherwise every attribute has the value of the last line with its key.
   */
  lemma ParseMeaning(lines: seq<string>)
    ensures ParseLines(lines) == Err(EmptyRequest) <==> lines == []
    ensures match ParseLines(lines)
            case Ok(r) =>
              && WellFormed(r)
              && (forall l <- lines :: '=' in l)
              && (forall k :: LastAssigned(lines, k, Get(r, k)))
            case Err(EmptyRequest) => true
            case Err(e) =>
              exists i :: 0 <= i < |lines| && '=' !in lines[i] && e == MalformedLine(lines[i])
                       && forall j :: 0 <= j < i ==> '=' in lines[j]
  {
    if lines != [] {
      ParseOntoMeaning(EMPTY, lines);
    }
  }

  /** The last assigned value is unique. */
  lemma LastAssignedUnique(lines: seq<string>, key: string, v: Option<string>, w: Option<string>)
    requires LastAssigned(lines, key, v) && LastAssigned(lines, key, w)
    ensures v == w
  {
    if v.Some? && w.Some? {
      var i :| 0 <= i < |lines| && Assigns(lines[i], key, v.value)
               && forall j, x :: i < j < |lines| ==> !Assigns(lines[j], key, x);
      var i' :| 0 <= i' < |lines| && Assigns(lines[i'], key, w.value)
                && forall j, x :: i' < j < |lines| ==> !Assigns(lines[j], key, x);
      assert i == i';
      FirstCutUnique(key, v.value, key, w.value, '=');
    }
  }

  /** A line without newlines gives an attribute without newlines. */
  lemma ParsedOneLine(lines: seq<string>)
    requires ParseLines(lines).Ok?
    requires forall l <- lines :: OneLine(l)
    ensures forall k :: Get(ParseLines(lines).value, k).Some? ==> OneLine(Get(ParseLines(lines).value, k).value)
  {
    ParseMeaning(lines);
    var r := ParseLines(lines).value;
    forall k | Get(r, k).Some? ensures OneLine(Get(r, k).value) {
      var v := Get(r, k).value;
      assert LastAssigned(lines, k, Some(v));
      var i :| 0 <= i < |lines| && Assigns(lines[i], k, v);
      assert lines[i] in lines;
    }
  }
}
