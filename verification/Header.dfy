/** The `Received-SPF` header (section 9.1 of RFC 7208). */
module Header {
  import opened Wrappers
  import opened Text
  import opened Configuration

  function IdentityText(identity: Identity): string {
    match identity
    case HeloIdentity => "helo"
    case MailFromIdentity => "mailfrom"
  }

  function RecipientDomain(recipient: string, authservId: Option<string>): string {
    match authservId
    case Some(id) => id
    case None =>
      match RSplitOnce(recipient, '@')
      case Some(cut) => cut.1
      case None => "UNKNOWN"
  }

  function Receiver(recipient: string, cfg: HeaderConfig): string {
    if cfg.hideReceiver then "UNKNOWN" else RecipientDomain(recipient, cfg.authservId)
  }

  function MatchText(result: string, mechanism: string, mailFrom: string, ip: string): string {
    "domain of " + mailFrom + " designates " + ip + " as " + result + ", matched \"" + mechanism + "\""
  }

  function DescribeCause(outcome: SpfOutcome, mailFrom: string, ip: string): string {
    match outcome.cause
    case Some(Match(mechanism)) =>
      MatchText(ResultText(outcome.result), mechanism, mailFrom, ip)
    case Some(Error(text)) => text
    case None => "domain of " + mailFrom + " does not designate a policy for " + ip
  }

  /** What the header says about the check, apart from result and comment. */
  datatype Fields = Fields(clientIp: string, envelopeFrom: string, helo: string, receiver: string, identity: Identity)

  function Head(result: string, comment: string): string {
    result + " (" + comment + ") client-ip"
  }

  function UpToClientIp(head: string, f: Fields): string {
    head + ['='] + f.clientIp
  }

  function UpToEnvelopeFrom(head: string, f: Fields): string {
    (UpToClientIp(head, f) + "; envelope-from=") + ['"'] + f.envelopeFrom
  }

  function UpToHelo(head: string, f: Fields): string {
    (UpToEnvelopeFrom(head, f) + ['"']) + [';'] + (" helo=" + f.helo)
  }

  function UpToReceiver(head: string, f: Fields): string {
    (UpToHelo(head, f) + "; receiver=") + ['"'] + f.receiver
  }

  function Format(head: string, f: Fields): string {
    UpToReceiver(head, f) + ['"'] + ("; identity=" + IdentityText(f.identity) + ";")
  }

  /** `build_received_spf`; `ip` is the client address as text. */
  function BuildReceivedSpf(outcome: SpfOutcome, ip: string, mailFrom: string, helo: string, recipient: string,
                            cfg: HeaderConfig): string {
    Format(Head(ResultText(outcome.result), DescribeCause(outcome, mailFrom, ip)),
           Fields(ip, mailFrom, helo, Receiver(recipient, cfg), outcome.identity))
  }

  /** Texts that can be told apart from the header's own punctuation. */
  ghost predicate Readable(f: Fields) {
    '=' !in f.clientIp && '"' !in f.envelopeFrom && ';' !in f.helo && '"' !in f.receiver
  }

  // ---------- reading a header back ----------

  /** All that a header says. */
  datatype Report = Report(result: string, comment: string, fields: Fields)

  /** The value after the last `c`, and what stands before the `name` in front of that. */
  function ReadField(s: string, name: string, c: char): (r: Option<(string, string)>)
    ensures r.Some? ==> c !in r.value.1
  {
    match RSplitOnce(s, c)
    case None => None
    case Some(cut) =>
      if EndsWith(cut.0, name) then Some((cut.0[..|cut.0| - |name|], cut.1)) else None
  }

  lemma FieldRead(front: string, name: string, c: char, value: string)
    requires c !in value
    ensures ReadField((front + name) + [c] + value, name, c) == Some((front, value))
  {
    var s := (front + name) + [c] + value;
    assert s[|front + name|] == c;
    var cut := RSplitOnce(s, c).value;
    LastCutUnique(cut.0, cut.1, front + name, value, c);
    assert (front + name)[|front|..] == name && (front + name)[..|front|] == front;
  }

  function ReadIdentity(tail: string): Option<Identity> {
    if tail == "; identity=helo;" then Some(HeloIdentity)
    else if tail == "; identity=mailfrom;" then Some(MailFromIdentity)
    else None
  }

  /** The end of a header: what stands before it, the receiver and the identity. */
  function ReadEnd(text: string): (r: Option<(string, string, Identity)>)
    ensures r.Some? ==> '"' !in r.value.1
  {
    var tail :- ReadField(text, "", '"');
    var receiver :- ReadField(tail.0, "; receiver=", '"');
    var identity :- ReadIdentity(tail.1);
    Some((receiver.0, receiver.1, identity))
  }

  /** The middle: what stands before it, the envelope sender and the helo name. */
  function ReadMiddle(text: string): (r: Option<(string, string, string)>)
    ensures r.Some? ==> '"' !in r.value.1 && ';' !in r.value.2
  {
    var helo :- ReadField(text, "\"", ';');
    var envelopeFrom :- ReadField(helo.0, "; envelope-from=", '"');
    if " helo=" <= helo.1 then Some((envelopeFrom.0, envelopeFrom.1, helo.1[6..])) else None
  }

  /** The front: result word, comment and client address. */
  function ReadFront(text: string): (r: Option<(string, string, string)>)
    ensures r.Some? ==> ' ' !in r.value.0 && '=' !in r.value.2
  {
    var clientIp :- ReadField(text, ") client-ip", '=');
    var result :- SplitOnce(clientIp.0, ' ');
    if "(" <= result.1 then Some((result.0, result.1[1..], clientIp.1)) else None
  }

  /** Reads a header from its end, value by value; the values found have no punctuation that ends them. */
  function ReadHeader(text: string): (r: Option<Report>)
    ensures r.Some? ==> Readable(r.value.fields) && ' ' !in r.value.result
  {
    var end :- ReadEnd(text);
    var middle :- ReadMiddle(end.0);
    var front :- ReadFront(middle.0);
    Some(Report(front.0, front.1, Fields(front.2, middle.1, middle.2, end.1, end.2)))
  }

  lemma IdentityRead(i: Identity)
    ensures '"' !in "; identity=" + IdentityText(i) + ";"
    ensures ReadIdentity("; identity=" + IdentityText(i) + ";") == Some(i)
  {
  }

  /**
    This reader gets back what a header was made of exactly when its values are readable, whatever
    the comment quotes.
   */
  lemma ReadBack(result: string, comment: string, f: Fields)
    ensures ReadHeader(Format(Head(result, comment), f)) == Some(Report(result, comment, f))
       <==> Readable(f) && ' ' !in result
  {
    if Readable(f) && ' ' !in result {
      ReadableReadBack(result, comment, f);
    }
  }

  lemma ReadableReadBack(result: string, comment: string, f: Fields)
    requires Readable(f) && ' ' !in result
    ensures ReadHeader(Format(Head(result, comment), f)) == Some(Report(result, comment, f))
  {
    var head := Head(result, comment);
    EndRead(head, f);
    MiddleRead(head, f);
    FieldRead(result + " (" + comment, ") client-ip", '=', f.clientIp);
    HeadRead(result, comment);
  }

  lemma EndRead(head: string, f: Fields)
    requires '"' !in f.receiver
    ensures ReadEnd(Format(head, f)) == Some((UpToHelo(head, f), f.receiver, f.identity))
  {
    IdentityRead(f.identity);
    FieldRead(UpToReceiver(head, f), "", '"', "; identity=" + IdentityText(f.identity) + ";");
    assert UpToReceiver(head, f) + "" == UpToReceiver(head, f);
    FieldRead(UpToHelo(head, f), "; receiver=", '"', f.receiver);
  }

  lemma MiddleRead(head: string, f: Fields)
    requires '"' !in f.envelopeFrom && ';' !in f.helo
    ensures ReadMiddle(UpToHelo(head, f)) == Some((UpToClientIp(head, f), f.envelopeFrom, f.helo))
  {
    FieldRead(UpToEnvelopeFrom(head, f), "\"", ';', " helo=" + f.helo);
    FieldRead(UpToClientIp(head, f), "; envelope-from=", '"', f.envelopeFrom);
    assert (" helo=" + f.helo)[6..] == f.helo;
  }

  lemma ResultOneWord(result: SpfResult)
    ensures ' ' !in ResultText(result) && '"' !in ResultText(result) && OneLine(ResultText(result))
  {
  }

  lemma HeadRead(result: string, comment: string)
    requires ' ' !in result
    ensures Head(result, comment) == (result + " (" + comment) + ") client-ip"
    ensures SplitOnce(result + " (" + comment, ' ') == Some((result, "(" + comment))
  {
    var s := result + " (" + comment;
    assert s == result + [' '] + ("(" + comment);
    var cut := SplitOnce(s, ' ').value;
    FirstCutUnique(cut.0, cut.1, result, "(" + comment, ' ');
  }

  /** Of the headers built for a check, this reader gets back exactly those with readable values. */
  lemma BuiltReadBack(outcome: SpfOutcome, ip: string, mailFrom: string, helo: string, recipient: string,
                      cfg: HeaderConfig)
    ensures ReadHeader(BuildReceivedSpf(outcome, ip, mailFrom, helo, recipient, cfg))
            == Some(Report(ResultText(outcome.result), DescribeCause(outcome, mailFrom, ip),
                           Fields(ip, mailFrom, helo, Receiver(recipient, cfg), outcome.identity)))
       <==> Readable(Fields(ip, mailFrom, helo, Receiver(recipient, cfg), outcome.identity))
  {
    ResultOneWord(outcome.result);
    ReadBack(ResultText(outcome.result), DescribeCause(outcome, mailFrom, ip),
             Fields(ip, mailFrom, helo, Receiver(recipient, cfg), outcome.identity));
  }

  /** For one request, equal headers are those that agree in result word, identity and comment. */
  lemma SameHeader(outcome: SpfOutcome, outcome': SpfOutcome, ip: string, mailFrom: string, helo: string,
                   recipient: string, cfg: HeaderConfig)
    ensures BuildReceivedSpf(outcome, ip, mailFrom, helo, recipient, cfg)
            == BuildReceivedSpf(outcome', ip, mailFrom, helo, recipient, cfg)
       <==> && ResultText(outcome.result) == ResultText(outcome'.result)
            && outcome.identity == outcome'.identity
            && DescribeCause(outcome, mailFrom, ip) == DescribeCause(outcome', mailFrom, ip)
  {
    var f := Fields(ip, mailFrom, helo, Receiver(recipient, cfg), outcome.identity);
    ResultOneWord(outcome.result);
    ResultOneWord(outcome'.result);
    if BuildReceivedSpf(outcome, ip, mailFrom, helo, recipient, cfg)
        == BuildReceivedSpf(outcome', ip, mailFrom, helo, recipient, cfg) {
      SameFormat(ResultText(outcome.result), DescribeCause(outcome, mailFrom, ip),
                 ResultText(outcome'.result), DescribeCause(outcome', mailFrom, ip), f, outcome'.identity);
    }
  }

  lemma SameFormat(result: string, comment: string, result': string, comment': string, f: Fields, identity: Identity)
    requires ' ' !in result && ' ' !in result'
    requires Format(Head(result, comment), f) == Format(Head(result', comment'), f.(identity := identity))
    ensures result == result' && comment == comment' && f.identity == identity
  {
    var head, head' := Head(result, comment), Head(result', comment');
    var end, end' := "; identity=" + IdentityText(f.identity) + ";", "; identity=" + IdentityText(identity) + ";";
    IdentityRead(f.identity);
    IdentityRead(identity);
    LastCutUnique(UpToReceiver(head, f), end, UpToReceiver(head', f.(identity := identity)), end', '"');
    Shifted(head, "", f);
    Shifted(head', "", f.(identity := identity));
    assert head + "" == head && head' + "" == head';
    SuffixCancels(head, head', UpToReceiver("", f));
    HeadRead(result, comment);
    HeadRead(result', comment');
    SuffixCancels(result + " (" + comment, result' + " (" + comment', ") client-ip");
    assert comment == ("(" + comment)[1..] && comment' == ("(" + comment')[1..];
  }

  lemma SuffixCancels(a: string, b: string, suffix: string)
    requires a + suffix == b + suffix
    ensures a == b
  {
    assert a == (a + suffix)[..|a|] && b == (b + suffix)[..|b|];
  }

  // ---------- what equal headers have in common ----------

  /**
    A cause text that cannot be taken for more of the header: an error text without a quote, a
    mechanism without a quote or without a space.
   */
  ghost predicate PlainCause(outcome: SpfOutcome) {
    match outcome.cause
    case None => true
    case Some(Error(text)) => '"' !in text
    case Some(Match(mechanism)) => '"' !in mechanism || ' ' !in mechanism
  }

  /** Quote-free address, sender and receiver; where the comment has no quotes either, an address without `=`. */
  ghost predicate PlainTexts(outcome: SpfOutcome, f: Fields) {
    && PlainCause(outcome)
    && '"' !in f.clientIp && '"' !in f.envelopeFrom && '"' !in f.receiver
    && (Matched(outcome) || '=' !in f.clientIp)
  }

  predicate Matched(outcome: SpfOutcome) {
    outcome.cause.Some? && outcome.cause.value.Match?
  }

  /** The header behind the envelope sender. */
  function AfterSender(f: Fields): string {
    "; helo=" + f.helo + "; receiver=" + ['"'] + f.receiver + ['"'] + ("; identity=" + IdentityText(f.identity) + ";")
  }

  lemma FormatAtSender(head: string, f: Fields)
    ensures Format(head, f)
        == (UpToClientIp(head, f) + "; envelope-from=") + ['"'] + (f.envelopeFrom + ['"'] + AfterSender(f))
  {
    var front, r := UpToClientIp(head, f) + "; envelope-from=", ['"'] + f.receiver + ['"'];
    var end := "; identity=" + IdentityText(f.identity) + ";";
    assert "; helo=" == [';'] + " helo=";
    assert Format(head, f) ==
      front + ['"'] + f.envelopeFrom + ['"'] + [';'] + (" helo=" + f.helo)
      + "; receiver=" + ['"'] + f.receiver + ['"'] + end;
  }

  /** What follows the envelope sender is told apart from its end, whatever the helo name holds. */
  lemma AfterSenderTells(f: Fields, f': Fields)
    requires '"' !in f.receiver && '"' !in f'.receiver && AfterSender(f) == AfterSender(f')
    ensures f.helo == f'.helo && f.receiver == f'.receiver && f.identity == f'.identity
  {
    var h, h' := "; helo=" + f.helo + "; receiver=", "; helo=" + f'.helo + "; receiver=";
    IdentityRead(f.identity);
    IdentityRead(f'.identity);
    LastCutUnique(h + ['"'] + f.receiver, "; identity=" + IdentityText(f.identity) + ";",
                  h' + ['"'] + f'.receiver, "; identity=" + IdentityText(f'.identity) + ";", '"');
    LastCutUnique(h, f.receiver, h', f'.receiver, '"');
    SuffixCancels("; helo=" + f.helo, "; helo=" + f'.helo, "; receiver=");
    assert f.helo == ("; helo=" + f.helo)[7..] && f'.helo == ("; helo=" + f'.helo)[7..];
  }

  /** From the first quote of the envelope sender on, equal texts say the same. */
  lemma SenderTells(f: Fields, f': Fields)
    requires '"' !in f.receiver && '"' !in f'.receiver && '"' !in f.envelopeFrom && '"' !in f'.envelopeFrom
    requires f.envelopeFrom + ['"'] + AfterSender(f) == f'.envelopeFrom + ['"'] + AfterSender(f')
    ensures f.envelopeFrom == f'.envelopeFrom
    ensures f.helo == f'.helo && f.receiver == f'.receiver && f.identity == f'.identity
  {
    FirstCutUnique(f.envelopeFrom, AfterSender(f), f'.envelopeFrom, AfterSender(f'), '"');
    AfterSenderTells(f, f');
  }

  /** Two headers whose comments have no quotes. */
  lemma UnquotedTells(result: string, comment: string, f: Fields, result': string, comment': string, f': Fields)
    requires ' ' !in result && ' ' !in result' && '"' !in result && '"' !in result'
    requires '"' !in comment && '"' !in comment'
    requires '"' !in f.receiver && '"' !in f'.receiver && '"' !in f.envelopeFrom && '"' !in f'.envelopeFrom
    requires '"' !in f.clientIp && '"' !in f'.clientIp && '=' !in f.clientIp && '=' !in f'.clientIp
    requires Format(Head(result, comment), f) == Format(Head(result', comment'), f')
    ensures result == result' && comment == comment' && f == f'
  {
    var head, head' := Head(result, comment), Head(result', comment');
    FormatAtSender(head, f);
    FormatAtSender(head', f');
    HeadUnquoted(result, comment);
    HeadUnquoted(result', comment');
    var front, front' := UpToClientIp(head, f), UpToClientIp(head', f');
    FirstCutUnique(front + "; envelope-from=", f.envelopeFrom + ['"'] + AfterSender(f),
                   front' + "; envelope-from=", f'.envelopeFrom + ['"'] + AfterSender(f'), '"');
    SenderTells(f, f');
    SuffixCancels(front, front', "; envelope-from=");
    LastCutUnique(head, f.clientIp, head', f'.clientIp, '=');
    HeadTells(result, comment, result', comment');
  }

  lemma HeadUnquoted(result: string, comment: string)
    requires '"' !in result && '"' !in comment
    ensures '"' !in Head(result, comment)
  {
  }

  lemma HeadTells(result: string, comment: string, result': string, comment': string)
    requires ' ' !in result && ' ' !in result' && Head(result, comment) == Head(result', comment')
    ensures result == result' && comment == comment'
  {
    HeadRead(result, comment);
    HeadRead(result', comment');
    SuffixCancels(result + " (" + comment, result' + " (" + comment', ") client-ip");
    assert comment == ("(" + comment)[1..] && comment' == ("(" + comment')[1..];
  }

  /** The header up to the quoted mechanism of its comment. */
  function Opening(result: string, f: Fields): string {
    result + [' '] + ("(domain of " + f.envelopeFrom + " designates " + f.clientIp + " as " + result + ", matched ")
  }

  /** The header behind the space after that comment. */
  function AfterComment(f: Fields): string {
    ("client-ip=" + f.clientIp + "; envelope-from=") + ['"'] + (f.envelopeFrom + ['"'] + AfterSender(f))
  }

  lemma FormatAtMechanism(result: string, mechanism: string, f: Fields)
    ensures Format(Head(result, MatchText(result, mechanism, f.envelopeFrom, f.clientIp)), f)
         == Opening(result, f) + ['"'] + (mechanism + "\") " + AfterComment(f))
  {
    var comment := MatchText(result, mechanism, f.envelopeFrom, f.clientIp);
    var opening, rest := Opening(result, f), f.envelopeFrom + ['"'] + AfterSender(f);
    FormatAtSender(Head(result, comment), f);
    HeadAtMechanism(result, mechanism, f);
    AtComment(opening + ['"'] + mechanism, f.clientIp, rest);
    assert opening + ['"'] + mechanism + "\") " + AfterComment(f)
        == opening + ['"'] + (mechanism + "\") " + AfterComment(f));
  }

  lemma HeadAtMechanism(result: string, mechanism: string, f: Fields)
    ensures Head(result, MatchText(result, mechanism, f.envelopeFrom, f.clientIp))
         == (Opening(result, f) + ['"'] + mechanism) + "\") client-ip"
  {
    var told := "domain of " + f.envelopeFrom + " designates " + f.clientIp + " as " + result;
    assert ", matched \"" == ", matched " + ['"'] && "\") client-ip" == "\"" + ") client-ip";
    assert " (" == [' '] + "(" && "(domain of " == "(" + "domain of ";
    assert MatchText(result, mechanism, f.envelopeFrom, f.clientIp) == told + ", matched " + ['"'] + mechanism + "\"";
    assert Opening(result, f) == result + " (" + told + ", matched ";
  }

  lemma AtComment(a: string, ip: string, rest: string)
    ensures ((a + "\") client-ip") + ['='] + ip + "; envelope-from=") + ['"'] + rest
         == a + "\") " + (("client-ip=" + ip + "; envelope-from=") + ['"'] + rest)
  {
    assert "\") client-ip" + ['='] == "\") " + "client-ip=";
  }

  /** A mechanism without a quote or without a space ends at the first `") ` it can end at. */
  lemma MechanismCut(m: string, rest: string, m': string, rest': string)
    requires '"' !in m || ' ' !in m
    requires '"' !in m' || ' ' !in m'
    requires m + "\") " + rest == m' + "\") " + rest'
    ensures m == m' && rest == rest'
  {
    if |m| == |m'| {
      var s := m + "\") " + rest;
      assert m == s[..|m|] == m' && rest == s[|m| + 3..] == rest';
    } else if |m| < |m'| {
      LongerMechanism(m, rest, m', rest');
    } else {
      LongerMechanism(m', rest', m, rest);
    }
  }

  lemma LongerMechanism(m: string, rest: string, m': string, rest': string)
    requires |m| < |m'| && ('"' !in m' || ' ' !in m')
    ensures m + "\") " + rest != m' + "\") " + rest'
  {
    var n := |m|;
    var s, s' := m + "\") " + rest, m' + "\") " + rest';
    assert s[n] == '"' && s[n + 1] == ')' && s[n + 2] == ' ';
    assert s'[n] == m'[n] && s'[|m'|] == '"';
    assert |m'| > n + 2 ==> s'[n + 2] == m'[n + 2];
  }

  lemma MatchedTells(result: string, mechanism: string, f: Fields, result': string, mechanism': string, f': Fields)
    requires ' ' !in result && ' ' !in result' && '"' !in result && '"' !in result'
    requires '"' !in mechanism || ' ' !in mechanism
    requires '"' !in mechanism' || ' ' !in mechanism'
    requires '"' !in f.receiver && '"' !in f'.receiver && '"' !in f.envelopeFrom && '"' !in f'.envelopeFrom
    requires '"' !in f.clientIp && '"' !in f'.clientIp
    requires Format(Head(result, MatchText(result, mechanism, f.envelopeFrom, f.clientIp)), f)
          == Format(Head(result', MatchText(result', mechanism', f'.envelopeFrom, f'.clientIp)), f')
    ensures result == result' && mechanism == mechanism' && f == f'
  {
    FormatAtMechanism(result, mechanism, f);
    FormatAtMechanism(result', mechanism', f');
    OpeningUnquoted(result, f);
    OpeningUnquoted(result', f');
    FirstCutUnique(Opening(result, f), mechanism + "\") " + AfterComment(f),
                   Opening(result', f'), mechanism' + "\") " + AfterComment(f'), '"');
    MechanismCut(mechanism, AfterComment(f), mechanism', AfterComment(f'));
    AfterCommentTells(f, f');
    var open := "(domain of " + f.envelopeFrom + " designates " + f.clientIp + " as " + result + ", matched ";
    var open' := "(domain of " + f'.envelopeFrom + " designates " + f'.clientIp + " as " + result' + ", matched ";
    FirstCutUnique(result, open, result', open', ' ');
  }

  lemma OpeningUnquoted(result: string, f: Fields)
    requires '"' !in result && '"' !in f.envelopeFrom && '"' !in f.clientIp
    ensures '"' !in Opening(result, f) && EndsWith(Opening(result, f), " ")
  {
  }

  lemma AfterCommentTells(f: Fields, f': Fields)
    requires '"' !in f.receiver && '"' !in f'.receiver && '"' !in f.envelopeFrom && '"' !in f'.envelopeFrom
    requires '"' !in f.clientIp && '"' !in f'.clientIp && AfterComment(f) == AfterComment(f')
    ensures f == f'
  {
    var ip, ip' := "client-ip=" + f.clientIp, "client-ip=" + f'.clientIp;
    assert '"' !in "client-ip=" && '"' !in "; envelope-from=";
    FirstCutUnique(ip + "; envelope-from=", f.envelopeFrom + ['"'] + AfterSender(f),
                   ip' + "; envelope-from=", f'.envelopeFrom + ['"'] + AfterSender(f'), '"');
    SenderTells(f, f');
    SuffixCancels(ip, ip', "; envelope-from=");
    assert f.clientIp == ip[10..] && f'.clientIp == ip'[10..];
  }

  /** A quoted mechanism shows before the first quote. */
  lemma MatchedOrNot(result: string, mechanism: string, f: Fields, result': string, comment': string, f': Fields)
    requires '"' !in result && '"' !in f.envelopeFrom && '"' !in f.clientIp
    requires '"' !in result' && '"' !in comment' && '"' !in f'.clientIp
    ensures Format(Head(result, MatchText(result, mechanism, f.envelopeFrom, f.clientIp)), f)
         != Format(Head(result', comment'), f')
  {
    var front := UpToClientIp(Head(result', comment'), f') + "; envelope-from=";
    FormatAtMechanism(result, mechanism, f);
    FormatAtSender(Head(result', comment'), f');
    OpeningUnquoted(result, f);
    HeadUnquoted(result', comment');
    assert '"' !in "; envelope-from=" && front[|front| - 1] == '=';
    if Opening(result, f) + ['"'] + (mechanism + "\") " + AfterComment(f))
       == front + ['"'] + (f'.envelopeFrom + ['"'] + AfterSender(f')) {
      FirstCutUnique(Opening(result, f), mechanism + "\") " + AfterComment(f),
                     front, f'.envelopeFrom + ['"'] + AfterSender(f'), '"');
      assert false;
    }
  }

  function FieldsOf(outcome: SpfOutcome, ip: string, mailFrom: string, helo: string, recipient: string,
                    cfg: HeaderConfig)
    : Fields
  {
    Fields(ip, mailFrom, helo, Receiver(recipient, cfg), outcome.identity)
  }

  lemma UnmatchedUnquoted(outcome: SpfOutcome, f: Fields)
    requires PlainTexts(outcome, f) && !Matched(outcome)
    ensures '"' !in DescribeCause(outcome, f.envelopeFrom, f.clientIp)
  {
  }

  /**
    The header determines all that it was built from: result word, comment, address, envelope sender,
    helo, receiver and identity, whatever characters the helo name has.
   */
  lemma EqualHeaders(outcome: SpfOutcome, ip: string, mailFrom: string, helo: string, recipient: string,
                     cfg: HeaderConfig,
                     outcome': SpfOutcome, ip': string, mailFrom': string, helo': string, recipient': string,
                     cfg': HeaderConfig)
    requires PlainTexts(outcome, FieldsOf(outcome, ip, mailFrom, helo, recipient, cfg))
    requires PlainTexts(outcome', FieldsOf(outcome', ip', mailFrom', helo', recipient', cfg'))
    ensures BuildReceivedSpf(outcome, ip, mailFrom, helo, recipient, cfg)
            == BuildReceivedSpf(outcome', ip', mailFrom', helo', recipient', cfg')
       <==> && ResultText(outcome.result) == ResultText(outcome'.result)
            && DescribeCause(outcome, mailFrom, ip) == DescribeCause(outcome', mailFrom', ip')
            && FieldsOf(outcome, ip, mailFrom, helo, recipient, cfg)
               == FieldsOf(outcome', ip', mailFrom', helo', recipient', cfg')
  {
    var f := FieldsOf(outcome, ip, mailFrom, helo, recipient, cfg);
    var f' := FieldsOf(outcome', ip', mailFrom', helo', recipient', cfg');
    if BuildReceivedSpf(outcome, ip, mailFrom, helo, recipient, cfg)
       == BuildReceivedSpf(outcome', ip', mailFrom', helo', recipient', cfg') {
      TextTells(outcome, f, outcome', f');
    }
  }

  lemma TextTells(outcome: SpfOutcome, f: Fields, outcome': SpfOutcome, f': Fields)
    requires PlainTexts(outcome, f) && PlainTexts(outcome', f')
    requires Format(Head(ResultText(outcome.result), DescribeCause(outcome, f.envelopeFrom, f.clientIp)), f)
          == Format(Head(ResultText(outcome'.result), DescribeCause(outcome', f'.envelopeFrom, f'.clientIp)), f')
    ensures ResultText(outcome.result) == ResultText(outcome'.result) && f == f'
    ensures DescribeCause(outcome, f.envelopeFrom, f.clientIp) == DescribeCause(outcome', f'.envelopeFrom, f'.clientIp)
  {
    var word, word' := ResultText(outcome.result), ResultText(outcome'.result);
    ResultOneWord(outcome.result);
    ResultOneWord(outcome'.result);
    if Matched(outcome) && Matched(outcome') {
      MatchedTells(word, outcome.cause.value.mechanism, f, word', outcome'.cause.value.mechanism, f');
    } else if Matched(outcome) {
      UnmatchedUnquoted(outcome', f');
      MatchedOrNot(word, outcome.cause.value.mechanism, f,
                   word', DescribeCause(outcome', f'.envelopeFrom, f'.clientIp), f');
    } else if Matched(outcome') {
      UnmatchedUnquoted(outcome, f);
      MatchedOrNot(word', outcome'.cause.value.mechanism, f',
                   word, DescribeCause(outcome, f.envelopeFrom, f.clientIp), f);
    } else {
      UnmatchedUnquoted(outcome, f);
      UnmatchedUnquoted(outcome', f');
      UnquotedTells(word, DescribeCause(outcome, f.envelopeFrom, f.clientIp), f,
                    word', DescribeCause(outcome', f'.envelopeFrom, f'.clientIp), f');
    }
  }

  /** The comment of a check without a cause: whose domain, and which address. */
  function ReadNoPolicy(comment: string): Option<(string, string)> {
    var cut :- RSplitOnce(comment, ' ');
    var (front, told) := (cut.0, " does not designate a policy for");
    if "domain of " <= front && EndsWith(front[10..], told)
    then Some((front[10..][..|front| - 10 - |told|], cut.1)) else None
  }

  /** Without a cause the comment tells the sender and the address, in these places. */
  lemma NoPolicyRead(outcome: SpfOutcome, mailFrom: string, ip: string)
    requires outcome.cause.None? && ' ' !in ip
    ensures ReadNoPolicy(DescribeCause(outcome, mailFrom, ip)) == Some((mailFrom, ip))
  {
    var told := " does not designate a policy for";
    NoPolicyText(mailFrom, told, ip);
    var front := "domain of " + (mailFrom + told);
    assert DescribeCause(outcome, mailFrom, ip) == front + [' '] + ip;
    var cut := RSplitOnce(front + [' '] + ip, ' ').value;
    LastCutUnique(cut.0, cut.1, front, ip, ' ');
    assert front[10..] == mailFrom + told;
    assert (mailFrom + told)[|mailFrom|..] == told && (mailFrom + told)[..|mailFrom|] == mailFrom;
  }

  lemma NoPolicyText(mailFrom: string, told: string, ip: string)
    ensures "domain of " + mailFrom + (told + " ") + ip == "domain of " + (mailFrom + told) + [' '] + ip
  {
  }

  /**
    The receiver is `UNKNOWN` where it is hidden; else the configured name; else the recipient's
    domain, if it has one.
   */
  lemma ReceiverExactly(recipient: string, cfg: HeaderConfig, r: string)
    ensures Receiver(recipient, cfg) == r <==>
            if cfg.hideReceiver then r == "UNKNOWN"
            else if cfg.authservId.Some? then cfg.authservId.value == r
            else if '@' !in recipient then r == "UNKNOWN"
            else '@' !in r && EndsWith(recipient, ['@'] + r)
  {
    if !cfg.hideReceiver && cfg.authservId.None? && '@' in recipient {
      var cut := RSplitOnce(recipient, '@').value;
      assert recipient == cut.0 + (['@'] + cut.1);
      assert EndsWith(recipient, ['@'] + cut.1);
      if '@' !in r && EndsWith(recipient, ['@'] + r) {
        var local := recipient[..|recipient| - |r| - 1];
        assert recipient == local + (['@'] + r) == local + ['@'] + r;
        LastCutUnique(cut.0, cut.1, local, r, '@');
      }
    }
  }

  // ---------- a header with two readings ----------

  /** A text that goes on, behind `x`, as a header does behind its comment. */
  function Continued(x: string, ip: string, envelopeFrom: string, helo: string): string {
    UpToHelo(x + ") client-ip", Fields(ip, envelopeFrom, helo, "", HeloIdentity))
  }

  /** The same text with everything up to the second `helo=` inside the comment, or up to the first one outside it. */
  lemma TwoReadings(result: string, comment: string, x: string, f: Fields, f': Fields)
    requires f.receiver == f'.receiver && f.identity == f'.identity
    requires f.helo == Continued(x, f'.clientIp, f'.envelopeFrom, f'.helo)
    ensures Format(Head(result, comment), f)
         == Format(Head(result, Continued(comment, f.clientIp, f.envelopeFrom, x)), f')
  {
    var front := UpToHelo(Head(result, comment), f.(helo := ""));
    calc {
      UpToHelo(Head(result, comment), f);
      { HeloLast(Head(result, comment), f); }
      front + UpToHelo(x + ") client-ip", f');
      { Shifted(front, x + ") client-ip", f'); }
      UpToHelo(front + (x + ") client-ip"), f');
      { LongerComment(result, comment, x, f); }
      UpToHelo(Head(result, Continued(comment, f.clientIp, f.envelopeFrom, x)), f');
    }
  }

  lemma LongerComment(result: string, comment: string, x: string, f: Fields)
    ensures Head(result, Continued(comment, f.clientIp, f.envelopeFrom, x))
         == UpToHelo(Head(result, comment), f.(helo := "")) + (x + ") client-ip")
  {
    var open, inner := result + " (", UpToHelo(comment + ") client-ip", f.(helo := ""));
    HeloLast(comment + ") client-ip", f.(helo := x));
    assert Continued(comment, f.clientIp, f.envelopeFrom, x) == inner + x;
    Shifted(open, comment + ") client-ip", f.(helo := ""));
    Grouped(open, inner, x, ") client-ip");
    Grouped(open, comment, "", ") client-ip");
    assert comment + "" == comment && "" + ") client-ip" == ") client-ip";
  }

  lemma Grouped(a: string, b: string, c: string, d: string)
    ensures a + (b + c) + d == (a + b) + (c + d) == a + (b + (c + d))
  {
  }

  lemma HeloLast(head: string, f: Fields)
    ensures UpToHelo(head, f) == UpToHelo(head, f.(helo := "")) + f.helo
  {
    var front := UpToEnvelopeFrom(head, f) + ['"'];
    Grouped(front, [';'], " helo=", f.helo);
    assert " helo=" + "" == " helo=";
  }

  /** Text in front of the head is text in front of the header. */
  lemma Shifted(a: string, b: string, f: Fields)
    ensures UpToHelo(a + b, f) == a + UpToHelo(b, f)
    ensures UpToReceiver(a + b, f) == a + UpToReceiver(b, f)
  {
    Grouped3(a, b, ['='], f.clientIp);
    var c := UpToClientIp(b, f);
    Grouped3(a, c, "; envelope-from=", []);
    Grouped3(a, c + "; envelope-from=", ['"'], f.envelopeFrom);
    var e := UpToEnvelopeFrom(b, f);
    Grouped3(a, e, ['"'], []);
    Grouped3(a, e + ['"'], [';'], " helo=" + f.helo);
    var h := UpToHelo(b, f);
    Grouped3(a, h, "; receiver=", []);
    Grouped3(a, h + "; receiver=", ['"'], f.receiver);
  }

  lemma Grouped3(a: string, b: string, c: string, d: string)
    ensures (a + b) + c == a + (b + c)
    ensures (a + b) + c + d == a + (b + c + d)
  {
  }

  /**
    It is quotes in the cause text that make a second reading possible: were an error text to go on
    like a header behind its comment, one header would be the one of (`ip`, `mailFrom`) with a helo
    that goes on so too, and the one of (`ip'`, `mailFrom'`, `helo'`) with that error text.
   */
  lemma QuotedCauseAmbiguous(identity: Identity, result: SpfResult, comment: string, x: string, ip: string,
                             mailFrom: string, ip': string, mailFrom': string, helo': string, recipient: string,
                             cfg: HeaderConfig)
    ensures var text := BuildReceivedSpf(Failed(identity, result, comment), ip, mailFrom,
                                         Continued(x, ip', mailFrom', helo'), recipient, cfg);
            var fields' := Fields(ip', mailFrom', helo', Receiver(recipient, cfg), identity);
            && text == BuildReceivedSpf(Failed(identity, result, Continued(comment, ip, mailFrom, x)),
                                        ip', mailFrom', helo', recipient, cfg)
            && (Readable(fields') ==> ReadHeader(text).Some? && ReadHeader(text).value.fields == fields')
    ensures '"' in Continued(comment, ip, mailFrom, x)
  {
    var receiver, word := Receiver(recipient, cfg), ResultText(result);
    var f := Fields(ip, mailFrom, Continued(x, ip', mailFrom', helo'), receiver, identity);
    var fields' := Fields(ip', mailFrom', helo', receiver, identity);
    ContinuedMarked(comment, ip, mailFrom, x);
    TwoReadings(word, comment, x, f, fields');
    FailedHeader(identity, result, comment, ip, mailFrom, f.helo, recipient, cfg);
    FailedHeader(identity, result, Continued(comment, ip, mailFrom, x), ip', mailFrom', helo', recipient, cfg);
    ResultOneWord(result);
    ReadFields(word, Continued(comment, ip, mailFrom, x), fields');
  }

  /** An outcome explained by an error text. */
  function Failed(identity: Identity, result: SpfResult, text: string): SpfOutcome {
    SpfOutcome(identity, result, Some(Error(text)))
  }

  lemma FailedHeader(identity: Identity, result: SpfResult, text: string, ip: string, mailFrom: string, helo: string,
                     recipient: string, cfg: HeaderConfig)
    ensures BuildReceivedSpf(Failed(identity, result, text), ip, mailFrom, helo, recipient, cfg)
         == Format(Head(ResultText(result), text), Fields(ip, mailFrom, helo, Receiver(recipient, cfg), identity))
  {
  }

  lemma ContinuedMarked(x: string, ip: string, envelopeFrom: string, helo: string)
    ensures '"' in Continued(x, ip, envelopeFrom, helo)
  {
  }

  lemma ReadFields(result: string, comment: string, f: Fields)
    requires ' ' !in result
    ensures Readable(f) ==> ReadHeader(Format(Head(result, comment), f)).Some?
                            && ReadHeader(Format(Head(result, comment), f)).value.fields == f
  {
    ReadBack(result, comment, f);
  }

  lemma ReceiverOneLine(recipient: string, cfg: HeaderConfig)
    requires OneLine(recipient) && (!cfg.hideReceiver && cfg.authservId.Some? ==> OneLine(cfg.authservId.value))
    ensures OneLine(Receiver(recipient, cfg))
  {
    if RSplitOnce(recipient, '@').Some? {
      var cut := RSplitOnce(recipient, '@').value;
      assert forall c <- cut.1 :: c in recipient;
    }
  }

  lemma CauseOneLine(outcome: SpfOutcome, mailFrom: string, ip: string)
    requires OneLine(mailFrom) && OneLine(ip)
    requires outcome.cause.Some? ==>
               (match outcome.cause.value case Match(m) => OneLine(m) case Error(t) => OneLine(t))
    ensures OneLine(DescribeCause(outcome, mailFrom, ip))
  {
    ResultOneWord(outcome.result);
  }

  /** A header built from one-line texts is one line. */
  lemma HeaderOneLine(outcome: SpfOutcome, ip: string, mailFrom: string, helo: string, recipient: string,
                      cfg: HeaderConfig)
    requires OneLine(ip) && OneLine(mailFrom) && OneLine(helo) && OneLine(recipient)
    requires !cfg.hideReceiver && cfg.authservId.Some? ==> OneLine(cfg.authservId.value)
    requires outcome.cause.Some? ==>
               (match outcome.cause.value case Match(m) => OneLine(m) case Error(t) => OneLine(t))
    ensures OneLine(BuildReceivedSpf(outcome, ip, mailFrom, helo, recipient, cfg))
  {
    CauseOneLine(outcome, mailFrom, ip);
    ReceiverOneLine(recipient, cfg);
    HeadOneLine(outcome.result, DescribeCause(outcome, mailFrom, ip));
    FormatOneLine(Head(ResultText(outcome.result), DescribeCause(outcome, mailFrom, ip)),
                  Fields(ip, mailFrom, helo, Receiver(recipient, cfg), outcome.identity));
  }

  /** The receiver is part of the header's text. */
  lemma ReceiverInHeader(outcome: SpfOutcome, ip: string, mailFrom: string, helo: string, recipient: string,
                         cfg: HeaderConfig)
    ensures OneLine(BuildReceivedSpf(outcome, ip, mailFrom, helo, recipient, cfg)) ==> OneLine(Receiver(recipient, cfg))
  {
  }

  lemma HeadOneLine(result: SpfResult, comment: string)
    requires OneLine(comment)
    ensures OneLine(Head(ResultText(result), comment))
  {
    ResultOneWord(result);
  }

  lemma FormatOneLine(head: string, f: Fields)
    requires OneLine(head) && OneLine(f.clientIp) && OneLine(f.envelopeFrom) && OneLine(f.helo) && OneLine(f.receiver)
    ensures OneLine(Format(head, f))
  {
    assert OneLine("; envelope-from=") && OneLine(" helo=") && OneLine("; receiver=");
    Glued(head, '=', f.clientIp);
    Glued(UpToClientIp(head, f) + "; envelope-from=", '"', f.envelopeFrom);
    Glued(UpToEnvelopeFrom(head, f) + ['"'], ';', " helo=" + f.helo);
    Glued(UpToHelo(head, f) + "; receiver=", '"', f.receiver);
    Glued(UpToReceiver(head, f), '"', "; identity=" + IdentityText(f.identity) + ";");
  }

  lemma Glued(a: string, c: char, b: string)
    requires OneLine(a) && c != '\n' && OneLine(b)
    ensures OneLine(a + [c] + b)
  {
  }
}
