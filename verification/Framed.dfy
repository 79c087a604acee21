/** Exactly which configurations keep every answer one block, newlines in templates and all. */
module Framed {
  import opened Wrappers
  import opened Text
  import opened Configuration
  import opened Response
  import opened Template
  import opened Rendering
  import Header
  import Engine
  import Validation

  // ---------- empty lines ----------

  /** One-line text in front makes no empty line and removes none. */
  lemma {:induction false} SolidAppend(a: string, b: string)
    requires OneLine(a)
    ensures Solid(a + b) <==> Solid(b)
  {
    if a == [] {
      assert a + b == b;
    } else {
      SolidAppend(a[1..], b);
      assert (a + b)[0] == a[0] && (a + b)[1..] == a[1..] + b;
      SolidBehind(a + b);
    }
  }

  /** No newline stands before another one. */
  ghost predicate Inner(s: string) {
    forall i :: BreakAt(s, i) && i + 1 < |s| ==> s[i + 1] != '\n'
  }

  lemma SolidBefore(s: string, b: string)
    requires OneLine(b) && b != []
    ensures Solid(s + b) <==> Inner(s)
  {
    var t := s + b;
    assert forall i :: BreakAt(t, i) <==> BreakAt(s, i);
    assert forall i :: BreakAt(s, i) ==> t[i + 1] == if i + 1 < |s| then s[i + 1] else b[0];
  }

  // ---------- templates ----------

  /** The shortest values: no sender, helo or recipient, and the shortest address. */
  function Shortest(result: SpfResult): Values {
    Values(ResultText(result), "", "", "::", "")
  }

  ghost predicate BadStart(s: string) {
    s == [] || s[0] == '\n'
  }

  /** Longer one-line values only fill empty lines. */
  lemma {:induction false} FilledSolid(xs: seq<Piece>, v: Values, w: Values)
    requires forall i :: 0 <= i < |xs| ==> !xs[i].Val?
    requires forall p :: OneLine(ValueOf(v, p)) && OneLine(ValueOf(w, p))
    requires forall p :: ValueOf(v, p) == [] ==> ValueOf(w, p) == []
    ensures Solid(Filled(xs, w)) ==> Solid(Filled(xs, v))
    ensures BadStart(Filled(xs, v)) ==> BadStart(Filled(xs, w))
  {
    if xs != [] {
      var rest := xs[1..];
      FilledSolid(rest, v, w);
      match xs[0]
      case Hole(p) =>
        SolidAppend(ValueOf(v, p), Filled(rest, v));
        SolidAppend(ValueOf(w, p), Filled(rest, w));
        NonEmptyStart(ValueOf(v, p), Filled(rest, v));
        assert ValueOf(w, p) == [] ==> Filled(xs, w) == Filled(rest, w);
      case Lit(c) =>
        LitSolid(c, Filled(rest, v));
        LitSolid(c, Filled(rest, w));
    }
  }

  lemma NonEmptyStart(a: string, b: string)
    requires OneLine(a)
    ensures BadStart(a + b) <==> a == [] && BadStart(b)
  {
    assert a == [] ==> a + b == b;
    assert a != [] ==> (a + b)[0] == a[0] && a[0] in a;
  }

  lemma LitSolid(c: char, s: string)
    ensures Solid([c] + s) <==> Solid(s) && (c == '\n' ==> !BadStart(s))
    ensures BadStart([c] + s) <==> c == '\n'
  {
    assert ([c] + s)[1..] == s;
    SolidBehind([c] + s);
  }

  /** The texts of a request in which no placeholder can hide. */
  ghost predicate Harmless(ctx: Engine.Context) {
    && Engine.OneLineContext(ctx) && AddressText(ctx.ip)
    && BraceFree(ctx.sender) && BraceFree(ctx.helo) && BraceFree(ctx.recipient)
  }

  /** The message has no empty line, even with the shortest values. */
  ghost predicate SolidTemplate(messages: MessageTemplates, result: SpfResult) {
    Solid(Simultaneous(Engine.MessageTemplate(messages, result), Shortest(result)))
  }

  lemma MessageSolid(messages: MessageTemplates, result: SpfResult, ctx: Engine.Context)
    requires Accepted(Engine.MessageTemplate(messages, result)) && SolidTemplate(messages, result) && Harmless(ctx)
    ensures Solid(Engine.RenderMessage(messages, result, ctx))
  {
    var t, v, w := Engine.MessageTemplate(messages, result), Engine.ValuesFor(result, ctx), Shortest(result);
    MessageSimultaneous(messages, result, ctx);
    AcceptedPieces(t);
    PiecesFilled(t, v);
    PiecesFilled(t, w);
    ValuesOneLine(result, ctx);
    FilledSolid(Pieces(t), v, w);
  }

  lemma ValuesOneLine(result: SpfResult, ctx: Engine.Context)
    requires Engine.OneLineContext(ctx) && AddressText(ctx.ip)
    ensures var v, w := Engine.ValuesFor(result, ctx), Shortest(result);
            forall p :: && OneLine(ValueOf(v, p)) && OneLine(ValueOf(w, p))
                        && (ValueOf(v, p) == [] ==> ValueOf(w, p) == [])
  {
    Header.ResultOneWord(result);
    var v, w := Engine.ValuesFor(result, ctx), Shortest(result);
    forall p ensures OneLine(ValueOf(v, p)) && OneLine(ValueOf(w, p)) && (ValueOf(v, p) == [] ==> ValueOf(w, p) == []) {
      match p
      case Result_ =>
      case Sender =>
      case Helo =>
      case Ip =>
      case Recipient =>
    }
  }

  lemma MessageSimultaneous(messages: MessageTemplates, result: SpfResult, ctx: Engine.Context)
    requires Accepted(Engine.MessageTemplate(messages, result)) && Harmless(ctx)
    ensures Engine.RenderMessage(messages, result, ctx)
         == Simultaneous(Engine.MessageTemplate(messages, result), Engine.ValuesFor(result, ctx))
  {
    assert BraceFree(ResultText(result)) && BraceFree(ctx.ip);
    forall p ensures Inert(ctx.sender, p) && Inert(ctx.helo, p) {
      BraceFreeInert(ctx.sender, p);
      BraceFreeInert(ctx.helo, p);
    }
    RenderIsSimultaneous(Engine.MessageTemplate(messages, result), Engine.ValuesFor(result, ctx));
  }

  // ---------- headers ----------

  /** A header of one-line texts has no empty line exactly when its receiver has none inside. */
  lemma HeaderSolid(head: string, f: Header.Fields)
    requires OneLine(head) && OneLine(f.clientIp) && OneLine(f.envelopeFrom) && OneLine(f.helo)
    ensures Solid(Engine.HEADER_NAME + Header.Format(head, f)) <==> Inner(f.receiver)
  {
    var front := (Header.UpToHelo(head, f) + "; receiver=") + ['"'];
    var end := ['"'] + ("; identity=" + Header.IdentityText(f.identity) + ";");
    FrontOneLine(head, f);
    assert Engine.HEADER_NAME + Header.Format(head, f) == (Engine.HEADER_NAME + front) + (f.receiver + end);
    SolidAppend(Engine.HEADER_NAME + front, f.receiver + end);
    SolidBefore(f.receiver, end);
  }

  lemma FrontOneLine(head: string, f: Header.Fields)
    requires OneLine(head) && OneLine(f.clientIp) && OneLine(f.envelopeFrom) && OneLine(f.helo)
    ensures OneLine(Engine.HEADER_NAME + ((Header.UpToHelo(head, f) + "; receiver=") + ['"']))
    ensures OneLine(['"'] + ("; identity=" + Header.IdentityText(f.identity) + ";"))
  {
    Header.FormatOneLine(head, f.(receiver := ""));
    assert forall c <- Header.UpToHelo(head, f) :: c in Header.Format(head, f.(receiver := ""));
  }

  lemma BuiltSolid(outcome: SpfOutcome, ctx: Engine.Context, cfg: HeaderConfig)
    requires Engine.OneLineContext(ctx) && Engine.OneLineCause(outcome)
    ensures Solid(Engine.HEADER_NAME
                  + Header.BuildReceivedSpf(outcome, ctx.ip, ctx.sender, ctx.helo, ctx.recipient, cfg))
       <==> Inner(Header.Receiver(ctx.recipient, cfg))
  {
    Header.CauseOneLine(outcome, ctx.sender, ctx.ip);
    Header.HeadOneLine(outcome.result, Header.DescribeCause(outcome, ctx.sender, ctx.ip));
    HeaderSolid(Header.Head(ResultText(outcome.result), Header.DescribeCause(outcome, ctx.sender, ctx.ip)),
                Header.FieldsOf(outcome, ctx.ip, ctx.sender, ctx.helo, ctx.recipient, cfg));
  }

  // ---------- configurations ----------

  /** Every answer to one-line requests without `{`, with one-line causes, is one block. */
  ghost predicate AlwaysOneBlock(cfg: Config) {
    forall helo: SpfOutcome, mailFrom: SpfOutcome, ctx: Engine.Context ::
      Harmless(ctx) && Engine.OneLineCause(mailFrom) ==> Solid(Display(Engine.Decide(cfg, helo, mailFrom, ctx)))
  }

  /** No configured text that is printed can make an empty line. */
  ghost predicate SolidConfig(cfg: Config) {
    && (forall result :: Engine.Selected(cfg.policy, result) ==> SolidTemplate(cfg.messages, result))
    && (cfg.header.mode == SpfHeader && !cfg.header.hideReceiver && cfg.header.authservId.Some? ==>
          Inner(cfg.header.authservId.value))
  }

  ghost predicate AcceptedMessages(messages: MessageTemplates) {
    forall result: SpfResult :: Accepted(Engine.MessageTemplate(messages, result))
  }

  lemma DisplaySolid(action: Action)
    ensures Solid(Display(action)) <==>
            Solid(if action.Prepend? then action.header else Engine.Reason(action))
  {
    match action
    case Dunno => assert Display(action) == "action=dunno" + "" && OneLine("action=dunno");
      SolidAppend("action=dunno", "");
    case Prepend(header) => SolidAppend("action=PREPEND ", header);
    case Reject(reason) => SolidAppend("action=", reason);
    case DeferIfPermit(reason) => SolidAppend("action=defer_if_permit ", reason);
  }

  lemma ReceiverInner(recipient: string, cfg: HeaderConfig)
    requires OneLine(recipient)
    requires !cfg.hideReceiver && cfg.authservId.Some? ==> Inner(cfg.authservId.value)
    ensures Inner(Header.Receiver(recipient, cfg))
  {
    if cfg.hideReceiver || cfg.authservId.None? {
      Header.ReceiverOneLine(recipient, cfg.(authservId := None));
    }
  }

  lemma DecideSolid(cfg: Config, helo: SpfOutcome, mailFrom: SpfOutcome, ctx: Engine.Context)
    requires AcceptedMessages(cfg.messages) && SolidConfig(cfg) && Harmless(ctx) && Engine.OneLineCause(mailFrom)
    ensures Solid(Display(Engine.Decide(cfg, helo, mailFrom, ctx)))
  {
    var h, m := Engine.HeloSeverity(cfg.policy, helo), Engine.MailFromSeverity(cfg.policy, mailFrom);
    var action := Engine.Decide(cfg, helo, mailFrom, ctx);
    Engine.WorstOfBoth(cfg, helo, mailFrom, ctx);
    DisplaySolid(action);
    if Engine.Rank(Engine.SeverityOf(action)) > 0 {
      var worded := if Engine.Rank(h) > Engine.Rank(m) then helo.result else mailFrom.result;
      assert Engine.Selected(cfg.policy, worded);
      MessageSolid(cfg.messages, worded, ctx);
    } else {
      MildSolid(cfg, helo, mailFrom, ctx);
    }
  }

  lemma MildSolid(cfg: Config, helo: SpfOutcome, mailFrom: SpfOutcome, ctx: Engine.Context)
    requires SolidConfig(cfg) && Harmless(ctx) && Engine.OneLineCause(mailFrom)
    requires Engine.SeverityOf(Engine.Decide(cfg, helo, mailFrom, ctx)) == Engine.NoOpinion
    ensures Solid(Engine.Reason(Engine.Decide(cfg, helo, mailFrom, ctx)))
  {
    if cfg.header.mode == SpfHeader {
      BuiltSolid(mailFrom, ctx, cfg.header);
      ReceiverInner(ctx.recipient, cfg.header);
    }
  }

  /** A template that some policy selects is used for some answer to any request. */
  lemma SelectedUsed(cfg: Config, result: SpfResult, ctx: Engine.Context)
    requires AlwaysOneBlock(cfg) && Engine.Selected(cfg.policy, result) && Harmless(ctx)
    ensures Solid(Engine.RenderMessage(cfg.messages, result, ctx))
  {
    var helo, mailFrom := Engine.UsedFor(cfg, result);
    var action := Engine.Decide(cfg, helo, mailFrom, ctx);
    assert Solid(Display(action)) && Engine.Rank(Engine.SeverityOf(action)) > 0;
    DisplaySolid(action);
  }

  lemma SelectedSolid(cfg: Config, result: SpfResult)
    requires AcceptedMessages(cfg.messages) && AlwaysOneBlock(cfg) && Engine.Selected(cfg.policy, result)
    ensures SolidTemplate(cfg.messages, result)
  {
    SelectedUsed(cfg, result, Engine.LEAST);
    MessageSimultaneous(cfg.messages, result, Engine.LEAST);
  }

  lemma ReceiverSolid(cfg: Config, ctx: Engine.Context)
    requires AlwaysOneBlock(cfg) && cfg.header.mode == SpfHeader && Harmless(ctx)
    ensures Inner(Header.Receiver(ctx.recipient, cfg.header))
  {
    var pass := Engine.Plain(Pass);
    Engine.Reported(cfg, pass, pass, ctx);
    assert Solid(Display(Engine.Decide(cfg, pass, pass, ctx)));
    DisplaySolid(Engine.Decide(cfg, pass, pass, ctx));
    BuiltSolid(pass, ctx, cfg.header);
  }

  /**
    Exactly the validated configurations whose answers to one-line requests without `{` are all one
    block: those whose selected templates have no empty line with the shortest values, and whose
    printed `authserv_id` has none inside. Single newlines do no harm there.
   */
  lemma OneBlockExactly(cfg: Config, isRecord: string -> bool)
    requires Validation.ValidConfig(cfg, isRecord)
    ensures AlwaysOneBlock(cfg) <==> SolidConfig(cfg)
  {
    forall result: SpfResult ensures Accepted(Engine.MessageTemplate(cfg.messages, result)) {
      Validation.ValidTemplates(cfg, isRecord, result);
    }
    if SolidConfig(cfg) {
      forall helo: SpfOutcome, mailFrom: SpfOutcome, ctx: Engine.Context
        | Harmless(ctx) && Engine.OneLineCause(mailFrom)
        ensures Solid(Display(Engine.Decide(cfg, helo, mailFrom, ctx)))
      {
        DecideSolid(cfg, helo, mailFrom, ctx);
      }
    }
    if AlwaysOneBlock(cfg) {
      forall result | Engine.Selected(cfg.policy, result) ensures SolidTemplate(cfg.messages, result) {
        SelectedSolid(cfg, result);
      }
      if cfg.header.mode == SpfHeader {
        ReceiverSolid(cfg, Engine.LEAST);
      }
    }
  }
}
