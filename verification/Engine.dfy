/** The decision: two SPF outcomes and the policy give one answer. */
module Engine {
  import opened Wrappers
  import opened Text
  import opened Configuration
  import opened Response
  import Header
  import Template
  import Rendering

  datatype Severity = NoOpinion | Defer | Rejected

  function Rank(s: Severity): nat {
    match s case NoOpinion => 0 case Defer => 1 case Rejected => 2
  }

  /** `ip` is the client address as text. */
  datatype Context = Context(ip: string, sender: string, helo: string, recipient: string)

  function ClassifySeverity(policy: RejectPolicy, result: SpfResult, permerrorReject: bool,
                            temperrorDefer: bool): Severity {
    if policy.NoCheck? then NoOpinion
    else match result
      case Permerror => if permerrorReject then Rejected else NoOpinion
      case Temperror => if temperrorDefer then Defer else NoOpinion
      case _ =>
        match policy
        case Never => NoOpinion
        case NoCheck => NoOpinion
        case Fail => if result.FailResult? then Rejected else NoOpinion
        case SoftFail => if result.FailResult? || result.Softfail? then Rejected else NoOpinion
        case SpfNotPass => if result.Pass? then NoOpinion else Rejected
  }

  function MessageTemplate(messages: MessageTemplates, result: SpfResult): string {
    match result
    case FailResult(_) => messages.fail
    case Softfail => messages.softfail
    case Neutral => messages.neutral
    case NoPolicy => messages.none
    case Permerror => messages.permerror
    case Temperror => messages.temperror
    case Pass => "550 5.7.1 SPF check failed"
  }

  function ValuesFor(result: SpfResult, ctx: Context): Rendering.Values {
    Rendering.Values(ResultText(result), ctx.sender, ctx.helo, ctx.ip, ctx.recipient)
  }

  function RenderMessage(messages: MessageTemplates, result: SpfResult, ctx: Context): string {
    Rendering.Render(MessageTemplate(messages, result), ValuesFor(result, ctx))
  }

  function HeloSeverity(policy: PolicyConfig, helo: SpfOutcome): Severity {
    ClassifySeverity(policy.heloReject, helo.result, policy.permerrorReject, policy.temperrorDefer)
  }

  function MailFromSeverity(policy: PolicyConfig, mailFrom: SpfOutcome): Severity {
    ClassifySeverity(policy.mailFromReject, mailFrom.result, policy.permerrorReject, policy.temperrorDefer)
  }

  const HEADER_NAME: string := "Received-SPF: "

  function Decide(cfg: Config, helo: SpfOutcome, mailFrom: SpfOutcome, ctx: Context): Action {
    var h, m := HeloSeverity(cfg.policy, helo), MailFromSeverity(cfg.policy, mailFrom);
    var (severity, responsible) := if Rank(h) > Rank(m) then (h, helo) else (m, mailFrom);
    match severity
    case Rejected => Action.Reject(RenderMessage(cfg.messages, responsible.result, ctx))
    case Defer => DeferIfPermit(RenderMessage(cfg.messages, responsible.result, ctx))
    case NoOpinion =>
      match cfg.header.mode
      case SpfHeader =>
        Action.Prepend(HEADER_NAME +
          Header.BuildReceivedSpf(mailFrom, ctx.ip, ctx.sender, ctx.helo, ctx.recipient, cfg.header))
      case NoHeader => Dunno
  }

  // ---------- what the answer says ----------

  /** How severe an answer is for the client. */
  function SeverityOf(action: Action): Severity {
    match action
    case Reject(_) => Rejected
    case DeferIfPermit(_) => Defer
    case _ => NoOpinion
  }

  function Reason(action: Action): string {
    match action
    case Reject(reason) => reason
    case DeferIfPermit(reason) => reason
    case Prepend(header) => header
    case Dunno => ""
  }

  /**
    The answer is as severe as the worse of the two identities, and worded from MAIL FROM unless
    HELO is strictly worse; the outcome it is worded from is never a pass, so the fallback template
    is never used.
   */
  lemma WorstOfBoth(cfg: Config, helo: SpfOutcome, mailFrom: SpfOutcome, ctx: Context)
    ensures var h, m, action := HeloSeverity(cfg.policy, helo), MailFromSeverity(cfg.policy, mailFrom),
                                Decide(cfg, helo, mailFrom, ctx);
            && Rank(SeverityOf(action)) == (if Rank(h) >= Rank(m) then Rank(h) else Rank(m))
            && (Rank(SeverityOf(action)) > 0 ==>
                  var worded := if Rank(h) > Rank(m) then helo.result else mailFrom.result;
                  && !worded.Pass?
                  && Reason(action) == RenderMessage(cfg.messages, worded, ctx))
  {
  }

  /**
    An answer without an opinion carries a header exactly when one is configured, and who reads it
    learns what the MAIL FROM check found, and about whom.
   */
  lemma MildAnswerReports(cfg: Config, helo: SpfOutcome, mailFrom: SpfOutcome, ctx: Context)
    requires Rank(HeloSeverity(cfg.policy, helo)) == Rank(MailFromSeverity(cfg.policy, mailFrom)) == 0
    ensures var action := Decide(cfg, helo, mailFrom, ctx);
            var fields := Header.FieldsOf(mailFrom, ctx.ip, ctx.sender, ctx.helo, ctx.recipient, cfg.header);
            && SeverityOf(action) == NoOpinion
            && (action.Prepend? <==> cfg.header.mode == SpfHeader)
            && (action.Prepend? && Header.Readable(fields) ==>
                  && "Received-SPF: " <= action.header
                  && Header.ReadHeader(action.header[14..])
                     == Some(Header.Report(ResultText(mailFrom.result),
                                           Header.DescribeCause(mailFrom, ctx.sender, ctx.ip), fields)))
  {
    var header := Header.BuildReceivedSpf(mailFrom, ctx.ip, ctx.sender, ctx.helo, ctx.recipient, cfg.header);
    Header.BuiltReadBack(mailFrom, ctx.ip, ctx.sender, ctx.helo, ctx.recipient, cfg.header);
    assert (HEADER_NAME + header)[|HEADER_NAME|..] == header;
  }

  /**
    "Anything other than Pass" under SpfNotPass: exactly outside the two error results, or where a
    toggle makes up for it.
   */
  lemma NotPassRejects(result: SpfResult, permerrorReject: bool, temperrorDefer: bool)
    ensures (ClassifySeverity(SpfNotPass, result, permerrorReject, temperrorDefer) == Rejected <==> result != Pass)
       <==> result != Temperror && (result == Permerror ==> permerrorReject)
    ensures ClassifySeverity(SpfNotPass, Temperror, true, true) == Defer
    ensures ClassifySeverity(SpfNotPass, Permerror, false, true) == NoOpinion
  {
  }

  // ---------- stricter policies and worse results ----------

  function Strictness(policy: RejectPolicy): nat {
    match policy case NoCheck => 0 case Never => 1 case Fail => 2 case SoftFail => 3 case SpfNotPass => 4
  }

  predicate StricterThan(p: PolicyConfig, q: PolicyConfig) {
    && Strictness(p.heloReject) >= Strictness(q.heloReject)
    && Strictness(p.mailFromReject) >= Strictness(q.mailFromReject)
    && (q.permerrorReject ==> p.permerrorReject)
    && (q.temperrorDefer ==> p.temperrorDefer)
  }

  function Badness(result: SpfResult): nat {
    match result
    case Pass => 0
    case Neutral => 1
    case NoPolicy => 1
    case Softfail => 2
    case _ => 3
  }

  /** At least as bad a result; the two errors are as bad as themselves only. */
  ghost predicate WorseThan(r: SpfResult, r': SpfResult) {
    if r in {Temperror, Permerror} || r' in {Temperror, Permerror} then r == r' else Badness(r) >= Badness(r')
  }

  lemma SeverityMonotone(p: RejectPolicy, q: RejectPolicy, r: SpfResult, r': SpfResult, perm: bool, temp: bool,
                         perm': bool, temp': bool)
    requires Strictness(p) >= Strictness(q) && WorseThan(r, r') && (perm' ==> perm) && (temp' ==> temp)
    ensures Rank(ClassifySeverity(p, r, perm, temp)) >= Rank(ClassifySeverity(q, r', perm', temp'))
  {
  }

  /** How bad a result must be for a policy to reject on it. */
  function Threshold(policy: RejectPolicy): nat {
    match policy case NoCheck => 4 case Never => 4 case Fail => 3 case SoftFail => 2 case SpfNotPass => 1
  }

  /** Permerror goes by its toggle, everything else but Temperror by the threshold. */
  predicate RejectsOn(policy: RejectPolicy, result: SpfResult, permerrorReject: bool) {
    if result == Permerror then permerrorReject && policy != NoCheck
    else result != Temperror && Badness(result) >= Threshold(policy)
  }

  predicate DefersOn(policy: RejectPolicy, result: SpfResult, temperrorDefer: bool) {
    result == Temperror && temperrorDefer && policy != NoCheck
  }

  /** The answer rejects exactly when one of the identities calls for it, and else defers exactly when one does. */
  lemma DecisionExactly(cfg: Config, helo: SpfOutcome, mailFrom: SpfOutcome, ctx: Context)
    ensures var p, action := cfg.policy, Decide(cfg, helo, mailFrom, ctx);
            var rejects := || RejectsOn(p.heloReject, helo.result, p.permerrorReject)
                           || RejectsOn(p.mailFromReject, mailFrom.result, p.permerrorReject);
            var defers := || DefersOn(p.heloReject, helo.result, p.temperrorDefer)
                          || DefersOn(p.mailFromReject, mailFrom.result, p.temperrorDefer);
            && (action.Reject? <==> rejects)
            && (action.DeferIfPermit? <==> defers && !rejects)
  {
    var p := cfg.policy;
    WorstOfBoth(cfg, helo, mailFrom, ctx);
    SeverityExactly(p.heloReject, helo.result, p.permerrorReject, p.temperrorDefer);
    SeverityExactly(p.mailFromReject, mailFrom.result, p.permerrorReject, p.temperrorDefer);
  }

  lemma SeverityExactly(policy: RejectPolicy, result: SpfResult, permerrorReject: bool, temperrorDefer: bool)
    ensures var s := ClassifySeverity(policy, result, permerrorReject, temperrorDefer);
            && (s == Rejected <==> RejectsOn(policy, result, permerrorReject))
            && (s == Defer <==> DefersOn(policy, result, temperrorDefer))
  {
  }

  /** A stricter policy never answers the same or worse outcomes more mildly. */
  lemma StricterIsHarsher(cfg: Config, policy: PolicyConfig, helo: SpfOutcome, mailFrom: SpfOutcome,
                          helo': SpfOutcome, mailFrom': SpfOutcome, ctx: Context)
    requires StricterThan(policy, cfg.policy)
    requires WorseThan(helo.result, helo'.result) && WorseThan(mailFrom.result, mailFrom'.result)
    ensures Rank(SeverityOf(Decide(cfg.(policy := policy), helo, mailFrom, ctx)))
            >= Rank(SeverityOf(Decide(cfg, helo', mailFrom', ctx)))
  {
    var q := cfg.policy;
    WorstOfBoth(cfg, helo', mailFrom', ctx);
    WorstOfBoth(cfg.(policy := policy), helo, mailFrom, ctx);
    SeverityMonotone(policy.heloReject, q.heloReject, helo.result, helo'.result,
                     policy.permerrorReject, policy.temperrorDefer, q.permerrorReject, q.temperrorDefer);
    SeverityMonotone(policy.mailFromReject, q.mailFromReject, mailFrom.result, mailFrom'.result,
                     policy.permerrorReject, policy.temperrorDefer, q.permerrorReject, q.temperrorDefer);
  }

  // ---------- whose outcome matters ----------

  /** The highest severity an identity can get under a policy. */
  function Reach(policy: RejectPolicy, permerrorReject: bool, temperrorDefer: bool): nat {
    if policy == NoCheck then 0
    else if permerrorReject || policy != Never then 2
    else if temperrorDefer then 1
    else 0
  }

  function HeloReach(policy: PolicyConfig): nat {
    Reach(policy.heloReject, policy.permerrorReject, policy.temperrorDefer)
  }

  lemma ReachIsHighest(policy: RejectPolicy, permerrorReject: bool, temperrorDefer: bool)
    ensures forall r ::
              Rank(ClassifySeverity(policy, r, permerrorReject, temperrorDefer))
              <= Reach(policy, permerrorReject, temperrorDefer)
    ensures exists r ::
              Rank(ClassifySeverity(policy, r, permerrorReject, temperrorDefer))
              == Reach(policy, permerrorReject, temperrorDefer)
  {
    var r := if permerrorReject then Permerror
             else if policy == Never && temperrorDefer then Temperror
             else FailResult("");
    assert Rank(ClassifySeverity(policy, r, permerrorReject, temperrorDefer))
        == Reach(policy, permerrorReject, temperrorDefer);
  }

  /**
    HELO cannot change the answer exactly when no HELO result can get a severity above that of MAIL
    FROM: always under NoCheck, and under Never where no toggle is on, or after MAIL FROM was rejected.
   */
  lemma HeloMatters(cfg: Config, mailFrom: SpfOutcome, ctx: Context)
    ensures (forall helo, helo' :: Decide(cfg, helo, mailFrom, ctx) == Decide(cfg, helo', mailFrom, ctx))
       <==> HeloReach(cfg.policy) <= Rank(MailFromSeverity(cfg.policy, mailFrom))
  {
    var p := cfg.policy;
    ReachIsHighest(p.heloReject, p.permerrorReject, p.temperrorDefer);
    if HeloReach(p) > Rank(MailFromSeverity(p, mailFrom)) {
      var r :| Rank(ClassifySeverity(p.heloReject, r, p.permerrorReject, p.temperrorDefer)) == HeloReach(p);
      var helo, helo' := SpfOutcome(HeloIdentity, r, None), SpfOutcome(HeloIdentity, Pass, None);
      WorstOfBoth(cfg, helo, mailFrom, ctx);
      WorstOfBoth(cfg, helo', mailFrom, ctx);
      assert Decide(cfg, helo, mailFrom, ctx) != Decide(cfg, helo', mailFrom, ctx);
    }
  }

  /** Some outcomes give different answers. */
  ghost predicate OutcomesMatter(cfg: Config, ctx: Context) {
    exists helo, mailFrom, helo', mailFrom' :: Decide(cfg, helo, mailFrom, ctx) != Decide(cfg, helo', mailFrom', ctx)
  }

  /** A header is written, or some result is rejected or deferred on. */
  predicate Consults(cfg: Config) {
    || cfg.header.mode == SpfHeader
    || Reach(cfg.policy.heloReject, cfg.policy.permerrorReject, cfg.policy.temperrorDefer) > 0
    || Reach(cfg.policy.mailFromReject, cfg.policy.permerrorReject, cfg.policy.temperrorDefer) > 0
  }

  /** The answers depend on the outcomes, whatever the request, exactly when the configuration consults them. */
  lemma ConsultsExactly(cfg: Config, ctx: Context)
    ensures OutcomesMatter(cfg, ctx) <==> Consults(cfg)
  {
    var p := cfg.policy;
    ReachIsHighest(p.heloReject, p.permerrorReject, p.temperrorDefer);
    ReachIsHighest(p.mailFromReject, p.permerrorReject, p.temperrorDefer);
    if Consults(cfg) {
      var helo, mailFrom := Telling(cfg, ctx);
    } else {
      forall helo, mailFrom ensures Decide(cfg, helo, mailFrom, ctx) == Dunno {
        WorstOfBoth(cfg, helo, mailFrom, ctx);
      }
    }
  }

  /** Outcomes that are answered differently from two passes. */
  lemma Telling(cfg: Config, ctx: Context) returns (helo: SpfOutcome, mailFrom: SpfOutcome)
    requires Consults(cfg)
    ensures Decide(cfg, helo, mailFrom, ctx) != Decide(cfg, Plain(Pass), Plain(Pass), ctx)
  {
    var p := cfg.policy;
    helo, mailFrom := Plain(Pass), Plain(Pass);
    if Reach(p.heloReject, p.permerrorReject, p.temperrorDefer) > 0 {
      ReachIsHighest(p.heloReject, p.permerrorReject, p.temperrorDefer);
      var r :| Rank(ClassifySeverity(p.heloReject, r, p.permerrorReject, p.temperrorDefer)) > 0;
      helo := Plain(r);
    } else if Reach(p.mailFromReject, p.permerrorReject, p.temperrorDefer) > 0 {
      ReachIsHighest(p.mailFromReject, p.permerrorReject, p.temperrorDefer);
      var r :| Rank(ClassifySeverity(p.mailFromReject, r, p.permerrorReject, p.temperrorDefer)) > 0;
      mailFrom := Plain(r);
    } else {
      mailFrom := Plain(Softfail);
      ReachIsHighest(p.mailFromReject, p.permerrorReject, p.temperrorDefer);
      HeaderTells(cfg, ctx);
    }
    WorstOfBoth(cfg, helo, mailFrom, ctx);
    WorstOfBoth(cfg, Plain(Pass), Plain(Pass), ctx);
  }

  /** The header tells a softfail from a pass. */
  lemma HeaderTells(cfg: Config, ctx: Context)
    requires cfg.header.mode == SpfHeader && MailFromSeverity(cfg.policy, Plain(Softfail)) == NoOpinion
    ensures Decide(cfg, Plain(Pass), Plain(Softfail), ctx) != Decide(cfg, Plain(Pass), Plain(Pass), ctx)
  {
    var h := Header.BuildReceivedSpf(Plain(Softfail), ctx.ip, ctx.sender, ctx.helo, ctx.recipient, cfg.header);
    var h' := Header.BuildReceivedSpf(Plain(Pass), ctx.ip, ctx.sender, ctx.helo, ctx.recipient, cfg.header);
    Reported(cfg, Plain(Pass), Plain(Softfail), ctx);
    Reported(cfg, Plain(Pass), Plain(Pass), ctx);
    WordsDiffer();
    Header.SameHeader(Plain(Softfail), Plain(Pass), ctx.ip, ctx.sender, ctx.helo, ctx.recipient, cfg.header);
    NameCancels(h, h');
  }

  lemma WordsDiffer()
    ensures ResultText(Softfail) != ResultText(Pass)
  {
    assert |ResultText(Softfail)| != |ResultText(Pass)|;
  }

  /** Without an opinion, and where a header is configured, the answer is the MAIL FROM header. */
  lemma Reported(cfg: Config, helo: SpfOutcome, mailFrom: SpfOutcome, ctx: Context)
    requires HeloSeverity(cfg.policy, helo) == MailFromSeverity(cfg.policy, mailFrom) == NoOpinion
    requires cfg.header.mode == SpfHeader
    ensures Decide(cfg, helo, mailFrom, ctx) ==
            Action.Prepend(HEADER_NAME + Header.BuildReceivedSpf(mailFrom, ctx.ip, ctx.sender, ctx.helo,
                ctx.recipient, cfg.header))
  {
  }

  lemma NameCancels(header: string, header': string)
    ensures HEADER_NAME + header == HEADER_NAME + header' <==> header == header'
  {
    assert (HEADER_NAME + header)[|HEADER_NAME|..] == header && (HEADER_NAME + header')[|HEADER_NAME|..] == header';
  }

  /** An outcome without an explanation. */
  function Plain(result: SpfResult): SpfOutcome {
    SpfOutcome(MailFromIdentity, result, None)
  }

  /**
    Under NoCheck the MAIL FROM outcome still shows in the answer, exactly where HELO has no opinion
    and a header is configured; two outcomes then show as different where they differ in result word,
    identity or comment. The severity never depends on it.
   */
  lemma NoCheckMailFrom(cfg: Config, helo: SpfOutcome, mailFrom: SpfOutcome, mailFrom': SpfOutcome, ctx: Context)
    requires cfg.policy.mailFromReject == NoCheck
    ensures Decide(cfg, helo, mailFrom, ctx) == Decide(cfg, helo, mailFrom', ctx)
       <==> || HeloSeverity(cfg.policy, helo) != NoOpinion
            || cfg.header.mode == NoHeader
            || (&& ResultText(mailFrom.result) == ResultText(mailFrom'.result)
                && mailFrom.identity == mailFrom'.identity
                && Header.DescribeCause(mailFrom, ctx.sender, ctx.ip)
                    == Header.DescribeCause(mailFrom', ctx.sender, ctx.ip))
    ensures SeverityOf(Decide(cfg, helo, mailFrom, ctx)) == SeverityOf(Decide(cfg, helo, mailFrom', ctx))
  {
    var h := Header.BuildReceivedSpf(mailFrom, ctx.ip, ctx.sender, ctx.helo, ctx.recipient, cfg.header);
    var h' := Header.BuildReceivedSpf(mailFrom', ctx.ip, ctx.sender, ctx.helo, ctx.recipient, cfg.header);
    NameCancels(h, h');
    Header.SameHeader(mailFrom, mailFrom', ctx.ip, ctx.sender, ctx.helo, ctx.recipient, cfg.header);
  }

  /** A NoCheck outcome "never affects the action" exactly where HELO has an opinion or no header is configured. */
  lemma NoCheckNeverShows(cfg: Config, helo: SpfOutcome, ctx: Context)
    requires cfg.policy.mailFromReject == NoCheck
    ensures (forall m, m' :: Decide(cfg, helo, m, ctx) == Decide(cfg, helo, m', ctx))
       <==> HeloSeverity(cfg.policy, helo) != NoOpinion || cfg.header.mode == NoHeader
  {
    var m, m' := SpfOutcome(MailFromIdentity, Pass, None), SpfOutcome(MailFromIdentity, Softfail, None);
    assert |ResultText(m.result)| != |ResultText(m'.result)|;
    NoCheckMailFrom(cfg, helo, m, m', ctx);
    if HeloSeverity(cfg.policy, helo) != NoOpinion || cfg.header.mode == NoHeader {
      forall n, n' ensures Decide(cfg, helo, n, ctx) == Decide(cfg, helo, n', ctx) {
        NoCheckMailFrom(cfg, helo, n, n', ctx);
      }
    }
  }

  // ---------- one-line answers ----------

  /** Some policy rejects or defers on this result. */
  predicate Selected(policy: PolicyConfig, result: SpfResult) {
    || ClassifySeverity(policy.heloReject, result, policy.permerrorReject, policy.temperrorDefer) != NoOpinion
    || ClassifySeverity(policy.mailFromReject, result, policy.permerrorReject, policy.temperrorDefer) != NoOpinion
  }

  /** The configured texts that can be printed are one line each. */
  ghost predicate OneLineConfig(cfg: Config) {
    && (forall result :: Selected(cfg.policy, result) ==> OneLine(MessageTemplate(cfg.messages, result)))
    && (cfg.header.mode == SpfHeader && !cfg.header.hideReceiver && cfg.header.authservId.Some? ==>
          OneLine(cfg.header.authservId.value))
  }

  ghost predicate OneLineCause(outcome: SpfOutcome) {
    outcome.cause.Some? ==> match outcome.cause.value case Match(m) => OneLine(m) case Error(t) => OneLine(t)
  }

  ghost predicate OneLineContext(ctx: Context) {
    OneLine(ctx.ip) && OneLine(ctx.sender) && OneLine(ctx.helo) && OneLine(ctx.recipient)
  }

  /** A message is one line exactly when its template is. */
  lemma MessageOneLine(messages: MessageTemplates, result: SpfResult, ctx: Context)
    requires OneLineContext(ctx)
    ensures OneLine(RenderMessage(messages, result, ctx)) <==> OneLine(MessageTemplate(messages, result))
  {
    var v := ValuesFor(result, ctx);
    assert OneLine(ResultText(result));
    forall p ensures OneLine(Rendering.ValueOf(v, p)) {
    }
    Rendering.RenderOneLine(Template.ALL, MessageTemplate(messages, result), v);
  }

  lemma MildOneLine(cfg: Config, helo: SpfOutcome, mailFrom: SpfOutcome, ctx: Context)
    requires OneLineConfig(cfg) && OneLineContext(ctx) && OneLineCause(mailFrom)
    requires SeverityOf(Decide(cfg, helo, mailFrom, ctx)) == NoOpinion
    ensures OneLine(Reason(Decide(cfg, helo, mailFrom, ctx)))
  {
    var header := Header.BuildReceivedSpf(mailFrom, ctx.ip, ctx.sender, ctx.helo, ctx.recipient, cfg.header);
    if cfg.header.mode == SpfHeader {
      Header.HeaderOneLine(mailFrom, ctx.ip, ctx.sender, ctx.helo, ctx.recipient, cfg.header);
    }
    var line := HEADER_NAME + header;
    assert OneLine(header) ==> OneLine(line);
    assert Decide(cfg, helo, mailFrom, ctx) in {Action.Prepend(line), Dunno};
  }

  lemma ReasonOneLine(cfg: Config, helo: SpfOutcome, mailFrom: SpfOutcome, ctx: Context)
    requires OneLineConfig(cfg) && OneLineContext(ctx) && OneLineCause(mailFrom)
    ensures OneLine(Reason(Decide(cfg, helo, mailFrom, ctx)))
  {
    if SeverityOf(Decide(cfg, helo, mailFrom, ctx)) == NoOpinion {
      MildOneLine(cfg, helo, mailFrom, ctx);
    } else {
      WorstOfBoth(cfg, helo, mailFrom, ctx);
      var h, m := HeloSeverity(cfg.policy, helo), MailFromSeverity(cfg.policy, mailFrom);
      var worded := if Rank(h) > Rank(m) then helo.result else mailFrom.result;
      assert Selected(cfg.policy, worded);
      MessageOneLine(cfg.messages, worded, ctx);
    }
  }

  lemma DisplayOneLine(action: Action)
    requires OneLine(Reason(action))
    ensures OneLine(Display(action))
  {
  }

  /** One-line configuration, request and cause texts give a one-line answer. */
  lemma DecideOneLine(cfg: Config, helo: SpfOutcome, mailFrom: SpfOutcome, ctx: Context)
    requires OneLineConfig(cfg) && OneLineContext(ctx) && OneLineCause(mailFrom)
    ensures OneLine(Display(Decide(cfg, helo, mailFrom, ctx)))
  {
    ReasonOneLine(cfg, helo, mailFrom, ctx);
    DisplayOneLine(Decide(cfg, helo, mailFrom, ctx));
  }

  /** The configuration makes every answer to one-line requests and causes one line. */
  ghost predicate AlwaysOneLine(cfg: Config) {
    forall helo: SpfOutcome, mailFrom: SpfOutcome, ctx: Context ::
      OneLineContext(ctx) && OneLineCause(mailFrom) ==> OneLine(Display(Decide(cfg, helo, mailFrom, ctx)))
  }

  /** The least a complete request can say. */
  const LEAST: Context := Context("::", "", "", "")

  /** A template that some policy selects is used for some answer. */
  lemma UsedFor(cfg: Config, result: SpfResult) returns (helo: SpfOutcome, mailFrom: SpfOutcome)
    requires Selected(cfg.policy, result)
    ensures OneLineCause(mailFrom) && !result.Pass?
    ensures forall ctx: Context {:trigger Decide(cfg, helo, mailFrom, ctx)} ::
              && Rank(SeverityOf(Decide(cfg, helo, mailFrom, ctx))) > 0
              && Reason(Decide(cfg, helo, mailFrom, ctx)) == RenderMessage(cfg.messages, result, ctx)
  {
    var h := Rank(HeloSeverity(cfg.policy, Plain(result))) > 0;
    helo, mailFrom := Plain(if h then result else Pass), Plain(if h then Pass else result);
    forall ctx: Context
      ensures Rank(SeverityOf(Decide(cfg, helo, mailFrom, ctx))) > 0
           && Reason(Decide(cfg, helo, mailFrom, ctx)) == RenderMessage(cfg.messages, result, ctx)
    {
      WorstOfBoth(cfg, helo, mailFrom, ctx);
    }
  }

  lemma SelectedUsed(cfg: Config, result: SpfResult)
    requires Selected(cfg.policy, result) && AlwaysOneLine(cfg)
    ensures OneLine(MessageTemplate(cfg.messages, result))
  {
    var helo, mailFrom := UsedFor(cfg, result);
    assert OneLine(Display(Decide(cfg, helo, mailFrom, LEAST)));
    ReasonShown(Decide(cfg, helo, mailFrom, LEAST));
    MessageOneLine(cfg.messages, result, LEAST);
  }

  lemma ReasonShown(action: Action)
    ensures OneLine(Display(action)) ==> OneLine(Reason(action))
  {
  }

  lemma ReceiverShown(cfg: Config, ctx: Context)
    requires AlwaysOneLine(cfg) && cfg.header.mode == SpfHeader && OneLineContext(ctx)
    ensures OneLine(Header.Receiver(ctx.recipient, cfg.header))
  {
    var pass := Plain(Pass);
    var header := Header.BuildReceivedSpf(pass, ctx.ip, ctx.sender, ctx.helo, ctx.recipient, cfg.header);
    Reported(cfg, pass, pass, ctx);
    assert OneLine(Display(Decide(cfg, pass, pass, ctx)));
    HeaderShown(header);
    Header.ReceiverInHeader(pass, ctx.ip, ctx.sender, ctx.helo, ctx.recipient, cfg.header);
  }

  lemma HeaderShown(header: string)
    ensures OneLine(Display(Action.Prepend(HEADER_NAME + header))) ==> OneLine(header)
  {
  }

  /**
    Exactly the configurations under which every answer is one line: the template of every result
    some policy rejects or defers on is one line, and so is `authserv_id` where it is printed.
   */
  lemma OneLineExactly(cfg: Config)
    ensures AlwaysOneLine(cfg) <==> OneLineConfig(cfg)
  {
    if OneLineConfig(cfg) {
      forall helo: SpfOutcome, mailFrom: SpfOutcome, ctx: Context | OneLineContext(ctx) && OneLineCause(mailFrom)
        ensures OneLine(Display(Decide(cfg, helo, mailFrom, ctx)))
      {
        DecideOneLine(cfg, helo, mailFrom, ctx);
      }
    }
    if AlwaysOneLine(cfg) {
      forall result | Selected(cfg.policy, result) ensures OneLine(MessageTemplate(cfg.messages, result)) {
        SelectedUsed(cfg, result);
      }
      if cfg.header.mode == SpfHeader {
        ReceiverShown(cfg, LEAST);
      }
    }
  }

  /** A fail template without placeholders is the text of the rejection. */
  lemma FailWorded(cfg: Config, explanation: string, ctx: Context)
    requires cfg.policy.mailFromReject == Fail && Rendering.BraceFree(cfg.messages.fail)
    ensures Template.Accepted(cfg.messages.fail)
    ensures Decide(cfg, Plain(Pass), Plain(FailResult(explanation)), ctx) == Action.Reject(cfg.messages.fail)
  {
    Rendering.BraceFreeRendered(Template.ALL, cfg.messages.fail, ValuesFor(FailResult(explanation), ctx));
  }

  /** Validation does not see it: under this accepted template every rejection is written as two answers. */
  lemma TwoAnswersForOne(cfg: Config, explanation: string, ctx: Context)
    requires cfg.policy.mailFromReject == Fail && cfg.messages.fail == "550 no" + "\n\n" + "action=dunno"
    ensures Template.Accepted(cfg.messages.fail)
    ensures Wire(Decide(cfg, Plain(Pass), Plain(FailResult(explanation)), ctx))
         == Wire(Action.Reject("550 no")) + Wire(Dunno)
  {
    assert Rendering.BraceFree("550 no") && Rendering.BraceFree("\n\n") && Rendering.BraceFree("action=dunno");
    FailWorded(cfg, explanation, ctx);
    WrittenAsTwo("550 no", Dunno);
  }
}
