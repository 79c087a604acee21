/** Answering one request, and what that means for connections and reloads. */
module Server {
  import opened Wrappers
  import opened Text
  import opened Bytes
  import opened Configuration
  import opened Request
  import opened Response
  import opened Codec
  import opened Whitelist
  import opened Override
  import Srs
  import Engine
  import Connection
  import Reload

  /** What `AppState::new` bakes into the evaluator. */
  datatype Evaluator = Evaluator(overrides: Overrides, limits: SpfConfig)

  datatype Check =
    | CheckHelo(ip: IpAddr, helo: string)
    | CheckMailFrom(ip: IpAddr, sender: string, helo: string)

  /**
    DNS and the SPF library: any resolver, and for any limits and check any adaptive evaluation,
    cut off after `patience` questions.
   */
  datatype Spf = Spf(
    dns: Resolver,
    evaluations: (SpfConfig, Check) -> Strategy<SpfOutcome>,
    patience: nat,
    cutOff: SpfOutcome)

  /** The world a request is answered in: standard library, clock, SPF and the daemon's evaluator. */
  datatype Env = Env(
    parseIp: string -> Option<IpAddr>,
    showIp: IpAddr -> string,
    mac: Srs.Mac,
    today: nat,
    spf: Spf,
    evaluator: Evaluator)

  /** The three snapshots a request reads, in this order, and the world. */
  datatype Situation = Situation(config: Config, whitelist: Whitelist, configAgain: Config, env: Env)

  datatype SkipReason = SkipAddress | TrustedRelay | SaslUser | Listed(reason: Reason)

  /** The answer and the evaluations it took. */
  datatype Handled = Handled(action: Action, checks: seq<Check>)

  function MailFromDomain(sender: string): Option<string> {
    match RSplitOnce(sender, '@')
    case None => None
    case Some(cut) => Some(cut.1)
  }

  function QueryOf(req: PolicyRequest, ip: IpAddr, helo: string, sender: string): Query {
    Query(ip, helo, MailFromDomain(sender), req.reverseClientName)
  }

  function ShouldSkip(config: Config, whitelist: Whitelist, req: PolicyRequest, ip: IpAddr, helo: string,
                      sender: string)
    : Option<SkipReason>
  {
    if AnyContains(config.skipAddresses, ip) then Some(SkipAddress)
    else if AnyContains(config.relay.trustedRelays, ip) then Some(TrustedRelay)
    else if config.relay.exemptSaslAuthenticated && req.saslUsername.Some? && req.saslUsername.value != []
    then Some(SaslUser)
    else match Matches(whitelist, QueryOf(req, ip, helo, sender))
      case None => None
      case Some(reason) => Some(Listed(reason))
  }

  /** The client address, when there is one and it parses. */
  function ClientIp(req: PolicyRequest, parseIp: string -> Option<IpAddr>): (r: Result<IpAddr, RequestParseError>)
    ensures r.Ok? <==> req.clientAddress.Some? && parseIp(req.clientAddress.value).Some?
    ensures r.Ok? ==> parseIp(req.clientAddress.value) == Some(r.value)
  {
    match req.clientAddress
    case None => Err(MissingClientAddress)
    case Some(raw) =>
      match parseIp(raw)
      case None => Err(InvalidClientAddress(raw))
      case Some(ip) => Ok(ip)
  }

  function EffectiveSender(sender: string, config: Config, env: Env): string {
    match Srs.TryUnwrap(sender, config.srs, env.mac, env.today)
    case Valid(original) => original
    case _ => sender
  }

  /** The request names a helo, a sender and a client address. */
  predicate Checkable(req: PolicyRequest, parseIp: string -> Option<IpAddr>) {
    req.heloName.Some? && req.sender.Some? && ClientIp(req, parseIp).Ok?
  }

  function HandleRequest(s: Situation, req: PolicyRequest): Handled {
    if !Checkable(req, s.env.parseIp) then Handled(Dunno, [])
    else HandleChecked(s, req, ClientIp(req, s.env.parseIp).value, req.heloName.value, req.sender.value)
  }

  /** The rest of `handle_request`, once the three attributes are known. */
  function HandleChecked(s: Situation, req: PolicyRequest, ip: IpAddr, helo: string, raw: string): Handled {
    if ShouldSkip(s.config, s.whitelist, req, ip, helo, raw).Some? then Handled(Dunno, [])
    else
      var ctx := ContextOf(s, req, ip, helo, raw);
      var h, m := CheckHelo(ip, helo), CheckMailFrom(ip, ctx.sender, helo);
      Handled(Engine.Decide(s.configAgain, Outcome(h, s.env), Outcome(m, s.env), ctx), [h, m])
  }

  function ContextOf(s: Situation, req: PolicyRequest, ip: IpAddr, helo: string, raw: string): Engine.Context {
    Engine.Context(s.env.showIp(ip), EffectiveSender(raw, s.configAgain, s.env), helo,
                   if req.recipient.Some? then req.recipient.value else "")
  }

  /** What an evaluation gives, through the overriding resolver. */
  function Outcome(check: Check, env: Env): SpfOutcome {
    var evaluation := env.spf.evaluations(env.evaluator.limits, check);
    var last := Evaluate(evaluation, Lookup(env.spf.dns, env.evaluator.overrides), [], env.spf.patience).1;
    if last.Done? then last.result else env.spf.cutOff
  }

  // ---------- exemption ----------

  /** What stands behind the last `@` of a sender, if there is one. */
  ghost predicate IsDomainOf(domain: Option<string>, sender: string) {
    match domain
    case None => '@' !in sender
    case Some(d) => '@' !in d && EndsWith(sender, "@" + d)
  }

  lemma DomainExactly(domain: Option<string>, sender: string)
    ensures MailFromDomain(sender) == domain <==> IsDomainOf(domain, sender)
  {
    forall d: string | EndsWith(sender, "@" + d) ensures '@' in sender {
      assert sender[|sender| - |d| - 1] == ("@" + d)[0];
    }
    if '@' in sender {
      var cut := RSplitOnce(sender, '@').value;
      assert sender == cut.0 + ("@" + cut.1);
      assert EndsWith(sender, "@" + cut.1);
      if domain.Some? && IsDomainOf(domain, sender) {
        var local := sender[..|sender| - |domain.value| - 1];
        assert sender == local + ("@" + domain.value) == local + ['@'] + domain.value;
        LastCutUnique(cut.0, cut.1, local, domain.value, '@');
      }
    }
  }

  /** The request is exempt, by the configuration first read or by one of the whitelist's entries. */
  ghost predicate Exempt(config: Config, entries: seq<Entry>, req: PolicyRequest, ip: IpAddr)
    requires req.heloName.Some? && req.sender.Some?
  {
    || (exists net <- config.skipAddresses + config.relay.trustedRelays :: InNet(net, ip))
    || (config.relay.exemptSaslAuthenticated && req.saslUsername.Some? && req.saslUsername.value != "")
    || (exists q: Query, reason ::
          && q.ip == ip && q.helo == req.heloName.value && q.reverseClientName == req.reverseClientName
          && IsDomainOf(q.mailFromDomain, req.sender.value) && SomeExempts(entries, q, reason))
  }

  /**
    An exempt or incomplete request is answered `dunno` without any evaluation; every other one
    takes exactly one evaluation of each identity, MAIL FROM with the unwrapped sender, and is decided
    by their outcomes under the configuration read last.
   */
  lemma ChecksExactly(s: Situation, entries: seq<Entry>, req: PolicyRequest)
    requires Holds(s.whitelist, entries)
    ensures if !Checkable(req, s.env.parseIp)
               || Exempt(s.config, entries, req, ClientIp(req, s.env.parseIp).value)
            then HandleRequest(s, req) == Handled(Dunno, [])
            else CheckedAndDecided(s, req, HandleRequest(s, req))
  {
    if Checkable(req, s.env.parseIp) {
      var ip := ClientIp(req, s.env.parseIp).value;
      SkipsExactly(s, entries, req, ip);
      CheckedAnswer(s, req, Exempt(s.config, entries, req, ip));
    }
  }

  /** The raw sender is an SRS0 address whose hash verifies, of an age within the limit, of `original`. */
  ghost predicate Trusted(raw: string, srs: Srs.SrsConfig, env: Env, original: string) {
    && srs.enabled
    && exists a, d ::
         Srs.IsSrs0(raw, a, d) && Srs.Classified(a, srs, env.mac, env.today, Srs.Valid(original))
  }

  /** The original of a trusted address, and any other sender unchanged. */
  ghost predicate CheckedSender(raw: string, srs: Srs.SrsConfig, env: Env, sender: string) {
    || Trusted(raw, srs, env, sender)
    || (sender == raw && forall original: string :: !Trusted(raw, srs, env, original))
  }

  lemma CheckedSenderExactly(raw: string, config: Config, env: Env, sender: string)
    ensures CheckedSender(raw, config.srs, env, sender) <==> EffectiveSender(raw, config, env) == sender
  {
    forall original: string
      ensures Trusted(raw, config.srs, env, original)
         <==> Srs.TryUnwrap(raw, config.srs, env.mac, env.today) == Srs.Valid(original)
    {
      Srs.ExactAnswer(raw, config.srs, env.mac, env.today, Srs.Valid(original));
    }
  }

  /** The two checks made, in terms of the request, and the decision, in terms of the checks. */
  ghost predicate CheckedAndDecided(s: Situation, req: PolicyRequest, h: Handled)
    requires Checkable(req, s.env.parseIp)
  {
    && |h.checks| == 2
    && h.checks[0] == CheckHelo(ClientIp(req, s.env.parseIp).value, req.heloName.value)
    && h.checks[1].CheckMailFrom?
    && h.checks[1].ip == h.checks[0].ip && h.checks[1].helo == h.checks[0].helo
    && CheckedSender(req.sender.value, s.configAgain.srs, s.env, h.checks[1].sender)
    && exists ctx: Engine.Context ::
         && ctx.ip == s.env.showIp(h.checks[1].ip) && ctx.sender == h.checks[1].sender && ctx.helo == h.checks[1].helo
         && (req.recipient == Some(ctx.recipient) || (req.recipient.None? && ctx.recipient == ""))
         && h.action == Engine.Decide(s.configAgain, Outcome(h.checks[0], s.env), Outcome(h.checks[1], s.env), ctx)
  }

  lemma CheckedAnswer(s: Situation, req: PolicyRequest, exempt: bool)
    requires Checkable(req, s.env.parseIp)
    requires exempt <==> ShouldSkip(s.config, s.whitelist, req, ClientIp(req, s.env.parseIp).value,
                                    req.heloName.value, req.sender.value).Some?
    ensures if exempt then HandleRequest(s, req) == Handled(Dunno, [])
            else CheckedAndDecided(s, req, HandleRequest(s, req))
  {
    var ip, helo, raw := ClientIp(req, s.env.parseIp).value, req.heloName.value, req.sender.value;
    if !exempt {
      var ctx := ContextOf(s, req, ip, helo, raw);
      CheckedSenderExactly(raw, s.configAgain, s.env, ctx.sender);
      var h, m := CheckHelo(ip, helo), CheckMailFrom(ip, ctx.sender, helo);
      assert HandleRequest(s, req)
          == Handled(Engine.Decide(s.configAgain, Outcome(h, s.env), Outcome(m, s.env), ctx), [h, m]);
    }
  }

  lemma SkipsExactly(s: Situation, entries: seq<Entry>, req: PolicyRequest, ip: IpAddr)
    requires Holds(s.whitelist, entries) && req.heloName.Some? && req.sender.Some?
    ensures ShouldSkip(s.config, s.whitelist, req, ip, req.heloName.value, req.sender.value).Some?
       <==> Exempt(s.config, entries, req, ip)
  {
    var query := QueryOf(req, ip, req.heloName.value, req.sender.value);
    MatchesStrongest(s.whitelist, entries, query);
    forall d ensures MailFromDomain(req.sender.value) == d <==> IsDomainOf(d, req.sender.value) {
      DomainExactly(d, req.sender.value);
    }
    var nets := s.config.skipAddresses + s.config.relay.trustedRelays;
    assert forall net :: net in nets <==> net in s.config.skipAddresses || net in s.config.relay.trustedRelays;
  }

  /**
    An SRS-rewritten sender that verifies is checked as the original one; the whitelist was asked
    about the domain of the rewritten one, and had no entry for it.
   */
  lemma RewrittenSender(s: Situation, entries: seq<Entry>, req: PolicyRequest,
                        secret: string, day: nat, domain: string, local: string, rewriteDomain: string)
    requires Holds(s.whitelist, entries)
    requires Checkable(req, s.env.parseIp) && HandleRequest(s, req).checks != []
    requires s.configAgain.srs.enabled && secret in s.configAgain.srs.secrets
    requires '=' !in domain && '@' !in domain && '@' !in local && '@' !in rewriteDomain
    requires req.sender == Some(Srs.Rewrite(secret, day, domain, local, rewriteDomain, s.env.mac))
    requires (s.env.today - day) % Srs.DAYS_PER_CYCLE <= s.configAgain.srs.maxAgeDays
    ensures var ip, helo := ClientIp(req, s.env.parseIp).value, req.heloName.value;
            && HandleRequest(s, req).checks == [CheckHelo(ip, helo), CheckMailFrom(ip, local + ['@'] + domain, helo)]
            && forall reason ::
                 !SomeExempts(entries, Query(ip, helo, Some(rewriteDomain), req.reverseClientName), reason)
  {
    Srs.RewriteUnwraps(secret, day, domain, local, rewriteDomain, s.configAgain.srs, s.env.mac, s.env.today);
    ChecksExactly(s, entries, req);
    var checks := HandleRequest(s, req).checks;
    CheckedSenderExactly(req.sender.value, s.configAgain, s.env, checks[1].sender);
    RewrittenDomain(secret, day, domain, local, rewriteDomain, s.env.mac);
    DomainExactly(Some(rewriteDomain), req.sender.value);
    NotListed(s.config, entries, req, ClientIp(req, s.env.parseIp).value, rewriteDomain);
  }

  lemma NotListed(config: Config, entries: seq<Entry>, req: PolicyRequest, ip: IpAddr, domain: string)
    requires req.heloName.Some? && req.sender.Some? && IsDomainOf(Some(domain), req.sender.value)
    requires !Exempt(config, entries, req, ip)
    ensures forall reason ::
              !SomeExempts(entries, Query(ip, req.heloName.value, Some(domain), req.reverseClientName), reason)
  {
  }

  lemma RewrittenDomain(secret: string, day: nat, domain: string, local: string, rewriteDomain: string, mac: Srs.Mac)
    requires '@' !in rewriteDomain
    ensures MailFromDomain(Srs.Rewrite(secret, day, domain, local, rewriteDomain, mac)) == Some(rewriteDomain)
  {
    var raw := Srs.Rewrite(secret, day, domain, local, rewriteDomain, mac);
    var t := Srs.EncodeTimestamp(day);
    var payload := Srs.Payload(Srs.Srs0(Srs.ComputeHash(secret, t, domain, local, mac), t, domain, local));
    var front := Srs.PREFIX + payload;
    assert raw == Srs.PREFIX + (payload + ['@'] + rewriteDomain) == front + ['@'] + rewriteDomain;
    var cut := RSplitOnce(raw, '@').value;
    LastCutUnique(cut.0, cut.1, front, rewriteDomain, '@');
  }

  // ---------- one-line answers ----------

  ghost predicate OneLineEnv(env: Env) {
    && (forall ip :: OneLine(env.showIp(ip)))
    && (forall check :: Engine.OneLineCause(Outcome(check, env)))
  }

  lemma RequestFieldsOneLine(req: PolicyRequest)
    requires OneLineRequest(req)
    ensures req.heloName.Some? ==> OneLine(req.heloName.value)
    ensures req.sender.Some? ==> OneLine(req.sender.value)
    ensures req.recipient.Some? ==> OneLine(req.recipient.value)
  {
    AttributeOfName(HeloName);
    AttributeOfName(Sender);
    AttributeOfName(Recipient);
    assert Get(req, NameOf(HeloName)) == req.heloName;
    assert Get(req, NameOf(Sender)) == req.sender;
    assert Get(req, NameOf(Recipient)) == req.recipient;
  }

  /** Every answer is one line when the configuration, the request and the evaluator's texts are. */
  lemma AnswerOneLine(s: Situation, req: PolicyRequest)
    requires Engine.OneLineConfig(s.configAgain) && OneLineEnv(s.env) && OneLineRequest(req)
    ensures OneLine(Display(HandleRequest(s, req).action))
  {
    RequestFieldsOneLine(req);
    if Checkable(req, s.env.parseIp) {
      CheckedOneLine(s, req, ClientIp(req, s.env.parseIp).value, req.heloName.value, req.sender.value);
    } else {
      assert Display(Dunno) == "action=dunno";
    }
  }

  lemma EffectiveOneLine(sender: string, config: Config, env: Env)
    requires OneLine(sender)
    ensures OneLine(EffectiveSender(sender, config, env))
  {
    Srs.UnwrapOneLine(sender, config.srs, env.mac, env.today);
  }

  lemma CheckedOneLine(s: Situation, req: PolicyRequest, ip: IpAddr, helo: string, raw: string)
    requires Engine.OneLineConfig(s.configAgain) && OneLineEnv(s.env) && OneLine(helo) && OneLine(raw)
    requires req.recipient.Some? ==> OneLine(req.recipient.value)
    ensures OneLine(Display(HandleChecked(s, req, ip, helo, raw).action))
  {
    var ctx := ContextOf(s, req, ip, helo, raw);
    EffectiveOneLine(raw, s.configAgain, s.env);
    Engine.DecideOneLine(s.configAgain, Outcome(CheckHelo(ip, helo), s.env),
                         Outcome(CheckMailFrom(ip, ctx.sender, helo), s.env), ctx);
    assert Display(Dunno) == "action=dunno";
  }

  // ---------- whole connections ----------

  /**
    Each answer, and what was written of one whose write failed, is what the handler gives in its
    situation, whatever that is at the time.
   */
  ghost predicate AnsweredBy(c: Connection.Conn, situations: seq<Situation>) {
    && |situations| == |c.answered| + |Unwritten(c)|
    && (forall i :: 0 <= i < |c.answered| ==> c.answered[i].1 == HandleRequest(situations[i], c.answered[i].0).action)
    && (Unwritten(c) != [] ==>
          Connection.Partial(c.phase) <= Wire(HandleRequest(situations[|c.answered|], Unwritten(c)[0]).action))
  }

  /** The request whose answer could not be written, if any. */
  function Unwritten(c: Connection.Conn): seq<PolicyRequest> {
    if c.phase.Closed? && c.phase.reason.WriteFailed? then [c.phase.reason.request] else []
  }

  ghost predicate OneLineSituation(s: Situation) {
    Engine.OneLineConfig(s.configAgain) && OneLineEnv(s.env)
  }

  lemma AnsweredOneLine(c: Connection.Conn, situations: seq<Situation>, lossy: seq<Byte> -> string)
    requires KeepsLines(lossy) && AnsweredBy(c, situations)
    requires forall s <- situations :: OneLineSituation(s)
    requires Connection.Consumed(c) <= Drain(c.received, Parser(lossy)).requests
    ensures forall a <- Connection.Actions(c.answered) :: Solid(Display(a))
    ensures Unwritten(c) != [] ==> Solid(Display(HandleRequest(situations[|c.answered|], Unwritten(c)[0]).action))
  {
    ConsumedOneLine(c, lossy);
    forall a <- Connection.Actions(c.answered) ensures Solid(Display(a)) {
      var i :| 0 <= i < |c.answered| && Connection.Actions(c.answered)[i] == a;
      AnsweredSolid(c, situations, i);
    }
    if Unwritten(c) != [] {
      UnwrittenSolid(c, situations);
    }
  }

  lemma AnsweredSolid(c: Connection.Conn, situations: seq<Situation>, i: nat)
    requires AnsweredBy(c, situations) && i < |c.answered|
    requires forall s <- situations :: OneLineSituation(s)
    requires forall req <- Connection.Consumed(c) :: OneLineRequest(req)
    ensures Solid(Display(c.answered[i].1))
  {
    assert Connection.Consumed(c)[i] == c.answered[i].0;
    AnswerSolid(situations[i], c.answered[i].0);
  }

  lemma UnwrittenSolid(c: Connection.Conn, situations: seq<Situation>)
    requires AnsweredBy(c, situations) && Unwritten(c) != []
    requires forall s <- situations :: OneLineSituation(s)
    requires forall req <- Connection.Consumed(c) :: OneLineRequest(req)
    ensures Solid(Display(HandleRequest(situations[|c.answered|], Unwritten(c)[0]).action))
  {
    assert Connection.Consumed(c)[|c.answered|] == Unwritten(c)[0];
    AnswerSolid(situations[|c.answered|], Unwritten(c)[0]);
  }

  lemma ConsumedOneLine(c: Connection.Conn, lossy: seq<Byte> -> string)
    requires KeepsLines(lossy) && Connection.Consumed(c) <= Drain(c.received, Parser(lossy)).requests
    ensures forall req <- Connection.Consumed(c) :: OneLineRequest(req)
  {
    DrainedOneLine(c.received, lossy);
  }

  lemma AnswerSolid(s: Situation, req: PolicyRequest)
    requires OneLineSituation(s) && OneLineRequest(req)
    ensures Solid(Display(HandleRequest(s, req).action))
  {
    AnswerOneLine(s, req);
    OneLineSolid(Display(HandleRequest(s, req).action));
  }

  /** The blocks a client reads from a connection, and the rest that is none. */
  function Delivered(c: Connection.Conn, situations: seq<Situation>): (seq<seq<Byte>>, seq<Byte>)
    requires |situations| == |c.answered| + |Unwritten(c)|
  {
    var actions, partial := Connection.Actions(c.answered), Connection.Partial(c.phase);
    if Unwritten(c) == [] then (Blocks(actions), [])
    else
      var last := HandleRequest(situations[|c.answered|], Unwritten(c)[0]).action;
      if partial == Wire(last) then (Blocks(actions + [last]), []) else (Blocks(actions), partial)
  }

  /**
    Whatever bytes a client sends, whenever it does, and whatever is configured, reloaded and
    evaluated meanwhile: all that it is sent is read, in the only possible way, as exactly one block
    per answered request, in their order, and then, when a write failed, as what was written of that
    answer: an incomplete block, or a last complete one when the write failed after its last byte.
   */
  lemma EndToEndFraming(events: seq<Connection.Event>, situations: seq<Situation>, lossy: seq<Byte> -> string)
    requires KeepsLines(lossy) && forall s <- situations :: OneLineSituation(s)
    requires AnsweredBy(Connection.Run(Connection.START, events, Parser(lossy)), situations)
    ensures var c := Connection.Run(Connection.START, events, Parser(lossy));
            forall blocks, rest :: IsFraming(c.sent, blocks, rest) <==> (blocks, rest) == Delivered(c, situations)
  {
    var c := Connection.Run(Connection.START, events, Parser(lossy));
    Connection.ConnectionRuns(events, [], Parser(lossy));
    assert c.received + [] == c.received;
    AnsweredOneLine(c, situations, lossy);
    DeliveredFraming(c, situations);
    var d := Delivered(c, situations);
    forall blocks, rest | IsFraming(c.sent, blocks, rest) ensures (blocks, rest) == d {
      FramingUnique(c.sent, blocks, rest, d.0, d.1);
    }
  }

  lemma DeliveredFraming(c: Connection.Conn, situations: seq<Situation>)
    requires AnsweredBy(c, situations)
    requires c.sent == Wires(Connection.Actions(c.answered)) + Connection.Partial(c.phase)
    requires forall a <- Connection.Actions(c.answered) :: Solid(Display(a))
    requires Unwritten(c) != [] ==> Solid(Display(HandleRequest(situations[|c.answered|], Unwritten(c)[0]).action))
    ensures IsFraming(c.sent, Delivered(c, situations).0, Delivered(c, situations).1)
  {
    var actions := Connection.Actions(c.answered);
    if Unwritten(c) == [] {
      assert Connection.Partial(c.phase) == [] && c.sent == Wires(actions);
      AnswersFraming(actions);
    } else {
      var last := HandleRequest(situations[|c.answered|], Unwritten(c)[0]).action;
      CutShortFraming(actions, last, Connection.Partial(c.phase));
    }
  }

  // ---------- reloads ----------

  /** A configuration with the whitelist built from it. */
  datatype Generation = Generation(config: Config, whitelist: Whitelist)

  /** The world of a daemon started with this configuration; no reload replaces its evaluator. */
  function Started(env: Env, config: Config): Env {
    env.(evaluator := Evaluator(config.overrides, config.spf))
  }

  /** The situation of a request that read these generations, in a daemon started with generation 0. */
  function SituationOf(generations: nat -> Generation, p: Reload.Progress, env: Env): Situation
    requires p.Three?
  {
    Situation(generations(p.config).config, generations(p.whitelist).whitelist, generations(p.configAgain).config,
              Started(env, generations(0).config))
  }

  /** The answer of a daemon started with `first` and reloaded, undisturbed, to generation `g`. */
  function Reloaded(first: Config, g: Generation, env: Env, req: PolicyRequest): Handled {
    HandleRequest(Situation(g.config, g.whitelist, g.config, Started(env, first)), req)
  }

  /**
    A request during which the configuration cell keeps its value, and which reads the whitelist
    outside the reloader's two stores, is answered by that generation's configuration and whitelist,
    and generation 0's evaluator.
   */
  lemma UndisturbedAnswer(generations: nat -> Generation, events: seq<Reload.Event>, id: nat, i: nat, j: nat, k: nat,
                          env: Env, req: PolicyRequest)
    requires var s := Reload.Run(Reload.START, events);
             id in s.requests && s.requests[id].Three? && Reload.ReadAt(events, id, s.requests[id], i, j, k)
    requires Reload.At(events, i).config == Reload.At(events, k).config && Reload.At(events, j).reloader != Reload.Half
    ensures var p := Reload.Run(Reload.START, events).requests[id];
            HandleRequest(SituationOf(generations, p, env), req)
            == Reloaded(generations(0).config, generations(Reload.At(events, i).config), env, req)
  {
    Reload.AgreeExactly(events, id, Reload.Run(Reload.START, events).requests[id], i, j, k);
  }

  // ---------- reload against restart ----------

  ghost predicate AnswersAlike(first: Config, g: Generation, env: Env, req: PolicyRequest) {
    Reloaded(first, g, env, req) == Reloaded(g.config, g, env, req)
  }

  /** Whatever DNS and the library say, and whatever is asked, a reload answers like a restart. */
  ghost predicate LikeRestarted(first: Config, g: Generation, env: Env) {
    forall spf: Spf, req: PolicyRequest :: AnswersAlike(first, g, env.(spf := spf), req)
  }

  /** The same limits, and the same records under lowercased names. */
  predicate SameEvaluator(c: Config, c': Config) {
    c.spf == c'.spf && Effective(c.overrides) == Effective(c'.overrides)
  }

  /** Every complete request is exempt. */
  ghost predicate AllExempt(g: Generation, parseIp: string -> Option<IpAddr>) {
    forall req: PolicyRequest :: Checkable(req, parseIp) ==> Skipped(g, req, parseIp)
  }

  predicate Skipped(g: Generation, req: PolicyRequest, parseIp: string -> Option<IpAddr>)
    requires Checkable(req, parseIp)
  {
    ShouldSkip(g.config, g.whitelist, req, ClientIp(req, parseIp).value, req.heloName.value, req.sender.value).Some?
  }

  lemma SameOutcome(first: Config, config: Config, env: Env, check: Check)
    requires SameEvaluator(first, config)
    ensures Outcome(check, Started(env, first)) == Outcome(check, Started(env, config))
  {
    DecorateAlikeExactly(first.overrides, config.overrides);
    SameEvaluation(env.spf.evaluations(config.spf, check), Lookup(env.spf.dns, first.overrides),
                   Lookup(env.spf.dns, config.overrides), [], env.spf.patience);
  }

  /** What a request that is not skipped gets. */
  lemma ReloadedAnswer(first: Config, g: Generation, env: Env, req: PolicyRequest)
    returns (ctx: Engine.Context, h: Check, m: Check)
    requires Checkable(req, env.parseIp) && !Skipped(g, req, env.parseIp)
    ensures ctx == ContextOf(Situation(g.config, g.whitelist, g.config, env), req,
                             ClientIp(req, env.parseIp).value, req.heloName.value, req.sender.value)
    ensures h.CheckHelo? && m.CheckMailFrom?
    ensures forall c: Config {:trigger Reloaded(c, g, env, req)} ::
              Reloaded(c, g, env, req)
              == Handled(Engine.Decide(g.config, Outcome(h, Started(env, c)), Outcome(m, Started(env, c)), ctx), [h, m])
  {
    var ip, helo, raw := ClientIp(req, env.parseIp).value, req.heloName.value, req.sender.value;
    ctx := ContextOf(Situation(g.config, g.whitelist, g.config, env), req, ip, helo, raw);
    h, m := CheckHelo(ip, helo), CheckMailFrom(ip, ctx.sender, helo);
  }

  lemma SkippedAlike(first: Config, g: Generation, env: Env, req: PolicyRequest)
    requires !Checkable(req, env.parseIp) || Skipped(g, req, env.parseIp)
    ensures AnswersAlike(first, g, env, req)
  {
  }

  lemma CheckedAlike(first: Config, g: Generation, env: Env, req: PolicyRequest)
    requires Checkable(req, env.parseIp) && !Skipped(g, req, env.parseIp)
    requires SameEvaluator(first, g.config) || !Engine.Consults(g.config)
    ensures AnswersAlike(first, g, env, req)
  {
    var ctx, h, m := ReloadedAnswer(first, g, env, req);
    if SameEvaluator(first, g.config) {
      SameOutcome(first, g.config, env, h);
      SameOutcome(first, g.config, env, m);
    } else {
      Engine.ConsultsExactly(g.config, ctx);
    }
  }

  /** An SPF library that gives `helo` and `mailFrom` to the evaluator of `config`, and passes to that of `first`. */
  lemma Distinguishing(first: Config, config: Config, helo: SpfOutcome, mailFrom: SpfOutcome, env: Env)
    returns (spf: Spf)
    requires !SameEvaluator(first, config)
    ensures forall check: Check ::
              && Outcome(check, Started(env.(spf := spf), config)) == (if check.CheckHelo? then helo else mailFrom)
              && Outcome(check, Started(env.(spf := spf), first)) == Engine.Plain(Pass)
  {
    var pass := Engine.Plain(Pass);
    if first.spf != config.spf {
      var evaluations: (SpfConfig, Check) -> Strategy<SpfOutcome> := (limits: SpfConfig, check: Check) =>
        (answers: seq<Answer>) =>
          Done(if limits == first.spf then pass else if check.CheckHelo? then helo else mailFrom);
      spf := Spf(_ => Failed("no such name"), evaluations, 0, pass);
    } else {
      var dns, q := ToldApart(first.overrides, config.overrides);
      var stale := Lookup(dns, first.overrides)(q);
      var evaluations: (SpfConfig, Check) -> Strategy<SpfOutcome> := (limits: SpfConfig, check: Check) =>
        (answers: seq<Answer>) =>
          if answers == [] then Ask(q)
          else Done(if answers[0] == stale then pass else if check.CheckHelo? then helo else mailFrom);
      spf := Spf(dns, evaluations, 1, pass);
    }
  }

  /**
    Exactly when a daemon that was reloaded answers as one restarted with the same configuration,
    over all requests, DNS contents and SPF evaluations: when the limits and the effective override
    records are those it was started with, or nothing is ever evaluated or no outcome consulted.
   */
  lemma ReloadIsRestartExactly(first: Config, g: Generation, env: Env)
    ensures LikeRestarted(first, g, env)
       <==> SameEvaluator(first, g.config) || !Engine.Consults(g.config) || AllExempt(g, env.parseIp)
  {
    if SameEvaluator(first, g.config) || !Engine.Consults(g.config) || AllExempt(g, env.parseIp) {
      forall spf: Spf, req: PolicyRequest ensures AnswersAlike(first, g, env.(spf := spf), req) {
        if Checkable(req, env.parseIp) && !Skipped(g, req, env.parseIp) {
          CheckedAlike(first, g, env.(spf := spf), req);
        } else {
          SkippedAlike(first, g, env.(spf := spf), req);
        }
      }
    } else {
      var req: PolicyRequest :| Checkable(req, env.parseIp) && !Skipped(g, req, env.parseIp);
      var spf := DifferentAnswer(first, g, env, req);
    }
  }

  lemma DifferentAnswer(first: Config, g: Generation, env: Env, req: PolicyRequest) returns (spf: Spf)
    requires Checkable(req, env.parseIp) && !Skipped(g, req, env.parseIp)
    requires !SameEvaluator(first, g.config) && Engine.Consults(g.config)
    ensures !AnswersAlike(first, g, env.(spf := spf), req)
  {
    var ctx := ContextOf(Situation(g.config, g.whitelist, g.config, env), req,
                         ClientIp(req, env.parseIp).value, req.heloName.value, req.sender.value);
    var helo, mailFrom := Engine.Telling(g.config, ctx);
    spf := Distinguishing(first, g.config, helo, mailFrom, env);
    var ctx', h, m := ReloadedAnswer(first, g, env.(spf := spf), req);
    assert ctx' == ctx;
  }

  /** DNS publishes `v=spf1 -all` for all names; the library passes just what `v=spf1 +all` allows. */
  function AllOrNothing(domain: string): Spf {
    Spf(_ => Records(["v=spf1 -all"]),
        (limits: SpfConfig, check: Check) => (answers: seq<Answer>) =>
          if answers == [] then Ask(AskTxt(domain))
          else Done(Engine.Plain(if answers[0] == Records(["v=spf1 +all"]) then Pass else FailResult(""))),
        1, Engine.Plain(Temperror))
  }

  /** An override added by a reload has no effect: the mail it should let through is still rejected. */
  lemma StaleOverride(first: Config, g: Generation, env: Env, req: PolicyRequest, domain: string)
    requires first.overrides == map[] && g.config.overrides == map[domain := "v=spf1 +all"] && Lower(domain) == domain
    requires g.config.policy.mailFromReject == Fail
    requires Checkable(req, env.parseIp) && !Skipped(g, req, env.parseIp) && env.spf == AllOrNothing(domain)
    ensures Reloaded(first, g, env, req).action.Reject?
    ensures !Reloaded(g.config, g, env, req).action.Reject?
  {
    var ctx, h, m := ReloadedAnswer(first, g, env, req);
    StaleOutcome(first, g.config, env, h, domain);
    StaleOutcome(first, g.config, env, m, domain);
    FailOrPass(g.config, ctx);
  }

  lemma FailOrPass(cfg: Config, ctx: Engine.Context)
    requires cfg.policy.mailFromReject == Fail
    ensures Engine.Decide(cfg, Engine.Plain(FailResult("")), Engine.Plain(FailResult("")), ctx).Reject?
    ensures !Engine.Decide(cfg, Engine.Plain(Pass), Engine.Plain(Pass), ctx).Reject?
  {
  }

  lemma StaleOutcome(first: Config, config: Config, env: Env, check: Check, domain: string)
    requires first.overrides == map[] && config.overrides == map[domain := "v=spf1 +all"] && Lower(domain) == domain
    requires env.spf == AllOrNothing(domain)
    ensures Outcome(check, Started(env, first)) == Engine.Plain(FailResult(""))
    ensures Outcome(check, Started(env, config)) == Engine.Plain(Pass)
  {
    assert "v=spf1 +all"[7] != "v=spf1 -all"[7];
    assert ["v=spf1 +all"][0] != ["v=spf1 -all"][0];
  }
}
