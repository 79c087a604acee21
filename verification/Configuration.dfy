/** The parts of the configuration that requests consult, and SPF results. */
module Configuration {
  import opened Wrappers
  import Srs
  import Whitelist
  import Override

  datatype RejectPolicy = Fail | SoftFail | SpfNotPass | Never | NoCheck

  datatype PolicyConfig = PolicyConfig(
    heloReject: RejectPolicy, mailFromReject: RejectPolicy, permerrorReject: bool, temperrorDefer: bool)

  datatype RelayConfig = RelayConfig(exemptSaslAuthenticated: bool, trustedRelays: seq<Whitelist.IpNet>)

  datatype HeaderMode = SpfHeader | NoHeader

  datatype HeaderConfig = HeaderConfig(mode: HeaderMode, hideReceiver: bool, authservId: Option<string>)

  datatype MessageTemplates = MessageTemplates(
    fail: string, softfail: string, neutral: string, none: string, permerror: string, temperror: string)

  /** The evaluator's limits. */
  datatype SpfConfig = SpfConfig(lookupTimeoutSecs: nat, voidLimit: nat, maxLookups: nat)

  datatype Config = Config(
    listen: seq<string>,
    spf: SpfConfig,
    overrides: Override.Overrides,
    policy: PolicyConfig,
    skipAddresses: seq<Whitelist.IpNet>,
    srs: Srs.SrsConfig,
    relay: RelayConfig,
    header: HeaderConfig,
    messages: MessageTemplates)

  datatype Identity = HeloIdentity | MailFromIdentity

  datatype SpfResult =
    | NoPolicy | Neutral | Pass | FailResult(explanation: string) | Softfail | Temperror | Permerror

  /** What the evaluator says led to its result: a matched mechanism or an error, as text. */
  datatype Cause = Match(mechanism: string) | Error(text: string)

  datatype SpfOutcome = SpfOutcome(identity: Identity, result: SpfResult, cause: Option<Cause>)

  /** The result words of section 2.6 of RFC 7208. */
  function ResultText(result: SpfResult): string {
    match result
    case NoPolicy => "none"
    case Neutral => "neutral"
    case Pass => "pass"
    case FailResult(_) => "fail"
    case Softfail => "softfail"
    case Temperror => "temperror"
    case Permerror => "permerror"
  }

  /** Exactly the words of that section are used. */
  lemma ResultWords(word: string)
    ensures (exists result :: ResultText(result) == word)
       <==> word in {"none", "neutral", "pass", "fail", "softfail", "temperror", "permerror"}
  {
    assert ResultText(NoPolicy) == "none" && ResultText(Neutral) == "neutral" && ResultText(Pass) == "pass";
    assert ResultText(FailResult("")) == "fail" && ResultText(Softfail) == "softfail";
    assert ResultText(Temperror) == "temperror" && ResultText(Permerror) == "permerror";
  }
}
