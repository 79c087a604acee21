/** Validating a loaded configuration, and what that guarantees for rendered messages. */
module Validation {
  import opened Wrappers
  import opened Text
  import opened Configuration
  import opened Template
  import Rendering
  import Engine

  datatype ConfigError =
    | NoListenAddresses
    | SrsEnabledWithoutSecrets
    | InvalidOverrideRecord(domain: string, record: string)
    | UnknownMessagePlaceholder(name: string, placeholder: string)

  /** The templates with their names, in the order they are checked. */
  function Named(m: MessageTemplates): seq<(string, string)> {
    [("fail", m.fail), ("softfail", m.softfail), ("neutral", m.neutral),
     ("none", m.none), ("permerror", m.permerror), ("temperror", m.temperror)]
  }

  /** `isRecord` is the SPF record parser's verdict. */
  ghost predicate Settled(cfg: Config, isRecord: string -> bool) {
    && cfg.listen != []
    && (cfg.srs.enabled ==> cfg.srs.secrets != [])
    && (forall domain <- cfg.overrides :: isRecord(cfg.overrides[domain]))
  }

  ghost predicate ValidConfig(cfg: Config, isRecord: string -> bool) {
    Settled(cfg, isRecord) && forall t <- Named(cfg.messages) :: Accepted(t.1)
  }

  /** The error of the first check that fails; of the override records, any that fails. */
  ghost predicate FirstError(cfg: Config, isRecord: string -> bool, e: ConfigError) {
    match e
    case NoListenAddresses => cfg.listen == []
    case SrsEnabledWithoutSecrets => cfg.listen != [] && cfg.srs.enabled && cfg.srs.secrets == []
    case InvalidOverrideRecord(domain, record) =>
      && cfg.listen != [] && (cfg.srs.enabled ==> cfg.srs.secrets != [])
      && domain in cfg.overrides && cfg.overrides[domain] == record && !isRecord(record)
    case UnknownMessagePlaceholder(name, placeholder) =>
      && Settled(cfg, isRecord)
      && exists i :: 0 <= i < |Named(cfg.messages)| && FirstBadTemplate(Named(cfg.messages), i, name, placeholder)
  }

  ghost predicate FirstBadTemplate(templates: seq<(string, string)>, i: nat, name: string, placeholder: string)
    requires i < |templates|
  {
    && templates[i].0 == name
    && (exists at :: Reports(templates[i].1, at, placeholder))
    && forall j :: 0 <= j < i ==> Accepted(templates[j].1)
  }

  /**
    Validation succeeds exactly on valid configurations, and otherwise gives the first error. The
    override records are looked at in no particular order.
   */
  method Validate(cfg: Config, isRecord: string -> bool) returns (r: Result<(), ConfigError>)
    ensures r.Ok? <==> ValidConfig(cfg, isRecord)
    ensures r.Err? ==> FirstError(cfg, isRecord, r.error)
  {
    if cfg.listen == [] {
      return Err(NoListenAddresses);
    }
    if cfg.srs.enabled && cfg.srs.secrets == [] {
      return Err(SrsEnabledWithoutSecrets);
    }
    var left := cfg.overrides;
    while left != map[]
      invariant left.Keys <= cfg.overrides.Keys
      invariant forall domain <- cfg.overrides :: domain in left || isRecord(cfg.overrides[domain])
      decreases |left|
    {
      var domain :| domain in left;
      if !isRecord(cfg.overrides[domain]) {
        return Err(InvalidOverrideRecord(domain, cfg.overrides[domain]));
      }
      left := left - {domain};
    }
    var templates := Named(cfg.messages);
    r := ValidateTemplates(templates);
    if r.Ok? {
      assert forall t <- templates :: Accepted(t.1);
    }
  }

  /** The loop over the templates. */
  method ValidateTemplates(templates: seq<(string, string)>) returns (r: Result<(), ConfigError>)
    ensures r.Ok? <==> forall t <- templates :: Accepted(t.1)
    ensures r.Err? ==> r.error.UnknownMessagePlaceholder?
                       && exists i :: 0 <= i < |templates|
                                   && FirstBadTemplate(templates, i, r.error.name, r.error.placeholder)
  {
    for i := 0 to |templates|
      invariant forall j :: 0 <= j < i ==> Accepted(templates[j].1)
    {
      var checked := ValidatePlaceholders(templates[i].1);
      if checked.Err? {
        assert templates[i] in templates;
        assert FirstBadTemplate(templates, i, templates[i].0, checked.error);
        return Err(UnknownMessagePlaceholder(templates[i].0, checked.error));
      }
    }
    r := Ok(());
  }

  /** The template of a result that is not a pass is the one configured under the result's own word. */
  lemma TemplateByName(messages: MessageTemplates, result: SpfResult, template: string)
    requires !result.Pass?
    ensures Engine.MessageTemplate(messages, result) == template <==> (ResultText(result), template) in Named(messages)
  {
  }

  lemma ValidTemplates(cfg: Config, isRecord: string -> bool, result: SpfResult)
    requires ValidConfig(cfg, isRecord)
    ensures Accepted(Engine.MessageTemplate(cfg.messages, result))
  {
    var template := Engine.MessageTemplate(cfg.messages, result);
    if result.Pass? {
      BraceFreeAccepted(template);
    } else {
      TemplateByName(cfg.messages, result, template);
      MemberAccepted(Named(cfg.messages), (ResultText(result), template));
    }
  }

  lemma BraceFreeAccepted(t: string)
    requires Rendering.BraceFree(t)
    ensures Accepted(t)
  {
  }

  lemma MemberAccepted(templates: seq<(string, string)>, t: (string, string))
    requires t in templates && forall u <- templates :: Accepted(u.1)
    ensures Accepted(t.1)
  {
  }

  /**
    Under a validated configuration every message is its template with all placeholders replaced at
    once, provided sender and helo stay apart from the placeholders replaced after them.
   */
  lemma ValidatedMessage(cfg: Config, isRecord: string -> bool, result: SpfResult, ctx: Engine.Context)
    requires ValidConfig(cfg, isRecord)
    requires Rendering.BraceFree(ctx.ip)
    requires Rendering.Separable(ctx.sender, ctx.helo)
    ensures Engine.RenderMessage(cfg.messages, result, ctx)
         == Rendering.Simultaneous(Engine.MessageTemplate(cfg.messages, result),
              Rendering.Values(ResultText(result), ctx.sender, ctx.helo, ctx.ip, ctx.recipient))
  {
    ValidTemplates(cfg, isRecord, result);
    ResultBraceFree(result);
    Rendering.RenderIsSimultaneous(Engine.MessageTemplate(cfg.messages, result), Engine.ValuesFor(result, ctx));
  }

  lemma ResultBraceFree(result: SpfResult)
    ensures Rendering.BraceFree(ResultText(result))
  {
  }
}
