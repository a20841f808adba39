/**
 * `ConfigChannel`: the cache of the most recently accepted Config, and the filter
 * that decides which posted messages trigger a reload.
 *
 * Reading the channel's history and fetching its latest message are Discord I/O:
 * the text they would produce is a parameter (`None` when there is no such
 * message). Requesting a hot reload and replying to a moderator are recorded as
 * events on the cache object.
 */
module ConfigChannels {
  import opened Wrappers
  import opened ConfigModels
  import opened Validation
  import opened ConfigParsing

  /**
   * The parts of a Discord message the update filter looks at. Its text is not
   * among them: a reload reads the channel's latest message, fetched separately.
   */
  datatype Message = Message(channelId: int, authorIsBot: bool)

  /** The capabilities the parser is given: the html-like tag test, the channel lookup and the role resolver. */
  datatype ParserEnv = ParserEnv(
    looksLikeTag: string -> bool,
    resolveChannel: nat -> Option<Entity>,
    resolveRole: string -> Option<Entity>
  )

  /** Why no config could be loaded. */
  datatype LoadError =
    | NoCandidate
    | ParseFailed(parseError: ParseError)
    | ValidationFailed(validationError: ValidationError)

  /**
   * What the cache does to the outside world: a hot reload request, the success
   * message posted in the config channel after it, or an error reply.
   */
  datatype Event = HotReloadRequested | SuccessPosted | ErrorReply(error: LoadError)

  /** Parse and then validate a config message's text. */
  function Load(env: ParserEnv, text: Option<string>): (r: Result<Config, LoadError>)
    ensures r.Ok? ==> IsValidConfig(r.value)
  {
    match text
    case None => Err(NoCandidate)
    case Some(t) =>
      match Parse(t, env.looksLikeTag, env.resolveChannel, env.resolveRole)
      case Err(e) => Err(ParseFailed(e))
      case Ok(config) =>
        match Validate(config.channelPruningPolicies)
        case Fail(e) => Err(ValidationFailed(e))
        case Pass => Ok(config)
  }

  /**
   * What loading reports: a config exactly when there is a text, it parses and the
   * result passes validation; otherwise the missing text, the parse error or the
   * validation error, in that order.
   */
  lemma LoadOutcome(env: ParserEnv, text: Option<string>)
    ensures Load(env, text).Ok? <==>
      text.Some? && Parse(text.value, env.looksLikeTag, env.resolveChannel, env.resolveRole).Ok? &&
      IsValidConfig(Parse(text.value, env.looksLikeTag, env.resolveChannel, env.resolveRole).value)
    ensures Load(env, text).Ok? ==>
      Load(env, text).value == Parse(text.value, env.looksLikeTag, env.resolveChannel, env.resolveRole).value
    ensures text.None? ==> Load(env, text) == Err(NoCandidate)
    ensures text.Some? && Parse(text.value, env.looksLikeTag, env.resolveChannel, env.resolveRole).Err? ==>
      Load(env, text) == Err(ParseFailed(Parse(text.value, env.looksLikeTag, env.resolveChannel, env.resolveRole).error))
    ensures (text.Some? && Parse(text.value, env.looksLikeTag, env.resolveChannel, env.resolveRole).Ok? &&
      !IsValidConfig(Parse(text.value, env.looksLikeTag, env.resolveChannel, env.resolveRole).value)) ==>
      Load(env, text) == Err(ValidationFailed(
        Validate(Parse(text.value, env.looksLikeTag, env.resolveChannel, env.resolveRole).value.channelPruningPolicies).error))
  {
  }

  /** Whatever is loaded is a valid config. */
  lemma LoadedConfigIsValid(env: ParserEnv, text: Option<string>)
    ensures Load(env, text).Ok? ==>
      AllPositive(Load(env, text).value.channelPruningPolicies) &&
      DistinctIds(Load(env, text).value.channelPruningPolicies)
  {
    if Load(env, text).Ok? {
      ValidateSucceedsIff(Load(env, text).value.channelPruningPolicies);
    }
  }

  class ConfigChannel {
    const configChannelId: int
    const env: ParserEnv

    /** `_latest_valid_config`. */
    var latestValidConfig: Option<Config>

    /** Hot-reload requests and moderator replies, oldest first. */
    var events: seq<Event>

    /** Only a config that passed validation is ever cached. */
    ghost predicate Valid()
      reads this
    {
      latestValidConfig.Some? ==> IsValidConfig(latestValidConfig.value)
    }

    constructor (configChannelId: int, env: ParserEnv)
      ensures this.configChannelId == configChannelId && this.env == env
      ensures latestValidConfig == None && events == []
      ensures Valid()
    {
      this.configChannelId := configChannelId;
      this.env := env;
      latestValidConfig := None;
      events := [];
    }

    /** A message posted in the config channel by someone other than a bot. */
    predicate IsUpdateTrigger(message: Message) {
      message.channelId == configChannelId && !message.authorIsBot
    }

    /**
     * `get_config`: the cached config when there is one, unchanged; otherwise the
     * startup candidate is parsed and validated, and cached only if it passes.
     */
    method GetConfig(startupText: Option<string>) returns (r: Result<Config, LoadError>)
      requires Valid()
      modifies this
      ensures Valid()
      ensures events == old(events)
      ensures r.Ok? ==> IsValidConfig(r.value)
      ensures old(latestValidConfig).Some? ==>
        r == Ok(old(latestValidConfig).value) && latestValidConfig == old(latestValidConfig)
      ensures old(latestValidConfig).None? ==> r == Load(env, startupText)
      ensures old(latestValidConfig).None? ==>
        latestValidConfig == (if r.Ok? then Some(r.value) else None)
    {
      if latestValidConfig.Some? {
        return Ok(latestValidConfig.value);
      }
      r := LoadStartupConfig(startupText);
    }

    /** The startup path of `get_config`: load the candidate and cache it only if it passes. */
    method LoadStartupConfig(startupText: Option<string>) returns (r: Result<Config, LoadError>)
      requires Valid()
      modifies this
      ensures Valid()
      ensures events == old(events)
      ensures r == Load(env, startupText)
      ensures r.Ok? ==> latestValidConfig == Some(r.value)
      ensures r.Err? ==> latestValidConfig == old(latestValidConfig)
    {
      r := Attempt(startupText);
      if r.Ok? {
        latestValidConfig := Some(r.value);
      }
    }

    /** Parse, then run the validator; changes nothing. */
    method Attempt(text: Option<string>) returns (r: Result<Config, LoadError>)
      ensures r == Load(env, text)
      ensures r.Ok? ==> IsValidConfig(r.value)
    {
      if text.None? {
        return Err(NoCandidate);
      }
      var parsed := Parse(text.value, env.looksLikeTag, env.resolveChannel, env.resolveRole);
      if parsed.Err? {
        return Err(ParseFailed(parsed.error));
      }
      var outcome := ValidateConfig(parsed.value);
      if outcome.Fail? {
        return Err(ValidationFailed(outcome.error));
      }
      return Ok(parsed.value);
    }

    /**
     * `load_latest_config`: on success the config is cached, a hot reload is
     * requested and a success message is posted; on failure the cache is kept and
     * the moderator gets the error.
     */
    method LoadLatestConfig(latestText: Option<string>)
      requires Valid()
      modifies this
      ensures Valid()
      ensures Load(env, latestText).Ok? ==>
        latestValidConfig == Some(Load(env, latestText).value) &&
        events == old(events) + [HotReloadRequested, SuccessPosted]
      ensures Load(env, latestText).Err? ==>
        latestValidConfig == old(latestValidConfig) &&
        events == old(events) + [ErrorReply(Load(env, latestText).error)]
    {
      var r := Attempt(latestText);
      if r.Ok? {
        latestValidConfig := Some(r.value);
        events := events + [HotReloadRequested, SuccessPosted];
      } else {
        events := events + [ErrorReply(r.error)];
      }
    }

    /**
     * `handle_possible_config_update`: messages from other channels and from bots
     * are ignored and change nothing; any other message triggers a load of the
     * latest message.
     */
    method HandlePossibleConfigUpdate(message: Message, latestText: Option<string>) returns (handled: bool)
      requires Valid()
      modifies this
      ensures Valid()
      ensures handled == IsUpdateTrigger(message)
      ensures !handled ==> latestValidConfig == old(latestValidConfig) && events == old(events)
      ensures handled && Load(env, latestText).Ok? ==>
        latestValidConfig == Some(Load(env, latestText).value) &&
        events == old(events) + [HotReloadRequested, SuccessPosted]
      ensures handled && Load(env, latestText).Err? ==>
        latestValidConfig == old(latestValidConfig) &&
        events == old(events) + [ErrorReply(Load(env, latestText).error)]
    {
      if message.channelId != configChannelId {
        return false;
      }
      if message.authorIsBot {
        return false;
      }
      LoadLatestConfig(latestText);
      return true;
    }
  }

  /**
   * Once a config is cached, startup loading is never consulted again: two calls
   * in a row return the same config, whatever candidates they are given.
   */
  method GetConfigTwice(channel: ConfigChannel, first: Option<string>, second: Option<string>)
    returns (a: Result<Config, LoadError>, b: Result<Config, LoadError>)
    requires channel.Valid()
    modifies channel
    ensures a.Ok? ==> b == a
    ensures a.Err? ==> b == Load(channel.env, second)
  {
    a := channel.GetConfig(first);
    b := channel.GetConfig(second);
  }
}
