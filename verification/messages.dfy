/**
 * The cluster messages that keep every node's revision index in step
 * (`DefaultIndexMessageService`): a message is `<TYPE>|<repository id>` on the channel
 * `INDEX_CHANNEL`; receiving one first re-validates the cached repository map and then adds
 * or removes the repository's index entries.
 */
module IndexMessages {
  import opened Wrappers
  import opened JavaLang
  import RM = RepositoryManagers

  const INDEX_CHANNEL: string := "INDEX_CHANNEL"

  const SEPARATOR: char := '|'

  datatype MessageType = AddIndex | RemoveIndex

  /** The enum constant's `name()`. */
  function TypeName(t: MessageType): string {
    match t
    case AddIndex => "ADD_INDEX"
    case RemoveIndex => "REMOVE_INDEX"
  }

  /** `IndexMessageType.valueOf`: only an exact constant name is accepted. */
  function TypeOf(name: string): (r: Option<MessageType>)
    ensures forall t :: r == Some(t) <==> name == TypeName(t)
  {
    if name == "ADD_INDEX" then Some(AddIndex)
    else if name == "REMOVE_INDEX" then Some(RemoveIndex)
    else None
  }

  /** `createMessage`: the type's name, the separator, and the id in decimal. */
  function CreateMessage(t: MessageType, repositoryId: int): (r: string)
    ensures Split(r, SEPARATOR) == [TypeName(t), IntToString(repositoryId)]
  {
    TypeNameShape(t);
    IdShape(repositoryId);
    SplitTwo(TypeName(t), IntToString(repositoryId));
    TypeName(t) + [SEPARATOR] + IntToString(repositoryId)
  }

  /** A parsed message: its type and the still-unparsed repository id. */
  datatype ParsedMessage = ParsedMessage(kind: MessageType, param: string)

  /** The `IllegalArgumentException`s of `parseClusterMessage`: a blank message, fewer than two
      non-blank tokens, or a first token that names no message type. */
  datatype ParseError = BlankMessage | MalformedMessage | UnknownType

  /** `parseClusterMessage`: split on the separator; the first token is the type and the second
      the parameter, anything after them is ignored. */
  function Parse(message: Option<string>): (r: Result<ParsedMessage, ParseError>)
    ensures r == Err(BlankMessage) <==> IsBlankOpt(message)
    ensures r.Ok? <==>
              && !IsBlankOpt(message)
              && |Split(message.value, SEPARATOR)| >= 2
              && !IsBlank(Split(message.value, SEPARATOR)[1])
              && TypeOf(Split(message.value, SEPARATOR)[0]).Some?
    ensures r.Ok? ==> && TypeName(r.value.kind) == Split(message.value, SEPARATOR)[0]
                      && r.value.param == Split(message.value, SEPARATOR)[1]
                      && SEPARATOR !in r.value.param
  {
    if IsBlankOpt(message) then Err(BlankMessage)
    else
      var tokens := Split(message.value, SEPARATOR);
      if |tokens| < 2 || IsBlank(tokens[0]) || IsBlank(tokens[1]) then Err(MalformedMessage)
      else
        var t := TypeOf(tokens[0]);
        if t.None? then Err(UnknownType)
        else
          assert TypeName(t.value) == tokens[0];
          Ok(ParsedMessage(t.value, tokens[1]))
  }

  // ---------------------------------------------------------------------------------------------
  // Splitting a well-formed message.

  lemma SplitTwo(a: string, b: string)
    requires SEPARATOR !in a && SEPARATOR !in b && b != ""
    ensures Split(a + [SEPARATOR] + b, SEPARATOR) == [a, b]
  {
    var s := a + [SEPARATOR] + b;
    assert s[|a|] == SEPARATOR;
    SplitAllAppend(a, SEPARATOR, b);
    SplitAllNoSeparator(b, SEPARATOR);
    var xs := [a] + SplitAll(b, SEPARATOR);
    assert xs == [a, b];
    DropTrailingEmptyKeeps(xs, 1);
  }

  lemma SplitLeading(a: string, b: string, rest: string)
    requires SEPARATOR !in a && SEPARATOR !in b && b != ""
    ensures var tokens := Split(a + [SEPARATOR] + b + [SEPARATOR] + rest, SEPARATOR);
            |tokens| >= 2 && tokens[0] == a && tokens[1] == b
  {
    var s := a + [SEPARATOR] + b + [SEPARATOR] + rest;
    assert s[|a|] == SEPARATOR;
    assert s == a + [SEPARATOR] + (b + [SEPARATOR] + rest);
    SplitAllAppend(a, SEPARATOR, b + [SEPARATOR] + rest);
    SplitAllAppend(b, SEPARATOR, rest);
    var xs := [a] + ([b] + SplitAll(rest, SEPARATOR));
    DropTrailingEmptyKeeps(xs, 1);
    assert DropTrailingEmpty(xs)[..2] == xs[..2];
  }

  lemma TypeNameShape(t: MessageType)
    ensures SEPARATOR !in TypeName(t) && !IsBlank(TypeName(t))
  {
    assert !IsWhitespace(TypeName(t)[0]);
  }

  lemma IdShape(id: int)
    ensures SEPARATOR !in IntToString(id) && !IsBlank(IntToString(id))
  {
    IntToStringShape(id);
    var s := IntToString(id);
    assert !IsWhitespace(s[|s| - 1]);
  }

  /** Every message the service sends parses back to its type and the printed id. */
  lemma ParseCreate(t: MessageType, repositoryId: int)
    ensures Parse(Some(CreateMessage(t, repositoryId))) == Ok(ParsedMessage(t, IntToString(repositoryId)))
  {
    var s := CreateMessage(t, repositoryId);
    TypeNameShape(t);
    IdShape(repositoryId);
    assert !IsWhitespace(s[0]);
  }

  /** Tokens after the second are ignored. */
  lemma ParseIgnoresTrailingTokens(t: MessageType, param: string, rest: string)
    requires SEPARATOR !in param && !IsBlank(param)
    ensures Parse(Some(TypeName(t) + [SEPARATOR] + param + [SEPARATOR] + rest)) == Ok(ParsedMessage(t, param))
  {
    var s := TypeName(t) + [SEPARATOR] + param + [SEPARATOR] + rest;
    TypeNameShape(t);
    SplitLeading(TypeName(t), param, rest);
    assert !IsWhitespace(s[0]);
  }

  /** A non-blank message without a separator, or with an empty first token, is malformed. */
  lemma ParseRejectsMissingToken(message: string)
    requires !IsBlank(message)
    requires SEPARATOR !in message || message[0] == SEPARATOR
    ensures Parse(Some(message)) == Err(MalformedMessage)
  {
    if SEPARATOR in message && message[0] == SEPARATOR {
      var xs := SplitAll(message, SEPARATOR);
      assert xs[0] == "";
      var tokens := Split(message, SEPARATOR);
      if |tokens| > 0 {
        assert tokens[0] == xs[0];
      }
    }
  }

  // ---------------------------------------------------------------------------------------------
  // Receiving a message.

  /** `invalidateCacheWhenRepositoryNotFound`: the cached repository map is reset when it
      lacks the message's repository. `ids` are the keys of the map the cached reference's
      `get` returns; `get` loads an unloaded map on demand and never answers `null`, so the
      `null` test always passes. */
  function NeedsReset(ids: set<int>, repositoryId: int): (r: bool)
    ensures r <==> repositoryId !in ids
  {
    repositoryId !in ids
  }

  /** The map `NeedsReset` looks at is the registry's cached one, loaded from the store when
      none is cached: a node that has not loaded its map yet loads it, and resets it again
      when the store has no usable repository under the id. */
  lemma NeedsResetLoadsOnDemand(env: RM.Environment, reg: RM.Registry, repositoryId: int)
    ensures reg.cache.Some? ==>
              (NeedsReset(RM.Cached(env, reg).1.Keys, repositoryId) <==> repositoryId !in reg.cache.value)
    ensures reg.cache.None? ==>
              (NeedsReset(RM.Cached(env, reg).1.Keys, repositoryId)
               <==> !(RM.FIRST_REPO_ID <= repositoryId <= reg.lastRepoId && RM.Loadable(env, reg.stored, repositoryId)))
  {
  }

  /** The effects a received message asks for, in order. */
  datatype Action = ResetCache | AddRepository(repositoryId: int) | RemoveEntries(repositoryId: int)

  /** The action a message type stands for. */
  function IndexAction(t: MessageType, repositoryId: int): (a: Action)
    ensures a.AddRepository? <==> t == AddIndex
    ensures a.RemoveEntries? <==> t == RemoveIndex
    ensures !a.ResetCache? && a.repositoryId == repositoryId
  {
    match t
    case AddIndex => AddRepository(repositoryId)
    case RemoveIndex => RemoveEntries(repositoryId)
  }

  /** What `receive` does: nothing off the channel; an unwrapped `IllegalArgumentException`
      when parsing fails; otherwise the actions performed and whether an
      `InfrastructureException` ends the call (an unparsable id, or a failing index action). */
  datatype Received = Ignored | Rejected(error: ParseError) | Handled(actions: seq<Action>, failed: bool)

  /** `receive`. `ids` are the keys of the repository map `NeedsReset` looks at. The index
      action itself is outside the model; `actionFails` says whether it throws. */
  function Receive(channel: Option<string>, message: Option<string>, ids: set<int>,
                   actionFails: bool): (r: Received)
    ensures r.Ignored? <==> channel != Some(INDEX_CHANNEL)
    ensures r.Rejected? <==> channel == Some(INDEX_CHANNEL) && Parse(message).Err?
    ensures r.Rejected? ==> r.error == Parse(message).error
    ensures r.Handled? ==>
              var p := Parse(message).value;
              && (ParseLong(p.param).None? ==> r == Handled([], true))
              && (ParseLong(p.param).Some? ==>
                    var id := ParseLong(p.param).value;
                    && |r.actions| > 0 && r.actions[|r.actions| - 1] == IndexAction(p.kind, id)
                    && (ResetCache in r.actions <==> NeedsReset(ids, id))
                    && r.failed == actionFails)
  {
    if channel != Some(INDEX_CHANNEL) then Ignored
    else
      match Parse(message)
      case Err(e) => Rejected(e)
      case Ok(p) =>
        match ParseLong(p.param)
        case None => Handled([], true)
        case Some(id) =>
          var reset := if NeedsReset(ids, id) then [ResetCache] else [];
          Handled(reset + [IndexAction(p.kind, id)], actionFails)
  }

  /** A message sent by `addIndexForRepository` or `removeIndexForRepository` makes the
      receiving node perform the same action on the same repository, after resetting its
      repository map if that map does not know the repository yet. */
  lemma ReceiveCreated(t: MessageType, repositoryId: int, ids: set<int>, actionFails: bool)
    requires IsLong(repositoryId)
    ensures Receive(Some(INDEX_CHANNEL), Some(CreateMessage(t, repositoryId)), ids, actionFails)
            == Handled((if NeedsReset(ids, repositoryId) then [ResetCache] else [])
                         + [IndexAction(t, repositoryId)], actionFails)
  {
    ParseCreate(t, repositoryId);
    ParseLongOfIntToString(repositoryId);
  }

  /** Once the map has been reset it is reloaded, and a node whose map knows the repository
      performs the action alone. */
  lemma ReceiveKnownRepository(t: MessageType, repositoryId: int, ids: set<int>, actionFails: bool)
    requires IsLong(repositoryId) && repositoryId in ids
    ensures Receive(Some(INDEX_CHANNEL), Some(CreateMessage(t, repositoryId)), ids, actionFails)
            == Handled([IndexAction(t, repositoryId)], actionFails)
  {
    ReceiveCreated(t, repositoryId, ids, actionFails);
  }
}
