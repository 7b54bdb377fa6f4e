/**
 * The two request handlers of `src/handlers.rs` over the Workers KV
 * namespace `code_paste`, here a map from key to stored text. The request
 * body, the namespace binding and the outcome of each store call are inputs;
 * the handlers are functions from them to a response and the new store.
 */
module Handlers {
  import opened Results
  import opened PasteIds

  type Kv = map<string, string>

  /** Name of the KV namespace binding the handlers look up. */
  const Namespace := "code_paste"
  /** Where a created paste is served; the redirect target is this plus the key. */
  const Origin := "http://localhost:8787/"
  /** Cache policy sent with every stored paste. */
  const CacheControl := "max-age=2629746"
  /** Message when the store rejects a paste. */
  const AddFailed := "couldn't add pase to database"
  /** Message when no paste can be served for the route. */
  const MissingId := "missing id"

  /** The JSON body `create_paste` expects. */
  datatype PasteInput = PasteInput(code: string, language: string)

  datatype Response =
    | Redirect(location: string)
    | JsonMessage(message: string)
    | Text(body: string, cacheControl: string)

  /** Errors the handlers pass up with `?`. */
  datatype WorkerError =
    | BadBody
    | NoBinding(name: string)
    | PutRejected(reason: string)

  /** A handler either answers, returns an error, or panics. */
  datatype Outcome = Respond(response: Response) | Fail(error: WorkerError) | Panic

  /** What the store does with a `put`: builds and stores, refuses to build, or fails to run. */
  datatype PutBehaviour = Stored | BuildFails(reason: string) | ExecuteFails(reason: string)

  /** What the store does with a `get`: answers, or fails to run. */
  datatype ReadBehaviour = Answers | ReadFails(reason: string)

  /** A handler's response together with the store it leaves behind. */
  datatype CreateResult = CreateResult(outcome: Outcome, store: Option<Kv>)

  /** The key `create_paste` stores a paste under. */
  function PasteKey(draws: seq<AlphabetIndex>, language: string): string
    requires |draws| >= IdLength
  {
    StorageKey(NewId(draws), language)
  }

  /**
   * `create_paste`: parse the body, find the namespace, build an identifier
   * from the draws, store the code under `id.language` and redirect to it.
   * `store` is `None` when the namespace binding is missing.
   */
  function CreatePaste(
    body: Option<PasteInput>,
    store: Option<Kv>,
    draws: seq<AlphabetIndex>,
    put: PutBehaviour
  ): (c: CreateResult)
    requires |draws| >= IdLength
    ensures c.store.Some? <==> store.Some?
    ensures c.outcome.Respond? && c.outcome.response.Redirect?
            <==> body.Some? && store.Some? && put.Stored?
    ensures c.outcome.Respond? && c.outcome.response.Redirect? ==>
              var key := PasteKey(draws, body.value.language);
              && c.outcome.response.location == Origin + key
              && c.store.value == store.value[key := body.value.code]
    ensures !(c.outcome.Respond? && c.outcome.response.Redirect?) ==> c.store == store
    ensures body.None? ==> c.outcome == Fail(BadBody)
    ensures body.Some? && store.None? ==> c.outcome == Fail(NoBinding(Namespace))
    ensures body.Some? && store.Some? && put.BuildFails? ==> c.outcome == Fail(PutRejected(put.reason))
    ensures body.Some? && store.Some? && put.ExecuteFails? ==> c.outcome == Respond(JsonMessage(AddFailed))
  {
    match body
    case None => CreateResult(Fail(BadBody), store)
    case Some(input) =>
      match store
      case None => CreateResult(Fail(NoBinding(Namespace)), store)
      case Some(kv) =>
        var key := PasteKey(draws, input.language);
        match put
        case BuildFails(reason) => CreateResult(Fail(PutRejected(reason)), store)
        case ExecuteFails(_) => CreateResult(Respond(JsonMessage(AddFailed)), store)
        case Stored => CreateResult(Respond(Redirect(Origin + key)), Some(kv[key := input.code]))
  }

  /**
   * `get_paste`: with no `id` in the route answer "missing id"; otherwise
   * read the key from the namespace and serve the text with a long cache
   * lifetime. A read error also answers "missing id"; a key that is absent
   * reaches `unwrap` on `None` and panics.
   */
  function GetPaste(param: Option<string>, store: Option<Kv>, read: ReadBehaviour): (o: Outcome)
    ensures param.None? ==> o == Respond(JsonMessage(MissingId))
    ensures param.Some? && store.None? ==> o == Fail(NoBinding(Namespace))
    ensures param.Some? && store.Some? && read.ReadFails? ==> o == Respond(JsonMessage(MissingId))
    ensures o.Respond? && o.response.Text?
            <==> param.Some? && store.Some? && read.Answers? && param.value in store.value
    ensures o.Respond? && o.response.Text? ==>
              o.response == Text(store.value[param.value], CacheControl)
    ensures o.Panic? <==> param.Some? && store.Some? && read.Answers? && param.value !in store.value
  {
    match param
    case None => Respond(JsonMessage(MissingId))
    case Some(id) =>
      match store
      case None => Fail(NoBinding(Namespace))
      case Some(kv) =>
        match read
        case ReadFails(_) => Respond(JsonMessage(MissingId))
        case Answers =>
          if id in kv then Respond(Text(kv[id], CacheControl)) else Panic
  }

  /**
   * `get_paste` as evidently intended: an absent key answers like the read
   * error does, instead of panicking.
   */
  function GetPasteChecked(param: Option<string>, store: Option<Kv>, read: ReadBehaviour): (o: Outcome)
    ensures !o.Panic?
    ensures o.Respond? && o.response.Text?
            <==> param.Some? && store.Some? && read.Answers? && param.value in store.value
    ensures o.Respond? && o.response.Text? ==>
              o.response == Text(store.value[param.value], CacheControl)
    ensures param.Some? && store.Some? && read.Answers? && param.value !in store.value ==>
              o == Respond(JsonMessage(MissingId))
  {
    match GetPaste(param, store, read)
    case Panic => Respond(JsonMessage(MissingId))
    case other => other
  }

  /** The corrected handler differs from the source only where the source panics. */
  lemma GetPasteCheckedAgrees(param: Option<string>, store: Option<Kv>, read: ReadBehaviour)
    ensures !GetPaste(param, store, read).Panic? ==>
              GetPasteChecked(param, store, read) == GetPaste(param, store, read)
  {
  }

  /** The discrepancy on a concrete input: an empty namespace and any key. */
  lemma GetAbsentKeyPanics()
    ensures GetPaste(Some("abc1234.rs"), Some(map[]), Answers) == Panic
    ensures GetPasteChecked(Some("abc1234.rs"), Some(map[]), Answers) == Respond(JsonMessage(MissingId))
  {
  }

  /** Without an `id` in the route the store is never consulted. */
  lemma GetWithoutIdIgnoresStore(store1: Option<Kv>, read1: ReadBehaviour, store2: Option<Kv>, read2: ReadBehaviour)
    ensures GetPaste(None, store1, read1) == GetPaste(None, store2, read2)
  {
  }

  /**
   * A successful create writes exactly one entry: the new key now holds the
   * submitted code verbatim, and every other key is as it was.
   */
  lemma CreateWritesOneEntry(input: PasteInput, kv: Kv, draws: seq<AlphabetIndex>)
    requires |draws| >= IdLength
    ensures var key := PasteKey(draws, input.language);
      var after := CreatePaste(Some(input), Some(kv), draws, Stored).store.value;
      && after.Keys == kv.Keys + {key}
      && after[key] == input.code
      && forall k :: k in kv && k != key ==> after[k] == kv[k]
  {
  }

  /**
   * Round trip: the key in the redirect of a successful create, read back
   * from the store the create left behind, serves the submitted code
   * verbatim; the key also splits back into the identifier and language.
   */
  lemma CreateThenGet(input: PasteInput, kv: Kv, draws: seq<AlphabetIndex>)
    requires |draws| >= IdLength
    ensures var c := CreatePaste(Some(input), Some(kv), draws, Stored);
      var key := c.outcome.response.location[|Origin|..];
      && SplitAtFirstDot(key) == (NewId(draws), input.language)
      && GetPaste(Some(key), c.store, Answers) == Respond(Text(input.code, CacheControl))
      && GetPasteChecked(Some(key), c.store, Answers) == Respond(Text(input.code, CacheControl))
  {
    var c := CreatePaste(Some(input), Some(kv), draws, Stored);
    assert c.outcome.response.location[|Origin|..] == PasteKey(draws, input.language);
    GeneratedKeyShape(draws, input.language);
  }

  /** A create leaves every other paste readable exactly as before. */
  lemma CreateKeepsOtherPastes(input: PasteInput, kv: Kv, draws: seq<AlphabetIndex>, key: string, read: ReadBehaviour)
    requires |draws| >= IdLength
    requires key != PasteKey(draws, input.language)
    ensures var c := CreatePaste(Some(input), Some(kv), draws, Stored);
      GetPaste(Some(key), c.store, read) == GetPaste(Some(key), Some(kv), read)
  {
  }

  /**
   * Identifier collisions are not checked: when the generated key is already
   * taken, the earlier paste under it is overwritten.
   */
  lemma CreateOverwritesOnCollision(input: PasteInput, kv: Kv, draws: seq<AlphabetIndex>)
    requires |draws| >= IdLength
    requires PasteKey(draws, input.language) in kv
    ensures var c := CreatePaste(Some(input), Some(kv), draws, Stored);
      && |c.store.value| == |kv|
      && c.store.value[PasteKey(draws, input.language)] == input.code
  {
  }
}
