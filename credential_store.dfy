/** The credential store of client/utils/localStorage.ts: the PKCE
    verifier and the token bundle kept under two keys of the browser's
    `localStorage`. */
module CredentialStore {
  import opened Wrappers
  import opened JsValues
  import opened TokenBundles

  const VERIFIER_STORAGE_KEY: string := "spotify-verifier"
  const TOKEN_BUNDLE_STORAGE_KEY: string := "spotify-token-bundle"

  /** `getItem` on the stored items: null when the key is absent. */
  function Lookup(items: map<string, string>, key: string): Option<string> {
    if key in items then Some(items[key]) else None
  }

  /** `window.localStorage`: string values under string keys, changed in
      place. */
  class LocalStorage {
    var items: map<string, string>

    constructor ()
      ensures items == map[]
    {
      items := map[];
    }

    method GetItem(key: string) returns (value: Option<string>)
      ensures value == Lookup(items, key)
    {
      if key in items {
        value := Some(items[key]);
      } else {
        value := None;
      }
    }

    method SetItem(key: string, value: string)
      modifies this
      ensures items == old(items)[key := value]
    {
      items := items[key := value];
    }

    method RemoveItem(key: string)
      modifies this
      ensures items == old(items) - {key}
    {
      items := items - {key};
    }
  }

  /** What `loadTokenBundle` returns for the stored items: null when
      nothing is stored, the error `JSON.parse` throws on malformed text,
      null when the parsed value fails the check, and the parsed value
      otherwise. */
  function LoadedTokenBundle(items: map<string, string>, json: JsonCodec): Result<Option<JsValue>, string> {
    match Lookup(items, TOKEN_BUNDLE_STORAGE_KEY)
    case None => Success(None)
    case Some(text) =>
      match json.parse(text)
      case Failure(e) => Failure(e)
      case Success(v) => if ValidateTokenBundle(v) then Success(Some(v)) else Success(None)
  }

  method StoreVerifier(storage: LocalStorage, verifier: string)
    modifies storage
    ensures storage.items == old(storage.items)[VERIFIER_STORAGE_KEY := verifier]
  {
    storage.SetItem(VERIFIER_STORAGE_KEY, verifier);
  }

  method LoadVerifier(storage: LocalStorage) returns (verifier: Option<string>)
    ensures verifier == Lookup(storage.items, VERIFIER_STORAGE_KEY)
  {
    verifier := storage.GetItem(VERIFIER_STORAGE_KEY);
  }

  method ClearVerifier(storage: LocalStorage)
    modifies storage
    ensures storage.items == old(storage.items) - {VERIFIER_STORAGE_KEY}
  {
    storage.RemoveItem(VERIFIER_STORAGE_KEY);
  }

  method StoreTokenBundle(storage: LocalStorage, json: JsonCodec, tokenBundle: JsValue)
    modifies storage
    ensures storage.items == old(storage.items)[TOKEN_BUNDLE_STORAGE_KEY := json.stringify(tokenBundle)]
  {
    storage.SetItem(TOKEN_BUNDLE_STORAGE_KEY, json.stringify(tokenBundle));
  }

  method LoadTokenBundle(storage: LocalStorage, json: JsonCodec) returns (tokenBundle: Result<Option<JsValue>, string>)
    ensures tokenBundle == LoadedTokenBundle(storage.items, json)
  {
    var tokenBundleJson := storage.GetItem(TOKEN_BUNDLE_STORAGE_KEY);
    if tokenBundleJson.None? {
      return Success(None);
    }
    var parsed := json.parse(tokenBundleJson.value);
    if parsed.Failure? {
      return Failure(parsed.error);
    }
    if !ValidateTokenBundle(parsed.value) {
      return Success(None);
    }
    return Success(Some(parsed.value));
  }

  // ---------------------------------------------------------------------
  // Properties of the stored items.
  // ---------------------------------------------------------------------

  /** The verifier is read back as stored, and is gone once cleared. */
  lemma VerifierRoundTrip(items: map<string, string>, verifier: string)
    ensures Lookup(items[VERIFIER_STORAGE_KEY := verifier], VERIFIER_STORAGE_KEY) == Some(verifier)
    ensures Lookup(items - {VERIFIER_STORAGE_KEY}, VERIFIER_STORAGE_KEY) == None
  {}

  /** Storing or clearing the verifier leaves the token bundle as it was,
      and storing the bundle leaves the verifier as it was. */
  lemma KeysIndependent(items: map<string, string>, verifier: string, text: string, json: JsonCodec)
    ensures LoadedTokenBundle(items[VERIFIER_STORAGE_KEY := verifier], json) == LoadedTokenBundle(items, json)
    ensures LoadedTokenBundle(items - {VERIFIER_STORAGE_KEY}, json) == LoadedTokenBundle(items, json)
    ensures Lookup(items[TOKEN_BUNDLE_STORAGE_KEY := text], VERIFIER_STORAGE_KEY) == Lookup(items, VERIFIER_STORAGE_KEY)
  {
    assert VERIFIER_STORAGE_KEY != TOKEN_BUNDLE_STORAGE_KEY by {
      assert |VERIFIER_STORAGE_KEY| != |TOKEN_BUNDLE_STORAGE_KEY|;
    }
  }

  /** Nothing stored: null, not an error. */
  lemma LoadAbsent(items: map<string, string>, json: JsonCodec)
    requires TOKEN_BUNDLE_STORAGE_KEY !in items
    ensures LoadedTokenBundle(items, json) == Success(None)
  {}

  /** Stored text that is not JSON: the parse error propagates. */
  lemma LoadMalformed(items: map<string, string>, json: JsonCodec)
    requires TOKEN_BUNDLE_STORAGE_KEY in items && json.parse(items[TOKEN_BUNDLE_STORAGE_KEY]).Failure?
    ensures LoadedTokenBundle(items, json).Failure?
  {}

  /** Stored JSON whose value fails the check: null. */
  lemma LoadInvalid(items: map<string, string>, json: JsonCodec)
    requires TOKEN_BUNDLE_STORAGE_KEY in items
    requires json.parse(items[TOKEN_BUNDLE_STORAGE_KEY]).Success?
    requires !ValidateTokenBundle(json.parse(items[TOKEN_BUNDLE_STORAGE_KEY]).value)
    ensures LoadedTokenBundle(items, json) == Success(None)
  {}

  /** A loaded bundle always passes the check. */
  lemma LoadedIsValid(items: map<string, string>, json: JsonCodec)
    requires LoadedTokenBundle(items, json).Success? && LoadedTokenBundle(items, json).value.Some?
    ensures ValidateTokenBundle(LoadedTokenBundle(items, json).value.value)
  {}

  /** A member of an object whose value is not undefined survives the
      round trip as the image of its value. */
  lemma JsonImageMember(fields: map<string, JsValue>, name: string, dateToJson: int -> string)
    requires name in fields && !fields[name].Undefined?
    ensures name in JsonImage(Obj(fields), dateToJson).fields
    ensures JsonImage(Obj(fields), dateToJson).fields[name] == JsonImage(fields[name], dateToJson)
  {}

  /** A bundle object whose three members have the right types and whose
      expiry is finite is loaded back with the same access token, expiry
      and refresh token; other members may come back changed. */
  lemma TokenBundleRoundTrip(items: map<string, string>, json: JsonCodec, tokenBundle: JsValue)
    requires ValidateTokenBundle(tokenBundle) && Property(tokenBundle, "expirySeconds").n.Finite?
    requires RoundTrips(json, tokenBundle)
    ensures var loaded := LoadedTokenBundle(items[TOKEN_BUNDLE_STORAGE_KEY := json.stringify(tokenBundle)], json);
      && loaded.Success? && loaded.value.Some?
      && View(loaded.value.value) == View(tokenBundle)
  {
    var fields := tokenBundle.fields;
    var image := JsonImage(Obj(fields), json.dateToJson);
    assert tokenBundle == Obj(fields);
    JsonImageMember(fields, "accessToken", json.dateToJson);
    JsonImageMember(fields, "expirySeconds", json.dateToJson);
    JsonImageMember(fields, "refreshToken", json.dateToJson);
  }

  /** A bundle whose expiry is not finite is stored as null and loads as
      null. */
  lemma NonFiniteExpiryLoadsNull(items: map<string, string>, json: JsonCodec, tokenBundle: JsValue)
    requires tokenBundle.Obj? && "expirySeconds" in tokenBundle.fields
    requires tokenBundle.fields["expirySeconds"].Num? && !tokenBundle.fields["expirySeconds"].n.Finite?
    requires RoundTrips(json, tokenBundle)
    ensures LoadedTokenBundle(items[TOKEN_BUNDLE_STORAGE_KEY := json.stringify(tokenBundle)], json) == Success(None)
  {
    var fields := tokenBundle.fields;
    var image := JsonImage(Obj(fields), json.dateToJson);
    assert tokenBundle == Obj(fields);
    JsonImageMember(fields, "expirySeconds", json.dateToJson);
  }

  /** A bundle without a refresh token, as a code exchange answered
      without one produces, loads as null. */
  lemma MissingRefreshTokenLoadsNull(items: map<string, string>, json: JsonCodec, tokenBundle: JsValue)
    requires tokenBundle.Obj?
    requires "refreshToken" !in tokenBundle.fields || tokenBundle.fields["refreshToken"].Undefined?
    requires RoundTrips(json, tokenBundle)
    ensures LoadedTokenBundle(items[TOKEN_BUNDLE_STORAGE_KEY := json.stringify(tokenBundle)], json) == Success(None)
  {
    var fields := tokenBundle.fields;
    var image := JsonImage(Obj(fields), json.dateToJson);
    assert tokenBundle == Obj(fields);
    assert "refreshToken" !in image.fields;
  }
}
