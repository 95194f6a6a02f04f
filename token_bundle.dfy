/** The token bundle of client/types/spotify.ts and its structural check. */
module TokenBundles {
  import opened JsValues

  /** `TokenBundle`: the three members the rest of the client relies on. */
  datatype TokenBundle = TokenBundle(accessToken: string, expirySeconds: Number, refreshToken: string)

  /** `validateTokenBundle`: an object, not null, whose `accessToken` and
      `refreshToken` are strings and whose `expirySeconds` is a number. */
  predicate ValidateTokenBundle(obj: JsValue) {
    && TypeOf(obj) == "object"
    && !(obj.Null? || obj.Undefined?)
    && HasProperty(obj, "accessToken")
    && TypeOf(Property(obj, "accessToken")) == "string"
    && HasProperty(obj, "expirySeconds")
    && TypeOf(Property(obj, "expirySeconds")) == "number"
    && HasProperty(obj, "refreshToken")
    && TypeOf(Property(obj, "refreshToken")) == "string"
  }

  /** The three members the check looks at. */
  predicate IsBundleMember(name: string) {
    name == "accessToken" || name == "expirySeconds" || name == "refreshToken"
  }

  /** Null, undefined and every value that is not a plain object fail the
      check; a plain object passes exactly when its three members are
      present with the right types. */
  lemma ValidateCharacterised(obj: JsValue)
    ensures !obj.Obj? ==> !ValidateTokenBundle(obj)
    ensures obj.Obj? ==>
      (ValidateTokenBundle(obj) <==>
         && "accessToken" in obj.fields && obj.fields["accessToken"].Str?
         && "expirySeconds" in obj.fields && obj.fields["expirySeconds"].Num?
         && "refreshToken" in obj.fields && obj.fields["refreshToken"].Str?)
  {}

  /** Members other than the three, such as `issueTime`, are not looked
      at: adding, changing or removing one does not change the verdict. */
  lemma ValidateIgnoresOtherMembers(fields: map<string, JsValue>, name: string, v: JsValue)
    requires !IsBundleMember(name)
    ensures ValidateTokenBundle(Obj(fields[name := v])) <==> ValidateTokenBundle(Obj(fields))
    ensures ValidateTokenBundle(Obj(fields - {name})) <==> ValidateTokenBundle(Obj(fields))
  {
    assert Property(Obj(fields[name := v]), "accessToken") == Property(Obj(fields), "accessToken");
    assert Property(Obj(fields[name := v]), "expirySeconds") == Property(Obj(fields), "expirySeconds");
    assert Property(Obj(fields[name := v]), "refreshToken") == Property(Obj(fields), "refreshToken");
  }

  /** A missing member fails the check. */
  lemma ValidateNeedsEachMember(fields: map<string, JsValue>, name: string)
    requires IsBundleMember(name) && name !in fields
    ensures !ValidateTokenBundle(Obj(fields))
  {}

  /** The type `typeof` must report for each member. */
  function MemberType(name: string): string
    requires IsBundleMember(name)
  {
    if name == "expirySeconds" then "number" else "string"
  }

  /** A member of the wrong type fails the check. */
  lemma ValidateNeedsEachType(fields: map<string, JsValue>, name: string)
    requires IsBundleMember(name) && name in fields && TypeOf(fields[name]) != MemberType(name)
    ensures !ValidateTokenBundle(Obj(fields))
  {}

  /** The bundle a checked value stands for. */
  function View(obj: JsValue): TokenBundle
    requires ValidateTokenBundle(obj)
  {
    TokenBundle(obj.fields["accessToken"].s, obj.fields["expirySeconds"].n, obj.fields["refreshToken"].s)
  }

  /** A bundle as a JavaScript object with exactly its three members. */
  function ToJs(tb: TokenBundle): JsValue {
    Obj(map["accessToken" := Str(tb.accessToken),
            "expirySeconds" := Num(tb.expirySeconds),
            "refreshToken" := Str(tb.refreshToken)])
  }

  /** Every bundle passes the check and is read back unchanged. */
  lemma ToJsValid(tb: TokenBundle)
    ensures ValidateTokenBundle(ToJs(tb))
    ensures View(ToJs(tb)) == tb
  {}
}
