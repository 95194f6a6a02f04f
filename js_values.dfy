/** The JavaScript values the credential code handles, the parts of the
    language it relies on (`typeof`, `in`, property reads, `??`), and what
    a JSON round trip does to a value. */
module JsValues {
  import opened Wrappers

  /** A JavaScript number: finite, or one of the three non-finite values. */
  datatype Number = Finite(value: real) | NaN | PosInfinity | NegInfinity

  datatype JsValue =
    | Undefined
    | Null
    | Bool(b: bool)
    | Num(n: Number)
    | Str(s: string)
      /** A `Date` object holding a time in milliseconds. */
    | Date(epochMs: int)
    | Arr(items: seq<JsValue>)
      /** A plain object: its own enumerable properties. */
    | Obj(fields: map<string, JsValue>)

  /** The `typeof` operator. */
  function TypeOf(v: JsValue): (r: string)
    ensures r == "object" <==> v.Null? || v.Date? || v.Arr? || v.Obj?
  {
    match v
    case Undefined => "undefined"
    case Bool(_) => "boolean"
    case Num(_) => "number"
    case Str(_) => "string"
    case _ => "object"
  }

  /** `name in v` for a property name that neither arrays nor dates
      carry. */
  predicate HasProperty(v: JsValue, name: string) {
    v.Obj? && name in v.fields
  }

  /** `v.name` on an object, for such a property name; undefined when it
      is absent. */
  function Property(v: JsValue, name: string): JsValue {
    if HasProperty(v, name) then v.fields[name] else Undefined
  }

  /** `v.name` on any value: reading a property of `null` or `undefined`
      throws a TypeError. */
  function ReadProperty(v: JsValue, name: string): (r: Result<JsValue, string>)
    ensures r.Failure? <==> v.Null? || v.Undefined?
    ensures r.Success? ==> r.value == Property(v, name)
  {
    if v.Null? || v.Undefined? then Failure("TypeError") else Success(Property(v, name))
  }

  /** `a ?? b`: `b` when `a` is null or undefined. */
  function Coalesce(a: JsValue, b: JsValue): (r: JsValue)
    ensures a.Null? || a.Undefined? ==> r == b
    ensures !a.Null? && !a.Undefined? ==> r == a
  {
    if a.Null? || a.Undefined? then b else a
  }

  /** The value `JSON.parse(JSON.stringify(v))` gives back: members whose
      value is undefined are dropped, undefined array items and non-finite
      numbers become null, and a date becomes the string its `toJSON`
      returns. */
  function JsonImage(v: JsValue, dateToJson: int -> string): JsValue {
    match v
    case Undefined => Null
    case Null => Null
    case Bool(b) => Bool(b)
    case Num(n) => if n.Finite? then Num(n) else Null
    case Str(s) => Str(s)
    case Date(ms) => Str(dateToJson(ms))
    case Arr(items) => Arr(seq(|items|, k requires 0 <= k < |items| => JsonImage(items[k], dateToJson)))
    case Obj(fields) => Obj(map k | k in fields && !fields[k].Undefined? :: JsonImage(fields[k], dateToJson))
  }

  /** The value of a JSON text contains no undefined, no non-finite number
      and no date: the image of a value is its own image. */
  predicate IsJsonValue(v: JsValue) {
    match v
    case Undefined => false
    case Num(n) => n.Finite?
    case Date(_) => false
    case Arr(items) => forall k :: 0 <= k < |items| ==> IsJsonValue(items[k])
    case Obj(fields) => forall k :: k in fields ==> IsJsonValue(fields[k])
    case _ => true
  }

  lemma {:induction false} JsonImageIsJson(v: JsValue, dateToJson: int -> string)
    ensures IsJsonValue(JsonImage(v, dateToJson))
  {
    match v
    case Arr(items) =>
      forall k | 0 <= k < |items| ensures IsJsonValue(JsonImage(items[k], dateToJson)) {
        JsonImageIsJson(items[k], dateToJson);
      }
    case Obj(fields) =>
      forall k | k in fields && !fields[k].Undefined? ensures IsJsonValue(JsonImage(fields[k], dateToJson)) {
        JsonImageIsJson(fields[k], dateToJson);
      }
    case _ =>
  }

  lemma {:induction false} JsonImageOfJson(v: JsValue, dateToJson: int -> string)
    requires IsJsonValue(v)
    ensures JsonImage(v, dateToJson) == v
  {
    match v
    case Arr(items) =>
      forall k | 0 <= k < |items| ensures JsonImage(items[k], dateToJson) == items[k] {
        JsonImageOfJson(items[k], dateToJson);
      }
      assert JsonImage(v, dateToJson).items == items;
    case Obj(fields) =>
      forall k | k in fields ensures JsonImage(fields[k], dateToJson) == fields[k] {
        JsonImageOfJson(fields[k], dateToJson);
      }
      assert JsonImage(v, dateToJson).fields == fields;
    case _ =>
  }

  /** A second round trip changes nothing more. */
  lemma JsonImageIdempotent(v: JsValue, dateToJson: int -> string)
    ensures JsonImage(JsonImage(v, dateToJson), dateToJson) == JsonImage(v, dateToJson)
  {
    JsonImageIsJson(v, dateToJson);
    JsonImageOfJson(JsonImage(v, dateToJson), dateToJson);
  }

  /** `JSON.stringify`, `JSON.parse` (which throws on malformed text) and the
      `toJSON` of dates, taken as given. */
  datatype JsonCodec = JsonCodec(
    stringify: JsValue -> string,
    parse: string -> Result<JsValue, string>,
    dateToJson: int -> string)

  /** Stringifying `v` and parsing the text gives back its image. This is
      a property of one value, not of the codec as a whole: the JSON text of
      a number is exact only for doubles, which `real` does not single out. */
  predicate RoundTrips(json: JsonCodec, v: JsValue) {
    json.parse(json.stringify(v)) == Success(JsonImage(v, json.dateToJson))
  }

  /** For any value some codec round-trips it, so requiring `RoundTrips`
      of a value excludes nothing about the value itself. */
  lemma RoundTripsAchievable(v: JsValue, dateToJson: int -> string)
    ensures RoundTrips(JsonCodec(_ => "", _ => Success(JsonImage(v, dateToJson)), dateToJson), v)
  {}
}
