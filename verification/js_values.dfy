/** The part of JavaScript's value semantics the stores rely on: JSON values,
    truthiness, object spread, and `JSON.stringify`/`JSON.parse` taken as a
    codec supplied by the runtime. */
module JsValues {
  import opened Wrappers

  /** A value `JSON.parse` can produce. Numbers are modelled exactly (no NaN,
      infinities or negative zero); objects map their own keys to values. */
  datatype Json =
    | Null
    | Bool(b: bool)
    | Num(n: real)
    | Str(s: string)
    | Arr(items: seq<Json>)
    | Obj(fields: map<string, Json>)

  /** The exceptions the runtime throws on the stores' paths: `atob`/`btoa`
      (a DOMException), `JSON.parse`, and reading a property of `null`. */
  datatype JsException = InvalidCharacterError | SyntaxError | TypeError

  /** JavaScript truthiness: `false`, `0`, `""` and `null` are falsy,
      everything else (every array and object included) is truthy. */
  predicate Truthy(j: Json)
  {
    match j
    case Null => false
    case Bool(b) => b
    case Num(n) => n != 0.0
    case Str(s) => s != ""
    case Arr(_) => true
    case Obj(_) => true
  }

  /** Truthiness of a property read that may give `undefined` (`None`). */
  predicate TruthyField(v: Option<Json>)
  {
    v.Some? && Truthy(v.value)
  }

  /** The property names the workspace shape check reads. No JSON value other
      than an object has an own or inherited property with one of these names. */
  const ShapeKeys: set<string> := {"version", "name", "flights"}

  /** `j[key]` for one of the shape-check names on a value that is not `null`:
      an object's own property, and `undefined` on every other value. */
  function ShapeField(j: Json, key: string): Option<Json>
    requires !j.Null? && key in ShapeKeys
  {
    if j.Obj? && key in j.fields then Some(j.fields[key]) else None
  }

  /** Decimal digits of a natural number, as JavaScript writes array indices. */
  function DecimalDigits(n: nat): (r: string)
    ensures r != [] && forall i :: 0 <= i < |r| ==> '0' <= r[i] <= '9'
    ensures n < 10 <==> |r| == 1
  {
    if n < 10 then [('0' as int + n) as char]
    else DecimalDigits(n / 10) + [('0' as int + n % 10) as char]
  }

  /** Distinct numbers have distinct decimal spellings. */
  lemma {:induction false} DecimalDigitsInjective(a: nat, b: nat)
    requires DecimalDigits(a) == DecimalDigits(b)
    ensures a == b
    decreases a
  {
    var r := DecimalDigits(a);
    if a >= 10 && b >= 10 {
      assert DecimalDigits(a / 10) == r[..|r| - 1] == DecimalDigits(b / 10);
      DecimalDigitsInjective(a / 10, b / 10);
      assert a % 10 == r[|r| - 1] as int - '0' as int == b % 10;
    }
  }

  /** The entries of a list keyed by `key` of their index: for distinct keys,
      each element under its own key and no other key. */
  function KeyedByIndex<K>(items: seq<Json>, key: nat -> K): (m: map<K, Json>)
    requires forall a: nat, b: nat :: a < b < |items| ==> key(a) != key(b)
    ensures forall k :: 0 <= k < |items| ==> key(k) in m && m[key(k)] == items[k]
    ensures forall x :: x in m ==> exists k :: 0 <= k < |items| && key(k) == x
    decreases |items|
  {
    if items == [] then map[]
    else
      var n := |items| - 1;
      assert forall k :: 0 <= k < n ==> items[..n][k] == items[k];
      KeyedByIndex(items[..n], key)[key(n) := items[n]]
  }

  /** The own enumerable properties of the elements of a list, keyed by index. */
  function IndexedEntries(items: seq<Json>): (m: map<string, Json>)
    ensures forall k :: 0 <= k < |items| ==> DecimalDigits(k) in m && m[DecimalDigits(k)] == items[k]
    ensures forall key :: key in m ==> exists k :: 0 <= k < |items| && DecimalDigits(k) == key
  {
    forall a: nat, b: nat | a < b < |items| ensures DecimalDigits(a) != DecimalDigits(b) {
      if DecimalDigits(a) == DecimalDigits(b) {
        DecimalDigitsInjective(a, b);
      }
    }
    KeyedByIndex(items, DecimalDigits)
  }

  /** `{ ...j }`: an object's own properties; a string's or array's indexed
      elements; nothing for `null`, booleans and numbers. */
  function Spread(j: Json): map<string, Json>
  {
    match j
    case Obj(fields) => fields
    case Arr(items) => IndexedEntries(items)
    case Str(s) => IndexedEntries(seq(|s|, i requires 0 <= i < |s| => Str([s[i]])))
    case _ => map[]
  }

  /** `JSON.stringify` and `JSON.parse` as supplied by the runtime; a parse
      that throws `SyntaxError` gives `None`. */
  datatype JsonCodec = JsonCodec(stringify: Json -> string, parse: string -> Option<Json>)

  /** Parsing the text serialised from `j` gives back exactly `j`. Asked of
      one value at a time: numbers here are exact reals, which no text
      format can give back all of. */
  predicate RoundTrips(codec: JsonCodec, j: Json)
  {
    codec.parse(codec.stringify(j)) == Some(j)
  }
}
