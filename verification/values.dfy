/**
 * The small part of Ruby's dynamic value space the models need: truthiness,
 * `Kernel#Array`, `Hash` type tests, blank strings, decimal integer text, and
 * the (attribute, message) errors that ActiveModel validations collect.
 */
module Values {

  /** A Ruby object as far as the controller core inspects it. */
  datatype Value =
    | Nil
    | Bool(b: bool)
    | Int(i: int)
    | Str(s: string)
    | Sym(name: string)
    | List(items: seq<Value>)
    | Hash(entries: seq<(Value, Value)>)

  /** Ruby truthiness: only `nil` and `false` are falsy. */
  predicate Truthy(v: Value) {
    !(v.Nil? || v == Bool(false))
  }

  /** `v.is_a?(Hash)`. */
  predicate IsHash(v: Value) {
    v.Hash?
  }

  /**
   * `Kernel#Array(v)`: `nil` becomes `[]`, an array is returned as it is, a
   * hash becomes its list of `[key, value]` pairs and any other object is
   * wrapped in a one-element array.
   */
  function ArrayOf(v: Value): (r: seq<Value>)
    ensures v.Nil? ==> r == []
    ensures v.List? ==> r == v.items
    ensures v.Hash? ==> |r| == |v.entries|
    ensures v.Hash? ==> forall i :: 0 <= i < |r| ==> r[i] == List([v.entries[i].0, v.entries[i].1])
    ensures !v.Nil? && !v.List? && !v.Hash? ==> r == [v]
  {
    match v
    case Nil => []
    case List(items) => items
    case Hash(entries) => seq(|entries|, i requires 0 <= i < |entries| => List([entries[i].0, entries[i].1]))
    case _ => [v]
  }

  /** Coercing an already coerced list changes nothing. */
  lemma ArrayOfIdempotent(v: Value)
    ensures ArrayOf(List(ArrayOf(v))) == ArrayOf(v)
  {
  }

  /** The characters ActiveSupport's `String#blank?` treats as white space. */
  predicate IsSpace(c: char) {
    c == ' ' || c == '\t' || c == '\n' || c == '\r' || c == '\U{C}' || c == '\U{B}'
  }

  /** `s.blank?`: empty or white space only. */
  predicate IsBlank(s: string) {
    forall i :: 0 <= i < |s| ==> IsSpace(s[i])
  }

  predicate IsDigit(c: char) {
    '0' <= c <= '9'
  }

  /** Every character is an ASCII digit (what Ruby's `\d` matches). */
  predicate AllDigits(s: string) {
    forall i :: 0 <= i < |s| ==> IsDigit(s[i])
  }

  /** The value of a digit string, leading zeros allowed (`String#to_i`). */
  function DigitsValue(s: string): nat
    requires AllDigits(s)
  {
    if |s| == 0 then 0
    else DigitsValue(s[..|s| - 1]) * 10 + (s[|s| - 1] as int - '0' as int)
  }

  /** The decimal text of `n`, as `Integer#to_s` writes it. */
  function Digits(n: nat): (r: string)
    ensures |r| >= 1 && AllDigits(r)
  {
    if n < 10 then ['0' + n as char]
    else Digits(n / 10) + ['0' + (n % 10) as char]
  }

  /** Reading back the decimal text of a number gives that number. */
  lemma {:induction false} DigitsRoundTrip(n: nat)
    ensures DigitsValue(Digits(n)) == n
  {
    if n >= 10 {
      var d := Digits(n);
      assert d[..|d| - 1] == Digits(n / 10);
      DigitsRoundTrip(n / 10);
    }
  }

  /** An ActiveModel error: the attribute it is filed under and its message. */
  datatype ValidationError = ValidationError(attribute: Value, message: string)

  /** An error filed under the attribute symbol `:name`. */
  function AttrError(name: string, message: string): ValidationError {
    ValidationError(Sym(name), message)
  }

  // ActiveModel's default messages for the validators the core declares.
  const BlankMessage := "can't be blank"
  const InclusionMessage := "is not included in the list"
  const NotANumberMessage := "is not a number"
  const NotAnIntegerMessage := "must be an integer"
  const BelowOneMessage := "must be greater than or equal to 1"
}
