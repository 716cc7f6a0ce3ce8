/**
 * Request bodies as the global ValidationPipe sees them (whitelist on,
 * transform on), and the class-validator decorators the DTOs use.
 */
module Validation {
  import opened Common

  /** A JSON value as parsed from a request body. */
  datatype Json = JString(str: string) | JNumber(num: real) | JBool(flag: bool) | JNull | JStructured

  /** A request body: its top-level properties. */
  type Body = map<string, Json>

  /**
   * A property of a validated DTO marked `@IsOptional()`: absent from the
   * body (undefined), explicitly null, or present with a value.
   */
  datatype Field<+T> = Missing | Null | Present(value: T)

  /** `@IsString()`. */
  predicate IsString(v: Json) { v.JString? }

  /** `@IsInt()`: a number with no fractional part. */
  predicate IsInt(v: Json) { v.JNumber? && v.num.Floor as real == v.num }

  /** `@MinLength(n)`: a string of at least `n` characters. */
  predicate MinLength(v: Json, n: nat) { v.JString? && |v.str| >= n }

  /** `@Min(lo)` and `@Max(hi)` together: a number in `[lo, hi]`. */
  predicate InRange(v: Json, lo: int, hi: int) { v.JNumber? && lo as real <= v.num <= hi as real }

  /** `@IsEnum(E)` for a string enum: one of the enum's values. */
  predicate IsEnum(v: Json, values: seq<string>) { v.JString? && v.str in values }

  /** `@IsDateString()` and `@IsEmail()`: a string accepted by the library's format check. */
  predicate IsFormatted(v: Json, accepts: string -> bool) { v.JString? && accepts(v.str) }

  /** A property without `@IsOptional()`: it must be present and pass its rule (undefined fails every rule). */
  predicate Required(body: Body, key: string, rule: Json -> bool) { key in body && rule(body[key]) }

  /** A property with `@IsOptional()`: its rule is skipped when it is undefined or null. */
  predicate Optional(body: Body, key: string, rule: Json -> bool)
  {
    key !in body || body[key] == JNull || rule(body[key])
  }

  /** The value the transformed DTO carries for an optional property. */
  function OptionalField<T>(body: Body, key: string, convert: Json -> T): (f: Field<T>)
    ensures f.Missing? <==> key !in body
    ensures f.Null? <==> key in body && body[key] == JNull
    ensures f.Present? ==> key in body && f.value == convert(body[key])
  {
    if key !in body then Missing
    else if body[key] == JNull then Null
    else Present(convert(body[key]))
  }

  /** The property of a body, if present. */
  function Get(body: Body, key: string): Option<Json>
  {
    if key in body then Some(body[key]) else None
  }

  /** The part of a body the whitelist keeps: the properties the DTO declares. */
  function Whitelist(body: Body, keys: set<string>): Body
  {
    map k | k in body && k in keys :: body[k]
  }

  /** The property of a body, undefined read as null. */
  function Prop(body: Body, key: string): Json
  {
    if key in body then body[key] else JNull
  }

  /** The JSON a client sends for an optional property (the inverse of `OptionalField`). */
  function EncodeField<T>(f: Field<T>, encode: T -> Json): (p: Option<Json>)
    ensures p.None? <==> f.Missing?
  {
    match f
    case Missing => None
    case Null => Some(JNull)
    case Present(x) => Some(encode(x))
  }

  function StrJson(s: string): Json { JString(s) }
  function IntJson(n: int): Json { JNumber(n as real) }

  /** Reading back an optional property that was encoded from a field gives the field, when decoding undoes encoding. */
  lemma OptionalFieldOfEncoding<T>(body: Body, key: string, f: Field<T>, encode: T -> Json, convert: Json -> T)
    requires Get(body, key) == EncodeField(f, encode)
    requires f.Present? ==> encode(f.value) != JNull && convert(encode(f.value)) == f.value
    ensures OptionalField(body, key, convert) == f
  {
  }

  /** A nullable column set from an optional property on insert: undefined and null both store null. */
  function Nullable<T>(f: Field<T>): (r: Option<T>)
    ensures r.Some? <==> f.Present?
    ensures r.Some? ==> r.value == f.value
  {
    if f.Present? then Some(f.value) else None
  }

  /**
   * A nullable column after `if (dto.x !== undefined) row.x = dto.x`: an
   * undefined property keeps the current value, null clears it, a value
   * replaces it.
   */
  function Patch<T>(current: Option<T>, f: Field<T>): (r: Option<T>)
    ensures f.Missing? ==> r == current
    ensures f.Null? ==> r == None
    ensures f.Present? ==> r == Some(f.value)
  {
    match f
    case Missing => current
    case Null => None
    case Present(x) => Some(x)
  }

  /** Converts the value of a present field, keeping undefined and null as they are. */
  function MapField<T, U>(f: Field<T>, convert: T -> U): (g: Field<U>)
    ensures g.Missing? <==> f.Missing?
    ensures g.Null? <==> f.Null?
    ensures g.Present? ==> g.value == convert(f.value)
  {
    match f
    case Missing => Missing
    case Null => Null
    case Present(x) => Present(convert(x))
  }

  /** Reads the integer of a number that passed `@IsInt()`. */
  function IntOf(v: Json): int
  {
    if v.JNumber? then v.num.Floor else 0
  }

  /** Reads the text of a value that passed `@IsString()`. */
  function StrOf(v: Json): string
  {
    if v.JString? then v.str else []
  }

  /** Encoding an integer as a JSON number and reading it back is the identity. */
  lemma IntRoundTrip(n: int)
    ensures IsInt(IntJson(n)) && IntOf(IntJson(n)) == n
  {
  }

  /** A number that passed `@IsInt()` is re-encoded as itself. */
  lemma IntOfRoundTrip(v: Json)
    requires IsInt(v)
    ensures IntJson(IntOf(v)) == v
  {
  }

  /** An optional string property that passed its rules is re-encoded as itself. */
  lemma OptionalStringRoundTrip(body: Body, key: string)
    requires key in body && body[key] != JNull ==> IsString(body[key])
    ensures EncodeField(OptionalField(body, key, StrOf), StrJson) == Get(body, key)
  {
  }

  /** An optional integer property that passed `@IsInt()` is re-encoded as itself. */
  lemma OptionalIntRoundTrip(body: Body, key: string)
    requires key in body && body[key] != JNull ==> IsInt(body[key])
    ensures EncodeField(OptionalField(body, key, IntOf), IntJson) == Get(body, key)
  {
    if key in body && body[key] != JNull {
      IntOfRoundTrip(body[key]);
    }
  }
}
