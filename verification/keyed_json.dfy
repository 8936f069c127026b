/** Lenient keyed decoding (Codable.swift): the `get(from:forKey:)`
    conversions of `Int`, `String` and `Bool`, the null checks, optional
    `get`, and array decoding. A keyed container is a map from key to a
    JSON-like value together with the container's own primitive reads,
    which belong to Foundation's decoder and are kept abstract
    (`Primitives`). Every primitive read the source makes with `try?` is an
    `Option`: only success or failure matters. */
module KeyedJson {
  import opened Wrappers
  import opened IntText

  datatype Json =
    | JNull
    | JBool(b: bool)
    | JInt(i: int)
    | JDouble(d: real)
    | JString(s: string)
    | JArray(elements: seq<Json>)
    | JObject(fields: map<string, Json>)

  /** The type a conversion or null error names. */
  datatype TypeName = IntType | DoubleType | StringType | BoolType | ArrayType | UnkeyedContainerType | KeyedContainerType

  datatype DecodingError =
      /** `noKeyError`: `DecodingError.keyNotFound` */
    | KeyNotFound(key: string)
      /** `noValueError`: `DecodingError.valueNotFound` */
    | ValueNotFound(key: string, expected: TypeName)
      /** `conversionError`: `dataCorrupted`, for a key or (None) for an unkeyed container */
    | DataCorrupted(at: Option<string>, target: TypeName)
      /** an error thrown by Foundation's decoder itself */
    | Foreign(description: string)

  /** The container's primitive reads of the value stored under a key
      (`decodeNil(forKey:)`, which can throw, and `decode(_:forKey:)` for
      `Int`, `Double`, `String` and `Bool`), and the standard library's
      `Double(Int)` (which rounds to the nearest double), `String(Double)`
      and `Double(String)`, which are left abstract. */
  datatype Primitives = Primitives(
    decodeNil: Json -> Result<bool, DecodingError>,
    decodeInt: Json -> Option<int>,
    decodeDouble: Json -> Option<real>,
    decodeString: Json -> Option<string>,
    decodeBool: Json -> Option<bool>,
    intToDouble: int -> real,
    formatDouble: real -> string,
    parseDouble: string -> Option<real>)

  datatype Container = Container(entries: map<string, Json>, prims: Primitives)

  /** `(try? decodeNil(forKey: key)) ?? false`: a throwing null check reads
      as "not null". */
  predicate StoredNull(c: Container, key: string)
    requires key in c.entries
  {
    var n := c.prims.decodeNil(c.entries[key]);
    n.Success? && n.value
  }

  /** `ensureNotNull(forKey:expected:)`: a missing key, then a null value,
      are rejected before any conversion. */
  function EnsureNotNull(c: Container, key: string, expected: TypeName): (r: Outcome<DecodingError>)
    ensures r.Pass? <==> key in c.entries && !StoredNull(c, key)
    ensures key !in c.entries ==> r == Fail(KeyNotFound(key))
    ensures key in c.entries && StoredNull(c, key) ==> r == Fail(ValueNotFound(key, expected))
  {
    if key !in c.entries then Fail(KeyNotFound(key))
    else if StoredNull(c, key) then Fail(ValueNotFound(key, expected))
    else Pass
  }

  /** `isNull(forKey:)`: true for a missing key without asking the decoder;
      otherwise whatever `decodeNil` answers, its error included. */
  function IsNull(c: Container, key: string): (r: Result<bool, DecodingError>)
    ensures key !in c.entries ==> r == Success(true)
    ensures key in c.entries ==> r == c.prims.decodeNil(c.entries[key])
  {
    if key !in c.entries then Success(true) else c.prims.decodeNil(c.entries[key])
  }

  /** `Int.get(from:forKey:)`: a native int, else a string that `Int(_:)`
      reads as a decimal 64-bit integer, else a conversion error. */
  function GetInt(c: Container, key: string): (r: Result<int, DecodingError>)
    ensures EnsureNotNull(c, key, IntType).Fail? ==> r == Failure(EnsureNotNull(c, key, IntType).error)
    ensures EnsureNotNull(c, key, IntType).Pass? ==>
      var v := c.entries[key];
      && (c.prims.decodeInt(v).Some? ==> r == Success(c.prims.decodeInt(v).value))
      && (c.prims.decodeInt(v).None? && c.prims.decodeString(v).Some?
          && ParseInt(c.prims.decodeString(v).value, 10).Some? ==>
            r == Success(ParseInt(c.prims.decodeString(v).value, 10).value))
      && (r.Failure? <==>
            c.prims.decodeInt(v).None?
            && (c.prims.decodeString(v).None? || ParseInt(c.prims.decodeString(v).value, 10).None?))
      && (r.Failure? ==> r.error == DataCorrupted(Some(key), IntType))
  {
    var check := EnsureNotNull(c, key, IntType);
    if check.Fail? then Failure(check.error) else
    var v := c.entries[key];
    if c.prims.decodeInt(v).Some? then Success(c.prims.decodeInt(v).value)
    else if c.prims.decodeString(v).Some? && ParseInt(c.prims.decodeString(v).value, 10).Some? then
      Success(ParseInt(c.prims.decodeString(v).value, 10).value)
    else Failure(DataCorrupted(Some(key), IntType))
  }

  /** `Double.get(from:forKey:)`: a native double, else an int converted
      by `Double(_:)`, else a string that `Double(_:)` reads, else a
      conversion error. */
  function GetDouble(c: Container, key: string): (r: Result<real, DecodingError>)
    ensures EnsureNotNull(c, key, DoubleType).Fail? ==> r == Failure(EnsureNotNull(c, key, DoubleType).error)
    ensures EnsureNotNull(c, key, DoubleType).Pass? ==>
      var v := c.entries[key];
      && (c.prims.decodeDouble(v).Some? ==> r == Success(c.prims.decodeDouble(v).value))
      && (c.prims.decodeDouble(v).None? && c.prims.decodeInt(v).Some? ==>
            r == Success(c.prims.intToDouble(c.prims.decodeInt(v).value)))
      && (c.prims.decodeDouble(v).None? && c.prims.decodeInt(v).None? && c.prims.decodeString(v).Some?
          && c.prims.parseDouble(c.prims.decodeString(v).value).Some? ==>
            r == Success(c.prims.parseDouble(c.prims.decodeString(v).value).value))
      && (r.Failure? <==>
            c.prims.decodeDouble(v).None? && c.prims.decodeInt(v).None?
            && (c.prims.decodeString(v).None? || c.prims.parseDouble(c.prims.decodeString(v).value).None?))
      && (r.Failure? ==> r.error == DataCorrupted(Some(key), DoubleType))
  {
    var check := EnsureNotNull(c, key, DoubleType);
    if check.Fail? then Failure(check.error) else
    var v := c.entries[key];
    if c.prims.decodeDouble(v).Some? then Success(c.prims.decodeDouble(v).value)
    else if c.prims.decodeInt(v).Some? then Success(c.prims.intToDouble(c.prims.decodeInt(v).value))
    else if c.prims.decodeString(v).Some? && c.prims.parseDouble(c.prims.decodeString(v).value).Some? then
      Success(c.prims.parseDouble(c.prims.decodeString(v).value).value)
    else Failure(DataCorrupted(Some(key), DoubleType))
  }

  /** `String.get(from:forKey:)`: a native string, else the decimal text of
      an int, else the text of a double, else a conversion error. */
  function GetString(c: Container, key: string): (r: Result<string, DecodingError>)
    ensures EnsureNotNull(c, key, StringType).Fail? ==> r == Failure(EnsureNotNull(c, key, StringType).error)
    ensures EnsureNotNull(c, key, StringType).Pass? ==>
      var v := c.entries[key];
      && (c.prims.decodeString(v).Some? ==> r == Success(c.prims.decodeString(v).value))
      && (c.prims.decodeString(v).None? && c.prims.decodeInt(v).Some? ==>
            r == Success(FormatInt(c.prims.decodeInt(v).value)))
      && (c.prims.decodeString(v).None? && c.prims.decodeInt(v).None? && c.prims.decodeDouble(v).Some? ==>
            r == Success(c.prims.formatDouble(c.prims.decodeDouble(v).value)))
      && (r.Failure? <==>
            c.prims.decodeString(v).None? && c.prims.decodeInt(v).None? && c.prims.decodeDouble(v).None?)
      && (r.Failure? ==> r.error == DataCorrupted(Some(key), StringType))
  {
    var check := EnsureNotNull(c, key, StringType);
    if check.Fail? then Failure(check.error) else
    var v := c.entries[key];
    if c.prims.decodeString(v).Some? then Success(c.prims.decodeString(v).value)
    else if c.prims.decodeInt(v).Some? then Success(FormatInt(c.prims.decodeInt(v).value))
    else if c.prims.decodeDouble(v).Some? then Success(c.prims.formatDouble(c.prims.decodeDouble(v).value))
    else Failure(DataCorrupted(Some(key), StringType))
  }

  /** `lowercased()` on ASCII letters; other characters are kept. */
  function LowerAscii(s: string): (r: string)
    ensures |r| == |s|
    ensures forall i :: 0 <= i < |s| ==> ('A' <= s[i] <= 'Z' <==> r[i] != s[i])
    ensures forall i :: 0 <= i < |s| ==> !('A' <= r[i] <= 'Z')
  {
    seq(|s|, i requires 0 <= i < |s| => if 'A' <= s[i] <= 'Z' then (s[i] as int + 32) as char else s[i])
  }

  const TrueWords: set<string> := {"true", "yes", "1"}
  const FalseWords: set<string> := {"false", "no", "0"}

  /** `Bool.get(from:forKey:)`: a native bool; else an int, true when
      non-zero; else a string that lowercases to one of the true or false
      words; anything else is a conversion error. */
  function GetBool(c: Container, key: string): (r: Result<bool, DecodingError>)
    ensures EnsureNotNull(c, key, BoolType).Fail? ==> r == Failure(EnsureNotNull(c, key, BoolType).error)
    ensures EnsureNotNull(c, key, BoolType).Pass? ==>
      var v := c.entries[key];
      && (c.prims.decodeBool(v).Some? ==> r == Success(c.prims.decodeBool(v).value))
      && (c.prims.decodeBool(v).None? && c.prims.decodeInt(v).Some? ==>
            r == Success(c.prims.decodeInt(v).value != 0))
      && (c.prims.decodeBool(v).None? && c.prims.decodeInt(v).None? && c.prims.decodeString(v).Some? ==>
            var word := LowerAscii(c.prims.decodeString(v).value);
            && (word in TrueWords ==> r == Success(true))
            && (word in FalseWords ==> r == Success(false))
            && (word !in TrueWords && word !in FalseWords ==> r.Failure?))
      && (c.prims.decodeBool(v).None? && c.prims.decodeInt(v).None? && c.prims.decodeString(v).None? ==>
            r.Failure?)
      && (r.Failure? ==> r.error == DataCorrupted(Some(key), BoolType))
  {
    var check := EnsureNotNull(c, key, BoolType);
    if check.Fail? then Failure(check.error) else
    var v := c.entries[key];
    if c.prims.decodeBool(v).Some? then Success(c.prims.decodeBool(v).value)
    else if c.prims.decodeInt(v).Some? then Success(c.prims.decodeInt(v).value != 0)
    else if c.prims.decodeString(v).Some? then
      var word := LowerAscii(c.prims.decodeString(v).value);
      if word in TrueWords then Success(true)
      else if word in FalseWords then Success(false)
      else Failure(DataCorrupted(Some(key), BoolType))
    else Failure(DataCorrupted(Some(key), BoolType))
  }

  /** The default `get(from:forKey:)` (URL, Tagged): only a missing key is
      rejected here; a null value goes to the type's own `decode`. */
  function GetDefault<T>(c: Container, key: string, decode: Json -> Result<T, DecodingError>): (r: Result<T, DecodingError>)
    ensures key !in c.entries ==> r == Failure(KeyNotFound(key))
    ensures key in c.entries ==> r == decode(c.entries[key])
  {
    if key !in c.entries then Failure(KeyNotFound(key)) else decode(c.entries[key])
  }

  /** `get<T>(_ key:) -> T?`: nil when `isNull` says so, an error when
      `isNull` throws, otherwise the non-optional `get`. */
  function GetOptional<T>(c: Container, key: string, get: (Container, string) -> Result<T, DecodingError>): (r: Result<Option<T>, DecodingError>)
    ensures key !in c.entries ==> r == Success(None)
    ensures key in c.entries && c.prims.decodeNil(c.entries[key]) == Success(true) ==> r == Success(None)
    ensures key in c.entries && c.prims.decodeNil(c.entries[key]).Failure? ==>
      r == Failure(c.prims.decodeNil(c.entries[key]).error)
    ensures key in c.entries && c.prims.decodeNil(c.entries[key]) == Success(false) ==>
      (r.Success? <==> get(c, key).Success?) && (r.Success? ==> r.value == Some(get(c, key).value))
      && (r.Failure? ==> r.error == get(c, key).error)
  {
    var isNull :- IsNull(c, key);
    if isNull then Success(None)
    else
      var v :- get(c, key);
      Success(Some(v))
  }

  // ---------------------------------------------------------------------
  // Arrays

  /** An unkeyed container: its `count` (nil when unknown) and the outcome
      of the i-th `decode(Element.self)` call. Whether a failed decode moves
      Foundation's cursor on is folded into `attempt`. */
  datatype Unkeyed<T> = Unkeyed(count: Option<nat>, attempt: nat -> Result<T, DecodingError>)

  /** The values of the successful attempts, in order. */
  function Successes<T>(rs: seq<Result<T, DecodingError>>): (xs: seq<T>)
    ensures |xs| <= |rs|
    ensures (forall i :: 0 <= i < |rs| ==> rs[i].Success?) ==>
      |xs| == |rs| && forall i :: 0 <= i < |rs| ==> xs[i] == rs[i].value
  {
    if |rs| == 0 then []
    else if rs[|rs| - 1].Success? then Successes(rs[..|rs| - 1]) + [rs[|rs| - 1].value]
    else Successes(rs[..|rs| - 1])
  }

  /** The first `n` attempts. */
  function Attempts<T>(u: Unkeyed<T>, n: nat): (rs: seq<Result<T, DecodingError>>)
    ensures |rs| == n && forall i :: 0 <= i < n ==> rs[i] == u.attempt(i)
  {
    seq(n, i requires 0 <= i < n => u.attempt(i))
  }

  /** `Array.get(from: UnkeyedDecodingContainer)`: an unknown count is a
      conversion error; otherwise exactly `count` decodes are attempted. With
      `ignoreErrors` off the first element error propagates; with it on,
      failed elements are skipped and the successes kept in order. */
  method ArrayFromUnkeyed<T>(u: Unkeyed<T>, ignoreErrors: bool) returns (r: Result<seq<T>, DecodingError>)
    ensures u.count.None? ==> r == Failure(DataCorrupted(None, ArrayType))
    ensures u.count.Some? && ignoreErrors ==> r == Success(Successes(Attempts(u, u.count.value)))
    ensures u.count.Some? && !ignoreErrors ==>
      (r.Success? <==> forall i :: 0 <= i < u.count.value ==> u.attempt(i).Success?)
    ensures u.count.Some? && !ignoreErrors && r.Success? ==>
      |r.value| == u.count.value && forall i :: 0 <= i < u.count.value ==> r.value[i] == u.attempt(i).value
    ensures u.count.Some? && !ignoreErrors && r.Failure? ==>
      exists i :: 0 <= i < u.count.value && u.attempt(i) == Failure(r.error)
        && forall j :: 0 <= j < i ==> u.attempt(j).Success?
    ensures r.Success? ==> u.count.Some? && |r.value| <= u.count.value
  {
    if u.count.None? {
      return Failure(DataCorrupted(None, ArrayType));
    }
    var count := u.count.value;
    var res: seq<T> := [];
    var k := 0;
    while k < count
      invariant 0 <= k <= count
      invariant res == Successes(Attempts(u, k))
      invariant !ignoreErrors ==> forall i :: 0 <= i < k ==> u.attempt(i).Success?
    {
      var attempt := u.attempt(k);
      assert Attempts(u, k + 1)[..k] == Attempts(u, k);
      if attempt.Success? {
        res := res + [attempt.value];
      } else if !ignoreErrors {
        return Failure(attempt.error);
      }
      k := k + 1;
    }
    return Success(res);
  }

  /** `getNested(forKey:)`: the null check, then the container's
      `nestedUnkeyedContainer(forKey:)`. */
  function GetNested<T>(c: Container, key: string, nested: Json -> Result<Unkeyed<T>, DecodingError>): (r: Result<Unkeyed<T>, DecodingError>)
    ensures EnsureNotNull(c, key, UnkeyedContainerType).Fail? ==>
      r == Failure(EnsureNotNull(c, key, UnkeyedContainerType).error)
    ensures EnsureNotNull(c, key, UnkeyedContainerType).Pass? ==> r == nested(c.entries[key])
  {
    var check := EnsureNotNull(c, key, UnkeyedContainerType);
    if check.Fail? then Failure(check.error) else
    nested(c.entries[key])
  }

  /** `getNested(keyedBy:forKey:)`: the null check, then the container's
      `nestedContainer(keyedBy:forKey:)`. */
  function GetNestedKeyed(c: Container, key: string, nested: Json -> Result<Container, DecodingError>): (r: Result<Container, DecodingError>)
    ensures EnsureNotNull(c, key, KeyedContainerType).Fail? ==>
      r == Failure(EnsureNotNull(c, key, KeyedContainerType).error)
    ensures EnsureNotNull(c, key, KeyedContainerType).Pass? ==> r == nested(c.entries[key])
  {
    var check := EnsureNotNull(c, key, KeyedContainerType);
    if check.Fail? then Failure(check.error) else
    nested(c.entries[key])
  }

  /** `Array.get(from:forKey:)`: errors of the null check and of
      `getNested` pass through unchanged; any error while decoding the
      elements becomes a conversion error for the key. */
  method GetArray<T>(c: Container, key: string, nested: Json -> Result<Unkeyed<T>, DecodingError>, ignoreErrors: bool)
    returns (r: Result<seq<T>, DecodingError>)
    ensures key !in c.entries ==> r == Failure(KeyNotFound(key))
    ensures key in c.entries && StoredNull(c, key) ==> r == Failure(ValueNotFound(key, ArrayType))
    ensures key in c.entries && !StoredNull(c, key) && nested(c.entries[key]).Failure? ==>
      r == Failure(nested(c.entries[key]).error)
    ensures key in c.entries && !StoredNull(c, key) && nested(c.entries[key]).Success? ==>
      var u := nested(c.entries[key]).value;
      && (u.count.None? ==> r == Failure(DataCorrupted(Some(key), ArrayType)))
      && (u.count.Some? && ignoreErrors ==> r == Success(Successes(Attempts(u, u.count.value))))
      && (u.count.Some? && !ignoreErrors ==>
            (r.Success? <==> forall i :: 0 <= i < u.count.value ==> u.attempt(i).Success?)
            && (r.Success? ==> r.value == Successes(Attempts(u, u.count.value)))
            && (r.Failure? ==> r.error == DataCorrupted(Some(key), ArrayType)))
  {
    var check := EnsureNotNull(c, key, ArrayType);
    if check.Fail? {
      return Failure(check.error);
    }
    var container := GetNested(c, key, nested);
    if container.Failure? {
      return Failure(container.error);
    }
    var elements := ArrayFromUnkeyed(container.value, ignoreErrors);
    if elements.Failure? {
      return Failure(DataCorrupted(Some(key), ArrayType));
    }
    return elements;
  }

  // ---------------------------------------------------------------------
  // A decoder whose primitive reads accept exactly the matching JSON kind

  /** The tag-checking reads, with the standard library's number
      conversions as parameters. */
  function TagReads(intToDouble: int -> real, formatDouble: real -> string, parseDouble: string -> Option<real>): Primitives {
    Primitives(
      (v: Json) => Success(v == JNull),
      (v: Json) => if v.JInt? && InInt64(v.i) then Some(v.i) else None,
      (v: Json) => if v.JDouble? then Some(v.d) else None,
      (v: Json) => if v.JString? then Some(v.s) else None,
      (v: Json) => if v.JBool? then Some(v.b) else None,
      intToDouble, formatDouble, parseDouble)
  }

  /** The tag-checking reads for the examples, which use no doubles. */
  function TagPrimitives(): Primitives {
    TagReads((n: int) => n as real, (d: real) => "", (s: string) => None)
  }

  function Single(key: string, v: Json): Container {
    Container(map[key := v], TagPrimitives())
  }

  /** The int and string conversions are inverse: a 64-bit int stored as
      its decimal text reads back as the int, and an int read as a string
      gives that text. */
  lemma {:induction false} IntStringConversionsRoundTrip(key: string, n: int)
    requires InInt64(n)
    ensures GetInt(Single(key, JString(FormatInt(n))), key) == Success(n)
    ensures GetString(Single(key, JInt(n)), key) == Success(FormatInt(n))
    ensures GetInt(Single(key, JInt(n)), key) == Success(n)
  {
    ParseFormatRoundTrip(n);
  }

  /** Text that is not a decimal integer is a conversion error for `Int`,
      while a stored null is reported as a missing value. */
  lemma IntRejectsNonNumbers(key: string)
    ensures GetInt(Single(key, JString("")), key) == Failure(DataCorrupted(Some(key), IntType))
    ensures GetInt(Single(key, JBool(true)), key) == Failure(DataCorrupted(Some(key), IntType))
    ensures GetInt(Single(key, JNull), key) == Failure(ValueNotFound(key, IntType))
    ensures GetInt(Container(map[], TagPrimitives()), key) == Failure(KeyNotFound(key))
  {
  }

  /** The string words for `Bool` are matched without regard to case. */
  lemma {:induction false} BoolWordsIgnoreCase(key: string)
    ensures GetBool(Single(key, JString("YES")), key) == Success(true)
    ensures GetBool(Single(key, JString("False")), key) == Success(false)
    ensures GetBool(Single(key, JString("maybe")), key) == Failure(DataCorrupted(Some(key), BoolType))
    ensures GetBool(Single(key, JInt(2)), key) == Success(true)
  {
    assert LowerAscii("YES") == "yes";
    assert LowerAscii("False") == "false";
    assert LowerAscii("maybe") == "maybe";
  }

  /** For every decoder, the optional getter is nil exactly where the
      non-optional one fails because the key is missing or the value is
      null; when the null check answers "not null" both succeed together
      with the same value; when the null check throws, the optional getter
      fails with its error although the non-optional one ignores it. */
  lemma OptionalIntGet(c: Container, key: string)
    ensures (key !in c.entries || StoredNull(c, key)) <==>
      GetOptional(c, key, GetInt) == Success(None) && GetInt(c, key).Failure?
    ensures key in c.entries && c.prims.decodeNil(c.entries[key]) == Success(false) ==>
      (GetOptional(c, key, GetInt).Success? <==> GetInt(c, key).Success?)
      && (GetInt(c, key).Success? ==> GetOptional(c, key, GetInt) == Success(Some(GetInt(c, key).value)))
    ensures key in c.entries && c.prims.decodeNil(c.entries[key]).Failure? ==>
      GetOptional(c, key, GetInt) == Failure(c.prims.decodeNil(c.entries[key]).error)
      && GetInt(c, key) != Failure(ValueNotFound(key, IntType))
  {
  }

  /** A null check that throws splits the two getters: an int stored under
      the key reads as that int, while the optional getter fails. */
  lemma ThrowingNullCheckSplitsGetters(key: string, n: int)
    requires InInt64(n)
    ensures var c := Container(map[key := JInt(n)], TagPrimitives().(decodeNil := (v: Json) => Failure(Foreign("decodeNil"))));
      && GetInt(c, key) == Success(n)
      && GetOptional(c, key, GetInt) == Failure(Foreign("decodeNil"))
  {
  }

  /** `Double` reads every kind of stored value through the decoder's
      conversions: a native double as itself, a 64-bit int through
      `Double(_:)`, and text through `Double(_:)` on strings. */
  lemma DoubleReads(key: string, d: real, n: int, text: string,
                    intToDouble: int -> real, formatDouble: real -> string, parseDouble: string -> Option<real>)
    ensures var prims := TagReads(intToDouble, formatDouble, parseDouble);
      && GetDouble(Container(map[key := JDouble(d)], prims), key) == Success(d)
      && GetDouble(Container(map[key := JInt(n)], prims), key) ==
           (if InInt64(n) then Success(intToDouble(n)) else Failure(DataCorrupted(Some(key), DoubleType)))
      && GetDouble(Container(map[key := JString(text)], prims), key) ==
           (if parseDouble(text).Some? then Success(parseDouble(text).value)
            else Failure(DataCorrupted(Some(key), DoubleType)))
      && GetDouble(Container(map[key := JBool(true)], prims), key) == Failure(DataCorrupted(Some(key), DoubleType))
  {
  }

  /** When `Double(String(d)) == d`, a double stored as its text reads back
      as the double, and a double read as a string is that text. */
  lemma DoubleStringConversionsRoundTrip(key: string, d: real,
                    intToDouble: int -> real, formatDouble: real -> string, parseDouble: string -> Option<real>)
    requires parseDouble(formatDouble(d)) == Some(d)
    ensures var prims := TagReads(intToDouble, formatDouble, parseDouble);
      && GetDouble(Container(map[key := JString(formatDouble(d))], prims), key) == Success(d)
      && GetString(Container(map[key := JDouble(d)], prims), key) == Success(formatDouble(d))
  {
  }

  /** `Bool` accepts exactly the texts that lowercase to one of the six
      words, and reads a 64-bit int as whether it is non-zero. */
  lemma BoolFromTextOrInt(key: string, text: string, n: int)
    ensures GetBool(Single(key, JString(text)), key).Success? <==>
      LowerAscii(text) in TrueWords || LowerAscii(text) in FalseWords
    ensures GetBool(Single(key, JString(text)), key).Success? ==>
      GetBool(Single(key, JString(text)), key).value == (LowerAscii(text) in TrueWords)
    ensures GetBool(Single(key, JString(text)), key).Failure? ==>
      GetBool(Single(key, JString(text)), key).error == DataCorrupted(Some(key), BoolType)
    ensures GetBool(Single(key, JInt(n)), key) ==
      (if InInt64(n) then Success(n != 0) else Failure(DataCorrupted(Some(key), BoolType)))
  {
  }
}
