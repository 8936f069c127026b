/** Property-list encoding (DataSerialization.swift): the
    `PropertyListRepresentable` codecs and the typed `get`/`set` on a
    `[String: Any]` dictionary. A value held in an `Any` is a `Plist`; a cast
    `as? T` is the tag check `Conforms(p, kind)`; a conformance of a Swift
    type to `PropertyListRepresentable` is a `Codec` record. */
module PropertyList {
  import opened Wrappers

  /** A property-list value as stored in an `Any`. `PNil` is a nil optional
      stored as a value. */
  datatype Plist =
    | PNil
    | PInt(i: int)
    | PString(s: string)
    | PDouble(d: real)
    | PBool(b: bool)
    | PDate(seconds: real)
    | PArray(elements: seq<Plist>)
    | PDict(fields: map<string, Plist>)

  /** The static type named by a cast `as? T`. `AnyKind` is `Any`, so
      `DictKind(AnyKind)` is `[String: Any]` and `ArrayKind(AnyKind)` is `[Any]`. */
  datatype Kind =
    | AnyKind
    | IntKind
    | StringKind
    | DoubleKind
    | BoolKind
    | DateKind
    | OptionalKind(wrapped: Kind)
    | ArrayKind(element: Kind)
    | DictKind(value: Kind)

  /** `p as? T` succeeds for the type `k`. An array or dictionary cast checks
      every element; an optional type also admits nil. */
  predicate Conforms(p: Plist, k: Kind)
    decreases k
  {
    match k
    case AnyKind => true
    case IntKind => p.PInt?
    case StringKind => p.PString?
    case DoubleKind => p.PDouble?
    case BoolKind => p.PBool?
    case DateKind => p.PDate?
    case OptionalKind(w) => p.PNil? || Conforms(p, w)
    case ArrayKind(e) => p.PArray? && forall i :: 0 <= i < |p.elements| ==> Conforms(p.elements[i], e)
    case DictKind(v) => p.PDict? && forall key :: key in p.fields ==> Conforms(p.fields[key], v)
  }

  /** `PropertyListError<T>`; the Swift type parameter only names the type in
      messages and is dropped. */
  datatype PlistError =
    | MissingProperty(key: string)
    | InvalidType(expected: Kind, key: string, value: Plist)
    | InvalidValue(key: string, value: Plist, cause: Option<PlistError>)
    | Decode(inner: PlistError)

  /** A conformance to `PropertyListRepresentable`: the static type of its
      `PropertyListValue`, `encode()`, `decode(_:)`, and whether a value is a
      nil `Optional` (the `AnyOptional.isNil` test of `encodeInContainer`).
      Swift's types guarantee `decode` only sees values of `kind`; on any
      other value the model's `decode` fails with `InvalidType`. */
  datatype Codec<!T> = Codec(
    kind: Kind,
    encode: T -> Plist,
    decode: Plist -> Result<T, PlistError>,
    isNil: T -> bool)

  function Mismatch<T>(k: Kind, p: Plist): Result<T, PlistError>
  {
    Failure(InvalidType(k, "", p))
  }

  /** Every encoded value has the codec's static type. */
  ghost predicate WellKinded<T(!new)>(c: Codec<T>)
  {
    forall t :: Conforms(c.encode(t), c.kind)
  }

  /** Decoding undoes encoding. */
  ghost predicate RoundTrips<T(!new)>(c: Codec<T>)
  {
    forall t :: c.decode(c.encode(t)) == Success(t)
  }

  /** No value encodes as a stored nil. */
  ghost predicate NeverNil<T(!new)>(c: Codec<T>)
  {
    forall t :: c.encode(t) != PNil
  }

  // ---------------------------------------------------------------------
  // PropertyListRepresentableAsSelf: Int, String, Double, Bool, Date

  function IntCodec(): (c: Codec<int>)
    ensures c.kind == IntKind && WellKinded(c) && RoundTrips(c) && NeverNil(c)
    ensures forall i: int :: c.encode(i) == PInt(i) && !c.isNil(i)
  {
    Codec(IntKind, (i: int) => PInt(i),
      (p: Plist) => if p.PInt? then Success(p.i) else Mismatch(IntKind, p),
      (i: int) => false)
  }

  function StringCodec(): (c: Codec<string>)
    ensures c.kind == StringKind && WellKinded(c) && RoundTrips(c) && NeverNil(c)
    ensures forall s: string :: c.encode(s) == PString(s) && !c.isNil(s)
  {
    Codec(StringKind, (s: string) => PString(s),
      (p: Plist) => if p.PString? then Success(p.s) else Mismatch(StringKind, p),
      (s: string) => false)
  }

  function DoubleCodec(): (c: Codec<real>)
    ensures c.kind == DoubleKind && WellKinded(c) && RoundTrips(c) && NeverNil(c)
    ensures forall d: real :: c.encode(d) == PDouble(d) && !c.isNil(d)
  {
    Codec(DoubleKind, (d: real) => PDouble(d),
      (p: Plist) => if p.PDouble? then Success(p.d) else Mismatch(DoubleKind, p),
      (d: real) => false)
  }

  function BoolCodec(): (c: Codec<bool>)
    ensures c.kind == BoolKind && WellKinded(c) && RoundTrips(c) && NeverNil(c)
    ensures forall b: bool :: c.encode(b) == PBool(b) && !c.isNil(b)
  {
    Codec(BoolKind, (b: bool) => PBool(b),
      (p: Plist) => if p.PBool? then Success(p.b) else Mismatch(BoolKind, p),
      (b: bool) => false)
  }

  function DateCodec(): (c: Codec<real>)
    ensures c.kind == DateKind && WellKinded(c) && RoundTrips(c) && NeverNil(c)
    ensures forall t: real :: c.encode(t) == PDate(t) && !c.isNil(t)
  {
    Codec(DateKind, (t: real) => PDate(t),
      (p: Plist) => if p.PDate? then Success(p.seconds) else Mismatch(DateKind, p),
      (t: real) => false)
  }

  // ---------------------------------------------------------------------
  // PropertyListRepresentableAsRawValue

  /** A `RawRepresentable` type stored as its raw value; `raw` is the raw
      type's own (self-represented) conformance, whose `decode` is the cast
      to the raw type, and `fromRaw` is `init?(rawValue:)`. */
  function RawValueCodec<T(!new), R>(raw: Codec<R>, rawValue: T -> R, fromRaw: R -> Option<T>): (c: Codec<T>)
    ensures c.kind == raw.kind
    ensures forall t :: c.encode(t) == raw.encode(rawValue(t))
    ensures forall p :: raw.decode(p).Success? ==>
      c.decode(p) == (if fromRaw(raw.decode(p).value).Some?
                      then Success(fromRaw(raw.decode(p).value).value)
                      else Failure(Decode(InvalidValue("rawValue", p, None))))
  {
    Codec(raw.kind,
      (t: T) => raw.encode(rawValue(t)),
      (p: Plist) =>
        match raw.decode(p)
        case Failure(e) => Failure(e)
        case Success(r) =>
          match fromRaw(r)
          case Some(t) => Success(t)
          case None => Failure(Decode(InvalidValue("rawValue", p, None))),
      (t: T) => false)
  }

  /** With a lawful raw representation (`init?(rawValue: x.rawValue) == x`)
      the raw-value codec round-trips, and it fails exactly on raw values
      that `init?(rawValue:)` rejects. */
  lemma RawValueRoundTrip<T(!new), R(!new)>(raw: Codec<R>, rawValue: T -> R, fromRaw: R -> Option<T>)
    requires RoundTrips(raw) && WellKinded(raw)
    requires forall t :: fromRaw(rawValue(t)) == Some(t)
    ensures RoundTrips(RawValueCodec(raw, rawValue, fromRaw))
    ensures WellKinded(RawValueCodec(raw, rawValue, fromRaw))
    ensures forall r :: fromRaw(r).None? ==>
      RawValueCodec(raw, rawValue, fromRaw).decode(raw.encode(r))
        == Failure(Decode(InvalidValue("rawValue", raw.encode(r), None)))
  {
    var c := RawValueCodec(raw, rawValue, fromRaw);
    forall t
      ensures c.decode(c.encode(t)) == Success(t)
    {
      assert raw.decode(raw.encode(rawValue(t))) == Success(rawValue(t));
    }
    forall r | fromRaw(r).None?
      ensures c.decode(raw.encode(r)) == Failure(Decode(InvalidValue("rawValue", raw.encode(r), None)))
    {
      assert raw.decode(raw.encode(r)) == Success(r);
    }
  }

  /** `URL` stored as its `absoluteString`; `parse` is `URL(string:)`,
      whose rejection is reported with an empty key. */
  function UrlCodec<U(!new)>(absoluteString: U -> string, parse: string -> Option<U>): (c: Codec<U>)
    ensures c.kind == StringKind
    ensures forall u :: c.encode(u) == PString(absoluteString(u))
    ensures forall text :: parse(text).Some? ==> c.decode(PString(text)) == Success(parse(text).value)
    ensures forall text :: parse(text).None? ==>
      c.decode(PString(text)) == Failure(Decode(InvalidValue("", PString(text), None)))
  {
    Codec(StringKind,
      (u: U) => PString(absoluteString(u)),
      (p: Plist) =>
        if !p.PString? then Mismatch(StringKind, p)
        else match parse(p.s)
          case Some(u) => Success(u)
          case None => Failure(Decode(InvalidValue("", p, None))),
      (u: U) => false)
  }

  /** When `URL(string:)` reads back every `absoluteString`, URLs round-trip. */
  lemma UrlRoundTrip<U(!new)>(absoluteString: U -> string, parse: string -> Option<U>)
    requires forall u :: parse(absoluteString(u)) == Some(u)
    ensures RoundTrips(UrlCodec(absoluteString, parse)) && WellKinded(UrlCodec(absoluteString, parse))
  {
    var c := UrlCodec(absoluteString, parse);
    forall u
      ensures c.decode(c.encode(u)) == Success(u)
    {
      assert c.encode(u) == PString(absoluteString(u));
    }
  }

  // ---------------------------------------------------------------------
  // Containers

  /** `encodeInContainer()`: nil for a nil optional, `encode()` otherwise. */
  function EncodeInContainer<T>(c: Codec<T>, v: T): (r: Option<Plist>)
    ensures r.None? <==> c.isNil(v)
    ensures r.Some? ==> r.value == c.encode(v)
  {
    if c.isNil(v) then None else Some(c.encode(v))
  }

  /** `Optional: PropertyListRepresentable`: nil encodes as a stored nil, and
      a wrapped value's decoding error is wrapped in `.decode`. */
  function OptionalCodec<W(!new)>(c: Codec<W>): (oc: Codec<Option<W>>)
    ensures oc.kind == OptionalKind(c.kind)
    ensures oc.isNil(None) && oc.encode(None) == PNil && oc.decode(PNil) == Success(None)
    ensures forall w :: !oc.isNil(Some(w)) && oc.encode(Some(w)) == c.encode(w)
    ensures forall p: Plist :: !p.PNil? && c.decode(p).Failure? ==>
      oc.decode(p) == Failure(Decode(c.decode(p).error))
  {
    Codec(OptionalKind(c.kind),
      (o: Option<W>) => if o.None? then PNil else c.encode(o.value),
      (p: Plist) =>
        if p.PNil? then Success(None)
        else
          match c.decode(p)
          case Success(w) => Success(Some(w))
          case Failure(e) => Failure(Decode(e)),
      (o: Option<W>) => o.None?)
  }

  lemma OptionalRoundTrip<W(!new)>(c: Codec<W>)
    requires RoundTrips(c) && WellKinded(c) && NeverNil(c)
    ensures RoundTrips(OptionalCodec(c)) && WellKinded(OptionalCodec(c))
    ensures forall o: Option<W> :: EncodeInContainer(OptionalCodec(c), o).None? <==> o.None?
  {
    var oc := OptionalCodec(c);
    forall o: Option<W>
      ensures oc.decode(oc.encode(o)) == Success(o)
    {
      if o.Some? {
        assert c.encode(o.value) != PNil;
      }
    }
  }

  /** The elements that are not nil optionals, in order: the reference for
      what `compactMap` keeps. */
  function NonNil<E>(c: Codec<E>, xs: seq<E>): (kept: seq<E>)
    ensures |kept| <= |xs|
    ensures forall i :: 0 <= i < |kept| ==> !c.isNil(kept[i])
    ensures (forall i :: 0 <= i < |xs| ==> !c.isNil(xs[i])) ==> kept == xs
    ensures (forall i :: 0 <= i < |xs| ==> c.isNil(xs[i])) ==> kept == []
  {
    if |xs| == 0 then []
    else if c.isNil(xs[0]) then NonNil(c, xs[1..])
    else [xs[0]] + NonNil(c, xs[1..])
  }

  /** Filtering distributes over concatenation, so with `NonNilSingle` it
      fixes `NonNil` completely: nils are dropped wherever they stand and the
      other elements keep their order. */
  lemma {:induction false} NonNilAppend<E>(c: Codec<E>, xs: seq<E>, ys: seq<E>)
    ensures NonNil(c, xs + ys) == NonNil(c, xs) + NonNil(c, ys)
  {
    if |xs| == 0 {
      assert xs + ys == ys;
    } else {
      assert (xs + ys)[0] == xs[0];
      assert (xs + ys)[1..] == xs[1..] + ys;
      NonNilUnfold(c, xs);
      NonNilUnfold(c, xs + ys);
      NonNilAppend(c, xs[1..], ys);
      var front := if c.isNil(xs[0]) then [] else [xs[0]];
      Regroup3(front, NonNil(c, xs[1..]), NonNil(c, ys));
    }
  }

  // One step of the filter: the head is kept unless it is nil.
  lemma NonNilUnfold<E>(c: Codec<E>, xs: seq<E>)
    requires |xs| > 0
    ensures NonNil(c, xs) == (if c.isNil(xs[0]) then [] else [xs[0]]) + NonNil(c, xs[1..])
  {
    if c.isNil(xs[0]) {
      assert [] + NonNil(c, xs[1..]) == NonNil(c, xs[1..]);
    }
  }

  // Concatenation regrouped.
  lemma Regroup3<E>(a: seq<E>, b: seq<E>, d: seq<E>)
    ensures a + (b + d) == (a + b) + d
  {
  }

  lemma NonNilSingle<E>(c: Codec<E>, x: E)
    ensures NonNil(c, [x]) == if c.isNil(x) then [] else [x]
  {
    assert [x][1..] == [];
  }

  /** `compactMap { $0.encodeInContainer() }`. */
  function EncodeElements<E>(c: Codec<E>, xs: seq<E>): (ps: seq<Plist>)
    ensures |ps| == |NonNil(c, xs)|
    ensures forall i :: 0 <= i < |ps| ==> ps[i] == c.encode(NonNil(c, xs)[i])
    ensures |ps| <= |xs|
    ensures (forall i :: 0 <= i < |xs| ==> !c.isNil(xs[i])) ==>
      |ps| == |xs| && forall i :: 0 <= i < |xs| ==> ps[i] == c.encode(xs[i])
    ensures (forall i :: 0 <= i < |xs| ==> c.isNil(xs[i])) ==> ps == []
  {
    if |xs| == 0 then []
    else
      match EncodeInContainer(c, xs[0])
      case None => EncodeElements(c, xs[1..])
      case Some(p) => [p] + EncodeElements(c, xs[1..])
  }

  /** `map { try Element.decode($0) }`: every element decoded in order; the
      first failure is the result. */
  function DecodeElements<E>(c: Codec<E>, ps: seq<Plist>): (r: Result<seq<E>, PlistError>)
    ensures r.Success? <==> forall i :: 0 <= i < |ps| ==> c.decode(ps[i]).Success?
    ensures r.Success? ==> |r.value| == |ps| && forall i :: 0 <= i < |ps| ==> r.value[i] == c.decode(ps[i]).value
    ensures r.Failure? ==>
      exists i :: 0 <= i < |ps| && c.decode(ps[i]) == Failure(r.error)
        && forall j :: 0 <= j < i ==> c.decode(ps[j]).Success?
  {
    if |ps| == 0 then Success([])
    else
      match c.decode(ps[0])
      case Failure(e) => Failure(e)
      case Success(x) =>
        match DecodeElements(c, ps[1..])
        case Failure(e) => Failure(e)
        case Success(xs) => Success([x] + xs)
  }

  /** `Array: PropertyListRepresentable`. */
  function ArrayCodec<E(!new)>(c: Codec<E>): (ac: Codec<seq<E>>)
    ensures ac.kind == ArrayKind(c.kind)
    ensures forall xs :: !ac.isNil(xs) && ac.encode(xs).PArray?
    ensures forall p: Plist :: !p.PArray? ==> ac.decode(p) == Mismatch(ArrayKind(c.kind), p)
  {
    Codec(ArrayKind(c.kind),
      (xs: seq<E>) => PArray(EncodeElements(c, xs)),
      (p: Plist) =>
        if !p.PArray? then Mismatch(ArrayKind(c.kind), p)
        else
          match DecodeElements(c, p.elements)
          case Success(xs) => Success(xs)
          case Failure(e) => Failure(Decode(e)),
      (xs: seq<E>) => false)
  }

  /** An array without nil elements round-trips; decoding fails, wrapped in
      `.decode`, exactly when some element fails. */
  lemma ArrayRoundTrip<E(!new)>(c: Codec<E>, xs: seq<E>, ps: seq<Plist>)
    requires RoundTrips(c)
    ensures ArrayCodec(c).decode(ArrayCodec(c).encode(xs)) == Success(NonNil(c, xs))
    ensures (forall i :: 0 <= i < |xs| ==> !c.isNil(xs[i])) ==>
      ArrayCodec(c).decode(ArrayCodec(c).encode(xs)) == Success(xs)
    ensures ArrayCodec(c).decode(PArray(ps)).Failure? <==>
      exists i :: 0 <= i < |ps| && c.decode(ps[i]).Failure?
    ensures ArrayCodec(c).decode(PArray(ps)).Failure? ==>
      ArrayCodec(c).decode(PArray(ps)).error.Decode?
  {
    var es, kept := EncodeElements(c, xs), NonNil(c, xs);
    assert forall i :: 0 <= i < |es| ==> c.decode(es[i]) == Success(kept[i]);
    assert DecodeElements(c, es).value == kept;
  }

  lemma WellKindedArray<E(!new)>(c: Codec<E>)
    requires WellKinded(c)
    ensures WellKinded(ArrayCodec(c))
  {
    forall xs: seq<E>
      ensures Conforms(ArrayCodec(c).encode(xs), ArrayKind(c.kind))
    {
      EncodeElementsKinded(c, xs);
    }
  }

  lemma {:induction false} EncodeElementsKinded<E(!new)>(c: Codec<E>, xs: seq<E>)
    requires WellKinded(c)
    ensures forall i :: 0 <= i < |EncodeElements(c, xs)| ==> Conforms(EncodeElements(c, xs)[i], c.kind)
  {
    if |xs| > 0 {
      EncodeElementsKinded(c, xs[1..]);
    }
  }

  /** `compactMapValues { $0.encodeInContainer() }`. */
  function EncodeValues<V>(c: Codec<V>, m: map<string, V>): (r: map<string, Plist>)
    ensures r.Keys == set key | key in m && !c.isNil(m[key])
    ensures forall key :: key in r ==> r[key] == c.encode(m[key])
  {
    map key | key in m && !c.isNil(m[key]) :: c.encode(m[key])
  }

  /** `mapValues { try Value.decode($0) }`. Swift visits the values in hash
      order and reports the first failure; the order is unspecified, so the
      model reports the failure of some failing value. */
  ghost function DecodeValues<V>(c: Codec<V>, fields: map<string, Plist>): (r: Result<map<string, V>, PlistError>)
    ensures r.Success? <==> forall key :: key in fields ==> c.decode(fields[key]).Success?
    ensures r.Success? ==> r.value.Keys == fields.Keys
    ensures r.Success? ==> forall key :: key in fields ==> r.value[key] == c.decode(fields[key]).value
    ensures r.Failure? ==> exists key :: key in fields && c.decode(fields[key]) == Failure(r.error)
  {
    if forall key :: key in fields ==> c.decode(fields[key]).Success? then
      Success(map key | key in fields :: c.decode(fields[key]).value)
    else
      var key :| key in fields && c.decode(fields[key]).Failure?;
      Failure(c.decode(fields[key]).error)
  }

  /** `Dictionary: PropertyListRepresentable` for `String` keys. */
  ghost function DictCodec<V(!new)>(c: Codec<V>): (dc: Codec<map<string, V>>)
    ensures dc.kind == DictKind(c.kind)
    ensures forall m :: !dc.isNil(m) && dc.encode(m).PDict?
    ensures forall p: Plist :: !p.PDict? ==> dc.decode(p) == Mismatch(DictKind(c.kind), p)
    ensures forall fs :: DecodeValues(c, fs).Success? ==>
      dc.decode(PDict(fs)) == Success(DecodeValues(c, fs).value)
    ensures forall fs :: DecodeValues(c, fs).Failure? ==>
      dc.decode(PDict(fs)) == Failure(Decode(DecodeValues(c, fs).error))
  {
    Codec(DictKind(c.kind),
      (m: map<string, V>) => PDict(EncodeValues(c, m)),
      (p: Plist) =>
        if !p.PDict? then Mismatch(DictKind(c.kind), p)
        else
          match DecodeValues(c, p.fields)
          case Success(m) => Success(m)
          case Failure(e) => Failure(Decode(e)),
      (m: map<string, V>) => false)
  }

  /** A stored dictionary decodes every value: it fails, wrapped in
      `.decode`, exactly when some value fails, and otherwise gives the
      decoded value under each stored key. */
  lemma DictDecode<V(!new)>(c: Codec<V>, fields: map<string, Plist>)
    ensures DictCodec(c).decode(PDict(fields)).Failure? <==>
      exists key :: key in fields && c.decode(fields[key]).Failure?
    ensures DictCodec(c).decode(PDict(fields)).Failure? ==>
      exists key :: key in fields && c.decode(fields[key]).Failure? &&
        DictCodec(c).decode(PDict(fields)).error == Decode(c.decode(fields[key]).error)
    ensures DictCodec(c).decode(PDict(fields)).Success? ==>
      && DictCodec(c).decode(PDict(fields)).value.Keys == fields.Keys
      && forall key :: key in fields ==>
           DictCodec(c).decode(PDict(fields)).value[key] == c.decode(fields[key]).value
  {
    var r := DecodeValues(c, fields);
    if r.Failure? {
      var key :| key in fields && c.decode(fields[key]) == Failure(r.error);
      assert c.decode(fields[key]).Failure?;
    }
  }

  /** A dictionary without nil values round-trips; encoding drops exactly
      the keys whose value is a nil optional. */
  lemma DictRoundTrip<V(!new)>(c: Codec<V>, m: map<string, V>)
    requires RoundTrips(c)
    ensures (forall key :: key in m ==> !c.isNil(m[key])) ==>
      DictCodec(c).decode(DictCodec(c).encode(m)) == Success(m)
    ensures DictCodec(c).encode(m).fields.Keys == set key | key in m && !c.isNil(m[key])
  {
    if forall key :: key in m ==> !c.isNil(m[key]) {
      var fields := EncodeValues(c, m);
      assert fields.Keys == m.Keys;
      assert forall key :: key in fields ==> c.decode(fields[key]) == Success(m[key]);
      var r := DecodeValues(c, fields);
      assert r.value == m;
    }
  }

  // ---------------------------------------------------------------------
  // PropertyListDict.get / set

  type PropertyListDict = map<string, Plist>

  /** `get<T: PropertyListRepresentable>(_ key:)`: a missing key, a stored
      value of the wrong type and a failed decode each raise their own error,
      the last two carrying the key. */
  function Get<T>(d: PropertyListDict, key: string, c: Codec<T>): (r: Result<T, PlistError>)
    ensures r == Failure(MissingProperty(key)) <==> key !in d
    ensures (r.Failure? && r.error.InvalidType?) <==> key in d && !Conforms(d[key], c.kind)
    ensures r.Failure? && r.error.InvalidType? ==> r.error == InvalidType(c.kind, key, d[key])
    ensures (r.Failure? && r.error.InvalidValue?) <==>
      key in d && Conforms(d[key], c.kind) && c.decode(d[key]).Failure?
    ensures r.Failure? && r.error.InvalidValue? ==>
      r.error == InvalidValue(key, d[key], Some(c.decode(d[key]).error))
    ensures r.Success? ==> key in d && c.decode(d[key]) == Success(r.value)
    ensures key in d && Conforms(d[key], c.kind) && c.decode(d[key]).Success? ==>
      r == Success(c.decode(d[key]).value)
  {
    if key !in d then Failure(MissingProperty(key))
    else if !Conforms(d[key], c.kind) then Failure(InvalidType(c.kind, key, d[key]))
    else
      match c.decode(d[key])
      case Success(v) => Success(v)
      case Failure(e) => Failure(InvalidValue(key, d[key], Some(e)))
  }

  /** `get<T: PropertyListRepresentable & AnyOptional>(_ key:) -> T?`: a
      missing key gives nil instead of an error; everything else is as in
      `Get`, including the type check. */
  function GetOptional<T>(d: PropertyListDict, key: string, c: Codec<T>): (r: Result<Option<T>, PlistError>)
    ensures key !in d <==> r == Success(None)
    ensures key in d ==> (r.Success? <==> Get(d, key, c).Success?)
    ensures key in d && r.Success? ==> r.value == Some(Get(d, key, c).value)
    ensures key in d && r.Failure? ==> r.error == Get(d, key, c).error
    ensures key in d && Conforms(d[key], c.kind) && c.decode(d[key]).Success? ==>
      r == Success(Some(c.decode(d[key]).value))
  {
    if key !in d then Success(None)
    else if !Conforms(d[key], c.kind) then Failure(InvalidType(c.kind, key, d[key]))
    else
      match c.decode(d[key])
      case Success(v) => Success(Some(v))
      case Failure(e) => Failure(InvalidValue(key, d[key], Some(e)))
  }

  /** The `AnyPropertyList` types: `[String: Any]`, `[Any]` and their optionals. */
  predicate IsPropertyListKind(k: Kind)
  {
    k == DictKind(AnyKind) || k == ArrayKind(AnyKind)
    || (k.OptionalKind? && IsPropertyListKind(k.wrapped))
  }

  /** `get<T: AnyPropertyList>(_ key:)`: the stored value itself, after the
      cast. */
  function GetList(d: PropertyListDict, key: string, k: Kind): (r: Result<Plist, PlistError>)
    requires IsPropertyListKind(k)
    ensures r.Success? <==> key in d && Conforms(d[key], k)
    ensures r.Success? ==> r.value == d[key]
    ensures key !in d ==> r == Failure(MissingProperty(key))
    ensures key in d && !Conforms(d[key], k) ==> r == Failure(InvalidType(k, key, d[key]))
  {
    if key !in d then Failure(MissingProperty(key))
    else if !Conforms(d[key], k) then Failure(InvalidType(k, key, d[key]))
    else Success(d[key])
  }

  /** `get<T: AnyPropertyList & AnyOptional>(_ key:) -> T?`. */
  function GetListOptional(d: PropertyListDict, key: string, k: Kind): (r: Result<Option<Plist>, PlistError>)
    requires IsPropertyListKind(k)
    ensures key !in d <==> r == Success(None)
    ensures key in d ==> (r.Success? <==> Conforms(d[key], k))
    ensures key in d && r.Success? ==> r.value == Some(d[key])
    ensures key in d && !Conforms(d[key], k) ==> r == Failure(InvalidType(k, key, d[key]))
  {
    if key !in d then Success(None)
    else if !Conforms(d[key], k) then Failure(InvalidType(k, key, d[key]))
    else Success(Some(d[key]))
  }

  /** `set<T: PropertyListRepresentable>(_:forKey:)`: a nil optional leaves
      the dictionary as it is, old value included; anything else stores its
      encoding under the key and touches no other key. */
  function Set<T>(d: PropertyListDict, key: string, v: T, c: Codec<T>): (r: PropertyListDict)
    ensures c.isNil(v) ==> r == d
    ensures !c.isNil(v) ==> key in r && r[key] == c.encode(v)
    ensures !c.isNil(v) ==> r.Keys == d.Keys + {key}
    ensures forall other :: other != key ==> (other in r <==> other in d)
    ensures forall other :: other != key && other in d ==> r[other] == d[other]
  {
    match EncodeInContainer(c, v)
    case None => d
    case Some(p) => d[key := p]
  }

  /** `set<T: AnyPropertyList>(_:forKey:)`: always stores the value. */
  function SetList(d: PropertyListDict, key: string, p: Plist): (r: PropertyListDict)
    ensures key in r && r[key] == p
    ensures r.Keys == d.Keys + {key}
    ensures forall other :: other != key && other in d ==> r[other] == d[other]
  {
    d[key := p]
  }

  /** Reading back what `set` stored gives the value that was set, and
      other keys read as before. */
  lemma GetAfterSet<T(!new), U>(d: PropertyListDict, key: string, v: T, c: Codec<T>, other: string, c2: Codec<U>)
    requires WellKinded(c) && RoundTrips(c)
    requires !c.isNil(v)
    requires other != key
    ensures Get(Set(d, key, v, c), key, c) == Success(v)
    ensures Get(Set(d, key, v, c), other, c2) == Get(d, other, c2)
  {
    assert Conforms(c.encode(v), c.kind);
  }

  /** Reading back what the property-list `set` stored gives the value
      when it has the requested type and `invalidType` otherwise; other keys
      read as before, with or without the optional form. */
  lemma GetListAfterSetList(d: PropertyListDict, key: string, p: Plist, k: Kind, other: string)
    requires IsPropertyListKind(k)
    requires other != key
    ensures Conforms(p, k) ==> GetList(SetList(d, key, p), key, k) == Success(p)
    ensures !Conforms(p, k) ==> GetList(SetList(d, key, p), key, k) == Failure(InvalidType(k, key, p))
    ensures GetListOptional(SetList(d, key, p), key, k) ==
      (if Conforms(p, k) then Success(Some(p)) else Failure(InvalidType(k, key, p)))
    ensures GetList(SetList(d, key, p), other, k) == GetList(d, other, k)
    ensures GetListOptional(SetList(d, key, p), other, k) == GetListOptional(d, other, k)
  {
  }

  /** Setting a nil optional keeps whatever was stored: an optional read
      afterwards sees the old value, or nil when there was none. */
  lemma SetNilKeepsOldValue<W(!new)>(d: PropertyListDict, key: string, c: Codec<W>)
    ensures Set(d, key, None, OptionalCodec(c)) == d
    ensures GetOptional(Set(d, key, None, OptionalCodec(c)), key, OptionalCodec(c))
      == GetOptional(d, key, OptionalCodec(c))
  {
  }
}
