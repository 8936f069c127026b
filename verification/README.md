# FoundationEx core in Dafny

This project models the core of FoundationEx, a Swift library of Foundation
extensions, as pure Dafny functions and proves what the library promises of
them:

- `codeString(_:)` (Mirror.swift) renders a reflected value as Swift-like
  source text. Swift's `Mirror` is replaced by a `Value` datatype with one
  constructor per display style (module `CodeString`).
- `parseAsHexColor()` (HexColor.swift) reads `#RRGGBB` / `RRGGBBAA` colours
  (module `HexColor`). It relies on the standard library's `Int(_:radix:)`
  and `String(Int)`, which are modelled in `IntText`.
- The property-list codecs of DataSerialization.swift (module
  `PropertyList`). A `Plist` datatype stands for the `Any` values of a
  `[String: Any]` dictionary. A `Codec<T>` record stands for a
  `PropertyListRepresentable` conformance. The typed `get` and `set`
  operations are functions on `map<string, Plist>`.
- The lenient keyed decoding of Codable.swift (module `KeyedJson`). A keyed
  container is a map from key to value plus the decoder's own primitive reads
  (`Primitives`). Those reads belong to Foundation and are parameters here.
- The collection helpers, one module per file:
  - `stableSorted(by:)` (`StableSort`);
  - `uniqueElements()` (`UniqueElements`);
  - `Dictionary.insert(key:value:)` (`DictionaryInsert`);
  - `subscript(safe:)` and `identifiableValues()` (`SafeSubscript`);
  - `clamped(_:_:)` (`Clamp`).

`Wrappers` holds the `Option`, `Result` and `Outcome` types the modules use
for Swift's optionals and thrown errors.

## Model

| member | source | states |
|---|---|---|
| CodeString.Render | Sources/FoundationEx/Mirror.swift:9-133 | `codeString(_:)` for every display style; its behaviour is stated by the lemmas in the rows below: `StringIsQuoted`, `DescriptionIsVerbatim`, `EnumRendering`, `StructIsNamedTuple`, `StructStopsAtUnlabelledField`, `TupleIsParenthesized`, `TupleLabelShown`, `PositionalLabelsInvisible`, `OptionalIsInvisible`, `SetIsWrappedArray`, `AppendToCollection`, `DictionaryAppend`, `StringKeyedDictionaryIsLabelledCollection` and `EmptyContainers` |
| CodeString.StringIsQuoted | Sources/FoundationEx/Mirror.swift:10-12 | a `String` value renders as its characters between double quotes, without escaping |
| CodeString.DescriptionIsVerbatim | Sources/FoundationEx/Mirror.swift:14-17 | a value without display style, or with an unhandled one, renders as its `String(describing:)` text |
| CodeString.EnumRendering | Sources/FoundationEx/Mirror.swift:20-34 | a case without payload is `.` plus its description; a payload renders as `.label(text)`, and a tuple payload loses its own parentheses; an unlabelled payload yields the empty string |
| CodeString.ThreeTwoRendering | Sources/FoundationEx/Mirror.swift:26-30 | the nested case `.three(.two("a", int: 1))` renders as exactly that text |
| CodeString.StructIsNamedTuple | Sources/FoundationEx/Mirror.swift:36-57 | a struct or class with labelled fields renders as its unqualified type name followed by the tuple of its `label: value` fields |
| CodeString.StructStopsAtUnlabelledField | Sources/FoundationEx/Mirror.swift:42-46 | at the first unlabelled field the output stops, with no closing parenthesis: it is the rendering of the labelled prefix minus its `)` |
| CodeString.ShortName | Sources/FoundationEx/Mirror.swift:37-38 | `split(separator: ".").last ?? name`; stated by `ShortNameIsLastSegment` |
| CodeString.ShortNameIsLastSegment | Sources/FoundationEx/Mirror.swift:37-38 | the unqualified name is the last non-empty `.`-separated segment of the type name: it contains no `.` and ends the name; a name made only of dots is kept whole |
| CodeString.Split | Sources/FoundationEx/Mirror.swift:38 | `split(separator:)` with empty pieces omitted; stated by `SplitEmptyIffAllSep`, `SplitPiecesClean` and `LastOfSplit` |
| CodeString.SplitEmptyIffAllSep | Sources/FoundationEx/Mirror.swift:38 | `split(separator:)` yields no pieces exactly when the text consists of separators only |
| CodeString.SplitPiecesClean | Sources/FoundationEx/Mirror.swift:38 | every piece of a split is non-empty and free of the separator |
| CodeString.LastOfSplit | Sources/FoundationEx/Mirror.swift:38 | the last piece of a split sits at the end of the text, after a separator or at its start |
| CodeString.TupleIsParenthesized | Sources/FoundationEx/Mirror.swift:59-76 | a tuple renders inside one pair of parentheses, so dropping the first and last character leaves its element list; the empty tuple is `()` |
| CodeString.PositionalLabelsInvisible | Sources/FoundationEx/Mirror.swift:70-73 | labels that are absent or start with `.` do not change a tuple's rendering |
| CodeString.TupleLabelShown | Sources/FoundationEx/Mirror.swift:59-76 | for a tuple of any length, appending a labelled element replaces the closing parenthesis with `, ` (nothing when the tuple was empty), then `label: ` unless the label starts with `.`, the element's rendering and `)`: elements keep their order and a label not starting with `.` is shown |
| CodeString.OptionalIsInvisible | Sources/FoundationEx/Mirror.swift:78-84 | an absent optional is `nil`; any number of present optionals around a value render as the value itself |
| CodeString.SetIsWrappedArray | Sources/FoundationEx/Mirror.swift:86-103 | a set renders as `Set(` around the rendering of an array of the same children |
| CodeString.AppendToCollection | Sources/FoundationEx/Mirror.swift:88-102 | children render in mirror order: appending a child appends `, ` and its text before the closing bracket |
| CodeString.SetKeepsMirrorOrder | Sources/FoundationEx/Mirror.swift:86-103 | a set's members are not sorted: members 3, 1, 2 render as `Set([3, 1, 2])` |
| CodeString.EmptyContainers | Sources/FoundationEx/Mirror.swift:105-126 | empty array `[]`, empty set `Set([])`, and an empty dictionary `[]`, the same text as an empty array |
| CodeString.DictionaryAppend | Sources/FoundationEx/Mirror.swift:105-126 | for keys of any kind, entries render in mirror order: appending an entry replaces the closing bracket with `, ` (nothing when the dictionary was empty), then the key's rendering, `: `, the value's rendering and `]` |
| CodeString.IntKeyedDictionary | Sources/FoundationEx/Mirror.swift:105-126 | the one-entry dictionary `[1: "a"]` renders as `[1: "a"]`, a key that is not a string rendered by its own description |
| CodeString.StringKeyedDictionaryIsLabelledCollection | Sources/FoundationEx/Mirror.swift:97-100 | a dictionary with string keys renders exactly like a collection whose children carry those keys as labels |
| CodeString.JoinAppend | Sources/FoundationEx/Mirror.swift:63-68 | the `isFirst` loop puts `, ` between items and nowhere else |
| IntText.ParseInt | Sources/FoundationEx/HexColor.swift:25 | `Int(_:radix:)` accepts exactly an optional `+` or `-` followed by one or more digits of the radix whose value fits in 64 bits; the result is the digits' positional value, negated after `-`; empty text, a lone sign and any other character give nil |
| IntText.DecimalDigits | Sources/FoundationEx/Serialization/Codable.swift:123-124 | the decimal digits of a natural number: non-empty, all digits, no sign, no leading zero, and `0` exactly for zero; `DecimalDigitsValue` proves their value is the number |
| IntText.FormatInt | Sources/FoundationEx/Serialization/Codable.swift:123-124 | `String(n)`: non-empty, starts with `-` exactly for negative `n`, is `0` exactly for zero and has no leading zero after the sign; `ParseFormatRoundTrip` proves `Int(_:)` reads it back |
| IntText.ParseFormatRoundTrip | Sources/FoundationEx/Serialization/Codable.swift:123-124 | `Int(String(n)) == n` for every 64-bit `n` |
| IntText.TwoCharHexRange | Sources/FoundationEx/HexColor.swift:21-27 | a two-character chunk reads as a value in -15..255, and in -15..15 when it starts with a sign; two hex digits give `16*hi + lo` |
| HexColor.GetComponent | Sources/FoundationEx/HexColor.swift:20-29 | a component is read exactly when two characters remain and they parse in radix 16; the rest follows; every failure is `invalidComponentFormat` |
| HexColor.ParseAsHexColor | Sources/FoundationEx/HexColor.swift:31-54 | `invalidCharCount` exactly when there are fewer than 6 characters; otherwise any failure is `invalidComponentFormat`; success needs a body of 6 or 8 characters after an optional `#`, and 6 means opacity 255 |
| HexColor.ParseCharacterization | Sources/FoundationEx/HexColor.swift:31-54 | the parse succeeds if and only if the count is at least 6, the body has 6 or 8 characters, and each two-character chunk parses; the components are those chunk values |
| HexColor.ReadableByChunks | Sources/FoundationEx/HexColor.swift:41-48 | a 6- or 8-character body is readable exactly when each of its three or four chunks is |
| HexColor.NeverThrowsUnusedErrors | Sources/FoundationEx/HexColor.swift:13-18 | `mustStartWithHash` and `invalidArgs` are never thrown |
| HexColor.HashCountsTowardsLength | Sources/FoundationEx/HexColor.swift:31-38 | the count check runs before the `#` is dropped: `#12345` fails on the components, `12345` on the count |
| HexColor.HexRoundTrip | Sources/FoundationEx/HexColor.swift:35-54 | formatting bytes as two hex digits each, with or without `#` and alpha, parses back to the same components, with opacity 255 when alpha is omitted |
| HexColor.SignedChunksAccepted | Sources/FoundationEx/HexColor.swift:25 | as written: `-1-1-1` parses to components -1 and `#+F+F+F` to 15 |
| HexColor.GetDigitsComponent | Sources/FoundationEx/HexColor.swift:20-29 | corrected: a component is read only from two hex digits, and then gives a value in 0..255 that agrees with the as-written reader |
| HexColor.ParseAsHexColorDigitsOnly | Sources/FoundationEx/HexColor.swift:31-54 | corrected: `invalidCharCount` exactly when there are fewer than 6 characters, otherwise any failure is `invalidComponentFormat`; every success has components in 0..255 and an all-digit body, and agrees with the as-written parser |
| HexColor.DigitsOnlyAgreesOnDigits | Sources/FoundationEx/HexColor.swift:20-54 | on an all-digit body the corrected and as-written parsers agree, and the corrected one rejects `-1-1-1` |
| PropertyList.IntCodec | Sources/FoundationEx/Serialization/DataSerialization.swift:45-53 | `Int` is stored as itself: a value encodes as exactly that value (`PInt`), of the Int kind, is never nil, and decodes back to the value |
| PropertyList.StringCodec | Sources/FoundationEx/Serialization/DataSerialization.swift:45-53 | `String` is stored as itself: a value encodes as exactly that value (`PString`), of the String kind, is never nil, and decodes back to the value |
| PropertyList.DoubleCodec | Sources/FoundationEx/Serialization/DataSerialization.swift:45-53 | `Double` is stored as itself: a value encodes as exactly that value (`PDouble`), of the Double kind, is never nil, and decodes back to the value |
| PropertyList.BoolCodec | Sources/FoundationEx/Serialization/DataSerialization.swift:45-53 | `Bool` is stored as itself: a value encodes as exactly that value (`PBool`), of the Bool kind, is never nil, and decodes back to the value |
| PropertyList.DateCodec | Sources/FoundationEx/Serialization/DataSerialization.swift:45-53 | `Date` is stored as itself: a value encodes as exactly that value (`PDate`), of the Date kind, is never nil, and decodes back to the value |
| PropertyList.RawValueCodec | Sources/FoundationEx/Serialization/DataSerialization.swift:67-82 | a raw-representable value encodes as its raw value; a raw value that `init?(rawValue:)` rejects is `decode(invalidValue(key: "rawValue", value, nil))` |
| PropertyList.RawValueRoundTrip | Sources/FoundationEx/Serialization/DataSerialization.swift:67-82 | with a lawful `init?(rawValue:)` the raw-value codec round-trips and keeps the raw kind |
| PropertyList.UrlCodec | Sources/FoundationEx/Serialization/DataSerialization.swift:86-101 | a URL encodes as its `absoluteString`; text `URL(string:)` rejects is `decode(invalidValue(key: "", text, nil))` |
| PropertyList.UrlRoundTrip | Sources/FoundationEx/Serialization/DataSerialization.swift:86-101 | when `URL(string:)` reads back every `absoluteString`, URLs round-trip |
| PropertyList.EncodeInContainer | Sources/FoundationEx/Serialization/DataSerialization.swift:105-113 | nil exactly for a nil optional, otherwise the value's encoding |
| PropertyList.OptionalCodec | Sources/FoundationEx/Serialization/DataSerialization.swift:116-129 | `nil` is the nil optional and is stored as a nil; a wrapped value encodes as the wrapped codec does; a non-nil value whose wrapped decode fails gives `decode(_)` around that error; round trip in `OptionalRoundTrip` |
| PropertyList.OptionalRoundTrip | Sources/FoundationEx/Serialization/DataSerialization.swift:116-129 | optionals of a round-tripping, never-nil codec round-trip, and only `nil` is dropped by `encodeInContainer` |
| PropertyList.NonNil | Sources/FoundationEx/Serialization/DataSerialization.swift:132-134 | the reference for what `compactMap` keeps: never longer than the input, no nil optionals, the whole input when none is nil, nothing when all are |
| PropertyList.NonNilAppend | Sources/FoundationEx/Serialization/DataSerialization.swift:132-134 | dropping nils distributes over concatenation, so a nil is dropped wherever it stands and the other elements keep their order |
| PropertyList.NonNilSingle | Sources/FoundationEx/Serialization/DataSerialization.swift:132-134 | a single element is dropped exactly when it is a nil optional |
| PropertyList.EncodeElements | Sources/FoundationEx/Serialization/DataSerialization.swift:132-134 | `compactMap` gives, in order, the encodings of exactly the elements that are not nil optionals |
| PropertyList.DecodeElements | Sources/FoundationEx/Serialization/DataSerialization.swift:136-143 | decoding succeeds exactly when every element decodes, giving those values in order; otherwise the first failing element's error |
| PropertyList.ArrayCodec | Sources/FoundationEx/Serialization/DataSerialization.swift:131-144 | an array is never nil and encodes as a property-list array; decoding anything but an array is a type mismatch; round trip and element errors in `ArrayRoundTrip` |
| PropertyList.ArrayRoundTrip | Sources/FoundationEx/Serialization/DataSerialization.swift:131-144 | decoding an encoded array gives back its non-nil elements in order, so an array without nil elements round-trips; decoding fails exactly when some element fails, wrapped in `decode(_)` |
| PropertyList.WellKindedArray | Sources/FoundationEx/Serialization/DataSerialization.swift:132-134 | every encoded array conforms to the array kind of its elements |
| PropertyList.EncodeValues | Sources/FoundationEx/Serialization/DataSerialization.swift:147-149 | `compactMapValues` keeps exactly the keys whose value is not nil, each with its encoding |
| PropertyList.DecodeValues | Sources/FoundationEx/Serialization/DataSerialization.swift:151-158 | decoding succeeds exactly when every value decodes, keeping the keys; a failure is the error of some failing value |
| PropertyList.DictCodec | Sources/FoundationEx/Serialization/DataSerialization.swift:146-159 | a dictionary is never nil and encodes as a property-list dictionary; decoding anything but a dictionary is a type mismatch; a stored dictionary decodes every value, and a failure is wrapped in `decode(_)`; stated without reference to the value decoder in `DictDecode`, round trip in `DictRoundTrip` |
| PropertyList.DictDecode | Sources/FoundationEx/Serialization/DataSerialization.swift:151-158 | decoding a stored dictionary fails exactly when some value fails to decode, with that value's error wrapped in `decode(_)`; otherwise it gives, under exactly the stored keys, each value's decoding |
| PropertyList.DictRoundTrip | Sources/FoundationEx/Serialization/DataSerialization.swift:146-159 | a dictionary without nil values round-trips, and encoding drops exactly the nil values |
| PropertyList.Get | Sources/FoundationEx/Serialization/DataSerialization.swift:164-180 | `missingProperty` exactly for a missing key; `invalidType` exactly for a stored value of the wrong kind; `invalidValue` carrying the decode error exactly when decoding fails; a present value of the right kind that decodes gives exactly the decoded value |
| PropertyList.GetOptional | Sources/FoundationEx/Serialization/DataSerialization.swift:182-198 | nil exactly for a missing key; otherwise the same success or error as the non-optional `get`, so a present value of the right kind that decodes gives exactly that value |
| PropertyList.GetList | Sources/FoundationEx/Serialization/DataSerialization.swift:200-211 | succeeds exactly when the key is present with a value of the requested kind, returning it; otherwise `missingProperty` or `invalidType` |
| PropertyList.GetListOptional | Sources/FoundationEx/Serialization/DataSerialization.swift:213-224 | nil exactly for a missing key; otherwise the stored value if it has the requested kind, else `invalidType` |
| PropertyList.Set | Sources/FoundationEx/Serialization/DataSerialization.swift:226-229 | a nil optional leaves the dictionary unchanged; any other value is stored encoded under the key; other keys are untouched |
| PropertyList.SetList | Sources/FoundationEx/Serialization/DataSerialization.swift:231-233 | the value is always stored under the key; other keys are untouched |
| PropertyList.GetAfterSet | Sources/FoundationEx/Serialization/DataSerialization.swift:164-180 | reading back a non-nil value that was set gives that value, and reads of other keys are unchanged |
| PropertyList.GetListAfterSetList | Sources/FoundationEx/Serialization/DataSerialization.swift:200-233 | after the property-list `set`, `get` of the key returns the stored value when it has the requested type and `invalidType` otherwise, in both the plain and the optional form; other keys read as before |
| PropertyList.SetNilKeepsOldValue | Sources/FoundationEx/Serialization/DataSerialization.swift:226-229 | setting nil keeps the old stored value, which an optional read still returns |
| KeyedJson.EnsureNotNull | Sources/FoundationEx/Serialization/Codable.swift:207-214 | passes exactly when the key is present and the value is not reported null; a missing key is `keyNotFound`, a null `valueNotFound` for the expected type; a throwing null check counts as not null |
| KeyedJson.IsNull | Sources/FoundationEx/Serialization/Codable.swift:216-218 | true for a missing key without asking the decoder; otherwise the decoder's answer, including its error |
| KeyedJson.GetDefault | Sources/FoundationEx/Serialization/Codable.swift:70-76 | only a missing key is rejected; a present value, null included, goes to the type's own decoder |
| KeyedJson.GetInt | Sources/FoundationEx/Serialization/Codable.swift:82-94 | null checks first; then a native int, else a decimal string within 64-bit range; fails with a conversion error exactly when neither reads |
| KeyedJson.GetDouble | Sources/FoundationEx/Serialization/Codable.swift:98-113 | null checks first; then a native double, else an int converted by `Double(_:)`, else a string that `Double(_:)` reads; fails exactly when none does |
| KeyedJson.GetString | Sources/FoundationEx/Serialization/Codable.swift:117-132 | null checks first; then a native string, else the decimal text of an int, else the text of a double; fails exactly when none reads |
| KeyedJson.GetBool | Sources/FoundationEx/Serialization/Codable.swift:136-156 | null checks first; then a native bool, else an int read as non-zero, else a string whose lowercase form is true/yes/1 or false/no/0; anything else is a conversion error |
| KeyedJson.LowerAscii | Sources/FoundationEx/Serialization/Codable.swift:146 | lowercasing changes exactly the upper-case letters and leaves none |
| KeyedJson.GetOptional | Sources/FoundationEx/Serialization/Codable.swift:224-227 | nil for a missing key or a null value; the null check's error propagates; otherwise the non-optional `get`'s value or error |
| KeyedJson.ArrayFromUnkeyed | Sources/FoundationEx/Serialization/Codable.swift:173-191 | unknown count is a conversion error; otherwise exactly `count` decodes are made; the array succeeds exactly when all elements do, with them in order, and otherwise fails with the first element error; when errors are ignored, the successes in order |
| KeyedJson.GetNested | Sources/FoundationEx/Serialization/Codable.swift:236-239 | the null checks' errors first, then the nested unkeyed container |
| KeyedJson.GetNestedKeyed | Sources/FoundationEx/Serialization/Codable.swift:229-234 | the null checks' errors first, then the nested keyed container |
| KeyedJson.GetArray | Sources/FoundationEx/Serialization/Codable.swift:161-171 | null-check and nested-container errors pass through unchanged; every element error becomes a conversion error for the key; otherwise the unkeyed result |
| KeyedJson.Successes | Sources/FoundationEx/Serialization/Codable.swift:180-189 | the kept values never outnumber the attempts, and when every attempt succeeds they are all the values in order |
| KeyedJson.IntStringConversionsRoundTrip | Sources/FoundationEx/Serialization/Codable.swift:82-132 | with the tag-checking reads (`TagReads`): a 64-bit int stored as its decimal text reads back as the int, and an int read as a string is its decimal text |
| KeyedJson.IntRejectsNonNumbers | Sources/FoundationEx/Serialization/Codable.swift:82-94 | with the tag-checking reads (`TagReads`): empty text and a bool are conversion errors; a null is `valueNotFound`; a missing key is `keyNotFound` |
| KeyedJson.BoolWordsIgnoreCase | Sources/FoundationEx/Serialization/Codable.swift:142-151 | with the tag-checking reads (`TagReads`): `YES` reads as true, `False` as false, `maybe` is a conversion error, and the int 2 is true |
| KeyedJson.OptionalIntGet | Sources/FoundationEx/Serialization/Codable.swift:207-227 | for every decoder, the optional get is nil exactly where the non-optional one fails because the key is missing or the value is null; when the null check answers "not null" they succeed together with the same value; when the null check throws, the optional get fails with that error while the non-optional one does not report a null |
| KeyedJson.ThrowingNullCheckSplitsGetters | Sources/FoundationEx/Serialization/Codable.swift:207-227 | with a null check that throws, an int under the key still reads as that int through `get`, while the optional `get` fails with the null check's error (`try?` in `ensureNotNull`, `try` in `isNull`) |
| KeyedJson.DoubleReads | Sources/FoundationEx/Serialization/Codable.swift:98-113 | with the tag-checking reads (`TagReads`), for every double, int and text: a double reads as itself, an int as its `Double(_:)` conversion (the int read of `TagReads` admits only 64-bit values, so a wider int is a conversion error), text as what `Double(_:)` reads from it or a conversion error, and a bool is a conversion error |
| KeyedJson.DoubleStringConversionsRoundTrip | Sources/FoundationEx/Serialization/Codable.swift:98-132 | when `Double(String(d)) == d`, a double stored as its text reads back as the double, and a double read as a string is that text |
| KeyedJson.BoolFromTextOrInt | Sources/FoundationEx/Serialization/Codable.swift:136-156 | with the tag-checking reads (`TagReads`), for every text, `Bool` succeeds exactly when the lowercased text is one of true/yes/1/false/no/0, giving true for the first three, and otherwise is a conversion error; an int reads as whether it is non-zero (only 64-bit ints are read) |
| StableSort.StableSorted | Sources/FoundationEx/RandomAccessCollection.swift:9-22 | `stableSorted(by:)` keeps the length; it is a permutation (`StableSortedIsPermutation`), ordered (`StableSortedIsOrdered`), stable (`StableSortedIsStable`), equal to every other sort by the same comparison (`AnySortAgrees`) and leaves sorted input unchanged (`SortedInputUnchanged`) |
| StableSort.PairLess | Sources/FoundationEx/RandomAccessCollection.swift:10-20 | the comparison on (offset, element) pairs: by element, ties broken by offset; `PairLessIsStrictOrder` proves it a strict total order when the element comparison is a strict weak order |
| StableSort.PairLessIsStrictOrder | Sources/FoundationEx/RandomAccessCollection.swift:10-20 | the offset-tie-breaking comparator is irreflexive and transitive, and total on pairs with different offsets |
| StableSort.StrictlySortedUnique | Sources/FoundationEx/RandomAccessCollection.swift:10-20 | two strictly ordered arrangements of the same pairs are equal |
| StableSort.AnySortAgrees | Sources/FoundationEx/RandomAccessCollection.swift:10-21 | any permutation of the enumerated pairs that the comparator accepts as sorted equals the model's sort, so the result does not depend on the sorting algorithm |
| StableSort.StableSortedIsPermutation | Sources/FoundationEx/RandomAccessCollection.swift:9-22 | the result is a permutation of the input |
| StableSort.StableSortedIsOrdered | Sources/FoundationEx/RandomAccessCollection.swift:9-22 | no result element is ordered before an earlier one |
| StableSort.StableSortedIsStable | Sources/FoundationEx/RandomAccessCollection.swift:11-19 | each result element is the input element at its offset, the offsets form a permutation, and equivalent elements keep their input order |
| StableSort.SortedInputUnchanged | Sources/FoundationEx/RandomAccessCollection.swift:9-22 | input that is already in order comes back unchanged |
| UniqueElements.FirstOccurrences | Sources/FoundationEx/Array.swift:11-22 | the reference result has no duplicates, the same elements as the input, and is no longer than it |
| UniqueElements.Unique | Sources/FoundationEx/Array.swift:11-22 | the set-and-append loop computes the reference result |
| UniqueElements.FirstOccurrencesInOrder | Sources/FoundationEx/Array.swift:14-19 | kept elements appear in the order of their first occurrences |
| UniqueElements.DistinctUnchanged | Sources/FoundationEx/Array.swift:11-22 | input without duplicates comes back unchanged |
| UniqueElements.UniqueIsIdempotent | Sources/FoundationEx/Array.swift:11-22 | removing duplicates twice is the same as once |
| DictionaryInsert.Insert | Sources/FoundationEx/Dictionary.swift:11-19 | stores and reports `true` exactly when the key was absent; the returned value is what the dictionary now holds for the key; an existing entry and all other entries are kept |
| DictionaryInsert.SecondInsertIsNoOp | Sources/FoundationEx/Dictionary.swift:11-19 | a second insert under the same key changes nothing and returns the first stored value |
| DictionaryInsert.InsertVersusAssignment | Sources/FoundationEx/Dictionary.swift:11-19 | insert equals a plain assignment exactly when the key was absent or already held that value |
| SafeSubscript.SafeGet | Sources/FoundationEx/Collection.swift:11-13 | some element exactly for a valid index, and then the element at that index |
| SafeSubscript.SafeGetAfterAppend | Sources/FoundationEx/Collection.swift:11-13 | after an append the old end index yields the new element and every other index is unchanged |
| SafeSubscript.IdentifiableValues | Sources/FoundationEx/Collection.swift:17-19 | one wrapper per element, in order, wrapping that element |
| SafeSubscript.IdentifiableValuesRoundTrip | Sources/FoundationEx/Collection.swift:17-19 | unwrapping gives the collection back, and the safe subscript commutes with wrapping |
| Clamp.Clamped | Sources/FoundationEx/Comparable.swift:8-10 | the result is at most `y`, at least `x` when `x <= y`, the value itself when in range, `x` below and `y` above |
| Clamp.ReversedBoundsGiveUpper | Sources/FoundationEx/Comparable.swift:8-10 | with `y < x` the result is always `y` |
| Clamp.ClampIsIdempotent | Sources/FoundationEx/Comparable.swift:8-10 | clamping twice is clamping once |
| Clamp.ClampIsMonotonic | Sources/FoundationEx/Comparable.swift:8-10 | clamping preserves order |

## Left out

- Reflection itself: `Mirror`, `displayStyle`, `subjectType` and `String(describing:)` become the `Value` datatype and its opaque descriptions. Which Swift value yields which mirror is not modelled.
- The expectations in the Mirror tests that the code does not meet are not modelled. The tests expect sorted sets, `[:]` for an empty dictionary, escaped quotes and line wrapping; the code gives none of these. The model follows the code.
- `caseName` and the multi-line layout in the Mirror tests belong to code outside Mirror.swift, which is not part of this model.
- HexColor.ParseAsHexColor: components are the integers that `Int(_:radix:)` returns. The division by 255 into `CGFloat` is floating-point and is left out; an opacity of 255 stands for the source's `1`.
- `String(Double)` and `Double(String)` are parameters of `KeyedJson.Primitives`: floating-point formatting and parsing are not modelled.
- KeyedJson.GetDouble: `Double(Int)` is the parameter `intToDouble` of `KeyedJson.Primitives`. Its rounding to the nearest double, for magnitudes above 2^53, is not modelled.
- Foundation's decoder (`decode(_:forKey:)`, `decodeNil`, `nestedContainer`, the unkeyed cursor) is abstract: each read is a parameter of the container. KeyedJson.ArrayFromUnkeyed takes the result of each element decode as given, whether or not a failed decode advances the cursor.
- The `TopLevelDecoder` entry points (Codable.swift:17-30 and 197-203) and `ArrayContainer` (Codable.swift:32-38) are not modelled. They hand the whole input to Foundation's decoder.
- The `ignoreArrayContentCodingErrors` environment flag is a parameter of KeyedJson.ArrayFromUnkeyed; the library's default is `false`.
- `Tagged` and `URL` use the default keyed `get`, modelled generically as KeyedJson.GetDefault.
- PropertyList.DecodeValues: Swift reports the error of the first failing value in hash order; the model reports the error of some failing value. Its error is therefore weaker than the source's.
- PropertyList: `as? T.PropertyListValue` on Foundation's bridged values (for example `NSNumber` read as `Bool` or `Int`) is reduced to the exact kind check `Conforms`.
- Nested optionals collapse to a single stored nil.
- `UserDefaults` persistence and the other context files (caching, downloading, tasks, concurrency, logging) are outside the core.
- UniqueElements: `Hashable` is reduced to Dafny equality, and `Set<Element>` to a Dafny set.
- StableSort: the comparator cannot throw. The standard library's sort is specified by its result, not by its algorithm (see `StableSort.AnySortAgrees`).
- SafeSubscript: the indices of a generic `Collection` are reduced to the integer positions of an array.
- SafeSubscript: `IdentifiableValue` is defined outside these sources, and only its wrapped value is modelled, not its identity.
- Clamp.Clamped: `Comparable` is reduced to `int`.
- Strings are sequences of Unicode scalars (`seq<char>`), not grapheme clusters. `count`, `prefix(2)` and `lowercased()` are modelled on that basis, and lowercasing only on ASCII letters.

## Findings

| source | as written | input that shows it | evidently intended | confidence | as-written member | corrected member |
|---|---|---|---|---|---|---|
| Sources/FoundationEx/HexColor.swift:25 | each two-character chunk goes to `Int(_:radix: 16)`, which also accepts a leading `+` or `-`, so a chunk can read as -15..-1 or as a single signed digit | `"-1-1-1"` parses to red, green and blue -1 (a negative colour component); `"#+F+F+F"` parses to 15 each | only two hexadecimal digits form a component, so every component lies in 0..255 | not executed | HexColor.SignedChunksAccepted | HexColor.ParseAsHexColorDigitsOnly |
