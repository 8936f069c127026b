/** `String.parseAsHexColor()`: reads `[#]RRGGBB[AA]` into four colour
    components. Each component is kept as the integer that `Int(_, radix: 16)`
    returns for its two-character chunk; the colour component itself is that
    integer divided by 255, a floating-point step this model leaves out. */
module HexColor {
  import opened Wrappers
  import opened IntText

  /** The error cases of the parser; only two of them are ever thrown. */
  datatype ParseHexError = MustStartWithHash | InvalidCharCount | InvalidComponentFormat | InvalidArgs

  /** Component numerators over 255. An absent opacity chunk stands for
      opacity 1, which is 255 / 255. */
  datatype Rgba = Rgba(red: int, green: int, blue: int, opacity: int)

  const Opaque: int := 255

  /** The text after at most one leading `#`. */
  function DropHash(s: string): (body: string)
    ensures |s| > 0 && s[0] == '#' ==> s == "#" + body
    ensures !(|s| > 0 && s[0] == '#') ==> body == s
  {
    if |s| > 0 && s[0] == '#' then s[1..] else s
  }

  /** The nested `getComponent`: reads one two-character chunk in radix 16
      and returns its value with the text after it. */
  function GetComponent(remaining: string): (r: Result<(int, string), ParseHexError>)
    ensures r.Success? <==> |remaining| >= 2 && ParseInt(remaining[..2], 16).Some?
    ensures r.Success? ==> r.value == (ParseInt(remaining[..2], 16).value, remaining[2..])
    ensures r.Failure? ==> r.error == InvalidComponentFormat
  {
    if |remaining| < 2 then Failure(InvalidComponentFormat)
    else
      match ParseInt(remaining[..2], 16)
      case None => Failure(InvalidComponentFormat)
      case Some(v) => Success((v, remaining[2..]))
  }

  /** `parseAsHexColor()`, exactly as written: the length guard counts the
      characters before any `#` is dropped, and each chunk is read by
      `Int(_, radix: 16)`, which also admits a sign. */
  function ParseAsHexColor(s: string): (r: Result<Rgba, ParseHexError>)
    ensures r == Failure(InvalidCharCount) <==> |s| < 6
    ensures r.Failure? ==> r.error == InvalidCharCount || r.error == InvalidComponentFormat
    ensures |s| >= 6 && r.Failure? ==> r.error == InvalidComponentFormat
    ensures r.Success? ==> |DropHash(s)| == 6 || |DropHash(s)| == 8
    ensures r.Success? && |DropHash(s)| == 6 ==> r.value.opacity == Opaque
  {
    if |s| < 6 then Failure(InvalidCharCount)
    else
      var remaining := DropHash(s);
      var (red, afterRed) :- GetComponent(remaining);
      var (green, afterGreen) :- GetComponent(afterRed);
      var (blue, afterBlue) :- GetComponent(afterGreen);
      if |afterBlue| == 0 then Success(Rgba(red, green, blue, Opaque))
      else
        var (opacity, rest) :- GetComponent(afterBlue);
        if |rest| != 0 then Failure(InvalidComponentFormat)
        else Success(Rgba(red, green, blue, opacity))
  }

  /** The chunk of two characters starting at character `2 * k` of `body`. */
  function Chunk(body: string, k: nat): string
    requires 2 * k + 2 <= |body|
  {
    body[2 * k..2 * k + 2]
  }

  /** Every chunk of an even-length body is accepted by `Int(_, radix: 16)`. */
  predicate ChunksReadable(body: string)
    requires |body| % 2 == 0
  {
    forall k: nat :: k < |body| / 2 ==> ParseInt(Chunk(body, k), 16).Some?
  }

  /** The component read from chunk `k`. */
  function ChunkValue(body: string, k: nat): int
    requires 2 * k + 2 <= |body|
    requires ParseInt(Chunk(body, k), 16).Some?
  {
    ParseInt(Chunk(body, k), 16).value
  }

  /** The parser accepts exactly the texts of at least six characters whose
      body after an optional `#` is three or four readable chunks, and then
      returns the chunk values in order red, green, blue (, opacity). */
  lemma {:induction false} ParseCharacterization(s: string)
    ensures ParseAsHexColor(s).Success? <==>
      |s| >= 6 && (|DropHash(s)| == 6 || |DropHash(s)| == 8) && ChunksReadable(DropHash(s))
    ensures ParseAsHexColor(s).Success? ==>
      var body := DropHash(s);
      && ParseAsHexColor(s).value.red == ChunkValue(body, 0)
      && ParseAsHexColor(s).value.green == ChunkValue(body, 1)
      && ParseAsHexColor(s).value.blue == ChunkValue(body, 2)
      && ParseAsHexColor(s).value.opacity == (if |body| == 8 then ChunkValue(body, 3) else Opaque)
  {
    if |s| >= 6 {
      var body := DropHash(s);
      if |body| >= 2 {
        assert body[..2] == Chunk(body, 0);
        var rest1 := body[2..];
        if |rest1| >= 2 {
          assert rest1[..2] == Chunk(body, 1);
          var rest2 := rest1[2..];
          if |rest2| >= 2 {
            assert rest2[..2] == Chunk(body, 2);
            var rest3 := rest2[2..];
            if |rest3| >= 2 {
              assert rest3[..2] == Chunk(body, 3);
            }
            if |body| == 6 || |body| == 8 {
              ReadableByChunks(body);
            }
          }
        }
      }
    }
  }

  /** Spells `ChunksReadable` out for bodies of six or eight characters. */
  lemma ReadableByChunks(body: string)
    requires |body| == 6 || |body| == 8
    ensures ChunksReadable(body) <==>
      && ParseInt(Chunk(body, 0), 16).Some?
      && ParseInt(Chunk(body, 1), 16).Some?
      && ParseInt(Chunk(body, 2), 16).Some?
      && (|body| == 8 ==> ParseInt(Chunk(body, 3), 16).Some?)
  {
    if !ChunksReadable(body) {
      var k: nat :| k < |body| / 2 && ParseInt(Chunk(body, k), 16).None?;
      assert k == 0 || k == 1 || k == 2 || k == 3;
    } else {
      assert 0 < |body| / 2 && 1 < |body| / 2 && 2 < |body| / 2;
    }
  }

  /** The chunks of a body laid out as three two-character pieces and a rest. */
  lemma LeadingChunks(p0: string, p1: string, p2: string, rest: string)
    requires |p0| == 2 && |p1| == 2 && |p2| == 2
    ensures Chunk(p0 + p1 + p2 + rest, 0) == p0
    ensures Chunk(p0 + p1 + p2 + rest, 1) == p1
    ensures Chunk(p0 + p1 + p2 + rest, 2) == p2
    ensures |rest| == 2 ==> Chunk(p0 + p1 + p2 + rest, 3) == rest
  {
    var body := p0 + p1 + p2 + rest;
    assert forall i | 0 <= i < 2 :: body[i] == p0[i] && body[2 + i] == p1[i] && body[4 + i] == p2[i];
    assert forall i | 0 <= i < |rest| :: body[6 + i] == rest[i];
  }

  /** `mustStartWithHash` and `invalidArgs` are never thrown. */
  lemma NeverThrowsUnusedErrors(s: string)
    ensures ParseAsHexColor(s) != Failure(MustStartWithHash)
    ensures ParseAsHexColor(s) != Failure(InvalidArgs)
  {
  }

  /** The length guard counts the `#`: a `#` and five characters pass the
      guard but fail on a short chunk. */
  lemma HashCountsTowardsLength()
    ensures ParseAsHexColor("#12345") == Failure(InvalidComponentFormat)
    ensures ParseAsHexColor("12345") == Failure(InvalidCharCount)
  {
    assert "#12345"[1..] == "12345";
    assert "12345"[..2] == "12";
    assert "12345"[2..] == "345";
    assert "345"[..2] == "34";
    assert "345"[2..] == "5";
  }

  /** The two upper-case hex digits of a byte. */
  function HexByte(n: nat): (s: string)
    requires n < 256
    ensures |s| == 2 && AllDigits(s, 16)
  {
    [DigitChar(n / 16), DigitChar(n % 16)]
  }

  lemma ReadHexByte(n: nat)
    requires n < 256
    ensures ParseInt(HexByte(n), 16) == Some(n)
  {
    TwoCharHexRange(HexByte(n));
  }

  /** Every `#RRGGBB` and `#RRGGBBAA` colour written with hex digits reads
      back as the bytes it was written from, with opacity 1 when it has no
      alpha chunk. */
  lemma {:induction false} HexRoundTrip(r: nat, g: nat, b: nat, a: nat, withHash: bool, withAlpha: bool)
    requires r < 256 && g < 256 && b < 256 && a < 256
    ensures
      var body := HexByte(r) + HexByte(g) + HexByte(b) + (if withAlpha then HexByte(a) else "");
      ParseAsHexColor(if withHash then "#" + body else body) ==
        Success(Rgba(r, g, b, if withAlpha then a else Opaque))
  {
    var hr, hg, hb := HexByte(r), HexByte(g), HexByte(b);
    var tail := if withAlpha then HexByte(a) else "";
    var body := hr + hg + hb + tail;
    var s := if withHash then "#" + body else body;
    assert DropHash(s) == body by {
      if !withHash {
        assert s[0] == hr[0];
        assert DigitValue(s[0]) < 16;
      }
    }
    LeadingChunks(hr, hg, hb, tail);
    ReadHexByte(r);
    ReadHexByte(g);
    ReadHexByte(b);
    ReadHexByte(a);
    ReadableByChunks(body);
    ParseCharacterization(s);
  }

  /** `Int(_, radix: 16)` admits a sign, so signed chunks pass as colour
      components: every component of "-1-1-1" is -1, which divided by 255
      is a negative colour component. */
  lemma SignedChunksAccepted()
    ensures ParseAsHexColor("-1-1-1") == Success(Rgba(-1, -1, -1, Opaque))
    ensures ParseAsHexColor("#+F+F+F") == Success(Rgba(15, 15, 15, Opaque))
  {
    MinusOneChunks();
    PlusFChunks();
  }

  lemma MinusOneChunks()
    ensures ParseAsHexColor("-1-1-1") == Success(Rgba(-1, -1, -1, Opaque))
  {
    var s := "-1-1-1";
    assert "-1"[1..] == "1" && "1"[..0] == [];
    assert DigitsValue("1", 16) == 1;
    assert ParseInt("-1", 16) == Some(-1);
    assert DropHash(s) == s;
    assert s == "-1" + "-1" + "-1" + "";
    LeadingChunks("-1", "-1", "-1", "");
    ReadableByChunks(s);
    ParseCharacterization(s);
  }

  lemma PlusFChunks()
    ensures ParseAsHexColor("#+F+F+F") == Success(Rgba(15, 15, 15, Opaque))
  {
    var t, body := "#+F+F+F", "+F+F+F";
    assert "+F"[1..] == "F" && "F"[..0] == [];
    assert DigitsValue("F", 16) == 15;
    assert ParseInt("+F", 16) == Some(15);
    assert DropHash(t) == body;
    assert body == "+F" + "+F" + "+F" + "";
    LeadingChunks("+F", "+F", "+F", "");
    ReadableByChunks(body);
    ParseCharacterization(t);
  }

  /** `getComponent` as evidently intended: a chunk is exactly two hex digits. */
  function GetDigitsComponent(remaining: string): (r: Result<(int, string), ParseHexError>)
    ensures r.Success? <==> |remaining| >= 2 && AllDigits(remaining[..2], 16)
    ensures r.Success? ==> 0 <= r.value.0 <= 255 && r.value.1 == remaining[2..]
    ensures r.Success? ==> r == GetComponent(remaining)
    ensures r.Failure? ==> r.error == InvalidComponentFormat
  {
    if |remaining| < 2 || !AllDigits(remaining[..2], 16) then Failure(InvalidComponentFormat)
    else
      TwoCharHexRange(remaining[..2]);
      GetComponent(remaining)
  }

  /** The parser with digits-only chunks: same control flow, same errors. */
  function ParseAsHexColorDigitsOnly(s: string): (r: Result<Rgba, ParseHexError>)
    ensures r == Failure(InvalidCharCount) <==> |s| < 6
    ensures |s| >= 6 && r.Failure? ==> r.error == InvalidComponentFormat
    ensures r.Success? ==>
      && 0 <= r.value.red <= 255 && 0 <= r.value.green <= 255
      && 0 <= r.value.blue <= 255 && 0 <= r.value.opacity <= 255
    ensures r.Success? ==> AllDigits(DropHash(s), 16)
    ensures r.Success? ==> ParseAsHexColor(s) == r
  {
    if |s| < 6 then Failure(InvalidCharCount)
    else
      var remaining := DropHash(s);
      var (red, afterRed) :- GetDigitsComponent(remaining);
      var (green, afterGreen) :- GetDigitsComponent(afterRed);
      var (blue, afterBlue) :- GetDigitsComponent(afterGreen);
      if |afterBlue| == 0 then
        DigitsOfChunks(remaining, afterRed, afterGreen, afterBlue);
        Success(Rgba(red, green, blue, Opaque))
      else
        var (opacity, rest) :- GetDigitsComponent(afterBlue);
        if |rest| != 0 then Failure(InvalidComponentFormat)
        else
          DigitsOfChunks(remaining, afterRed, afterGreen, afterBlue);
          Success(Rgba(red, green, blue, opacity))
  }

  /** A text made of digit chunks followed by a digit tail is all digits. */
  lemma DigitsOfChunks(s0: string, s1: string, s2: string, s3: string)
    requires |s0| >= 2 && AllDigits(s0[..2], 16) && s1 == s0[2..]
    requires |s1| >= 2 && AllDigits(s1[..2], 16) && s2 == s1[2..]
    requires |s2| >= 2 && AllDigits(s2[..2], 16) && s3 == s2[2..]
    requires |s3| == 0 || (|s3| == 2 && AllDigits(s3, 16))
    ensures AllDigits(s0, 16)
  {
    assert s0 == s0[..2] + s1[..2] + s2[..2] + s3;
  }

  /** The digits-only parser rejects the signed colours the written parser
      accepts, and agrees with it on every digits-only text. */
  lemma DigitsOnlyAgreesOnDigits(s: string)
    requires AllDigits(DropHash(s), 16)
    ensures ParseAsHexColorDigitsOnly(s) == ParseAsHexColor(s)
    ensures ParseAsHexColorDigitsOnly("-1-1-1") == Failure(InvalidComponentFormat)
  {
    var body := DropHash(s);
    if |s| >= 6 {
      if |body| >= 2 {
        assert AllDigits(body[..2], 16);
        var r1 := body[2..];
        if |r1| >= 2 {
          assert AllDigits(r1[..2], 16);
          var r2 := r1[2..];
          if |r2| >= 2 {
            assert AllDigits(r2[..2], 16);
            var r3 := r2[2..];
            if |r3| >= 2 {
              assert AllDigits(r3[..2], 16);
            }
          }
        }
      }
    }
    assert "-1-1-1"[..2] == "-1";
    assert !IsDigit('-', 16);
  }
}
