/** Percent encoding (RFC 3986, sections 2.1 and 2.3) of the paths of hosted files. */
module PercentEncoding {
  import opened Utf8
  import opened Wrappers

  const PERCENT: Byte := 0x25
  const SLASH: Byte := 0x2F

  predicate Unreserved(b: Byte) {
    || 0x30 <= b <= 0x39 || 0x41 <= b <= 0x5A || 0x61 <= b <= 0x7A
    || b == 0x2D || b == 0x5F || b == 0x2E || b == 0x7E
  }

  function HexDigit(n: int): Byte
    requires 0 <= n < 16
  {
    if n < 10 then 0x30 + n else 0x41 + (n - 10)
  }

  function DecodeHex(b: Byte): (n: Option<int>)
    ensures n.Some? ==> 0 <= n.value < 16
  {
    if 0x30 <= b <= 0x39 then Some(b - 0x30)
    else if 0x61 <= b <= 0x66 then Some(b - 0x61 + 10)
    else if 0x41 <= b <= 0x46 then Some(b - 0x41 + 10)
    else None
  }

  // --------------------------------------------------------------- encoding

  function EncodeByte(b: Byte): Bytes {
    if Unreserved(b) then [b] else [PERCENT, HexDigit(b / 16), HexDigit(b % 16)]
  }

  function EncodeSegment(s: Bytes): Bytes {
    if s == [] then [] else EncodeByte(s[0]) + EncodeSegment(s[1..])
  }

  lemma EncodeNext(encoded: Bytes, segment: Bytes, i: nat)
    requires i < |segment|
    ensures encoded + EncodeByte(segment[i]) + EncodeSegment(segment[i + 1..]) == encoded + EncodeSegment(segment[i..])
  {
    assert segment[i..][1..] == segment[i + 1..];
  }

  method PercentEncodeSegment(segment: Bytes) returns (encoded: Bytes)
    ensures encoded == EncodeSegment(segment)
  {
    encoded := [];
    for i := 0 to |segment|
      invariant encoded + EncodeSegment(segment[i..]) == EncodeSegment(segment)
    {
      EncodeNext(encoded, segment, i);
      hide EncodeSegment;
      var b := segment[i];
      if Unreserved(b) {
        encoded := encoded + [b];
      } else {
        encoded := encoded + [PERCENT, HexDigit(b / 16), HexDigit(b % 16)];
      }
    }
  }

  /** The parts of `s` between slashes: always one more than there are slashes. */
  function Split(s: Bytes): (segments: seq<Bytes>)
    ensures segments != []
  {
    if s == [] then [[]]
    else
      var rest := Split(s[1..]);
      if s[0] == SLASH then [[]] + rest else [[s[0]] + rest[0]] + rest[1..]
  }

  function Join(segments: seq<Bytes>): Bytes {
    if segments == [] then []
    else if |segments| == 1 then segments[0]
    else segments[0] + [SLASH] + Join(segments[1..])
  }

  function EncodeAll(segments: seq<Bytes>): (encoded: seq<Bytes>)
    ensures |encoded| == |segments|
  {
    if segments == [] then [] else [EncodeSegment(segments[0])] + EncodeAll(segments[1..])
  }

  function EncodePath(relative: Bytes): Bytes {
    Join(EncodeAll(Split(relative)))
  }

  // --------------------------------------------------------------- decoding

  function Extend(prefix: Bytes, decoded: Option<Bytes>): Option<Bytes> {
    if decoded.None? then None else Some(prefix + decoded.value)
  }

  lemma ExtendTwice(a: Bytes, b: Bytes, decoded: Option<Bytes>)
    ensures Extend(a, Extend(b, decoded)) == Extend(a + b, decoded)
  {
    if decoded.Some? { assert a + (b + decoded.value) == a + b + decoded.value; }
  }

  lemma ExtendNothing(decoded: Option<Bytes>)
    ensures Extend([], decoded) == decoded
  {
    if decoded.Some? { assert [] + decoded.value == decoded.value; }
  }

  /** The bytes that `s` stands for, or None when a percent sign does not start two hexadecimal digits. */
  function Decoded(s: Bytes): Option<Bytes>
    decreases |s|
  {
    if s == [] then Some([])
    else if s[0] != PERCENT then Extend([s[0]], Decoded(s[1..]))
    else if |s| < 3 || DecodeHex(s[1]).None? || DecodeHex(s[2]).None? then None
    else Extend([16 * DecodeHex(s[1]).value + DecodeHex(s[2]).value], Decoded(s[3..]))
  }

  datatype Error = BadEncoding | NotUtf8

  function DecodePath(path: Bytes): Result<Bytes, Error> {
    match Decoded(path)
    case None => Err(BadEncoding)
    case Some(bytes) => if Valid(bytes) then Ok(bytes) else Err(NotUtf8)
  }

  method PercentDecodePath(path: Bytes) returns (r: Result<Bytes, Error>)
    ensures r == DecodePath(path)
  {
    var decoded: Bytes := [];
    var index := 0;
    ExtendNothing(Decoded(path));
    assert path[0..] == path;
    while index < |path|
      invariant index <= |path|
      invariant Decoded(path) == Extend(decoded, Decoded(path[index..]))
    {
      var rest := path[index..];
      if path[index] == PERCENT {
        if index + 2 >= |path| {
          return Err(BadEncoding);
        }
        var high := DecodeHex(path[index + 1]);
        if high.None? {
          return Err(BadEncoding);
        }
        var low := DecodeHex(path[index + 2]);
        if low.None? {
          return Err(BadEncoding);
        }
        assert rest[3..] == path[index + 3..];
        ExtendTwice(decoded, [16 * high.value + low.value], Decoded(path[index + 3..]));
        decoded := decoded + [16 * high.value + low.value];
        index := index + 3;
      } else {
        assert rest[1..] == path[index + 1..];
        ExtendTwice(decoded, [path[index]], Decoded(path[index + 1..]));
        decoded := decoded + [path[index]];
        index := index + 1;
      }
    }
    assert decoded + [] == decoded;
    return if Valid(decoded) then Ok(decoded) else Err(NotUtf8);
  }

  // ------------------------------------------------------------- round trip

  lemma DecodeEncodedByte(b: Byte, rest: Bytes)
    ensures Decoded(EncodeByte(b) + rest) == Extend([b], Decoded(rest))
  {
    var s := EncodeByte(b) + rest;
    if Unreserved(b) {
      assert s[1..] == rest;
    } else {
      assert s[3..] == rest;
      assert DecodeHex(HexDigit(b / 16)) == Some(b / 16) && DecodeHex(HexDigit(b % 16)) == Some(b % 16);
    }
  }

  lemma {:induction false} DecodePlain(plain: Bytes, rest: Bytes)
    requires PERCENT !in plain
    ensures Decoded(plain + rest) == Extend(plain, Decoded(rest))
    decreases |plain|
  {
    if plain == [] {
      assert plain + rest == rest;
      ExtendNothing(Decoded(rest));
    } else {
      assert (plain + rest)[1..] == plain[1..] + rest;
      DecodePlain(plain[1..], rest);
      ExtendTwice([plain[0]], plain[1..], Decoded(rest));
      assert [plain[0]] + plain[1..] == plain;
    }
  }

  /** Decoding never lengthens, and keeps the length only of what holds no percent sign. */
  lemma {:induction false} DecodedIsShorter(s: Bytes)
    requires Decoded(s).Some?
    ensures |Decoded(s).value| <= |s| && (|Decoded(s).value| == |s| ==> PERCENT !in s)
    decreases |s|
  {
    if s != [] {
      DecodedIsShorter(if s[0] == PERCENT then s[3..] else s[1..]);
    }
  }

  /** A slash is no hexadecimal digit, so nothing is decoded across it. */
  lemma {:induction false} DecodedAtSlash(a: Bytes, b: Bytes)
    ensures
      var whole := Decoded(a + [SLASH] + b);
      whole == if Decoded(a).None? then None else Extend(Decoded(a).value + [SLASH], Decoded(b))
    decreases |a|
  {
    var s := a + [SLASH] + b;
    if a == [] {
      assert s[1..] == b;
      assert [] + [SLASH] == [SLASH];
    } else if a[0] != PERCENT {
      assert s[1..] == a[1..] + [SLASH] + b;
      DecodedAtSlash(a[1..], b);
      ExtendSlash([a[0]], Decoded(a[1..]), Decoded(b));
    } else if |a| < 3 {
      assert |s| >= 3 ==> s[1] == SLASH || s[2] == SLASH;
    } else {
      assert s[1] == a[1] && s[2] == a[2] && s[3..] == a[3..] + [SLASH] + b;
      DecodedAtSlash(a[3..], b);
      if DecodeHex(a[1]).Some? && DecodeHex(a[2]).Some? {
        ExtendSlash([16 * DecodeHex(a[1]).value + DecodeHex(a[2]).value], Decoded(a[3..]), Decoded(b));
      }
    }
  }

  lemma ExtendSlash(head: Bytes, middle: Option<Bytes>, tail: Option<Bytes>)
    ensures
      Extend(head, if middle.None? then None else Extend(middle.value + [SLASH], tail))
      == if Extend(head, middle).None? then None else Extend(Extend(head, middle).value + [SLASH], tail)
  {
    if middle.Some? {
      ExtendTwice(head, middle.value + [SLASH], tail);
      Regroup(head, middle.value, [SLASH]);
    }
  }

  lemma JoinFirst(first: Bytes, segments: seq<Bytes>, more: Bytes)
    requires segments != []
    ensures Join([more + segments[0]] + segments[1..]) == more + Join(segments)
  {
    if |segments| == 1 {
      assert [more + segments[0]] + segments[1..] == [more + segments[0]];
    } else {
      assert ([more + segments[0]] + segments[1..])[1..] == segments[1..];
      Regroup(more, segments[0], [SLASH]);
      Regroup(more, segments[0] + [SLASH], Join(segments[1..]));
    }
  }

  /** Encoding a path works byte by byte and leaves its slashes alone. */
  lemma EncodePathStep(s: Bytes)
    requires s != []
    ensures EncodePath(s) == (if s[0] == SLASH then [SLASH] else EncodeByte(s[0])) + EncodePath(s[1..])
  {
    var rest := Split(s[1..]);
    var encoded := EncodeAll(rest);
    if s[0] == SLASH {
      var all := EncodeAll([[]] + rest);
      assert ([[]] + rest)[1..] == rest;
      assert all == [[]] + encoded;
      assert all[1..] == encoded;
    } else {
      var first := [s[0]] + rest[0];
      assert first[1..] == rest[0];
      assert EncodeSegment(first) == EncodeByte(s[0]) + EncodeSegment(rest[0]);
      assert ([first] + rest[1..])[1..] == rest[1..];
      assert EncodeAll(Split(s)) == [EncodeByte(s[0]) + encoded[0]] + encoded[1..];
      JoinFirst(encoded[0], encoded, EncodeByte(s[0]));
    }
  }

  /** Decoding undoes the encoding of every path. */
  lemma {:induction false} DecodeEncodedPath(s: Bytes)
    ensures Decoded(EncodePath(s)) == Some(s)
    decreases |s|
  {
    if s != [] {
      EncodePathStep(s);
      DecodeEncodedPath(s[1..]);
      var rest := EncodePath(s[1..]);
      hide EncodePath;
      assert [s[0]] + s[1..] == s;
      if s[0] == SLASH {
        DecodePlain([SLASH], rest);
      } else {
        DecodeEncodedByte(s[0], rest);
      }
    } else {
      assert EncodePath(s) == [];
    }
  }

  predicate Safe(b: Byte) {
    MayStand(b) || b == PERCENT || b == SLASH
  }

  /** An encoded path holds nothing but unreserved characters, percent signs and slashes. */
  lemma {:induction false} EncodedPathIsSafe(s: Bytes)
    ensures forall i :: 0 <= i < |EncodePath(s)| ==> Safe(EncodePath(s)[i])
    decreases |s|
  {
    if s != [] {
      EncodePathStep(s);
      EncodedPathIsSafe(s[1..]);
      hide EncodePath;
      assert forall b :: b in EncodeByte(s[0]) ==> Safe(b);
    } else {
      assert EncodePath(s) == [];
    }
  }

  // ------------------------------------------------------- the exact codes

  /** The value of an ASCII hexadecimal digit in either case, or -1. */
  function HexValue(b: Byte): int {
    if 48 <= b <= 57 then b - 48 else if 65 <= b <= 70 then b - 55 else if 97 <= b <= 102 then b - 87 else -1
  }

  /** Every percent sign starts two hexadecimal digits. */
  ghost predicate WellEncoded(s: Bytes) {
    forall i :: 0 <= i < |s| ==> WellEncodedAt(s, i)
  }

  predicate WellEncodedAt(s: Bytes, i: nat)
    requires i < |s|
  {
    s[i] == 37 ==> i + 2 < |s| && HexValue(s[i + 1]) >= 0 && HexValue(s[i + 2]) >= 0
  }

  lemma WellEncodedAtTail(s: Bytes, n: nat, i: nat)
    requires n + i < |s|
    ensures WellEncodedAt(s[n..], i) <==> WellEncodedAt(s, n + i)
  {
    hide HexValue;
  }

  lemma WellEncodedTail(s: Bytes, n: nat)
    requires n <= |s| && forall i :: 0 < i < n ==> s[i] != 37
    requires n > 0 && s[0] == 37 ==> n == 3 && HexValue(s[1]) >= 0 && HexValue(s[2]) >= 0
    requires n > 0 && s[0] != 37 ==> n == 1
    ensures WellEncoded(s) <==> WellEncoded(s[n..])
  {
    forall i | 0 <= i < n ensures WellEncodedAt(s, i) {
    }
    hide WellEncodedAt;
    forall i | n <= i < |s| ensures WellEncodedAt(s, i) <==> WellEncodedAt(s[n..], i - n) {
      WellEncodedAtTail(s, n, i - n);
    }
    if WellEncoded(s) {
      forall i | 0 <= i < |s[n..]| ensures WellEncodedAt(s[n..], i) {
        assert WellEncodedAt(s, n + i);
      }
    }
  }

  /** Decoding fails exactly when some percent sign does not start two hexadecimal digits, in either case. */
  lemma {:induction false} DecodesWellEncoded(s: Bytes)
    ensures Decoded(s).Some? <==> WellEncoded(s)
    decreases |s|
  {
    if s != [] {
      if s[0] != PERCENT {
        DecodesWellEncoded(s[1..]);
        WellEncodedTail(s, 1);
      } else if |s| >= 3 && HexValue(s[1]) >= 0 && HexValue(s[2]) >= 0 {
        DecodesWellEncoded(s[3..]);
        WellEncodedTail(s, 3);
      } else {
        assert !WellEncodedAt(s, 0);
      }
    }
  }

  /** What a percent sign and two digits stand for, and that any other byte stands for itself. */
  lemma DecodesStep(s: Bytes)
    requires s != [] && Decoded(s).Some?
    ensures s[0] != 37 ==> Decoded(s[1..]).Some? && Decoded(s).value == [s[0]] + Decoded(s[1..]).value
    ensures s[0] == 37 ==>
              && |s| >= 3 && 0 <= 16 * HexValue(s[1]) + HexValue(s[2]) < 256 && Decoded(s[3..]).Some?
              && Decoded(s).value == [16 * HexValue(s[1]) + HexValue(s[2])] + Decoded(s[3..]).value
  {
  }

  /** The unreserved characters of section 2.3 of RFC 3986: letters, digits, hyphen, period, underscore, tilde. */
  predicate MayStand(b: Byte) {
    48 <= b <= 57 || 65 <= b <= 90 || 97 <= b <= 122 || b == 45 || b == 46 || b == 95 || b == 126
  }

  function UpperHex(n: int): Byte
    requires 0 <= n < 16
  {
    if n < 10 then 48 + n else 55 + n
  }

  /** Slashes and unreserved bytes stay as they are; every other byte becomes a percent sign and two upper-case digits. */
  lemma EncodesStep(s: Bytes)
    requires s != []
    ensures EncodePath(s)
         == (if s[0] == 47 || MayStand(s[0]) then [s[0]] else [37, UpperHex(s[0] / 16), UpperHex(s[0] % 16)])
            + EncodePath(s[1..])
  {
    EncodePathStep(s);
  }

  /** A path of slashes and unreserved characters only is its own address. */
  lemma {:induction false} UnreservedStays(s: Bytes)
    requires forall i :: 0 <= i < |s| ==> s[i] == 47 || MayStand(s[i])
    ensures EncodePath(s) == s
    decreases |s|
  {
    if s == [] {
      assert EncodePath(s) == [];
    } else {
      EncodesStep(s);
      hide EncodePath;
      UnreservedStays(s[1..]);
      assert [s[0]] + s[1..] == s;
    }
  }
}
