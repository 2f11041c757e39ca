/** Byte strings and well-formed UTF-8 (RFC 3629, section 4), as Rust's `str` guarantees it. */
module Utf8 {
  import opened Wrappers

  type Byte = x: int | 0 <= x < 256

  type Bytes = seq<Byte>

  /** A byte that continues a character, 10xxxxxx. */
  predicate Continuation(b: Byte) {
    0x80 <= b <= 0xBF
  }

  /** The length of the character that `s` starts with, or 0 when there is none. */
  function CharLength(s: Bytes): (n: nat)
    ensures n <= |s| && n <= 4
    ensures n > 0 ==> !Continuation(s[0]) && forall i :: 1 <= i < n ==> Continuation(s[i])
  {
    if s == [] then 0
    else if s[0] <= 0x7F then 1
    else if 0xC2 <= s[0] <= 0xDF then
      if |s| >= 2 && Continuation(s[1]) then 2 else 0
    else if 0xE0 <= s[0] <= 0xEF then
      if |s| >= 3 && Second(s[0], s[1]) && Continuation(s[2]) then 3 else 0
    else if 0xF0 <= s[0] <= 0xF4 then
      if |s| >= 4 && Second(s[0], s[1]) && Continuation(s[2]) && Continuation(s[3]) then 4 else 0
    else 0
  }

  /** The second byte excludes overlong forms, surrogates and values above U+10FFFF. */
  predicate Second(first: Byte, second: Byte) {
    && Continuation(second)
    && (first == 0xE0 ==> second >= 0xA0)
    && (first == 0xED ==> second <= 0x9F)
    && (first == 0xF0 ==> second >= 0x90)
    && (first == 0xF4 ==> second <= 0x8F)
  }

  predicate Valid(s: Bytes)
    decreases |s|
  {
    s == [] || (CharLength(s) > 0 && Valid(s[CharLength(s)..]))
  }

  /** `str::is_char_boundary`. */
  predicate IsBoundary(s: Bytes, i: nat) {
    i == 0 || i == |s| || (i < |s| && !Continuation(s[i]))
  }

  lemma CharLengthOfPrefix(a: Bytes, b: Bytes)
    requires CharLength(a) > 0
    ensures CharLength(a + b) == CharLength(a)
  {
  }

  lemma DropConcat<T>(a: seq<T>, b: seq<T>, n: nat)
    requires n <= |a|
    ensures (a + b)[n..] == a[n..] + b
  {
  }

  lemma Prepend(s: Bytes, n: nat)
    requires 0 < n == CharLength(s) && Valid(s[n..])
    ensures Valid(s)
  {
  }

  lemma {:induction false} ConcatValid(a: Bytes, b: Bytes)
    requires Valid(a) && Valid(b)
    ensures Valid(a + b)
    decreases |a|
  {
    if a == [] {
      assert a + b == b;
    } else {
      var n := CharLength(a);
      CharLengthOfPrefix(a, b);
      ConcatValid(a[n..], b);
      DropConcat(a, b, n);
      Prepend(a + b, n);
    }
  }

  lemma FirstCharacter(s: Bytes, i: nat) returns (n: nat)
    requires Valid(s) && 0 < i <= |s| && IsBoundary(s, i)
    ensures 0 < n <= i && Valid(s[n..])
  {
    n := CharLength(s);
    hide CharLength;
  }

  lemma BoundaryOfRest(s: Bytes, n: nat, i: nat)
    requires n <= i <= |s| && IsBoundary(s, i)
    ensures IsBoundary(s[n..], i - n)
  {
  }

  /** Cutting well-formed text at a character boundary leaves well-formed text. */
  lemma {:induction false} SuffixValid(s: Bytes, i: nat)
    requires Valid(s) && i <= |s| && IsBoundary(s, i)
    ensures Valid(s[i..])
    decreases |s|
  {
    hide *;
    if s != [] && i > 0 {
      var n := FirstCharacter(s, i);
      BoundaryOfRest(s, n, i);
      SuffixValid(s[n..], i - n);
      DropTwice(s, n, i - n);
    }
  }

  /** Among four consecutive positions of well-formed text one is a boundary. */
  lemma {:induction false} BoundaryWithinThree(s: Bytes, i: nat) returns (k: nat)
    requires Valid(s) && i <= |s|
    ensures i <= k <= i + 3 && k <= |s| && IsBoundary(s, k)
    decreases |s|
  {
    if i == 0 {
      k := 0;
    } else {
      var n := CharLength(s);
      if i <= n {
        k := n;
        assert Valid(s[n..]);
        if n < |s| { assert s[n..][0] == s[n]; }
      } else {
        k := BoundaryWithinThree(s[n..], i - n);
        k := k + n;
        if n < k < |s| { assert s[n..][k - n] == s[k]; }
      }
    }
  }

  /** A Unicode scalar value: any code point but the surrogates. */
  type Scalar = c: int | 0 <= c <= 0x10FFFF && !(0xD800 <= c <= 0xDFFF)

  /** The encoding of one character, by the table of section 3 of RFC 3629. */
  function Encoding(c: Scalar): Bytes {
    if c < 0x80 then [c]
    else if c < 0x800 then [0xC0 + c / 64, Sextet(c)]
    else if c < 0x1_0000 then [0xE0 + c / 4096, Sextet(c / 64), Sextet(c)]
    else [0xF0 + c / 262144, Sextet(c / 4096), Sextet(c / 64), Sextet(c)]
  }

  /** A continuing byte with the low six bits of `n`. */
  function Sextet(n: nat): (b: Byte)
    ensures Continuation(b)
  {
    var low: nat := n % 64;
    0x80 + low
  }

  function TextEncoding(text: seq<Scalar>): Bytes {
    if text == [] then [] else Encoding(text[0]) + TextEncoding(text[1..])
  }

  lemma EncodingIsCharacter(c: Scalar, rest: Bytes)
    ensures CharLength(Encoding(c) + rest) == |Encoding(c)| > 0
  {
    EncodingLength(c);
    CharLengthOfPrefix(Encoding(c), rest);
  }

  lemma EncodingLength(c: Scalar)
    ensures CharLength(Encoding(c)) == |Encoding(c)| > 0
  {
    hide Sextet;
    if 0x800 <= c < 0x1_0000 {
      var n: nat := c / 64;
      SextetBits(n);
      assert n / 64 == c / 4096;
    } else if c >= 0x1_0000 {
      var n: nat := c / 4096;
      SextetBits(n);
      assert n / 64 == c / 262144;
    }
  }

  lemma SextetBits(n: nat)
    ensures n == n / 64 * 64 + (Sextet(n) - 0x80)
  {
  }

  /** `high` with the six bits of a continuing byte below it. */
  function Below(high: nat, b: Byte): (n: nat)
    requires Continuation(b)
    ensures 64 * high <= n == 64 * high + b - 0x80 < 64 * high + 64
    ensures n / 64 == high && Sextet(n) == b
  {
    var low: nat := b - 0x80;
    64 * high + low
  }

  lemma TwoBytes(a: Byte, b: Byte) returns (c: Scalar)
    requires 0xC2 <= a <= 0xDF && Continuation(b)
    ensures Encoding(c) == [a, b]
  {
    c := Below(a - 0xC0, b);
    hide Below, Sextet;
  }

  lemma ThreeBytes(a: Byte, b: Byte, d: Byte) returns (c: Scalar)
    requires 0xE0 <= a <= 0xEF && Second(a, b) && Continuation(d)
    ensures Encoding(c) == [a, b, d]
  {
    var high := Below(a - 0xE0, b);
    c := Below(high, d);
    hide Below, Sextet;
    assert c / 4096 == high / 64;
  }

  lemma FourBytes(a: Byte, b: Byte, d: Byte, e: Byte) returns (c: Scalar)
    requires 0xF0 <= a <= 0xF4 && Second(a, b) && Continuation(d) && Continuation(e)
    ensures Encoding(c) == [a, b, d, e]
  {
    var high := Below(a - 0xF0, b);
    var middle := Below(high, d);
    c := Below(middle, e);
    hide Below, Sextet;
    assert c / 4096 == high && c / 262144 == high / 64;
  }

  lemma CharacterIsEncoding(s: Bytes) returns (c: Scalar)
    requires CharLength(s) > 0
    ensures s[..CharLength(s)] == Encoding(c)
  {
    match CharLength(s) {
      case 1 => c := s[0];
      case 2 => c := TwoBytes(s[0], s[1]);
      case 3 => c := ThreeBytes(s[0], s[1], s[2]);
      case _ => c := FourBytes(s[0], s[1], s[2], s[3]);
    }
  }

  /** Well-formed bytes are exactly the encodings of texts. */
  lemma ValidIsEncoding(s: Bytes)
    ensures Valid(s) <==> exists text :: TextEncoding(text) == s
  {
    if Valid(s) {
      var text := DecodeText(s);
    }
    forall text: seq<Scalar> | TextEncoding(text) == s
      ensures Valid(s)
    {
      EncodingIsValid(text);
    }
  }

  lemma {:induction false} EncodingIsValid(text: seq<Scalar>)
    ensures Valid(TextEncoding(text))
  {
    if text != [] {
      var first, rest := Encoding(text[0]), TextEncoding(text[1..]);
      EncodingIsCharacter(text[0], rest);
      EncodingIsValid(text[1..]);
      assert (first + rest)[|first|..] == rest;
      Prepend(first + rest, |first|);
    }
  }

  lemma Rejoin(s: Bytes, n: nat, c: Scalar, rest: seq<Scalar>)
    requires n <= |s| && s[..n] == Encoding(c) && s[n..] == TextEncoding(rest)
    ensures TextEncoding([c] + rest) == s
  {
    hide Encoding;
    assert ([c] + rest)[1..] == rest;
    assert s == s[..n] + s[n..];
  }

  lemma {:induction false} DecodeText(s: Bytes) returns (text: seq<Scalar>)
    requires Valid(s)
    ensures TextEncoding(text) == s
    decreases |s|
  {
    if s == [] {
      text := [];
    } else {
      var n := CharLength(s);
      var c := CharacterIsEncoding(s);
      var rest := DecodeText(s[n..]);
      text := [c] + rest;
      Rejoin(s, n, c, rest);
    }
  }
}
