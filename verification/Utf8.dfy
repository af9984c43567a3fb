/** UTF-8 texts as byte sequences with character boundaries: what a Rust `&str` offers the lexical index. */
module Utf8 {
  import opened Basics

  predicate IsContinuation(b: byte) {
    0x80 <= b < 0xC0
  }

  /** The number of bytes of a character, from its first byte. */
  function Width(lead: byte): (w: nat)
    ensures 1 <= w <= 4
  {
    if lead < 0x80 then 1 else if lead < 0xE0 then 2 else if lead < 0xF0 then 3 else 4
  }

  /** The bytes of one character: a lead byte and as many continuation bytes as it asks for. */
  predicate IsChar(bs: seq<byte>) {
    && bs != [] && !IsContinuation(bs[0]) && |bs| == Width(bs[0])
    && forall k :: 1 <= k < |bs| ==> IsContinuation(bs[k])
  }

  /** A sequence of characters. (Every valid UTF-8 string is one; overlong forms are not excluded.) */
  ghost predicate IsText(bs: seq<byte>) {
    bs == [] || (Width(bs[0]) <= |bs| && IsChar(bs[..Width(bs[0])]) && IsText(bs[Width(bs[0])..]))
  }

  predicate IsBoundary(bs: seq<byte>, i: nat) {
    i == 0 || i == |bs| || (i < |bs| && !IsContinuation(bs[i]))
  }

  /** From a boundary on, a text is a text. */
  lemma {:induction false} TextFrom(bs: seq<byte>, i: nat)
    requires IsText(bs) && i <= |bs| && IsBoundary(bs, i)
    ensures IsText(bs[i..])
  {
    if i == 0 {
      assert bs[0..] == bs;
    } else if i < |bs| {
      var w := Width(bs[0]);
      forall k | 1 <= k < w ensures IsContinuation(bs[k]) {
        assert bs[..w][k] == bs[k];
      }
      if i >= w {
        assert bs[w..][i - w] == bs[i];
        TextFrom(bs[w..], i - w);
        assert bs[w..][i - w..] == bs[i..];
      }
    }
  }

  /** The character that starts at a boundary ends at the next boundary. */
  lemma NextChar(bs: seq<byte>, i: nat)
    requires IsText(bs) && i < |bs| && IsBoundary(bs, i)
    ensures var e := i + Width(bs[i]);
      e <= |bs| && IsBoundary(bs, e) && (forall k :: i < k < e ==> !IsBoundary(bs, k)) && IsChar(bs[i..e])
  {
    hide IsText, IsChar, Width;
    TextFrom(bs, i);
    var rest, w := bs[i..], Width(bs[i]);
    assert rest[..w] == bs[i..i + w];
    CharThenText(rest);
    forall k | 1 <= k < w ensures bs[i + k] == rest[k] {
    }
    assert i + w < |bs| ==> bs[i + w] == rest[w];
  }

  lemma CharThenText(bs: seq<byte>)
    requires IsText(bs) && bs != []
    ensures var w := Width(bs[0]);
      w <= |bs| && IsChar(bs[..w]) && (forall k :: 1 <= k < w ==> IsContinuation(bs[k])) && (w < |bs| ==> !IsContinuation(bs[w]))
  {
    var w := Width(bs[0]);
    forall k | 1 <= k < w ensures IsContinuation(bs[k]) {
      assert bs[..w][k] == bs[k];
    }
    if w < |bs| {
      var after := bs[w..];
      assert after[..Width(after[0])][0] == after[0] == bs[w];
    }
  }

  /** The same byte, or the same ASCII letter in either case. */
  predicate SameLetter(a: byte, b: byte) {
    a == b || (65 <= a <= 90 && b == a + 32) || (65 <= b <= 90 && a == b + 32)
  }

  /** `to_ascii_lowercase`: the same letters, none of them a capital. */
  function AsciiLower(bs: seq<byte>): (r: seq<byte>)
    ensures |r| == |bs| && forall i :: 0 <= i < |bs| ==> SameLetter(bs[i], r[i]) && !(65 <= r[i] <= 90)
  {
    seq(|bs|, i requires 0 <= i < |bs| => if 65 <= bs[i] <= 90 then bs[i] + 32 else bs[i])
  }

  predicate IsAsciiWhitespace(b: byte) {
    b == 9 || b == 10 || b == 12 || b == 13 || b == 32
  }

  /** The character at position i is one of the 25 Unicode white space characters. */
  predicate IsWhitespaceAt(bs: seq<byte>, i: nat)
    requires i < |bs|
  {
    if bs[i] < 0x80 then 9 <= bs[i] <= 13 || bs[i] == 32
    else if i + 1 < |bs| && bs[i] == 0xC2 then bs[i + 1] == 0x85 || bs[i + 1] == 0xA0
    else i + 2 < |bs| && IsWideWhitespace(bs[i], bs[i + 1], bs[i + 2])
  }

  predicate IsWideWhitespace(a: byte, b: byte, c: byte) {
    || (a == 0xE1 && b == 0x9A && c == 0x80)
    || (a == 0xE2 && b == 0x80 && (0x80 <= c <= 0x8A || c == 0xA8 || c == 0xA9 || c == 0xAF))
    || (a == 0xE2 && b == 0x81 && c == 0x9F)
    || (a == 0xE3 && b == 0x80 && c == 0x80)
  }

  // ---------- Code points ----------

  type CodePoint = n: int | 0 <= n < 0x110000

  /** The UTF-8 encoding of a code point: six bits to a continuation byte, the rest in the lead byte. */
  function EncodeChar(n: CodePoint): (bs: seq<byte>)
    ensures 1 <= |bs| <= 4
  {
    if n < 0x80 then [n]
    else if n < 0x800 then [0xC0 + n / 64, 0x80 + n % 64]
    else if n < 0x10000 then [0xE0 + n / 4096, 0x80 + n / 64 % 64, 0x80 + n % 64]
    else [0xF0 + n / 262144, 0x80 + n / 4096 % 64, 0x80 + n / 64 % 64, 0x80 + n % 64]
  }

  function EncodeText(ns: seq<CodePoint>): seq<byte> {
    if ns == [] then [] else EncodeChar(ns[0]) + EncodeText(ns[1..])
  }

  lemma EncodedIsChar(n: CodePoint)
    ensures IsChar(EncodeChar(n))
  {
  }

  /** The encoding of any string is a text. */
  lemma {:induction false} EncodedIsText(ns: seq<CodePoint>)
    ensures IsText(EncodeText(ns))
  {
    if ns != [] {
      EncodedIsChar(ns[0]);
      EncodedIsText(ns[1..]);
      var c, rest := EncodeChar(ns[0]), EncodeText(ns[1..]);
      hide EncodeChar, EncodeText;
      assert (c + rest)[..|c|] == c && (c + rest)[|c|..] == rest;
    }
  }

  /** `char::is_whitespace`: the 25 White_Space code points. */
  predicate IsWhitespaceCode(n: int) {
    || 0x09 <= n <= 0x0D || n == 0x20 || n == 0x85 || n == 0xA0 || n == 0x1680 || 0x2000 <= n <= 0x200A
    || n == 0x2028 || n == 0x2029 || n == 0x202F || n == 0x205F || n == 0x3000
  }

  /** White space is recognised by its bytes. */
  lemma WhitespaceByBytes(n: CodePoint, rest: seq<byte>)
    ensures IsWhitespaceAt(EncodeChar(n) + rest, 0) <==> IsWhitespaceCode(n)
  {
    hide IsWhitespaceCode, IsWideWhitespace;
    if n < 0x80 {
      OneByte(n);
    } else if n < 0x800 {
      TwoBytes(n / 64, n % 64);
      assert n == 64 * (n / 64) + n % 64;
    } else if n < 0x10000 {
      ThreeBytes(n / 4096, n / 64 % 64, n % 64);
      assert n == 4096 * (n / 4096) + 64 * (n / 64 % 64) + n % 64 by {
        assert n / 64 == 64 * (n / 64 / 64) + n / 64 % 64;
      }
    } else {
      FourBytes(n);
    }
  }

  lemma OneByte(n: int)
    ensures n < 0x80 ==> (IsWhitespaceCode(n) <==> 9 <= n <= 13 || n == 32)
  {
  }

  lemma FourBytes(n: int)
    ensures n >= 0x10000 ==> !IsWhitespaceCode(n)
    ensures forall a: byte, b: byte, c: byte :: a >= 0xF0 ==> !IsWideWhitespace(a, b, c)
  {
  }

  lemma TwoBytes(a: int, b: int)
    requires 0 <= a < 32 && 0 <= b < 64
    ensures IsWhitespaceCode(64 * a + b) && 64 * a + b >= 0x80 <==> a == 2 && (b == 5 || b == 32)
    ensures forall x: byte, y: byte, z: byte :: x < 0xE0 ==> !IsWideWhitespace(x, y, z)
  {
  }

  lemma ThreeBytes(a: int, b: int, c: int)
    requires 0 <= a < 16 && 0 <= b < 64 && 0 <= c < 64
    ensures IsWhitespaceCode(4096 * a + 64 * b + c) && 4096 * a + 64 * b + c >= 0x800 <==>
      IsWideWhitespace(0xE0 + a, 0x80 + b, 0x80 + c)
  {
  }
}
