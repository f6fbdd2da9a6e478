/**
 * UTF-8, as Rust's `str` stores text and `std::str::from_utf8` checks it:
 * the encoding of one char, the validating decoder, and slicing a `str` at a
 * byte index, which must fall on a char boundary.
 */
module Utf8 {
  import opened Wrappers
  import opened Machine

  /** A byte of the form `10xxxxxx`, which only continues a multi-byte sequence. */
  predicate IsContinuation(b: uint8) { 0x80 <= b < 0xC0 }

  /** The UTF-8 bytes of one char: one to four of them. */
  function EncodeChar(c: char): (r: seq<uint8>)
    ensures 1 <= |r| <= 4 && !IsContinuation(r[0])
    ensures forall j :: 1 <= j < |r| ==> IsContinuation(r[j])
  {
    var n := c as int;
    var q1 := n / 64;
    var q2 := q1 / 64;
    var q3 := q2 / 64;
    if n < 0x80 then [n]
    else if n < 0x800 then [0xC0 + q1, 0x80 + n % 64]
    else if n < 0x1_0000 then [0xE0 + q2, 0x80 + q1 % 64, 0x80 + n % 64]
    else [0xF0 + q3, 0x80 + q2 % 64, 0x80 + q1 % 64, 0x80 + n % 64]
  }

  function Encode(s: string): (r: seq<uint8>)
    ensures |r| >= |s|
  {
    if |s| == 0 then [] else EncodeChar(s[0]) + Encode(s[1..])
  }

  /** A char needs exactly one byte when it is ASCII, and that byte is its code. */
  lemma EncodeAscii(c: char)
    requires c as int < 0x80
    ensures EncodeChar(c) == [c as int]
  {
  }

  lemma {:induction false} EncodeConcat(s: string, t: string)
    ensures Encode(s + t) == Encode(s) + Encode(t)
  {
    if |s| > 0 {
      assert (s + t)[0] == s[0] && (s + t)[1..] == s[1..] + t;
      EncodeConcat(s[1..], t);
    } else {
      assert s + t == t;
    }
  }

  /**
   * The char a leading byte and its continuation bytes stand for, and how many
   * bytes that took, when `b` starts with a well-formed sequence: no overlong
   * form, no surrogate, nothing above U+10FFFF.
   */
  function DecodeOne(b: seq<uint8>): (r: Option<(char, nat)>)
    requires |b| > 0
    ensures r.Some? ==> 1 <= r.value.1 <= |b|
  {
    var b0: int := b[0];
    if b0 < 0x80 then Some((b0 as char, 1))
    else if 0xC2 <= b0 < 0xE0 then
      if |b| >= 2 && IsContinuation(b[1]) then
        Some((((b0 - 0xC0) * 64 + (b[1] as int - 0x80)) as char, 2))
      else None
    else if 0xE0 <= b0 < 0xF0 then
      var lo := if b0 == 0xE0 then 0xA0 else 0x80;
      var hi := if b0 == 0xED then 0xA0 else 0xC0;
      if |b| >= 3 && lo <= b[1] < hi && IsContinuation(b[2]) then
        Some((((b0 - 0xE0) * 4096 + (b[1] as int - 0x80) * 64 + (b[2] as int - 0x80)) as char, 3))
      else None
    else if 0xF0 <= b0 < 0xF5 then
      var lo := if b0 == 0xF0 then 0x90 else 0x80;
      var hi := if b0 == 0xF4 then 0x90 else 0xC0;
      if |b| >= 4 && lo <= b[1] < hi && IsContinuation(b[2]) && IsContinuation(b[3]) then
        Some((((b0 - 0xF0) * 262144 + (b[1] as int - 0x80) * 4096 + (b[2] as int - 0x80) * 64 + (b[3] as int - 0x80)) as char, 4))
      else None
    else None
  }

  /** `std::str::from_utf8`: the text `b` encodes, or `None` when `b` is not UTF-8. */
  function Decode(b: seq<uint8>): (r: Option<string>)
    decreases |b|
  {
    if |b| == 0 then Some("")
    else
      match DecodeOne(b)
      case None => None
      case Some((c, k)) =>
        match Decode(b[k..])
        case None => None
        case Some(s) => Some([c] + s)
  }

  /** The decoder reads back the char an encoding starts with, whatever follows it. */
  lemma DecodeOneEncode(c: char, rest: seq<uint8>)
    ensures DecodeOne(EncodeChar(c) + rest) == Some((c, |EncodeChar(c)|))
  {
    var n := c as int;
    var b := EncodeChar(c) + rest;
    var q1 := n / 64;
    var q2 := q1 / 64;
    var q3 := q2 / 64;
    if n < 0x80 {
    } else if n < 0x800 {
      assert b[0] == 0xC0 + q1 && b[1] == 0x80 + n % 64;
      assert n == q1 * 64 + n % 64;
    } else if n < 0x1_0000 {
      assert b[0] == 0xE0 + q2 && b[1] == 0x80 + q1 % 64 && b[2] == 0x80 + n % 64;
      assert n == q2 * 4096 + (q1 % 64) * 64 + n % 64;
    } else {
      assert b[0] == 0xF0 + q3 && b[1] == 0x80 + q2 % 64;
      assert b[2] == 0x80 + q1 % 64 && b[3] == 0x80 + n % 64;
      assert n == q3 * 262144 + (q2 % 64) * 4096 + (q1 % 64) * 64 + n % 64;
    }
  }

  /** What the decoder reads is exactly the encoding of the char it returns. */
  lemma DecodeOneSound(b: seq<uint8>)
    requires |b| > 0 && DecodeOne(b).Some?
    ensures b[..DecodeOne(b).value.1] == EncodeChar(DecodeOne(b).value.0)
  {
    var (c, k) := DecodeOne(b).value;
    var n := c as int;
    var x0, x1, x2, x3 := b[0] as int, if k > 1 then b[1] as int else 0, if k > 2 then b[2] as int else 0, if k > 3 then b[3] as int else 0;
    if k == 2 {
      Base64Digits(n, x0 - 0xC0, x1 - 0x80);
    } else if k == 3 {
      Base64Digits(n, (x0 - 0xE0) * 64 + (x1 - 0x80), x2 - 0x80);
      Base64Digits(n / 64, x0 - 0xE0, x1 - 0x80);
    } else if k == 4 {
      Base64Digits(n, (x0 - 0xF0) * 4096 + (x1 - 0x80) * 64 + (x2 - 0x80), x3 - 0x80);
      Base64Digits(n / 64, (x0 - 0xF0) * 64 + (x1 - 0x80), x2 - 0x80);
      Base64Digits(n / 64 / 64, x0 - 0xF0, x1 - 0x80);
    }
  }

  /** `n` written as `hi` sixty-fours and `lo` units. */
  lemma Base64Digits(n: int, hi: int, lo: int)
    requires 0 <= lo < 64 && n == hi * 64 + lo
    ensures n / 64 == hi && n % 64 == lo
  {
  }

  /** Every text is valid UTF-8 once encoded, and decodes back to itself. */
  lemma {:induction false} DecodeEncode(s: string)
    ensures Decode(Encode(s)) == Some(s)
  {
    if |s| > 0 {
      var e := EncodeChar(s[0]);
      DecodeOneEncode(s[0], Encode(s[1..]));
      assert (e + Encode(s[1..]))[|e|..] == Encode(s[1..]);
      DecodeEncode(s[1..]);
      assert [s[0]] + s[1..] == s;
    }
  }

  /** Bytes that decode are the encoding of what they decode to: no two byte strings decode alike. */
  lemma {:induction false} EncodeDecode(b: seq<uint8>)
    requires Decode(b).Some?
    ensures Encode(Decode(b).value) == b
    decreases |b|
  {
    if |b| > 0 {
      var k := DecodeOne(b).value.1;
      EncodeDecode(b[k..]);
      EncodeDecodeStep(b, k);
    }
  }

  /** The step of `EncodeDecode`: the first char's bytes, then the rest's. */
  lemma EncodeDecodeStep(b: seq<uint8>, k: nat)
    requires |b| > 0 && Decode(b).Some? && DecodeOne(b).Some? && k == DecodeOne(b).value.1
    requires Decode(b[k..]).Some? && Encode(Decode(b[k..]).value) == b[k..]
    ensures Encode(Decode(b).value) == b
  {
    var c := DecodeOne(b).value.0;
    DecodeOneSound(b);
    var t := Decode(b[k..]).value;
    assert Decode(b).value == [c] + t;
    assert ([c] + t)[1..] == t;
    SplitAt(b, k);
  }

  lemma SplitAt(b: seq<uint8>, k: nat)
    requires k <= |b|
    ensures b[..k] + b[k..] == b
  {
  }

  /**
   * `&s[..i]` for a `str` holding `s`: the chars whose encoding fills the
   * first `i` bytes, or `None` where Rust panics because byte `i` falls
   * inside a char (or past the end).
   */
  function SliceTo(s: string, i: nat): (r: Option<string>)
    ensures r.Some? ==> |r.value| <= |s| && r.value == s[..|r.value|] && |Encode(r.value)| == i
  {
    if i == 0 then Some("")
    else if |s| == 0 then None
    else
      var m := |EncodeChar(s[0])|;
      if i < m then None
      else
        match SliceTo(s[1..], i - m)
        case None => None
        case Some(t) =>
          assert Encode([s[0]] + t) == EncodeChar(s[0]) + Encode(t) by {
            assert ([s[0]] + t)[1..] == t;
          }
          Some([s[0]] + t)
  }

  /**
   * The longest prefix of `s` whose encoding fits in `n` bytes: the slice
   * `&s[..s.floor_char_boundary(n)]`.
   */
  function PrefixWithin(s: string, n: nat): (r: string)
    ensures |r| <= |s| && r == s[..|r|] && |Encode(r)| <= n
    ensures |r| < |s| ==> |Encode(s[..|r| + 1])| > n
  {
    if |s| == 0 then ""
    else
      var m := |EncodeChar(s[0])|;
      if n < m then
        assert Encode(s[..1]) == EncodeChar(s[0]) by {
          assert s[..1][1..] == [];
        }
        ""
      else
        var t := PrefixWithin(s[1..], n - m);
        var r := [s[0]] + t;
        assert Encode(r) == EncodeChar(s[0]) + Encode(t) by {
          assert r[1..] == t;
        }
        assert r == s[..|r|];
        assert |r| < |s| ==> Encode(s[..|r| + 1]) == EncodeChar(s[0]) + Encode(s[1..][..|t| + 1]) by {
          if |r| < |s| {
            assert s[..|r| + 1][1..] == s[1..][..|t| + 1];
          }
        }
        r
  }

  /** Where slicing does not panic, it yields the longest prefix within that many bytes. */
  lemma {:induction false} SliceToWithin(s: string, i: nat)
    requires SliceTo(s, i).Some?
    ensures SliceTo(s, i).value == PrefixWithin(s, i)
  {
    if i > 0 {
      SliceToWithin(s[1..], i - |EncodeChar(s[0])|);
    }
  }
}
