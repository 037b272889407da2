/**
 * Byte lengths of UTF-8 encoded characters, as section 3 of RFC 3629 lays
 * them out. Rust's `char::len_utf8` is `Utf8Len`; a Dafny `char` is a Unicode
 * scalar value, like a Rust `char`.
 */
module Utf8 {

  type Byte = b: int | 0 <= b < 0x100

  /** Number of bytes the UTF-8 form of `c` takes (Rust's `char::len_utf8`). */
  function Utf8Len(c: char): (n: nat)
    ensures 1 <= n <= 4
  {
    var cp := c as int;
    if cp < 0x80 then 1
    else if cp < 0x800 then 2
    else if cp < 0x1_0000 then 3
    else 4
  }

  /**
   * The UTF-8 encoding of `c`, bit for bit as the table of section 3 of
   * RFC 3629 gives it: a lead byte whose high bits announce the length,
   * then continuation bytes of the form 10xxxxxx.
   */
  function Encode(c: char): (bytes: seq<Byte>)
  {
    var cp := c as int;
    if cp < 0x80 then [cp]
    else if cp < 0x800 then [0xC0 + cp / 0x40, 0x80 + cp % 0x40]
    else if cp < 0x1_0000 then
      [0xE0 + cp / 0x1000, 0x80 + (cp / 0x40) % 0x40, 0x80 + cp % 0x40]
    else
      [0xF0 + cp / 0x4_0000, 0x80 + (cp / 0x1000) % 0x40,
       0x80 + (cp / 0x40) % 0x40, 0x80 + cp % 0x40]
  }

  /** True of a byte that continues a multi-byte sequence (10xxxxxx). */
  predicate IsContinuation(b: Byte) {
    0x80 <= b < 0xC0
  }

  /** The length a lead byte announces, or 0 for a byte that cannot lead. */
  function AnnouncedLength(b: Byte): nat {
    if b < 0x80 then 1
    else if b < 0xC0 then 0
    else if b < 0xE0 then 2
    else if b < 0xF0 then 3
    else if b < 0xF8 then 4
    else 0
  }

  /** Recovers the scalar value from a well-formed sequence of 1 to 4 bytes. */
  function DecodeScalar(bytes: seq<Byte>): int
    requires 1 <= |bytes| <= 4
  {
    var b0, tail := bytes[0] as int, |bytes| - 1;
    var lead := if tail == 0 then b0 else if tail == 1 then b0 - 0xC0
                else if tail == 2 then b0 - 0xE0 else b0 - 0xF0;
    Accumulate(lead, bytes[1..])
  }

  /** Appends the six payload bits of each continuation byte to `acc`. */
  function Accumulate(acc: int, rest: seq<Byte>): int
    decreases |rest|
  {
    if rest == [] then acc
    else Accumulate(acc * 0x40 + (rest[0] as int - 0x80), rest[1..])
  }

  /**
   * `Utf8Len` agrees with the encoding: it is the number of bytes emitted,
   * the lead byte announces it, every later byte is a continuation byte, and
   * the bytes decode back to the scalar value.
   */
  lemma EncodeAgreesWithLength(c: char)
    ensures |Encode(c)| == Utf8Len(c)
    ensures AnnouncedLength(Encode(c)[0]) == Utf8Len(c)
    ensures forall k :: 1 <= k < |Encode(c)| ==> IsContinuation(Encode(c)[k])
    ensures DecodeScalar(Encode(c)) == c as int
  {
    var cp, e := c as int, Encode(c);
    var q1, q2, q3 := cp / 0x40, cp / 0x1000, cp / 0x4_0000;
    assert cp == q1 * 0x40 + cp % 0x40;
    assert q1 == q2 * 0x40 + q1 % 0x40;
    assert q2 == q3 * 0x40 + q2 % 0x40;
    if cp < 0x80 {
    } else if cp < 0x800 {
      assert e[1..][1..] == [];
      assert DecodeScalar(e) == Accumulate(q1, e[1..]) == Accumulate(cp, []);
    } else if cp < 0x1_0000 {
      assert e[1..][1..] == e[2..] && e[2..][1..] == [];
      assert DecodeScalar(e) == Accumulate(q2, e[1..]) == Accumulate(q1, e[2..]) == Accumulate(cp, []);
    } else {
      assert e[1..][1..] == e[2..] && e[2..][1..] == e[3..] && e[3..][1..] == [];
      assert DecodeScalar(e) == Accumulate(q3, e[1..]) == Accumulate(q2, e[2..])
        == Accumulate(q1, e[3..]) == Accumulate(cp, []);
    }
  }

  /** Total byte length of the UTF-8 form of `s`: the sum of `Utf8Len` over it. */
  function Width(s: seq<char>): (n: nat)
    ensures |s| <= n <= 4 * |s|
    ensures n == |s| <==> forall k :: 0 <= k < |s| ==> Utf8Len(s[k]) == 1
  {
    if s == [] then 0 else Utf8Len(s[0]) + Width(s[1..])
  }

  /** Concatenating the encodings of the characters of `s`. */
  function EncodeAll(s: seq<char>): seq<Byte> {
    if s == [] then [] else Encode(s[0]) + EncodeAll(s[1..])
  }

  /** `Width` counts exactly the bytes of the UTF-8 form of `s`. */
  lemma {:induction false} WidthIsEncodedLength(s: seq<char>)
    ensures |EncodeAll(s)| == Width(s)
  {
    if s != [] {
      EncodeAgreesWithLength(s[0]);
      WidthIsEncodedLength(s[1..]);
    }
  }

  /** Width is additive over concatenation. */
  lemma {:induction false} WidthAppend(a: seq<char>, b: seq<char>)
    ensures Width(a + b) == Width(a) + Width(b)
  {
    if a == [] {
      assert a + b == b;
    } else {
      assert (a + b)[1..] == a[1..] + b;
      WidthAppend(a[1..], b);
    }
  }

  /** Byte offset of character `j` equals that of character `i` plus the width between them. */
  lemma WidthSplit(s: seq<char>, i: nat, j: nat)
    requires i <= j <= |s|
    ensures Width(s[..j]) == Width(s[..i]) + Width(s[i..j])
  {
    assert s[..j] == s[..i] + s[i..j];
    WidthAppend(s[..i], s[i..j]);
  }

  /** Taking one more character of `s` adds that character's length. */
  lemma WidthSnoc(s: seq<char>, i: nat, j: nat)
    requires i <= j < |s|
    ensures Width(s[i..j + 1]) == Width(s[i..j]) + Utf8Len(s[j])
  {
    assert s[i..j + 1] == s[i..j] + [s[j]];
    WidthAppend(s[i..j], [s[j]]);
  }
}
