/** UTF-8, the encoding of Rust's `str` and `String`: the bytes of a string
    (`as_bytes`) and the check that bytes form a string (`std::str::from_utf8`). */
module Utf8 {
  import opened Bytes

  /** Continuation byte `10xxxxxx`. */
  predicate IsContinuation(b: byte) {
    0x80 <= b < 0xC0
  }

  /** The UTF-8 bytes of one Unicode scalar value. */
  function EncodeChar(c: char): (r: seq<byte>)
    ensures 1 <= |r| <= 4
    ensures (|r| == 1) <==> c as int < 0x80
    ensures |r| == 1 ==> r[0] == c as int
    ensures |r| > 1 ==> forall i :: 0 <= i < |r| ==> r[i] >= 0x80
  {
    var n := c as int;
    if n < 0x80 then [n]
    else if n < 0x800 then [0xC0 + n / 64, 0x80 + n % 64]
    else if n < 0x10000 then [0xE0 + n / 4096, 0x80 + (n / 64) % 64, 0x80 + n % 64]
    else [0xF0 + n / 262144, 0x80 + (n / 4096) % 64, 0x80 + (n / 64) % 64, 0x80 + n % 64]
  }

  /** The UTF-8 bytes of a string, character after character. */
  function Encode(s: string): (r: seq<byte>)
    ensures |r| >= |s|
  {
    if s == [] then [] else EncodeChar(s[0]) + Encode(s[1..])
  }

  /** Encoding distributes over concatenation. */
  lemma {:induction false} EncodeAppend(a: string, b: string)
    ensures Encode(a + b) == Encode(a) + Encode(b)
  {
    if a != [] {
      assert (a + b)[0] == a[0] && (a + b)[1..] == a[1..] + b;
      EncodeAppend(a[1..], b);
    } else {
      assert a + b == b;
    }
  }

  /** A one-character string is encoded by that character's bytes. */
  lemma EncodeSingle(c: char)
    ensures Encode([c]) == EncodeChar(c)
  {
    assert [c][1..] == [];
  }

  predicate IsAscii(s: string) {
    forall i :: 0 <= i < |s| ==> s[i] as int < 0x80
  }

  /** An ASCII string is encoded byte for byte by its character codes. */
  lemma {:induction false} EncodeAscii(s: string)
    requires IsAscii(s)
    ensures |Encode(s)| == |s|
    ensures forall i :: 0 <= i < |s| ==> Encode(s)[i] == s[i] as int
  {
    if s != [] {
      EncodeAscii(s[1..]);
    }
  }

  /** An ASCII character absent from a string is absent from its encoding as
      a byte, since every byte of a multi-byte sequence is at least 0x80. */
  lemma {:induction false} EncodeAvoids(s: string, c: char)
    requires c as int < 0x80 && c !in s
    ensures c as int !in Encode(s)
  {
    if s != [] {
      assert s[0] != c;
      assert c !in s[1..];
      EncodeAvoids(s[1..], c);
    }
  }

  /** In particular a string without NUL encodes without a zero byte. */
  lemma EncodeNoNul(s: string)
    requires '\0' !in s
    ensures 0 !in Encode(s)
  {
    EncodeAvoids(s, '\0');
  }

  /** The byte length of the well-formed sequence that starts `bs` (the table
      of well-formed byte sequences of the Unicode standard, section 3.9), or
      0 when none does. Overlong forms, surrogates and values above U+10FFFF
      are not well formed. */
  function LeadingLength(bs: seq<byte>): (k: nat)
    ensures k <= |bs| && k <= 4
  {
    if |bs| == 0 then 0
    else
      var b0 := bs[0];
      if b0 < 0x80 then 1
      else if 0xC2 <= b0 <= 0xDF then
        if |bs| >= 2 && IsContinuation(bs[1]) then 2 else 0
      else if 0xE0 <= b0 <= 0xEF then
        var lo := if b0 == 0xE0 then 0xA0 else 0x80;
        var hi := if b0 == 0xED then 0x9F else 0xBF;
        if |bs| >= 3 && lo <= bs[1] <= hi && IsContinuation(bs[2]) then 3 else 0
      else if 0xF0 <= b0 <= 0xF4 then
        var lo := if b0 == 0xF0 then 0x90 else 0x80;
        var hi := if b0 == 0xF4 then 0x8F else 0xBF;
        if |bs| >= 4 && lo <= bs[1] <= hi && IsContinuation(bs[2]) && IsContinuation(bs[3]) then 4 else 0
      else 0
  }

  /** `std::str::from_utf8` accepts `bs`. */
  predicate Valid(bs: seq<byte>)
    decreases |bs|
  {
    |bs| == 0 || (LeadingLength(bs) > 0 && Valid(bs[LeadingLength(bs)..]))
  }

  /** Bytes below 0x80 are always well formed. */
  lemma {:induction false} AsciiBytesValid(bs: seq<byte>)
    requires forall i :: 0 <= i < |bs| ==> bs[i] < 0x80
    ensures Valid(bs)
    decreases |bs|
  {
    if |bs| > 0 {
      assert LeadingLength(bs) == 1;
      AsciiBytesValid(bs[1..]);
    }
  }

  /** The encoding of one character is recognised as exactly one well-formed
      sequence, whatever follows it. */
  lemma EncodeCharLeading(c: char, rest: seq<byte>)
    ensures LeadingLength(EncodeChar(c) + rest) == |EncodeChar(c)|
  {
    var n := c as int;
    if n < 0x80 {
      assert (EncodeChar(c) + rest)[0] == n;
    } else if n < 0x800 {
      LeadingTwo(c, rest);
    } else if n < 0x10000 {
      LeadingThree(c, rest);
    } else {
      LeadingFour(c, rest);
    }
  }

  lemma LeadingTwo(c: char, rest: seq<byte>)
    requires 0x80 <= c as int < 0x800
    ensures LeadingLength(EncodeChar(c) + rest) == 2
  {
    var n := c as int;
    var bs := EncodeChar(c) + rest;
    assert bs[0] == 0xC0 + n / 64 && bs[1] == 0x80 + n % 64;
  }

  lemma LeadingThree(c: char, rest: seq<byte>)
    requires 0x800 <= c as int < 0x10000
    ensures LeadingLength(EncodeChar(c) + rest) == 3
  {
    var n := c as int;
    var bs := EncodeChar(c) + rest;
    assert bs[0] == 0xE0 + n / 4096;
    assert bs[1] == 0x80 + (n / 64) % 64 && bs[2] == 0x80 + n % 64;
    assert n / 4096 == 0 ==> (n / 64) % 64 >= 0x20;
    assert n / 4096 == 0xD ==> n < 0xD800 && (n / 64) % 64 < 0x20;
  }

  lemma LeadingFour(c: char, rest: seq<byte>)
    requires 0x10000 <= c as int
    ensures LeadingLength(EncodeChar(c) + rest) == 4
  {
    var n := c as int;
    var bs := EncodeChar(c) + rest;
    assert bs[0] == 0xF0 + n / 262144 && n <= 0x10FFFF;
    assert bs[1] == 0x80 + (n / 4096) % 64;
    assert bs[2] == 0x80 + (n / 64) % 64 && bs[3] == 0x80 + n % 64;
    assert n / 262144 == 0 ==> (n / 4096) % 64 >= 0x10;
    assert n / 262144 == 4 ==> (n / 4096) % 64 < 0x10;
  }

  /** Every encoded string passes `std::str::from_utf8`. */
  lemma {:induction false} EncodeValid(s: string)
    ensures Valid(Encode(s))
  {
    if s != [] {
      EncodeCharLeading(s[0], Encode(s[1..]));
      assert Encode(s)[|EncodeChar(s[0])|..] == Encode(s[1..]);
      EncodeValid(s[1..]);
    }
  }

  // ---------------------------------------------------------------------------
  // The converse: accepted bytes are the encoding of a string

  /** The character of a well-formed two-byte sequence. */
  function DecodeTwo(b0: byte, b1: byte): (c: char)
    requires 0xC2 <= b0 <= 0xDF && IsContinuation(b1)
    ensures EncodeChar(c) == [b0, b1]
  {
    var n := (b0 - 0xC0) * 64 + (b1 - 0x80);
    assert n / 64 == b0 - 0xC0 && n % 64 == b1 - 0x80;
    n as char
  }

  /** The character of a well-formed three-byte sequence; the bounds on the
      second byte exclude overlong forms and surrogates. */
  function DecodeThree(b0: byte, b1: byte, b2: byte): (c: char)
    requires 0xE0 <= b0 <= 0xEF && IsContinuation(b1) && IsContinuation(b2)
    requires b0 == 0xE0 ==> b1 >= 0xA0
    requires b0 == 0xED ==> b1 <= 0x9F
    ensures EncodeChar(c) == [b0, b1, b2]
  {
    var m := (b0 - 0xE0) * 64 + (b1 - 0x80);
    var n := m * 64 + (b2 - 0x80);
    assert n / 64 == m && n % 64 == b2 - 0x80;
    assert m / 64 == b0 - 0xE0 && m % 64 == b1 - 0x80;
    assert n / 4096 == m / 64;
    n as char
  }

  /** The character of a well-formed four-byte sequence; the bounds on the
      second byte exclude overlong forms and values above U+10FFFF. */
  function DecodeFour(b0: byte, b1: byte, b2: byte, b3: byte): (c: char)
    requires 0xF0 <= b0 <= 0xF4 && IsContinuation(b1) && IsContinuation(b2) && IsContinuation(b3)
    requires b0 == 0xF0 ==> b1 >= 0x90
    requires b0 == 0xF4 ==> b1 <= 0x8F
    ensures EncodeChar(c) == [b0, b1, b2, b3]
  {
    var l := (b0 - 0xF0) * 64 + (b1 - 0x80);
    var m := l * 64 + (b2 - 0x80);
    var n := m * 64 + (b3 - 0x80);
    assert n / 64 == m && n % 64 == b3 - 0x80;
    assert m / 64 == l && m % 64 == b2 - 0x80;
    assert l / 64 == b0 - 0xF0 && l % 64 == b1 - 0x80;
    assert n / 4096 == l && n / 262144 == l / 64;
    n as char
  }

  /** The character whose encoding is the well-formed sequence at the front
      of `bs`. */
  function DecodeChar(bs: seq<byte>): (c: char)
    requires LeadingLength(bs) > 0
    ensures EncodeChar(c) == bs[..LeadingLength(bs)]
  {
    var k := LeadingLength(bs);
    if k == 1 then
      assert EncodeChar(bs[0] as char) == [bs[0]];
      bs[0] as char
    else if k == 2 then DecodeTwo(bs[0], bs[1])
    else if k == 3 then DecodeThree(bs[0], bs[1], bs[2])
    else DecodeFour(bs[0], bs[1], bs[2], bs[3])
  }

  /** The string `std::str::from_utf8` makes of bytes it accepts: its
      encoding is exactly those bytes. */
  function Decode(bs: seq<byte>): (s: string)
    requires Valid(bs)
    ensures Encode(s) == bs
    decreases |bs|
  {
    if |bs| == 0 then ""
    else
      var k := LeadingLength(bs);
      var c, rest := DecodeChar(bs), Decode(bs[k..]);
      EncodeCons(bs, k, c, rest);
      [c] + rest
  }

  lemma EncodeCons(bs: seq<byte>, k: nat, c: char, s: string)
    requires k <= |bs| && EncodeChar(c) == bs[..k] && Encode(s) == bs[k..]
    ensures Encode([c] + s) == bs
  {
    assert ([c] + s)[0] == c && ([c] + s)[1..] == s;
    assert bs == bs[..k] + bs[k..];
  }

  /** The bytes accepted are exactly the encodings of strings. */
  lemma ValidIffEncoded(bs: seq<byte>)
    ensures Valid(bs) <==> exists s :: Encode(s) == bs
  {
    if Valid(bs) {
      assert Encode(Decode(bs)) == bs;
    }
    forall s | Encode(s) == bs
      ensures Valid(bs)
    {
      EncodeValid(s);
    }
  }

  /** The scalar value spelled by the bytes of one character. */
  function ValueOf(r: seq<byte>): int
    requires 1 <= |r| <= 4
  {
    var b := seq(|r|, i requires 0 <= i < |r| => r[i] as int);
    if |b| == 1 then b[0]
    else if |b| == 2 then (b[0] - 0xC0) * 64 + (b[1] - 0x80)
    else if |b| == 3 then ((b[0] - 0xE0) * 64 + (b[1] - 0x80)) * 64 + (b[2] - 0x80)
    else (((b[0] - 0xF0) * 64 + (b[1] - 0x80)) * 64 + (b[2] - 0x80)) * 64 + (b[3] - 0x80)
  }

  /** The bytes of a character spell its scalar value. */
  lemma EncodeCharValue(c: char)
    ensures ValueOf(EncodeChar(c)) == c as int
  {
    var n := c as int;
    var r := EncodeChar(c);
    if n < 0x80 {
    } else if n < 0x800 {
      assert r[0] == 0xC0 + n / 64 && r[1] == 0x80 + n % 64;
    } else if n < 0x10000 {
      ValueThree(n, r);
    } else {
      ValueFour(n, r);
    }
  }

  lemma ValueThree(n: int, r: seq<byte>)
    requires 0 <= n && |r| == 3
    requires r[0] == 0xE0 + n / 4096 && r[1] == 0x80 + (n / 64) % 64 && r[2] == 0x80 + n % 64
    ensures ValueOf(r) == n
  {
    var m := n / 64;
    assert n / 4096 == m / 64;
    assert (r[0] as int - 0xE0) * 64 + (r[1] as int - 0x80) == m;
  }

  lemma ValueFour(n: int, r: seq<byte>)
    requires 0 <= n && |r| == 4
    requires r[0] == 0xF0 + n / 262144 && r[1] == 0x80 + (n / 4096) % 64
    requires r[2] == 0x80 + (n / 64) % 64 && r[3] == 0x80 + n % 64
    ensures ValueOf(r) == n
  {
    var m := n / 64;
    var l := m / 64;
    assert n / 4096 == l && n / 262144 == l / 64;
    assert (r[0] as int - 0xF0) * 64 + (r[1] as int - 0x80) == l;
    assert l * 64 + (r[2] as int - 0x80) == m;
  }

  /** Two characters with the same bytes are the same character. */
  lemma EncodeCharInjective(c: char, d: char)
    requires EncodeChar(c) == EncodeChar(d)
    ensures c == d
  {
    EncodeCharValue(c);
    EncodeCharValue(d);
  }

  /** Two strings with the same bytes are the same string. */
  lemma {:induction false} EncodeInjective(a: string, b: string)
    requires Encode(a) == Encode(b)
    ensures a == b
  {
    if a != [] && b != [] {
      var ea, eb := EncodeChar(a[0]), EncodeChar(b[0]);
      EncodeCharLeading(a[0], Encode(a[1..]));
      EncodeCharLeading(b[0], Encode(b[1..]));
      assert |ea| == |eb|;
      assert ea == Encode(a)[..|ea|] && eb == Encode(b)[..|eb|];
      EncodeCharInjective(a[0], b[0]);
      assert Encode(a[1..]) == Encode(a)[|ea|..] == Encode(b)[|eb|..] == Encode(b[1..]);
      EncodeInjective(a[1..], b[1..]);
      assert a == [a[0]] + a[1..] && b == [b[0]] + b[1..];
    }
  }

  /** Bytes `std::str::from_utf8` never lets through: 0xC0 and 0xC1 (they
      only start overlong forms) and 0xF5 to 0xFF. */
  lemma {:induction false} ValidAvoidsBytes(bs: seq<byte>)
    requires Valid(bs)
    ensures forall i :: 0 <= i < |bs| ==> bs[i] != 0xC0 && bs[i] != 0xC1 && bs[i] < 0xF5
    decreases |bs|
  {
    if |bs| > 0 {
      var k := LeadingLength(bs);
      ValidAvoidsBytes(bs[k..]);
      forall i | 0 <= i < |bs|
        ensures bs[i] != 0xC0 && bs[i] != 0xC1 && bs[i] < 0xF5
      {
        if i >= k {
          assert bs[i] == bs[k..][i - k];
        }
      }
    }
  }

  /** A stray continuation byte, an overlong NUL, an encoded surrogate and a
      lead byte without its continuation are all refused. */
  lemma InvalidExamples()
    ensures !Valid([0xFF]) && !Valid([0x80]) && !Valid([0xC0, 0x80])
    ensures !Valid([0xED, 0xA0, 0x80]) && !Valid([0xE2, 0x82])
  {
    assert LeadingLength([0xFF]) == 0 && LeadingLength([0x80]) == 0;
    assert LeadingLength([0xC0, 0x80]) == 0;
    assert LeadingLength([0xED, 0xA0, 0x80]) == 0 && LeadingLength([0xE2, 0x82]) == 0;
  }
}
