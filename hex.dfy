/** `ToHex::to_hex_string` for byte slices: every byte becomes two lowercase,
    zero-padded hexadecimal digits (`format!("{:02x}", b)`), concatenated. */
module Hex {
  import opened Bytes

  predicate IsLowerHexDigit(c: char) {
    '0' <= c <= '9' || 'a' <= c <= 'f'
  }

  /** The digit of a nibble, lowercase. */
  function NibbleChar(n: nat): (c: char)
    requires n < 16
    ensures IsLowerHexDigit(c)
  {
    "0123456789abcdef"[n]
  }

  /** The nibble a lowercase hex digit stands for. */
  function NibbleValue(c: char): (n: nat)
    requires IsLowerHexDigit(c)
    ensures n < 16
  {
    if c <= '9' then c as int - '0' as int else c as int - 'a' as int + 10
  }

  lemma NibbleRoundTrip(n: nat)
    requires n < 16
    ensures NibbleValue(NibbleChar(n)) == n
  {
  }

  function ToHexString(bs: seq<byte>): (s: string)
    ensures |s| == 2 * |bs|
  {
    if bs == [] then "" else [NibbleChar(bs[0] / 16), NibbleChar(bs[0] % 16)] + ToHexString(bs[1..])
  }

  /** Only lowercase hexadecimal digits are produced. */
  lemma {:induction false} ToHexStringDigits(bs: seq<byte>)
    ensures forall i :: 0 <= i < |ToHexString(bs)| ==> IsLowerHexDigit(ToHexString(bs)[i])
  {
    if bs != [] {
      ToHexStringDigits(bs[1..]);
      var s := ToHexString(bs);
      assert forall i :: 2 <= i < |s| ==> s[i] == ToHexString(bs[1..])[i - 2];
    }
  }

  /** Characters `2i` and `2i+1` are the high and the low nibble of byte `i`. */
  lemma {:induction false} ToHexStringAt(bs: seq<byte>, i: nat)
    requires i < |bs|
    ensures ToHexString(bs)[2 * i] == NibbleChar(bs[i] / 16)
    ensures ToHexString(bs)[2 * i + 1] == NibbleChar(bs[i] % 16)
  {
    if i > 0 {
      ToHexStringAt(bs[1..], i - 1);
    }
  }

  /** Zero padding: a byte below 16 still takes two digits, the first `0`. */
  lemma ByteBelowSixteen()
    ensures ToHexString([]) == ""
    ensures ToHexString([0x0a]) == "0a"
    ensures ToHexString([0x00, 0xff]) == "00ff"
  {
    assert ToHexString([0x0a]) == [NibbleChar(0), NibbleChar(10)] + ToHexString([]);
    assert [0x00, 0xff][1..] == [0xff];
    assert ToHexString([0xff]) == [NibbleChar(15), NibbleChar(15)] + ToHexString([]);
  }

  /** Hex of a concatenation is the concatenation of the hex strings. */
  lemma {:induction false} ToHexStringAppend(a: seq<byte>, b: seq<byte>)
    ensures ToHexString(a + b) == ToHexString(a) + ToHexString(b)
  {
    if a == [] {
      assert a + b == b;
    } else {
      assert (a + b)[0] == a[0] && (a + b)[1..] == a[1..] + b;
      ToHexStringAppend(a[1..], b);
    }
  }

  /** Cutting the bytes at `k` cuts the hex string at `2k`. */
  lemma ToHexStringSplit(bs: seq<byte>, k: nat)
    requires k <= |bs|
    ensures ToHexString(bs) == ToHexString(bs[..k]) + ToHexString(bs[k..])
  {
    var a, b := bs[..k], bs[k..];
    assert a + b == bs;
    ToHexStringAppend(a, b);
  }

  /** Reads a string of lowercase hex digits back as bytes, two digits per byte;
      `None` for an odd length or a character that is not a digit. */
  function FromHexString(s: string): (r: Option<seq<byte>>)
    ensures r.Some? ==> 2 * |r.value| == |s|
    decreases |s|
  {
    if s == [] then Some([])
    else if |s| < 2 || !IsLowerHexDigit(s[0]) || !IsLowerHexDigit(s[1]) then None
    else match FromHexString(s[2..])
      case None => None
      case Some(rest) => Some([NibbleValue(s[0]) * 16 + NibbleValue(s[1])] + rest)
  }

  /** The first two digits are read as one byte, the rest as the others. */
  lemma FromHexStringCons(hi: char, lo: char, s: string)
    requires IsLowerHexDigit(hi) && IsLowerHexDigit(lo)
    ensures FromHexString([hi, lo] + s) == match FromHexString(s)
      case None => None
      case Some(rest) => Some([NibbleValue(hi) * 16 + NibbleValue(lo)] + rest)
  {
    assert ([hi, lo] + s)[2..] == s;
  }

  /** A byte is read back from its two digits. */
  lemma ByteRoundTrip(b: byte)
    ensures NibbleValue(NibbleChar(b / 16)) * 16 + NibbleValue(NibbleChar(b % 16)) == b
  {
    NibbleRoundTrip(b / 16);
    NibbleRoundTrip(b % 16);
  }

  /** The hex encoding is decoded back to the original bytes. */
  lemma {:induction false} HexRoundTrip(bs: seq<byte>)
    ensures FromHexString(ToHexString(bs)) == Some(bs)
  {
    if bs != [] {
      HexRoundTrip(bs[1..]);
      FromHexStringCons(NibbleChar(bs[0] / 16), NibbleChar(bs[0] % 16), ToHexString(bs[1..]));
      ByteRoundTrip(bs[0]);
      assert [bs[0]] + bs[1..] == bs;
    }
  }

  /** Distinct byte strings have distinct hex strings. */
  lemma HexInjective(a: seq<byte>, b: seq<byte>)
    requires ToHexString(a) == ToHexString(b)
    ensures a == b
  {
    HexRoundTrip(a);
    HexRoundTrip(b);
  }
}
