/** Shared vocabulary: bytes, result values, splitting at a separator,
    and the decimal notation of natural numbers. */
module Bytes {

  /** One octet (Rust `u8`). */
  type byte = b: int | 0 <= b < 256

  datatype Option<+T> = None | Some(value: T)

  datatype Result<+T, +E> = Ok(value: T) | Err(error: E)

  /** Index of the first occurrence of `x` in `s`, if any. */
  function FirstIndex<T(==)>(s: seq<T>, x: T): (r: Option<nat>)
    ensures r.Some? ==> r.value < |s| && s[r.value] == x && x !in s[..r.value]
    ensures r.None? <==> x !in s
  {
    if s == [] then None
    else if s[0] == x then Some(0)
    else match FirstIndex(s[1..], x)
      case None => None
      case Some(i) =>
        assert s[1..][..i] == s[1..i + 1];
        assert s[..i + 1] == [s[0]] + s[1..i + 1];
        Some(i + 1)
  }

  /** Split `s` at the first occurrence of `sep` (Rust `split_once`):
      the part before it and the part after it, the separator dropped. */
  function SplitOnce<T(==)>(s: seq<T>, sep: T): (r: Option<(seq<T>, seq<T>)>)
    ensures r.None? <==> sep !in s
    ensures r.Some? ==> r.value.0 + [sep] + r.value.1 == s && sep !in r.value.0
  {
    match FirstIndex(s, sep)
    case None => None
    case Some(i) =>
      assert s[..i] + [sep] + s[i + 1..] == s;
      Some((s[..i], s[i + 1..]))
  }

  /** The first occurrence of `x` is found right after any prefix free of `x`. */
  lemma FirstIndexOf<T>(a: seq<T>, x: T, b: seq<T>)
    requires x !in a
    ensures FirstIndex(a + [x] + b, x) == Some(|a|)
  {
    var s := a + [x] + b;
    assert s[|a|] == x;
    var i := FirstIndex(s, x).value;
    assert forall k :: 0 <= k < |a| ==> s[k] == a[k] != x;
    assert forall k :: 0 <= k < i ==> s[k] == s[..i][k] != x;
  }

  /** Splitting is determined by its parts: whatever comes before the first
      separator is the first part, everything after it the second. */
  lemma SplitOnceOf<T>(a: seq<T>, sep: T, b: seq<T>)
    requires sep !in a
    ensures SplitOnce(a + [sep] + b, sep) == Some((a, b))
  {
    var s := a + [sep] + b;
    FirstIndexOf(a, sep, b);
    assert s[..|a|] == a && s[|a| + 1..] == b;
  }

  /** Concatenation regrouped, stated once for any three sequences. */
  lemma ConcatAssoc<T>(x: seq<T>, y: seq<T>, z: seq<T>)
    ensures (x + y) + z == x + (y + z)
  {
  }

  /** `p` is a prefix of `s` (Rust `starts_with`). */
  predicate IsPrefix<T(==)>(p: seq<T>, s: seq<T>) {
    |p| <= |s| && s[..|p|] == p
  }

  /** The ASCII code of a decimal digit. */
  function DigitChar(d: nat): (c: char)
    requires d < 10
    ensures '0' <= c <= '9' && c as int - '0' as int == d
  {
    "0123456789"[d]
  }

  /** Decimal notation of `n` without leading zeros (Rust's `{}` for an integer). */
  function Decimal(n: nat): (s: string)
    ensures |s| >= 1
    ensures forall i :: 0 <= i < |s| ==> '0' <= s[i] <= '9'
    ensures |s| > 1 ==> s[0] != '0'
  {
    if n < 10 then [DigitChar(n)] else Decimal(n / 10) + [DigitChar(n % 10)]
  }

  /** The number a sequence of decimal digits denotes, read left to right
      starting from `acc` (no bound on its size). */
  function DigitsValue(acc: nat, ds: seq<char>): nat
    requires forall i :: 0 <= i < |ds| ==> '0' <= ds[i] <= '9'
    decreases ds
  {
    if ds == [] then acc else DigitsValue(acc * 10 + (ds[0] as int - '0' as int), ds[1..])
  }

  lemma {:induction false} DigitsValueSnoc(acc: nat, ds: seq<char>, c: char)
    requires forall i :: 0 <= i < |ds| ==> '0' <= ds[i] <= '9'
    requires '0' <= c <= '9'
    ensures DigitsValue(acc, ds + [c]) == DigitsValue(acc, ds) * 10 + (c as int - '0' as int)
    decreases ds
  {
    if ds != [] {
      assert (ds + [c])[1..] == ds[1..] + [c];
      DigitsValueSnoc(acc * 10 + (ds[0] as int - '0' as int), ds[1..], c);
    }
  }

  /** Reading back the decimal notation gives the number. */
  lemma {:induction false} DecimalValue(n: nat)
    ensures DigitsValue(0, Decimal(n)) == n
  {
    if n >= 10 {
      DecimalValue(n / 10);
      DigitsValueSnoc(0, Decimal(n / 10), DigitChar(n % 10));
    }
  }

  /** Distinct numbers have distinct decimal notations. */
  lemma DecimalInjective(m: nat, n: nat)
    requires Decimal(m) == Decimal(n)
    ensures m == n
  {
    DecimalValue(m);
    DecimalValue(n);
  }
}
