/** `cat-file -p <hash>` as `main.rs` implements it: locate the object file
    from the hash, read the decompressed stream up to the first NUL byte,
    split the header into a file type and a size, and copy exactly `size`
    bytes of a blob to standard output. */
module CatFile {
  import opened Bytes
  import Utf8
  import Hex
  import ObjectStore

  /** The file types `main.rs` recognises: only blobs. */
  datatype FileType = Blob

  /** Why `u64::from_str` refuses a token. */
  datatype IntErrorKind = Empty | InvalidDigit | PosOverflow

  const U64_MAX: nat := 0xFFFF_FFFF_FFFF_FFFF

  /** Every way `cat_file` stops without printing the whole blob. Panics and
      returned errors both end the command; they are told apart by name. */
  datatype CatFileError =
    | HashSlicePanic                 // `pretty_print[..2]` is out of bounds or splits a character
    | CannotOpen(path: string)       // `File::open` fails
    | EmptyStreamPanic               // `buf[..buf.len() - 1]` with an empty `buf`
    | HeaderNotUtf8                  // `std::str::from_utf8` refuses the header
    | HeaderNotTwoParts              // no space in the header
    | InvalidFileType(token: seq<byte>)
    | InvalidSize(token: seq<byte>, kind: IntErrorKind)
    | SizeMismatch(declared: nat, copied: nat)

  datatype Outcome = Success | Failure(error: CatFileError)

  /** What a run prints to standard output and how it ends. */
  datatype CatFileRun = CatFileRun(stdout: seq<byte>, outcome: Outcome)

  // ---------------------------------------------------------------------------
  // The object path

  /** `&s[..n]` and `&s[n..]` on a Rust `String`: defined when byte offset `n`
      falls on a character boundary of the UTF-8 encoding, a panic otherwise. */
  function SplitAtByte(s: string, n: nat): (r: Option<(string, string)>)
    ensures r.Some? ==> r.value.0 + r.value.1 == s && |Utf8.Encode(r.value.0)| == n
    decreases |s|
  {
    if n == 0 then Some(([], s))
    else if s == [] then None
    else
      var w := |Utf8.EncodeChar(s[0])|;
      if w > n then None
      else match SplitAtByte(s[1..], n - w)
        case None => None
        case Some(parts) =>
          assert [s[0]] + parts.0 == ([s[0]] + parts.0)[..1] + ([s[0]] + parts.0)[1..];
          assert Utf8.Encode([s[0]] + parts.0) == Utf8.EncodeChar(s[0]) + Utf8.Encode(parts.0);
          Some(([s[0]] + parts.0, parts.1))
  }

  /** The split fails only when no prefix of `s` has an encoding of `n` bytes. */
  lemma {:induction false} SplitAtByteNone(s: string, n: nat, k: nat)
    requires SplitAtByte(s, n).None? && k <= |s|
    ensures |Utf8.Encode(s[..k])| != n
    decreases |s|
  {
    if k > 0 {
      assert s[..k] == [s[0]] + s[1..][..k - 1];
      Utf8.EncodeAppend([s[0]], s[1..][..k - 1]);
      Utf8.EncodeSingle(s[0]);
      var w := |Utf8.EncodeChar(s[0])|;
      if w <= n {
        SplitAtByteNone(s[1..], n - w, k - 1);
      }
    }
  }

  /** When the first `k` characters take exactly `n` bytes, the split is there. */
  lemma {:induction false} SplitAtByteAt(s: string, n: nat, k: nat)
    requires k <= |s| && |Utf8.Encode(s[..k])| == n
    ensures SplitAtByte(s, n) == Some((s[..k], s[k..]))
    decreases |s|
  {
    if k == 0 {
      assert s[..k] == [] && s[k..] == s;
    } else {
      assert s[..k] == [s[0]] + s[1..][..k - 1];
      Utf8.EncodeAppend([s[0]], s[1..][..k - 1]);
      Utf8.EncodeSingle(s[0]);
      var w := |Utf8.EncodeChar(s[0])|;
      SplitAtByteAt(s[1..], n - w, k - 1);
      assert s[1..][k - 1..] == s[k..];
    }
  }

  /** `.git/objects/<first two bytes>/<the rest>`. */
  function ObjectPath(hash: string): Result<string, CatFileError> {
    match SplitAtByte(hash, 2)
    case None => Err(HashSlicePanic)
    case Some((folder, fileName)) => Ok(".git/objects/" + folder + "/" + fileName)
  }

  /** The path is the hash cut after its first two bytes... */
  lemma ObjectPathSplit(hash: string, k: nat)
    requires k <= |hash| && |Utf8.Encode(hash[..k])| == 2
    ensures ObjectPath(hash) == Ok(".git/objects/" + hash[..k] + "/" + hash[k..])
  {
    SplitAtByteAt(hash, 2, k);
  }

  lemma PrefixOfSplit(s: string, a: string, b: string)
    requires a + b == s
    ensures s[..|a|] == a
  {
  }

  /** ...and slicing panics exactly when no character boundary falls there. */
  lemma ObjectPathPanics(hash: string)
    requires forall k :: 0 <= k <= |hash| ==> |Utf8.Encode(hash[..k])| != 2
    ensures ObjectPath(hash) == Err(HashSlicePanic)
  {
    if SplitAtByte(hash, 2).Some? {
      PrefixOfSplit(hash, SplitAtByte(hash, 2).value.0, SplitAtByte(hash, 2).value.1);
      assert false;
    }
  }

  /** For the hex form of a digest, the directory is the hex of its first byte
      and the file name the hex of the remaining bytes. */
  lemma ObjectPathOfHex(digest: seq<byte>)
    requires |digest| >= 1
    ensures ObjectPath(Hex.ToHexString(digest))
         == Ok(".git/objects/" + Hex.ToHexString(digest[..1]) + "/" + Hex.ToHexString(digest[1..]))
  {
    var first, rest := Hex.ToHexString(digest[..1]), Hex.ToHexString(digest[1..]);
    Hex.ToHexStringSplit(digest, 1);
    Hex.ToHexStringDigits(digest[..1]);
    HexDigitsAscii(first);
    ObjectPathOfAscii(first, rest);
  }

  lemma HexDigitsAscii(s: string)
    requires forall i :: 0 <= i < |s| ==> Hex.IsLowerHexDigit(s[i])
    ensures Utf8.IsAscii(s)
  {
  }

  /** A hash whose first two characters are ASCII is cut after them. */
  lemma ObjectPathOfAscii(first: string, rest: string)
    requires |first| == 2 && Utf8.IsAscii(first)
    ensures ObjectPath(first + rest) == Ok(".git/objects/" + first + "/" + rest)
  {
    var h := first + rest;
    assert h[..2] == first && h[2..] == rest;
    Utf8.EncodeAscii(first);
    ObjectPathSplit(h, 2);
  }

  // ---------------------------------------------------------------------------
  // The header

  /** `read_until(0, ...)`: the bytes up to and including the first NUL, or
      all of them when there is none. */
  function UntilNul(s: seq<byte>): (r: seq<byte>)
    ensures r <= s
    ensures 0 in s ==> |r| > 0 && r[|r| - 1] == 0 && 0 !in r[..|r| - 1]
    ensures 0 !in s ==> r == s
  {
    match FirstIndex(s, 0)
    case None => s
    case Some(i) =>
      assert s[..i + 1][..i] == s[..i];
      s[..i + 1]
  }

  lemma UntilNulOf(header: seq<byte>, rest: seq<byte>)
    requires 0 !in header
    ensures UntilNul(header + [0] + rest) == header + [0]
  {
    FirstIndexOf(header, 0, rest);
    assert (header + [0] + rest)[..|header| + 1] == header + [0];
  }

  /** The bytes of the only file-type token, `blob`. */
  const BLOB_TOKEN: seq<byte> := ['b' as int, 'l' as int, 'o' as int, 'b' as int]

  lemma BlobTokenIsEncoded()
    ensures Utf8.Encode("blob") == BLOB_TOKEN
  {
    Utf8.EncodeAscii("blob");
  }

  /** `FileType::from_str`: `blob` is the one token accepted. */
  function FileTypeFromStr(token: seq<byte>): (r: Result<FileType, CatFileError>)
    ensures r.Ok? <==> token == BLOB_TOKEN
    ensures r.Err? ==> r.error == InvalidFileType(token)
  {
    if token == BLOB_TOKEN then Ok(Blob) else Err(InvalidFileType(token))
  }

  /** The kind tags of trees and commits are refused. */
  lemma OtherKindsRefused(kind: ObjectStore.ObjKind)
    requires kind != ObjectStore.Blob
    ensures FileTypeFromStr(Utf8.Encode(ObjectStore.KindName(kind))).Err?
  {
    var tag := ObjectStore.KindName(kind);
    Utf8.EncodeAscii(tag);
    assert Utf8.Encode(tag)[0] != 'b' as int || |Utf8.Encode(tag)| != 4;
  }

  predicate IsDigitByte(b: byte) {
    '0' as int <= b <= '9' as int
  }

  /** The digits of `u64::from_str` after the optional sign, accumulated from
      `acc`: a non-digit is `InvalidDigit`, a value above `u64::MAX` is
      `PosOverflow` (Rust's checked multiply and checked add, which fail
      together exactly when `acc * 10 + d` is too large). */
  function AccumulateDigits(ds: seq<byte>, acc: nat): (r: Result<nat, IntErrorKind>)
    requires acc <= U64_MAX
    ensures r != Err(Empty)
    ensures r.Ok? ==> acc <= r.value <= U64_MAX
    decreases |ds|
  {
    if ds == [] then Ok(acc)
    else if !IsDigitByte(ds[0]) then Err(InvalidDigit)
    else
      var next := acc * 10 + (ds[0] - '0' as int);
      if next > U64_MAX then Err(PosOverflow) else AccumulateDigits(ds[1..], next)
  }

  /** `str::parse::<u64>`: empty is `Empty`; a lone `+` or `-` is `InvalidDigit`;
      one leading `+` is allowed; `-` is not a digit of an unsigned number. */
  function ParseU64(s: seq<byte>): Result<nat, IntErrorKind> {
    if |s| == 0 then Err(Empty)
    else if (s[0] == '+' as int || s[0] == '-' as int) && |s| == 1 then Err(InvalidDigit)
    else if s[0] == '+' as int then AccumulateDigits(s[1..], 0)
    else AccumulateDigits(s, 0)
  }

  predicate AllDigits(ds: seq<byte>) {
    forall i :: 0 <= i < |ds| ==> IsDigitByte(ds[i])
  }

  /** The number denoted by decimal digit bytes, read from `acc` on, unbounded. */
  function DigitBytesValue(acc: nat, ds: seq<byte>): nat
    requires AllDigits(ds)
    decreases |ds|
  {
    if ds == [] then acc else DigitBytesValue(acc * 10 + (ds[0] - '0' as int), ds[1..])
  }

  lemma {:induction false} DigitBytesValueAtLeast(acc: nat, ds: seq<byte>)
    requires AllDigits(ds)
    ensures DigitBytesValue(acc, ds) >= acc
    decreases |ds|
  {
    if ds != [] {
      DigitBytesValueAtLeast(acc * 10 + (ds[0] - '0' as int), ds[1..]);
    }
  }

  /** Accumulating succeeds exactly on digits whose value fits in a `u64`, and
      then yields that value. */
  lemma {:induction false} AccumulateDigitsCorrect(ds: seq<byte>, acc: nat)
    requires acc <= U64_MAX
    ensures AccumulateDigits(ds, acc).Ok? <==> AllDigits(ds) && DigitBytesValue(acc, ds) <= U64_MAX
    ensures AccumulateDigits(ds, acc).Ok? ==> AccumulateDigits(ds, acc).value == DigitBytesValue(acc, ds)
    decreases |ds|
  {
    if ds != [] && IsDigitByte(ds[0]) {
      var next := acc * 10 + (ds[0] - '0' as int);
      assert AllDigits(ds) <==> AllDigits(ds[1..]);
      if next > U64_MAX {
        if AllDigits(ds) {
          DigitBytesValueAtLeast(next, ds[1..]);
        }
      } else {
        AccumulateDigitsCorrect(ds[1..], next);
      }
    }
  }

  /** The size token parses exactly when, after at most one leading `+`, it is
      a non-empty run of decimal digits whose value is at most `u64::MAX`. */
  lemma ParseU64Correct(s: seq<byte>)
    ensures var ds := if |s| > 0 && s[0] == '+' as int then s[1..] else s;
      && (ParseU64(s).Ok? <==> |ds| > 0 && AllDigits(ds) && DigitBytesValue(0, ds) <= U64_MAX)
      && (ParseU64(s).Ok? ==> ParseU64(s).value == DigitBytesValue(0, ds))
    ensures ParseU64(s) == Err(Empty) <==> |s| == 0
  {
    if |s| > 0 {
      var ds := if s[0] == '+' as int then s[1..] else s;
      AccumulateDigitsCorrect(ds, 0);
      if |s| == 1 && s[0] == '-' as int {
        assert !IsDigitByte(ds[0]);
      }
    }
  }

  lemma {:induction false} DecimalBytesValue(acc: nat, ds: string)
    requires forall i :: 0 <= i < |ds| ==> '0' <= ds[i] <= '9'
    ensures AllDigits(Utf8.Encode(ds))
    ensures DigitBytesValue(acc, Utf8.Encode(ds)) == DigitsValue(acc, ds)
    decreases |ds|
  {
    if ds != [] {
      var e := Utf8.Encode(ds);
      assert e == [ds[0] as int] + Utf8.Encode(ds[1..]);
      DecimalBytesValue(acc * 10 + (ds[0] as int - '0' as int), ds[1..]);
    }
  }

  /** `parse::<u64>` reads back `format!("{}", n)` for every `n` up to `u64::MAX`,
      and reports an overflow for every larger `n`. */
  lemma ParseU64OfDecimal(n: nat)
    ensures n <= U64_MAX ==> ParseU64(Utf8.Encode(Decimal(n))) == Ok(n)
    ensures n > U64_MAX ==> ParseU64(Utf8.Encode(Decimal(n))) == Err(PosOverflow)
  {
    var d := Decimal(n);
    var e := Utf8.Encode(d);
    DecimalBytesValue(0, d);
    DecimalValue(n);
    assert e[0] == d[0] as int;
    assert |e| > 0 && IsDigitByte(e[0]);
    AccumulateDigitsCorrect(e, 0);
    if n > U64_MAX {
      OverflowIsPosOverflow(e, 0);
    }
  }

  /** On digits only, the only possible error is an overflow. */
  lemma {:induction false} OverflowIsPosOverflow(ds: seq<byte>, acc: nat)
    requires acc <= U64_MAX && AllDigits(ds)
    ensures AccumulateDigits(ds, acc).Err? ==> AccumulateDigits(ds, acc).error == PosOverflow
    decreases |ds|
  {
    if ds != [] {
      var next := acc * 10 + (ds[0] - '0' as int);
      if next <= U64_MAX {
        OverflowIsPosOverflow(ds[1..], next);
      }
    }
  }

  /** The header chain of `cat_file`: `from_utf8`, `split_once(' ')`,
      `FileType::from_str` on the first part, then `parse::<u64>` on the second. */
  function ParseHeader(header: seq<byte>): (r: Result<(FileType, nat), CatFileError>)
    ensures r.Ok? ==> r.value.1 <= U64_MAX
  {
    if !Utf8.Valid(header) then Err(HeaderNotUtf8)
    else match SplitOnce(header, ' ' as int)
      case None => Err(HeaderNotTwoParts)
      case Some((kindToken, sizeToken)) =>
        match FileTypeFromStr(kindToken)
        case Err(e) => Err(e)
        case Ok(fileType) =>
          match ParseU64(sizeToken)
          case Err(kind) => Err(InvalidSize(sizeToken, kind))
          case Ok(size) =>
            ParseU64Correct(sizeToken);
            AccumulateDigitsCorrect(if sizeToken[0] == '+' as int then sizeToken[1..] else sizeToken, 0);
            Ok((fileType, size))
  }

  /** Everything `cat_file` learns from the decompressed stream before copying:
      the header is `read_until(0)` with its last byte dropped, and the rest of
      the stream is what follows the bytes read. */
  function DecodeObject(stream: seq<byte>): Result<(FileType, nat, seq<byte>), CatFileError>
  {
    var buf := UntilNul(stream);
    if |buf| == 0 then Err(EmptyStreamPanic)
    else match ParseHeader(buf[..|buf| - 1])
      case Err(e) => Err(e)
      case Ok((fileType, size)) => Ok((fileType, size, stream[|buf|..]))
  }

  /** Only an empty stream makes the header slice panic. */
  lemma EmptyStreamPanics(stream: seq<byte>)
    ensures DecodeObject(stream) == Err(EmptyStreamPanic) <==> stream == []
  {
  }

  /** A header without a space is refused as "not two parts". */
  lemma HeaderWithoutSpace(header: seq<byte>, rest: seq<byte>)
    requires 0 !in header && ' ' as int !in header && Utf8.Valid(header)
    ensures DecodeObject(header + [0] + rest) == Err(HeaderNotTwoParts)
  {
    UntilNulOf(header, rest);
    assert (header + [0])[..|header|] == header;
  }

  /** `from_utf8` decides first: a header it refuses is `HeaderNotUtf8`
      whatever it holds, and no other header is. */
  lemma HeaderNotUtf8Refused(header: seq<byte>, rest: seq<byte>)
    requires 0 !in header
    ensures ParseHeader(header) == Err(HeaderNotUtf8) <==> !Utf8.Valid(header)
    ensures !Utf8.Valid(header) ==> DecodeObject(header + [0] + rest) == Err(HeaderNotUtf8)
  {
    DecodeFramed(header, rest);
  }

  /** The stream `FF 00` has a one-byte header that is not UTF-8. */
  lemma NonUtf8Header()
    ensures DecodeObject([0xFF, 0]) == Err(HeaderNotUtf8)
  {
    Utf8.InvalidExamples();
    HeaderNotUtf8Refused([0xFF], []);
    assert [0xFF] + [0] + [] == [0xFF, 0];
  }

  /** The stream framing the encoder writes for a blob of `n` bytes. */
  function BlobHeader(n: nat): seq<byte> {
    Utf8.Encode("blob" + " " + Decimal(n) + "\0")
  }

  /** A header followed by a NUL is parsed on its own, and everything after
      the NUL is left in the stream. */
  lemma DecodeFramed(header: seq<byte>, p: seq<byte>)
    requires 0 !in header
    ensures ParseHeader(header).Err? ==> DecodeObject(header + [0] + p) == Err(ParseHeader(header).error)
    ensures ParseHeader(header).Ok? ==>
      DecodeObject(header + [0] + p) == Ok((ParseHeader(header).value.0, ParseHeader(header).value.1, p))
  {
    UntilNulOf(header, p);
    assert (header + [0])[..|header|] == header;
    assert (header + [0] + p)[|header| + 1..] == p;
  }

  /** The header `"<tag> <digits>"` goes to `FileType::from_str` and `parse::<u64>`. */
  lemma ParseHeaderOf(kind: seq<byte>, digits: seq<byte>)
    requires ' ' as int !in kind && Utf8.Valid(kind + [' ' as int] + digits)
    ensures FileTypeFromStr(kind).Err? ==> ParseHeader(kind + [' ' as int] + digits) == Err(FileTypeFromStr(kind).error)
    ensures FileTypeFromStr(kind).Ok? && ParseU64(digits).Err? ==>
      ParseHeader(kind + [' ' as int] + digits) == Err(InvalidSize(digits, ParseU64(digits).error))
    ensures FileTypeFromStr(kind).Ok? && ParseU64(digits).Ok? ==>
      ParseHeader(kind + [' ' as int] + digits) == Ok((Blob, ParseU64(digits).value))
  {
    SplitOnceOf(kind, ' ' as int, digits);
  }

  /** A stream framed as `"<tag> <digits>\0"` decodes as its tag and digits say. */
  lemma DecodeHeaderStream(kind: seq<byte>, digits: seq<byte>, p: seq<byte>)
    requires 0 !in kind + [' ' as int] + digits && ' ' as int !in kind
    requires Utf8.Valid(kind + [' ' as int] + digits)
    ensures FileTypeFromStr(kind).Err? ==>
      DecodeObject(kind + [' ' as int] + digits + [0] + p) == Err(FileTypeFromStr(kind).error)
    ensures FileTypeFromStr(kind).Ok? && ParseU64(digits).Err? ==>
      DecodeObject(kind + [' ' as int] + digits + [0] + p) == Err(InvalidSize(digits, ParseU64(digits).error))
    ensures FileTypeFromStr(kind).Ok? && ParseU64(digits).Ok? ==>
      DecodeObject(kind + [' ' as int] + digits + [0] + p) == Ok((Blob, ParseU64(digits).value, p))
  {
    ParseHeaderOf(kind, digits);
    DecodeFramed(kind + [' ' as int] + digits, p);
  }

  /** Round trip: `"blob " ++ decimal(n) ++ "\0" ++ p` decodes to a blob of declared
      size `n` with `p` left in the stream, for every `n` that fits in a `u64`. */
  lemma DecodeBlobHeader(n: nat, p: seq<byte>)
    requires n <= U64_MAX
    ensures DecodeObject(BlobHeader(n) + p) == Ok((Blob, n, p))
  {
    var kind, digits := Utf8.Encode("blob"), Utf8.Encode(Decimal(n));
    var header := kind + [' ' as int] + digits;
    HeaderBytes("blob", n);
    BlobTokenIsEncoded();
    ParseU64OfDecimal(n);
    DecodeHeaderStream(kind, digits, p);
    assert BlobHeader(n) + p == header + [0] + p;
  }

  /** A declared size above `u64::MAX` is refused with an overflow. */
  lemma DecodeBlobHeaderOverflow(n: nat, p: seq<byte>)
    requires n > U64_MAX
    ensures DecodeObject(BlobHeader(n) + p).Err?
    ensures DecodeObject(BlobHeader(n) + p).error.InvalidSize?
    ensures DecodeObject(BlobHeader(n) + p).error.kind == PosOverflow
  {
    var kind, digits := Utf8.Encode("blob"), Utf8.Encode(Decimal(n));
    var header := kind + [' ' as int] + digits;
    HeaderBytes("blob", n);
    BlobTokenIsEncoded();
    ParseU64OfDecimal(n);
    DecodeHeaderStream(kind, digits, p);
    assert BlobHeader(n) + p == header + [0] + p;
  }

  /** The bytes of `"<tag> <decimal n>\0"` for an ASCII tag without spaces or NULs. */
  lemma HeaderBytes(tag: string, n: nat)
    requires Utf8.IsAscii(tag) && ' ' !in tag && '\0' !in tag
    ensures Utf8.Encode(tag + " " + Decimal(n) + "\0")
         == Utf8.Encode(tag) + [' ' as int] + Utf8.Encode(Decimal(n)) + [0]
    ensures 0 !in Utf8.Encode(tag) + [' ' as int] + Utf8.Encode(Decimal(n))
    ensures ' ' as int !in Utf8.Encode(tag)
    ensures Utf8.Valid(Utf8.Encode(tag) + [' ' as int] + Utf8.Encode(Decimal(n)))
  {
    var d := Decimal(n);
    Utf8.EncodeAppend(tag + " " + d, "\0");
    Utf8.EncodeAppend(tag + " ", d);
    Utf8.EncodeAppend(tag, " ");
    Utf8.EncodeSingle(' ');
    Utf8.EncodeSingle('\0');
    Utf8.EncodeNoNul(tag);
    Utf8.EncodeNoNul(d);
    Utf8.EncodeAscii(tag);
    assert ' ' as int !in Utf8.Encode(tag) by {
      forall i | 0 <= i < |tag| ensures Utf8.Encode(tag)[i] != ' ' as int {
        assert tag[i] != ' ';
      }
    }
    assert Utf8.Encode(tag + " " + d) == Utf8.Encode(tag) + [' ' as int] + Utf8.Encode(d);
    Utf8.EncodeValid(tag + " " + d);
  }

  /** What the store writes for a tree or a commit is refused by `cat_file`,
      because its kind tag is not `blob`. */
  lemma DecodeOtherKinds(kind: ObjectStore.ObjKind, p: seq<byte>)
    requires kind != ObjectStore.Blob
    ensures DecodeObject(ObjectStore.EncodeObject(kind, p))
         == Err(InvalidFileType(Utf8.Encode(ObjectStore.KindName(kind))))
  {
    var tag := ObjectStore.KindName(kind);
    var kindBytes, digits := Utf8.Encode(tag), Utf8.Encode(Decimal(|p|));
    var header := kindBytes + [' ' as int] + digits;
    HeaderBytes(tag, |p|);
    OtherKindsRefused(kind);
    DecodeHeaderStream(kindBytes, digits, p);
    assert ObjectStore.EncodeObject(kind, p) == header + [0] + p;
  }

  /** The code reads `read_until`'s buffer minus its last byte whether or not a
      NUL was found: a stream with no NUL at all is parsed with its last byte
      dropped, and nothing is left to copy. */
  lemma MissingNulDropsLastByte(stream: seq<byte>)
    requires 0 !in stream && |stream| > 0
    ensures ParseHeader(stream[..|stream| - 1]).Err? ==>
      DecodeObject(stream) == Err(ParseHeader(stream[..|stream| - 1]).error)
    ensures ParseHeader(stream[..|stream| - 1]).Ok? ==>
      var (fileType, size) := ParseHeader(stream[..|stream| - 1]).value;
      DecodeObject(stream) == Ok((fileType, size, []))
  {
    assert UntilNul(stream) == stream;
    assert stream[|stream|..] == [];
  }

  /** For instance `blob 0X`, with no NUL, is accepted as an empty blob. */
  lemma MissingNulAccepted()
    ensures CatFileSpec(map[".git/objects/ab/cd" := BLOB_TOKEN + [' ' as int, '0' as int, 'X' as int]], "abcd")
         == CatFileRun([], Success)
  {
    MissingNulDecodes();
    AbcdPath();
  }

  lemma MissingNulDecodes()
    ensures DecodeObject(BLOB_TOKEN + [' ' as int, '0' as int, 'X' as int]) == Ok((Blob, 0, []))
  {
    var s := BLOB_TOKEN + [' ' as int, '0' as int, 'X' as int];
    var zero: seq<byte> := ['0' as int];
    var header := BLOB_TOKEN + [' ' as int] + zero;
    assert s[..|s| - 1] == header;
    assert Utf8.Valid(header) by { Utf8.AsciiBytesValid(header); }
    assert AccumulateDigits(zero[1..], 0) == Ok(0);
    assert ParseU64(zero) == Ok(0);
    ParseHeaderOf(BLOB_TOKEN, zero);
    MissingNulDropsLastByte(s);
  }

  lemma AbcdPath()
    ensures ObjectPath("abcd") == Ok(".git/objects/ab/cd")
  {
    var hash := "abcd";
    var ab := hash[..2];
    assert ab[0] == 'a' && ab[1] == 'b' && |ab| == 2;
    assert Utf8.IsAscii(ab);
    Utf8.EncodeAscii(ab);
    ObjectPathSplit(hash, 2);
    assert ".git/objects/" + ab + "/" + hash[2..] == ".git/objects/ab/cd";
  }

  // ---------------------------------------------------------------------------
  // The whole command

  function Min(a: nat, b: nat): nat {
    if a <= b then a else b
  }

  /** What `cat_file` prints and how it ends, for the decompressed contents of
      the object files (`files`, keyed by path) and the hash argument. */
  function CatFileSpec(files: map<string, seq<byte>>, prettyPrint: string): CatFileRun {
    match ObjectPath(prettyPrint)
    case Err(e) => CatFileRun([], Failure(e))
    case Ok(path) =>
      if path !in files then CatFileRun([], Failure(CannotOpen(path)))
      else match DecodeObject(files[path])
        case Err(e) => CatFileRun([], Failure(e))
        case Ok((Blob, size, rest)) =>
          var copied := rest[..Min(size, |rest|)];
          CatFileRun(copied, if |copied| == size then Success else Failure(SizeMismatch(size, |copied|)))
  }

  /** A blob prints the first `min(size, |rest|)` bytes after the header, and
      the command succeeds exactly when the stream held at least `size` bytes. */
  lemma CatFileBlobOutput(files: map<string, seq<byte>>, prettyPrint: string, path: string)
    requires ObjectPath(prettyPrint) == Ok(path) && path in files
    requires DecodeObject(files[path]).Ok?
    ensures var (_, size, rest) := DecodeObject(files[path]).value;
      var run := CatFileSpec(files, prettyPrint);
      && run.stdout == rest[..Min(size, |rest|)]
      && (run.outcome == Success <==> size <= |rest|)
      && (size > |rest| ==> run.outcome == Failure(SizeMismatch(size, |rest|)))
  {
  }

  /** Reading back a stored blob prints its payload exactly and succeeds;
      extra bytes after the payload are not printed. */
  lemma CatFileReadsStoredBlob(hash: string, path: string, payload: seq<byte>, extra: seq<byte>)
    requires ObjectPath(hash) == Ok(path)
    requires |payload| <= U64_MAX
    ensures CatFileSpec(map[path := ObjectStore.EncodeObject(ObjectStore.Blob, payload) + extra], hash)
         == CatFileRun(payload, Success)
  {
    var n := |payload|;
    assert ObjectStore.EncodeObject(ObjectStore.Blob, payload) + extra == BlobHeader(n) + (payload + extra);
    DecodeBlobHeader(n, payload + extra);
    assert (payload + extra)[..n] == payload;
  }

  /** A stream that is not there, or a hash too short to split, prints nothing. */
  lemma CatFileNothingPrintedBeforeHeader(files: map<string, seq<byte>>, prettyPrint: string)
    requires ObjectPath(prettyPrint).Err? || ObjectPath(prettyPrint).value !in files
    ensures CatFileSpec(files, prettyPrint).stdout == []
    ensures CatFileSpec(files, prettyPrint).outcome.Failure?
  {
  }

  // ---------------------------------------------------------------------------
  // The reader

  /** Where the reading loop of `ReadUntilNul` stops is where `UntilNul` ends. */
  lemma ReadUntilNulDone(rem: seq<byte>, k: nat, found: bool)
    requires k <= |rem|
    requires !found ==> k == |rem| && 0 !in rem[..k]
    requires found ==> k > 0 && rem[k - 1] == 0 && 0 !in rem[..k - 1]
    ensures UntilNul(rem) == rem[..k]
  {
    if found {
      UntilNulOf(rem[..k - 1], rem[k..]);
      assert rem == rem[..k - 1] + [0] + rem[k..];
    } else {
      assert rem[..k] == rem;
    }
  }

  /** The buffered reader over the decompressed object stream. */
  class ObjectReader {
    const data: seq<byte>
    var pos: nat

    ghost predicate Valid()
      reads this
    {
      pos <= |data|
    }

    /** The bytes not read yet. */
    function Remaining(): seq<byte>
      reads this
      requires Valid()
    {
      data[pos..]
    }

    constructor (data: seq<byte>)
      ensures Valid() && this.data == data && Remaining() == data
    {
      this.data := data;
      pos := 0;
    }

    /** `read_until(delim, buf)`: append bytes to `buf` up to and including the
        first `delim`, or up to the end of the stream. */
    method ReadUntilNul(buf: seq<byte>) returns (out: seq<byte>)
      requires Valid()
      modifies this
      ensures Valid()
      ensures out == buf + UntilNul(old(Remaining()))
      ensures Remaining() == old(Remaining())[|UntilNul(old(Remaining()))|..]
    {
      ghost var start := pos;
      out := buf;
      var done := false;
      while !done && pos < |data|
        invariant start <= pos <= |data|
        invariant out == buf + data[start..pos]
        invariant !done ==> 0 !in data[start..pos]
        invariant done ==> pos > start && data[pos - 1] == 0 && 0 !in data[start..pos - 1]
        decreases |data| - pos
      {
        var b := data[pos];
        assert data[start..pos + 1] == data[start..pos] + [b];
        out := out + [b];
        pos := pos + 1;
        done := b == 0;
      }
      ReadUntilNulDone(data[start..], pos - start, done);
    }

    /** `take(limit)` followed by `io::copy`: hand over at most `limit` bytes. */
    method CopyUpTo(limit: nat) returns (copied: seq<byte>)
      requires Valid()
      modifies this
      ensures Valid()
      ensures copied == old(Remaining())[..Min(limit, |old(Remaining())|)]
      ensures Remaining() == old(Remaining())[|copied|..]
    {
      ghost var start := pos;
      copied := [];
      while |copied| < limit && pos < |data|
        invariant start <= pos <= |data|
        invariant copied == data[start..pos]
        invariant |copied| <= limit
      {
        copied := copied + [data[pos]];
        pos := pos + 1;
      }
    }
  }

  /** `cat_file(pretty_print)`: standard output and outcome are those of the
      specification above. */
  method CatFile(files: map<string, seq<byte>>, prettyPrint: string) returns (stdout: seq<byte>, outcome: Outcome)
    ensures CatFileRun(stdout, outcome) == CatFileSpec(files, prettyPrint)
  {
    stdout := [];
    var path := ObjectPath(prettyPrint);
    if path.Err? {
      return [], Failure(path.error);
    }
    if path.value !in files {
      return [], Failure(CannotOpen(path.value));
    }
    var stream := files[path.value];
    var reader := new ObjectReader(stream);
    var buf := reader.ReadUntilNul([]);
    assert buf == UntilNul(stream);
    if |buf| == 0 {
      return [], Failure(EmptyStreamPanic);
    }
    var header := ParseHeader(buf[..|buf| - 1]);
    if header.Err? {
      return [], Failure(header.error);
    }
    var (fileType, size) := header.value;
    assert DecodeObject(stream) == Ok((fileType, size, reader.Remaining()));
    match fileType
    case Blob =>
      stdout := reader.CopyUpTo(size);
      if |stdout| != size {
        return stdout, Failure(SizeMismatch(size, |stdout|));
      }
    outcome := Success;
  }
}
