/** The object database as the commands see it. Writing an object
    (`write_object`, `write_blob_object`) frames the payload as
    `"<kind> <length>\0" + payload`, hashes the framed bytes and stores them
    under the digest. SHA-1 and zlib are not modelled: the digest function is
    a parameter of the store, and the store remembers the kind and the payload
    of every object it was asked to write, in order; the framed bytes are
    `EncodeObject` of the two. */
module ObjectStore {
  import opened Bytes
  import Utf8

  datatype ObjKind = Blob | Tree | Commit

  /** The lowercase tag of a kind in the object header. */
  function KindName(k: ObjKind): (s: string)
    ensures Utf8.IsAscii(s) && ' ' !in s && '\0' !in s
  {
    match k
    case Blob => "blob"
    case Tree => "tree"
    case Commit => "commit"
  }

  /** A raw SHA-1 digest: twenty bytes. */
  type Digest = s: seq<byte> | |s| == 20 witness seq(20, _ => 0)

  /** The framed form that is hashed and stored. */
  function EncodeObject(kind: ObjKind, payload: seq<byte>): (r: seq<byte>)
    ensures |r| >= |payload| + 2
  {
    Utf8.Encode(KindName(kind) + " " + Decimal(|payload|) + "\0") + payload
  }

  /** The header ends at the first NUL byte, and the payload follows it unchanged. */
  lemma EncodeObjectLayout(kind: ObjKind, payload: seq<byte>)
    ensures EncodeObject(kind, payload)
         == Utf8.Encode(KindName(kind)) + [0x20] + Utf8.Encode(Decimal(|payload|)) + [0] + payload
    ensures 0 !in Utf8.Encode(KindName(kind)) + [0x20] + Utf8.Encode(Decimal(|payload|))
  {
    var k, d := KindName(kind), Decimal(|payload|);
    Utf8.EncodeAppend(k + " " + d, "\0");
    Utf8.EncodeAppend(k + " ", d);
    Utf8.EncodeAppend(k, " ");
    Utf8.EncodeSingle(' ');
    Utf8.EncodeSingle('\0');
    assert '\0' !in d;
    Utf8.EncodeNoNul(k);
    Utf8.EncodeNoNul(d);
  }

  /** Two payloads of one kind frame to the same bytes only if they are equal,
      so with a collision-free digest they get the same digest only if equal. */
  lemma EncodeObjectInjective(kind: ObjKind, p: seq<byte>, q: seq<byte>)
    requires EncodeObject(kind, p) == EncodeObject(kind, q)
    ensures p == q
  {
    EncodeObjectLayout(kind, p);
    EncodeObjectLayout(kind, q);
    var hp := Utf8.Encode(KindName(kind)) + [0x20] + Utf8.Encode(Decimal(|p|));
    var hq := Utf8.Encode(KindName(kind)) + [0x20] + Utf8.Encode(Decimal(|q|));
    FirstIndexOf(hp, 0, p);
    FirstIndexOf(hq, 0, q);
    assert hp + [0] + p == hq + [0] + q;
    assert |hp| == |hq|;
    assert p == (hp + [0] + p)[|hp| + 1..];
    assert q == (hq + [0] + q)[|hq| + 1..];
  }

  datatype StoredObject = StoredObject(kind: ObjKind, payload: seq<byte>)

  class Store {
    /** The digest of framed object bytes (SHA-1, not modelled). */
    const sha1: seq<byte> -> Digest
    /** Every object written so far, in the order of the writes. */
    var log: seq<StoredObject>

    constructor (sha1: seq<byte> -> Digest)
      ensures this.sha1 == sha1 && log == []
    {
      this.sha1 := sha1;
      log := [];
    }

    /** Store one object and return the raw digest of its framed form. */
    method WriteObject(kind: ObjKind, payload: seq<byte>) returns (rawHash: Digest)
      modifies this
      ensures log == old(log) + [StoredObject(kind, payload)]
      ensures rawHash == sha1(EncodeObject(kind, payload))
    {
      log := log + [StoredObject(kind, payload)];
      rawHash := sha1(EncodeObject(kind, payload));
    }
  }
}
