/** `write-tree`: the working directory becomes a tree object, every
    directory below it a tree object of its own and every file a blob.
    A directory's entries are collected in listing order, sorted with the
    program's own name comparator (which is not git's rule and not a total
    order), serialised back to back and stored as one tree object. */
module WriteTree {
  import opened Bytes
  import Utf8
  import Hex
  import opened ObjectStore

  // ---------------------------------------------------------------------------
  // Entries and modes

  /** One record of a tree: its mode text, its name and the raw digest of
      the object it names. */
  datatype TreeObject = TreeObject(mode: string, name: string, sha1: seq<byte>)

  /** The mode of a non-directory entry from `is_symlink` and the
      `st_mode` permission bits: a symbolic link, an executable file (the
      owner's execute bit, octal 100, is set) or a plain file. */
  function GetMode(isSymlink: bool, mode: bv32): (m: string)
    ensures isSymlink ==> m == "120000"
    ensures !isSymlink && (mode >> 6) & 1 == 1 ==> m == "100755"
    ensures !isSymlink && (mode >> 6) & 1 == 0 ==> m == "100644"
  {
    if isSymlink then "120000"
    else if mode & 0x40 != 0 then "100755"
    else "100644"
  }

  /** Only the owner's execute bit decides between the two file modes: the
      group's and the others' execute bits, the type bits and the rest of
      the permission bits play no part. */
  lemma OnlyOwnerExecuteCounts(isSymlink: bool, mode: bv32)
    ensures GetMode(isSymlink, mode) == GetMode(isSymlink, mode & 0x40)
    ensures GetMode(false, 0x81ED) == "100755"  // 0o100755
    ensures GetMode(false, 0x81A4) == "100644"  // 0o100644
    ensures GetMode(false, 0x81B5) == "100644"  // 0o100665: group and others may execute
    ensures GetMode(false, 0x81C0) == "100755"  // 0o100700
    ensures GetMode(true, 0xA1FF) == "120000"   // 0o120777
  {
    assert (mode & 0x40) & 0x40 == mode & 0x40;
  }

  /** Every mode this program writes is one of four ASCII digit strings. */
  predicate IsModeText(m: string) {
    m == "40000" || m == "100644" || m == "100755" || m == "120000"
  }

  lemma ModeTextHasNoSpace(m: string)
    requires IsModeText(m)
    ensures Utf8.IsAscii(m) && ' ' !in m && '\0' !in m
  {
  }

  // ---------------------------------------------------------------------------
  // The name comparator

  datatype Ordering = Less | Equal | Greater

  /** `str::contains`: `b` occurs in `a` as a contiguous substring. */
  predicate Contains(a: string, b: string)
    decreases |a|
  {
    IsPrefix(b, a) || (a != [] && Contains(a[1..], b))
  }

  /** `Ord` for `str`: lexicographic by character, a proper prefix first.
      On UTF-8 this agrees with the byte order Rust uses. */
  function LexCmp(a: string, b: string): Ordering
    decreases |a|
  {
    if a == [] && b == [] then Equal
    else if a == [] then Less
    else if b == [] then Greater
    else if a[0] < b[0] then Less
    else if a[0] > b[0] then Greater
    else LexCmp(a[1..], b[1..])
  }

  /** The closure given to `sort_unstable_by`. */
  function NameCmp(a: string, b: string): Ordering {
    if Contains(a, b) then Less
    else if Contains(b, a) then Greater
    else LexCmp(a, b)
  }

  /** Every string contains itself. */
  lemma ContainsSelf(a: string)
    ensures Contains(a, a)
  {
    assert a[..|a|] == a;
  }

  /** A contained string is no longer than the string containing it, and of
      equal length only when the two are equal. */
  lemma {:induction false} ContainsLength(a: string, b: string)
    requires Contains(a, b)
    ensures |b| <= |a|
    ensures |b| == |a| ==> a == b
    decreases |a|
  {
    if !IsPrefix(b, a) {
      ContainsLength(a[1..], b);
    } else {
      assert a[..|a|] == a;
    }
  }

  /** Containment both ways means equality. */
  lemma ContainsAntisymmetric(a: string, b: string)
    requires Contains(a, b) && Contains(b, a)
    ensures a == b
  {
    ContainsLength(a, b);
    ContainsLength(b, a);
  }

  lemma {:induction false} LexCmpEqual(a: string, b: string)
    ensures LexCmp(a, b) == Equal <==> a == b
    decreases |a|
  {
    if a != [] && b != [] && a[0] == b[0] {
      LexCmpEqual(a[1..], b[1..]);
      assert a == [a[0]] + a[1..] && b == [b[0]] + b[1..];
    }
  }

  lemma {:induction false} LexCmpFlip(a: string, b: string)
    ensures LexCmp(a, b) == Less <==> LexCmp(b, a) == Greater
    decreases |a|
  {
    if a != [] && b != [] && a[0] == b[0] {
      LexCmpFlip(a[1..], b[1..]);
    }
  }

  /** A name that strictly contains another sorts before it, and the other
      sorts after it. */
  lemma ContainingNameFirst(a: string, b: string)
    requires a != b && Contains(a, b)
    ensures NameCmp(a, b) == Less
    ensures NameCmp(b, a) == Greater
  {
    if Contains(b, a) {
      ContainsAntisymmetric(a, b);
    }
  }

  /** Names where neither contains the other compare lexicographically, so
      the result is never `Equal`. */
  lemma UnrelatedNamesLexicographic(a: string, b: string)
    requires !Contains(a, b) && !Contains(b, a)
    ensures NameCmp(a, b) == LexCmp(a, b)
    ensures NameCmp(a, b) != Equal
  {
    if LexCmp(a, b) == Equal {
      LexCmpEqual(a, b);
      ContainsSelf(a);
    }
  }

  /** For distinct names the comparator is antisymmetric. */
  lemma NameCmpAntisymmetric(a: string, b: string)
    requires a != b
    ensures NameCmp(a, b) == Less <==> NameCmp(b, a) == Greater
    ensures NameCmp(a, b) != Equal
  {
    if Contains(a, b) {
      ContainingNameFirst(a, b);
    } else if Contains(b, a) {
      ContainingNameFirst(b, a);
    } else {
      UnrelatedNamesLexicographic(a, b);
      LexCmpFlip(a, b);
    }
  }

  /** A name compared with itself is `Less`, never `Equal`. */
  lemma NameCmpSelf(a: string)
    ensures NameCmp(a, a) == Less
  {
    ContainsSelf(a);
  }

  /** Unlike git, a name sorts before its own proper prefixes. */
  lemma ExtensionBeforePrefix(a: string, b: string)
    requires |a| < |b| && b[..|a|] == a
    ensures LexCmp(a, b) == Less && NameCmp(b, a) == Less && NameCmp(a, b) == Greater
  {
    assert IsPrefix(a, b);
    ContainingNameFirst(b, a);
    LexPrefixFirst(a, b);
  }

  lemma {:induction false} LexPrefixFirst(a: string, b: string)
    requires |a| < |b| && b[..|a|] == a
    ensures LexCmp(a, b) == Less
    decreases |a|
  {
    if a != [] {
      assert a[0] == b[0];
      assert b[1..][..|a| - 1] == a[1..];
      LexPrefixFirst(a[1..], b[1..]);
    }
  }

  /** The comparator is not transitive: "b" before "ca", "ca" before "a",
      and "a" before "b". */
  lemma NameCmpNotTransitive()
    ensures NameCmp("b", "ca") == Less
    ensures NameCmp("ca", "a") == Less
    ensures NameCmp("a", "b") == Less
  {
    assert "ca"[1..] == "a";
    assert IsPrefix("a", "a");
  }

  // ---------------------------------------------------------------------------
  // Sorting

  /** Insert `x` into `s` the way one step of insertion sort does: scan from
      the back past every element that `x` compares `Less` with. */
  function Insert(x: TreeObject, s: seq<TreeObject>): seq<TreeObject>
    decreases |s|
  {
    if s == [] || NameCmp(x.name, s[|s| - 1].name) != Less then s + [x]
    else Insert(x, s[..|s| - 1]) + [s[|s| - 1]]
  }

  /** Insertion sort of the collected entries, with the name comparator. */
  function SortEntries(s: seq<TreeObject>): seq<TreeObject>
    decreases |s|
  {
    if s == [] then [] else Insert(s[|s| - 1], SortEntries(s[..|s| - 1]))
  }

  lemma {:induction false} InsertPermutation(x: TreeObject, s: seq<TreeObject>)
    ensures multiset(Insert(x, s)) == multiset(s) + multiset{x}
    decreases |s|
  {
    if s != [] && NameCmp(x.name, s[|s| - 1].name) == Less {
      assert s == s[..|s| - 1] + [s[|s| - 1]];
      InsertPermutation(x, s[..|s| - 1]);
    }
  }

  /** Sorting is a permutation of its input. */
  lemma {:induction false} SortPermutation(s: seq<TreeObject>)
    ensures multiset(SortEntries(s)) == multiset(s)
    decreases |s|
  {
    if s != [] {
      assert s == s[..|s| - 1] + [s[|s| - 1]];
      SortPermutation(s[..|s| - 1]);
      InsertPermutation(s[|s| - 1], SortEntries(s[..|s| - 1]));
    }
  }

  /** Sorting loses, duplicates and alters no entry. */
  lemma SortIsPermutation(s: seq<TreeObject>)
    ensures |SortEntries(s)| == |s|
    ensures forall e :: e in s <==> e in SortEntries(s)
  {
    var r := SortEntries(s);
    SortPermutation(s);
    assert |multiset(r)| == |multiset(s)|;
    forall e
      ensures e in s <==> e in r
    {
      assert e in s <==> e in multiset(s);
      assert e in r <==> e in multiset(r);
    }
  }

  /** Where `Insert` places `x`: after every element it does not compare
      `Less` with at the back, before the run of those it does. */
  lemma {:induction false} InsertAt(x: TreeObject, s: seq<TreeObject>, j: nat)
    requires j <= |s|
    requires j == 0 || NameCmp(x.name, s[j - 1].name) != Less
    requires forall k :: j <= k < |s| ==> NameCmp(x.name, s[k].name) == Less
    ensures Insert(x, s) == s[..j] + [x] + s[j..]
    decreases |s|
  {
    if j == |s| {
      assert s[..j] == s && s[j..] == [];
    } else {
      var init := s[..|s| - 1];
      InsertAt(x, init, j);
      assert init[..j] == s[..j];
      assert init[j..] + [s[|s| - 1]] == s[j..];
    }
  }

  lemma {:induction false} InsertLength(x: TreeObject, s: seq<TreeObject>)
    ensures |Insert(x, s)| == |s| + 1
    decreases |s|
  {
    if s != [] && NameCmp(x.name, s[|s| - 1].name) == Less {
      InsertLength(x, s[..|s| - 1]);
    }
  }

  lemma {:induction false} SortLength(s: seq<TreeObject>)
    ensures |SortEntries(s)| == |s|
    decreases |s|
  {
    if s != [] {
      SortLength(s[..|s| - 1]);
      InsertLength(s[|s| - 1], SortEntries(s[..|s| - 1]));
    }
  }

  /** Sorting one more element inserts it into the sorted prefix. */
  lemma SortStep(input: seq<TreeObject>, i: nat)
    requires i < |input|
    ensures SortEntries(input[..i + 1]) == Insert(input[i], SortEntries(input[..i]))
  {
    assert input[..i + 1][..i] == input[..i];
  }

  /** One step of the in-place sort: move `a[i]` back into the sorted
      prefix `a[..i]`, leaving the rest of the array alone. */
  method InsertStep(a: array<TreeObject>, i: nat)
    requires i < a.Length
    modifies a
    ensures a[..] == Insert(old(a[i]), old(a[..i])) + old(a[i + 1..])
  {
    ghost var sorted := a[..i];
    ghost var after := a[i + 1..];
    var key := a[i];
    var j := i;
    assert a[..] == sorted[..j] + [a[j]] + sorted[j..] + after;
    while j > 0 && NameCmp(key.name, a[j - 1].name) == Less
      invariant 0 <= j <= i
      invariant a[..] == sorted[..j] + [a[j]] + sorted[j..] + after
      invariant forall k :: j <= k < i ==> NameCmp(key.name, sorted[k].name) == Less
    {
      ShiftOne(a[..], sorted, after, j);
      a[j] := a[j - 1];
      j := j - 1;
    }
    ghost var cur := a[..];
    a[j] := key;
    assert a[..] == cur[j := key];
    Place(cur, sorted, after, j, key);
    InsertAt(key, sorted, j);
  }

  /** Copying the value below the gap into it moves the gap down by one. */
  lemma ShiftOne(cur: seq<TreeObject>, sorted: seq<TreeObject>, after: seq<TreeObject>, j: nat)
    requires 0 < j <= |sorted| && |cur| == |sorted| + 1 + |after|
    requires cur == sorted[..j] + [cur[j]] + sorted[j..] + after
    ensures cur[j - 1] == sorted[j - 1]
    ensures cur[j := cur[j - 1]] == sorted[..j - 1] + [sorted[j - 1]] + sorted[j - 1..] + after
  {
    assert sorted[..j] == sorted[..j - 1] + [sorted[j - 1]];
    assert sorted[j - 1..] == [sorted[j - 1]] + sorted[j..];
  }

  /** Writing the key into the gap. */
  lemma Place(cur: seq<TreeObject>, sorted: seq<TreeObject>, after: seq<TreeObject>, j: nat, key: TreeObject)
    requires j <= |sorted| && |cur| == |sorted| + 1 + |after|
    requires cur == sorted[..j] + [cur[j]] + sorted[j..] + after
    ensures cur[j := key] == sorted[..j] + [key] + sorted[j..] + after
  {
  }

  /** Insertion sort in place on the array `tree_content`. */
  method SortInPlace(a: array<TreeObject>)
    modifies a
    ensures a[..] == SortEntries(old(a[..]))
  {
    ghost var input := a[..];
    var i := 0;
    assert input[..0] == [] && input[0..] == input;
    while i < a.Length
      invariant 0 <= i <= a.Length && |input| == a.Length
      invariant a[..] == SortEntries(input[..i]) + input[i..]
    {
      ghost var before := a[..];
      SortedPrefixParts(input, i, before);
      InsertStep(a, i);
      assert a[..] == Insert(before[i], before[..i]) + before[i + 1..];
      SortedPrefixNext(input, i, a[..]);
      i := i + 1;
    }
    SortedWhole(input, a[..]);
  }

  lemma SortedWhole(input: seq<TreeObject>, cur: seq<TreeObject>)
    requires cur == SortEntries(input[..|input|]) + input[|input|..]
    ensures cur == SortEntries(input)
  {
    assert input[..|input|] == input && input[|input|..] == [];
  }

  /** Before a step of the sort: the sorted prefix, the next element, the rest. */
  lemma SortedPrefixParts(input: seq<TreeObject>, i: nat, cur: seq<TreeObject>)
    requires i < |input| && cur == SortEntries(input[..i]) + input[i..]
    ensures |cur| == |input|
    ensures cur[..i] == SortEntries(input[..i]) && cur[i] == input[i] && cur[i + 1..] == input[i + 1..]
  {
    SortLength(input[..i]);
  }

  /** After a step of the sort: the sorted prefix is one longer. */
  lemma SortedPrefixNext(input: seq<TreeObject>, i: nat, cur: seq<TreeObject>)
    requires i < |input| && cur == Insert(input[i], SortEntries(input[..i])) + input[i + 1..]
    ensures cur == SortEntries(input[..i + 1]) + input[i + 1..]
  {
    SortStep(input, i);
  }

  /** "a", "ab", "b" (listed in that order) are stored as "ab", "a", "b":
      the longer name goes before the name it contains. */
  lemma SortedExample(d: seq<byte>)
    ensures var a, ab, b := TreeObject("100644", "a", d), TreeObject("100644", "ab", d), TreeObject("100644", "b", d);
      SortEntries([a, ab, b]) == [ab, a, b]
  {
    var a, ab, b := TreeObject("100644", "a", d), TreeObject("100644", "ab", d), TreeObject("100644", "b", d);
    assert IsPrefix("a", "ab");
    assert NameCmp("ab", "a") == Less;
    assert "b"[1..] == [] && "a"[1..] == [];
    assert !Contains("b", "a") && !Contains("a", "b");
    assert NameCmp("b", "a") == Greater;
    assert [a, ab, b][..2] == [a, ab] && [a, ab][..1] == [a];
    assert SortEntries([a]) == [a];
    assert SortEntries([a, ab]) == Insert(ab, [a]) == [ab, a];
    assert SortEntries([a, ab, b]) == Insert(b, [ab, a]) == [ab, a, b];
  }

  // ---------------------------------------------------------------------------
  // Serialisation

  /** One record: `"<mode> <name>\0"` as UTF-8, then the raw digest. */
  function EntryBytes(e: TreeObject): seq<byte> {
    Utf8.Encode(e.mode + " " + e.name + "\0") + e.sha1
  }

  lemma EntryBytesLayout(e: TreeObject)
    ensures EntryBytes(e) == Utf8.Encode(e.mode) + [0x20] + Utf8.Encode(e.name) + [0] + e.sha1
  {
    Utf8.EncodeAppend(e.mode + " " + e.name, "\0");
    Utf8.EncodeAppend(e.mode + " ", e.name);
    Utf8.EncodeAppend(e.mode, " ");
    Utf8.EncodeSingle(' ');
    Utf8.EncodeSingle('\0');
  }

  /** The records of `es` back to back, in order, with no separator. */
  function Serialise(es: seq<TreeObject>): seq<byte>
    decreases |es|
  {
    if es == [] then [] else Serialise(es[..|es| - 1]) + EntryBytes(es[|es| - 1])
  }

  /** One more record is appended at the end. */
  lemma SerialiseSnoc(es: seq<TreeObject>, e: TreeObject)
    ensures Serialise(es + [e]) == Serialise(es) + EntryBytes(e)
  {
    assert (es + [e])[..|es|] == es;
  }

  /** One more record is put at the front. */
  lemma {:induction false} SerialiseCons(e: TreeObject, es: seq<TreeObject>)
    ensures Serialise([e] + es) == EntryBytes(e) + Serialise(es)
    decreases |es|
  {
    if es == [] {
      assert [e] + es == [] + [e];
      SerialiseSnoc([], e);
    } else {
      var init, last := es[..|es| - 1], es[|es| - 1];
      var front := [e] + init;
      assert es == init + [last];
      assert [e] + es == front + [last];
      SerialiseCons(e, init);
      SerialiseSnoc(front, last);
      SerialiseSnoc(init, last);
      ConcatAssoc(EntryBytes(e), Serialise(init), EntryBytes(last));
    }
  }

  /** The length a record takes. */
  function EntrySize(e: TreeObject): nat {
    |Utf8.Encode(e.mode)| + |Utf8.Encode(e.name)| + 2 + |e.sha1|
  }

  function TotalSize(es: seq<TreeObject>): nat
    decreases |es|
  {
    if es == [] then 0 else TotalSize(es[..|es| - 1]) + EntrySize(es[|es| - 1])
  }

  /** The payload is exactly as long as its records together. */
  lemma {:induction false} SerialiseLength(es: seq<TreeObject>)
    ensures |Serialise(es)| == TotalSize(es)
    decreases |es|
  {
    if es != [] {
      SerialiseLength(es[..|es| - 1]);
      EntryBytesLayout(es[|es| - 1]);
    }
  }

  /** A record read back from bytes: mode and name are still bytes. */
  datatype RawEntry = RawEntry(mode: seq<byte>, name: seq<byte>, sha1: seq<byte>)

  /** Reads records back: the mode up to the first space, the name up to the
      next NUL, then twenty digest bytes; `None` if the bytes do not split
      that way. */
  function ParseEntries(bs: seq<byte>): (r: Option<seq<RawEntry>>)
    decreases |bs|
  {
    if bs == [] then Some([])
    else match SplitOnce(bs, 0x20)
      case None => None
      case Some((mode, rest)) =>
        match SplitOnce(rest, 0)
        case None => None
        case Some((name, rest2)) =>
          if |rest2| < 20 then None
          else match ParseEntries(rest2[20..])
            case None => None
            case Some(es) => Some([RawEntry(mode, name, rest2[..20])] + es)
  }

  /** A record that reads back unambiguously. */
  predicate WellFormed(e: TreeObject) {
    ' ' !in e.mode && '\0' !in e.name && |e.sha1| == 20
  }

  /** The bytes of mode and name as they appear in the payload. */
  function RawOf(e: TreeObject): RawEntry {
    RawEntry(Utf8.Encode(e.mode), Utf8.Encode(e.name), e.sha1)
  }

  function Raw(es: seq<TreeObject>): seq<RawEntry>
    decreases |es|
  {
    if es == [] then [] else [RawOf(es[0])] + Raw(es[1..])
  }

  /** A mode free of spaces, a name free of NULs and a twenty-byte digest
      are read off the front of the bytes that follow them. */
  lemma ParseFront(mode: seq<byte>, name: seq<byte>, digest: seq<byte>, tail: seq<byte>, rest: seq<RawEntry>)
    requires 0x20 !in mode && 0 !in name && |digest| == 20
    requires ParseEntries(tail) == Some(rest)
    ensures ParseEntries(mode + [0x20] + (name + [0] + (digest + tail))) == Some([RawEntry(mode, name, digest)] + rest)
  {
    var r3 := digest + tail;
    var r2 := name + [0] + r3;
    SplitOnceOf(mode, 0x20, r2);
    SplitOnceOf(name, 0, r3);
    assert r3[..20] == digest && r3[20..] == tail;
  }

  lemma EntryBytesThen(e: TreeObject, tail: seq<byte>)
    ensures EntryBytes(e) + tail
         == Utf8.Encode(e.mode) + [0x20] + (Utf8.Encode(e.name) + [0] + (e.sha1 + tail))
  {
    EntryBytesLayout(e);
  }

  /** A well-formed record is read off the front of any bytes. */
  lemma ParseOne(e: TreeObject, tail: seq<byte>, rest: seq<RawEntry>)
    requires WellFormed(e) && ParseEntries(tail) == Some(rest)
    ensures ParseEntries(EntryBytes(e) + tail) == Some([RawOf(e)] + rest)
  {
    EntryBytesThen(e, tail);
    Utf8.EncodeAvoids(e.mode, ' ');
    Utf8.EncodeNoNul(e.name);
    ParseFront(Utf8.Encode(e.mode), Utf8.Encode(e.name), e.sha1, tail, rest);
  }

  /** Serialised records read back as the same records. */
  lemma {:induction false} ParseSerialise(es: seq<TreeObject>)
    requires forall i :: 0 <= i < |es| ==> WellFormed(es[i])
    ensures ParseEntries(Serialise(es)) == Some(Raw(es))
    decreases |es|
  {
    if es != [] {
      var e := es[0];
      assert es == [e] + es[1..];
      SerialiseCons(e, es[1..]);
      ParseSerialise(es[1..]);
      ParseOne(e, Serialise(es[1..]), Raw(es[1..]));
    }
  }

  /** The tree payload of a directory's collected entries. */
  function TreePayload(content: seq<TreeObject>): seq<byte> {
    Serialise(SortEntries(content))
  }

  lemma SortForward(a: TreeObject, b: TreeObject, ca: TreeObject)
    requires a.name == "a" && b.name == "b" && ca.name == "ca"
    ensures SortEntries([a, b, ca]) == [a, b, ca]
  {
    assert "b"[1..] == [] && "a"[1..] == [] && "ca"[1..] == "a";
    assert !Contains("b", "a") && !Contains("a", "b");
    assert NameCmp("b", "a") == Greater;
    assert !Contains("a", "ca") && Contains("ca", "a");
    assert NameCmp("ca", "b") == Greater;
    assert [a, b, ca][..2] == [a, b] && [a, b][..1] == [a];
    assert SortEntries([a]) == [a];
    assert SortEntries([a, b]) == Insert(b, [a]) == [a, b];
    assert SortEntries([a, b, ca]) == Insert(ca, [a, b]);
  }

  lemma SortBackward(a: TreeObject, b: TreeObject, ca: TreeObject)
    requires a.name == "a" && b.name == "b" && ca.name == "ca"
    ensures SortEntries([ca, b, a]) == [b, ca, a]
  {
    assert "b"[1..] == [] && "a"[1..] == [] && "ca"[1..] == "a";
    assert !IsPrefix("b", "ca") && !IsPrefix("ca", "b") && !IsPrefix("ca", "a");
    assert !Contains("a", "b") && !Contains("", "b");
    assert !Contains("b", "ca") && !Contains("ca", "b");
    assert NameCmp("b", "ca") == Less;
    assert !Contains("a", "b") && !Contains("b", "a");
    assert NameCmp("a", "b") == Less;
    assert !Contains("a", "ca") && Contains("ca", "a");
    assert NameCmp("a", "ca") == Greater;
    assert [ca, b, a][..2] == [ca, b] && [ca, b][..1] == [ca];
    assert SortEntries([ca]) == [ca];
    assert SortEntries([ca, b]) == Insert(b, [ca]) == [b, ca];
    assert Insert(a, [b]) == [a, b];
    assert SortEntries([ca, b, a]) == Insert(a, [b, ca]);
  }

  /** The order in which the directory listing yields entries changes the
      stored tree: records named "a", "b", "ca" and the same three in
      reverse order sort differently and give different payloads. */
  lemma ListingOrderMatters(a: TreeObject, b: TreeObject, ca: TreeObject)
    requires a.name == "a" && b.name == "b" && ca.name == "ca"
    requires WellFormed(a) && WellFormed(b) && WellFormed(ca)
    ensures multiset([a, b, ca]) == multiset([ca, b, a])
    ensures SortEntries([a, b, ca]) == [a, b, ca]
    ensures SortEntries([ca, b, a]) == [b, ca, a]
    ensures TreePayload([a, b, ca]) != TreePayload([ca, b, a])
  {
    SortForward(a, b, ca);
    SortBackward(a, b, ca);
    SameEntries(a, b, ca);
    PayloadsOfThree(a, b, ca);
  }

  lemma PayloadsOfThree(a: TreeObject, b: TreeObject, ca: TreeObject)
    requires a.name == "a" && b.name == "b"
    requires WellFormed(a) && WellFormed(b) && WellFormed(ca)
    ensures Serialise([a, b, ca]) != Serialise([b, ca, a])
  {
    var x, y := [a, b, ca], [b, ca, a];
    assert x[0].name != y[0].name by { assert "a"[0] != "b"[0]; }
    assert forall i :: 0 <= i < |x| ==> WellFormed(x[i]);
    assert forall i :: 0 <= i < |y| ==> WellFormed(y[i]);
    PayloadsDiffer(x, y);
  }

  /** Three values listed forwards and backwards are the same multiset. */
  lemma SameEntries<T>(x: T, y: T, z: T)
    ensures multiset([x, y, z]) == multiset([z, y, x])
  {
  }

  /** Well-formed records whose first names differ serialise differently. */
  lemma PayloadsDiffer(x: seq<TreeObject>, y: seq<TreeObject>)
    requires forall i :: 0 <= i < |x| ==> WellFormed(x[i])
    requires forall i :: 0 <= i < |y| ==> WellFormed(y[i])
    requires |x| > 0 && |y| > 0 && x[0].name != y[0].name
    ensures Serialise(x) != Serialise(y)
  {
    ParseSerialise(x);
    ParseSerialise(y);
    FirstRawDiffers(x, y);
  }

  lemma FirstRawDiffers(x: seq<TreeObject>, y: seq<TreeObject>)
    requires |x| > 0 && |y| > 0 && x[0].name != y[0].name
    ensures Raw(x) != Raw(y)
  {
    assert Raw(x)[0] == RawOf(x[0]) && Raw(y)[0] == RawOf(y[0]);
    if RawOf(x[0]).name == RawOf(y[0]).name {
      Utf8.EncodeInjective(x[0].name, y[0].name);
    }
  }

  /** Payloads of well-formed records determine the records: equal payloads
      come from equal record lists. */
  lemma SerialiseInjective(x: seq<TreeObject>, y: seq<TreeObject>)
    requires forall i :: 0 <= i < |x| ==> WellFormed(x[i])
    requires forall i :: 0 <= i < |y| ==> WellFormed(y[i])
    requires Serialise(x) == Serialise(y)
    ensures x == y
  {
    ParseSerialise(x);
    ParseSerialise(y);
    RawInjective(x, y);
  }

  lemma {:induction false} RawInjective(x: seq<TreeObject>, y: seq<TreeObject>)
    requires Raw(x) == Raw(y)
    ensures x == y
    decreases |x|
  {
    if x != [] && y != [] {
      assert Raw(x)[0] == RawOf(x[0]) && Raw(y)[0] == RawOf(y[0]);
      Utf8.EncodeInjective(x[0].mode, y[0].mode);
      Utf8.EncodeInjective(x[0].name, y[0].name);
      assert Raw(x)[1..] == Raw(x[1..]) && Raw(y)[1..] == Raw(y[1..]);
      RawInjective(x[1..], y[1..]);
      assert x == [x[0]] + x[1..] && y == [y[0]] + y[1..];
    }
  }

  // ---------------------------------------------------------------------------
  // The directory walk

  /** What the directory listing and the metadata calls report for one
      entry. `is_dir` follows symbolic links, so a link to a directory is a
      `Directory`; `content` is what `write_blob_object` reads through the
      path, `isSymlink` and `mode` what `get_mode` inspects. */
  datatype DirEntry =
    | Directory(name: string, listing: Dir)
    | NonDirectory(name: string, content: seq<byte>, isSymlink: bool, mode: bv32)

  /** A directory's entries in the order the listing yields them. */
  datatype Dir = Dir(entries: seq<DirEntry>)

  /** The directory names skipped in place of a `.gitignore`. */
  predicate IsIgnored(name: string) {
    name == ".git" || name == "target" || name == ".idea"
  }

  /** Whether an entry contributes a record: only directories are ever
      skipped. */
  predicate Kept(e: DirEntry) {
    !(e.Directory? && IsIgnored(e.name))
  }

  /** The record pushed for entry `i`: a subdirectory as mode "40000" with
      its tree's digest, anything else with its mode and its blob's digest. */
  function Record(sha1: seq<byte> -> Digest, dir: Dir, i: nat): (t: TreeObject)
    requires i < |dir.entries| && Kept(dir.entries[i])
    decreases dir, 0, 0
  {
    match dir.entries[i]
    case Directory(name, sub) => TreeObject("40000", name, TreeHash(sha1, sub))
    case NonDirectory(name, content, isSymlink, mode) =>
      TreeObject(GetMode(isSymlink, mode), name, sha1(EncodeObject(Blob, content)))
  }

  /** The collector after the first `k` entries of the listing. */
  function Collected(sha1: seq<byte> -> Digest, dir: Dir, k: nat): seq<TreeObject>
    requires k <= |dir.entries|
    decreases dir, 1, k
  {
    if k == 0 then []
    else
      var rest := if Kept(dir.entries[k - 1]) then [Record(sha1, dir, k - 1)] else [];
      Collected(sha1, dir, k - 1) + rest
  }

  /** The raw digest `write_tree_for_path` returns for `dir`. */
  function TreeHash(sha1: seq<byte> -> Digest, dir: Dir): Digest
    decreases dir, 2, 0
  {
    sha1(EncodeObject(Tree, TreePayload(Collected(sha1, dir, |dir.entries|))))
  }

  /** The objects written for entry `i`: nothing for an ignored directory,
      everything below a directory, the blob of anything else. */
  function EntryWrites(sha1: seq<byte> -> Digest, dir: Dir, i: nat): seq<StoredObject>
    requires i < |dir.entries|
    decreases dir, 0, 0
  {
    match dir.entries[i]
    case Directory(name, sub) => if IsIgnored(name) then [] else TreeWrites(sha1, sub)
    case NonDirectory(_, content, _, _) => [StoredObject(Blob, content)]
  }

  /** The objects written while walking the first `k` entries, in order. */
  function EntriesWrites(sha1: seq<byte> -> Digest, dir: Dir, k: nat): seq<StoredObject>
    requires k <= |dir.entries|
    decreases dir, 1, k
  {
    if k == 0 then [] else EntriesWrites(sha1, dir, k - 1) + EntryWrites(sha1, dir, k - 1)
  }

  /** Every object written for `dir`: those of its entries, then its tree. */
  function TreeWrites(sha1: seq<byte> -> Digest, dir: Dir): seq<StoredObject>
    decreases dir, 2, 0
  {
    EntriesWrites(sha1, dir, |dir.entries|) +
      [StoredObject(Tree, TreePayload(Collected(sha1, dir, |dir.entries|)))]
  }

  /** The collector holds one record per kept entry, in listing order, and
      nothing else: ignored directories are absent, every file is present. */
  lemma {:induction false} CollectedEntries(sha1: seq<byte> -> Digest, dir: Dir, k: nat)
    requires k <= |dir.entries|
    ensures forall i :: 0 <= i < k && Kept(dir.entries[i]) ==> Record(sha1, dir, i) in Collected(sha1, dir, k)
    ensures forall t :: t in Collected(sha1, dir, k) ==>
      exists i :: 0 <= i < k && Kept(dir.entries[i]) && t == Record(sha1, dir, i)
  {
    if k > 0 {
      CollectedEntries(sha1, dir, k - 1);
      var prev := Collected(sha1, dir, k - 1);
      var last := if Kept(dir.entries[k - 1]) then [Record(sha1, dir, k - 1)] else [];
      assert Collected(sha1, dir, k) == prev + last;
      forall i | 0 <= i < k && Kept(dir.entries[i])
        ensures Record(sha1, dir, i) in Collected(sha1, dir, k)
      {
        if i < k - 1 {
          assert Record(sha1, dir, i) in prev;
        } else {
          assert Record(sha1, dir, i) in last;
        }
      }
      forall t | t in Collected(sha1, dir, k)
        ensures exists i :: 0 <= i < k && Kept(dir.entries[i]) && t == Record(sha1, dir, i)
      {
        if t !in prev {
          assert t in last;
          assert Kept(dir.entries[k - 1]) && t == Record(sha1, dir, k - 1);
        }
      }
    }
  }

  /** Directories become "40000" records with their tree's digest; a file
      named like an ignored directory is still recorded. */
  lemma RecordKinds(sha1: seq<byte> -> Digest, dir: Dir, i: nat)
    requires i < |dir.entries|
    ensures dir.entries[i].NonDirectory? ==> Kept(dir.entries[i])
    ensures dir.entries[i].Directory? ==> (Kept(dir.entries[i]) <==> !IsIgnored(dir.entries[i].name))
    ensures Kept(dir.entries[i]) ==> Record(sha1, dir, i).name == dir.entries[i].name
    ensures dir.entries[i].Directory? && Kept(dir.entries[i]) ==>
      Record(sha1, dir, i) == TreeObject("40000", dir.entries[i].name, TreeHash(sha1, dir.entries[i].listing))
    ensures Kept(dir.entries[i]) ==> IsModeText(Record(sha1, dir, i).mode)
  {
  }

  /** Each record reads back unambiguously when its name has no NUL. */
  lemma RecordWellFormed(sha1: seq<byte> -> Digest, dir: Dir, i: nat)
    requires i < |dir.entries| && Kept(dir.entries[i]) && '\0' !in dir.entries[i].name
    ensures WellFormed(Record(sha1, dir, i))
  {
    ModeTextHasNoSpace(Record(sha1, dir, i).mode);
  }

  /** One more entry of the listing: its record, if kept, follows the
      earlier ones. */
  lemma CollectedNext(sha1: seq<byte> -> Digest, dir: Dir, k: nat)
    requires k < |dir.entries|
    ensures Collected(sha1, dir, k + 1)
         == Collected(sha1, dir, k) + (if Kept(dir.entries[k]) then [Record(sha1, dir, k)] else [])
  {
  }

  /** One more entry of the listing: its objects follow the earlier ones. */
  lemma EntriesWritesNext(sha1: seq<byte> -> Digest, dir: Dir, k: nat)
    requires k < |dir.entries|
    ensures EntriesWrites(sha1, dir, k + 1) == EntriesWrites(sha1, dir, k) + EntryWrites(sha1, dir, k)
  {
  }

  // ---------------------------------------------------------------------------
  // The operations

  /** `write_tree_obj`: sort the collected records, serialise them and store
      the payload as a tree. */
  method WriteTreeObj(store: Store, treeContent: seq<TreeObject>) returns (rawHash: Digest)
    modifies store
    ensures store.log == old(store.log) + [StoredObject(Tree, TreePayload(treeContent))]
    ensures rawHash == store.sha1(EncodeObject(Tree, TreePayload(treeContent)))
  {
    var a := new TreeObject[|treeContent|](i requires 0 <= i < |treeContent| => treeContent[i]);
    assert a[..] == treeContent;
    SortInPlace(a);
    var finalContent: seq<byte> := [];
    ghost var sorted := a[..];
    for k := 0 to a.Length
      invariant finalContent == Serialise(sorted[..k])
    {
      var c := a[k];
      assert sorted[..k + 1][..k] == sorted[..k] && sorted[k] == c;
      finalContent := finalContent + Utf8.Encode(c.mode + " " + c.name + "\0");
      finalContent := finalContent + c.sha1;
    }
    assert sorted[..a.Length] == sorted;
    rawHash := store.WriteObject(Tree, finalContent);
  }

  /** `write_tree_for_path`: walk the listing, write a blob per file and a
      tree per subdirectory (recursively), then the tree of `dir` itself. */
  method WriteTreeForPath(store: Store, dir: Dir) returns (rawHash: Digest)
    modifies store
    ensures rawHash == TreeHash(store.sha1, dir)
    ensures store.log == old(store.log) + TreeWrites(store.sha1, dir)
    decreases dir, 1
  {
    var collector: seq<TreeObject> := [];
    var k := 0;
    while k < |dir.entries|
      invariant k <= |dir.entries|
      invariant collector == Collected(store.sha1, dir, k)
      invariant store.log == old(store.log) + EntriesWrites(store.sha1, dir, k)
      decreases |dir.entries| - k
    {
      collector := CollectEntry(store, dir, k, collector);
      CollectedNext(store.sha1, dir, k);
      EntriesWritesNext(store.sha1, dir, k);
      ConcatAssoc(old(store.log), EntriesWrites(store.sha1, dir, k), EntryWrites(store.sha1, dir, k));
      k := k + 1;
    }
    ghost var walked := store.log;
    assert walked == old(store.log) + EntriesWrites(store.sha1, dir, |dir.entries|);
    rawHash := WriteTreeObj(store, collector);
    assert store.log == walked + [StoredObject(Tree, TreePayload(collector))];
  }

  /** The body of the walk for entry `k`: skip an ignored directory, write
      and record any other directory's tree, or write and record a blob. */
  method CollectEntry(store: Store, dir: Dir, k: nat, collector: seq<TreeObject>)
    returns (newCollector: seq<TreeObject>)
    requires k < |dir.entries|
    modifies store
    ensures newCollector == collector + (if Kept(dir.entries[k]) then [Record(store.sha1, dir, k)] else [])
    ensures store.log == old(store.log) + EntryWrites(store.sha1, dir, k)
    decreases dir, 0
  {
    newCollector := collector;
    match dir.entries[k] {
      case Directory(name, sub) =>
        if !IsIgnored(name) {
          var hash := WriteTreeForPath(store, sub);
          newCollector := collector + [TreeObject("40000", name, hash)];
        }
      case NonDirectory(name, content, isSymlink, mode) =>
        var hash := store.WriteObject(Blob, content);
        var m := GetMode(isSymlink, mode);
        newCollector := collector + [TreeObject(m, name, hash)];
    }
  }

  /** `write_tree`: the tree of the working directory, as the hex string
      that is printed. */
  method WriteTreeCmd(store: Store, root: Dir) returns (hexHash: string)
    modifies store
    ensures hexHash == Hex.ToHexString(TreeHash(store.sha1, root))
    ensures store.log == old(store.log) + TreeWrites(store.sha1, root)
  {
    var rawHash := WriteTreeForPath(store, root);
    hexHash := Hex.ToHexString(rawHash);
  }
}
