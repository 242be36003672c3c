# rs-git object commands in Dafny

This project models the byte and string logic of three commands of rs-git, a small git clone
written in Rust. It covers the parts of the commands that build or read git objects.

- **write-tree** walks a directory listing. It writes a blob for every file and a tree for every
  directory that is not ignored, sorts each directory's records with the program's own name
  comparator, and serialises them as `"<mode> <name>\0" ++ <20 digest bytes>`. The tree's raw
  digest is returned, and printed as hex at the top level.
- **cat-file -p** locates the object file from the hash. It reads the decompressed stream up to
  the first NUL and parses the header `"<type> <size>"`. For a blob it prints the first `size`
  bytes after the header, or all that remain when there are fewer, and fails when fewer than
  `size` remained.
- **commit-tree** refuses a hash that does not name a tree. Otherwise it assembles the commit
  text line by line and stores it as a commit object.
- **`ToHex`** writes each byte as two lowercase, zero-padded hex digits.

The model has seven modules:

| module | file | contents |
|---|---|---|
| `Bytes` | `bytes.dfy` | bytes, `Option`/`Result`, `split_once`, decimal notation |
| `Utf8` | `utf8.dfy` | `as_bytes` and `std::str::from_utf8` |
| `Hex` | `hex.dfy` | `to_hex_string` with its decoder |
| `ObjectStore` | `store.dfy` | the object framing, and a `Store` class that logs every object written |
| `CatFile` | `cat_file.dfy` | `cat_file` and its buffered reader |
| `WriteTree` | `write_tree.dfy` | modes, the comparator, the in-place sort, serialisation and the directory walk |
| `CommitTree` | `commit_tree.dfy` | the commit text, its reader and the command |

The object database is abstract. `Store` has a `sha1` function, which is a constant of the store,
and a `log` of the objects written so far, in order. The directory listing, the decompressed
object files, the result of looking up the tree for `commit-tree`, and the timestamp are all
inputs.

Four places where the code does something other than what one might expect:

- `cat_file` reads the header as the bytes `read_until(0)` returned, minus the last one. It does
  this even when the stream had no NUL, so `blob 0X` with no NUL is accepted as an empty blob
  (`CatFile.MissingNulAccepted`).
- The comparator returns `Less` whenever the first name contains the second. So `"ab"` sorts
  before `"a"`, and `a`, `ab`, `b` are stored as `ab`, `a`, `b` (`WriteTree.SortedExample`).
- The same comparator is not transitive (`WriteTree.NameCmpNotTransitive`). For a directory of
  up to 20 entries, the Rust standard library's `sort_unstable_by` is an insertion sort. It moves
  each next element left past the elements it compares `Less` with, which is `WriteTree.Insert`.
  For such a directory the stored tree therefore depends on the order the directory is listed
  in (`WriteTree.ListingOrderMatters`).
- The size check's message prints the declared size where it says "written", and the copied count
  where it says "defined". The model records both numbers by name (`SizeMismatch(declared,
  copied)`), not the message text.
- `commit-tree` does not check the tree hash or the parent for newlines. A tree hash
  `"a\nparent b"` without a parent gives the same commit text as the tree hash `"a"` with the
  parent `"b"` (`CommitTree.NewlineInHashInjectsParent`). So the commit text determines its
  fields only when they have no newline (`CommitTree.CommitTextInjective`).

## Model

| member | source | states |
|---|---|---|
| WriteTree.GetMode | src/commands/write_tree.rs:64-79 | a symlink gives "120000"; otherwise the owner's execute bit (octal 100, bit 6) gives "100755" when set and "100644" when clear |
| WriteTree.OnlyOwnerExecuteCounts | src/commands/write_tree.rs:73-77 | the mode depends on no bit but the owner's execute bit; 0o100755 is executable, 0o100665 is not, and a symlink is "120000" whatever its bits |
| WriteTree.ModeTextHasNoSpace | src/commands/write_tree.rs:52-57 | every mode written is ASCII with no space and no NUL |
| WriteTree.Contains | src/commands/write_tree.rs:92-94 | definition of `str::contains` on names: `b` occurs somewhere in `a`; its properties are in ContainsLength and ContainsAntisymmetric |
| WriteTree.LexCmp | src/commands/write_tree.rs:97 | definition of `str::cmp`: character by character, a proper prefix first; its properties are in LexCmpEqual, LexCmpFlip and LexPrefixFirst |
| WriteTree.NameCmp | src/commands/write_tree.rs:92-97 | definition of the sort closure; its properties are in ContainingNameFirst, UnrelatedNamesLexicographic, NameCmpAntisymmetric, NameCmpSelf, ExtensionBeforePrefix and NameCmpNotTransitive |
| WriteTree.ContainsLength | src/commands/write_tree.rs:92-94 | a contained name is no longer than the name containing it, and equal to it when the lengths are equal |
| WriteTree.ContainsAntisymmetric | src/commands/write_tree.rs:92-94 | two names that contain each other are equal |
| WriteTree.LexCmpEqual | src/commands/write_tree.rs:97 | `str::cmp` is `Equal` exactly on equal strings |
| WriteTree.LexCmpFlip | src/commands/write_tree.rs:97 | `str::cmp(a, b)` is `Less` exactly when `str::cmp(b, a)` is `Greater` |
| WriteTree.ContainingNameFirst | src/commands/write_tree.rs:92-93 | when `a` strictly contains `b`, `a` compares `Less` than `b` and `b` compares `Greater` than `a` |
| WriteTree.UnrelatedNamesLexicographic | src/commands/write_tree.rs:94-97 | when neither name contains the other, the comparator is lexicographic order and never `Equal` |
| WriteTree.NameCmpAntisymmetric | src/commands/write_tree.rs:92-97 | for distinct names, `Less` one way exactly when `Greater` the other way, and never `Equal` |
| WriteTree.NameCmpSelf | src/commands/write_tree.rs:92-93 | a name compared with itself gives `Less`, not `Equal` |
| WriteTree.ExtensionBeforePrefix | src/commands/write_tree.rs:92-97 | a name sorts before its own proper prefix, which is the reverse of lexicographic order |
| WriteTree.LexPrefixFirst | src/commands/write_tree.rs:97 | under plain `str::cmp` a proper prefix comes first |
| WriteTree.NameCmpNotTransitive | src/commands/write_tree.rs:92-97 | "b" < "ca", "ca" < "a" and "a" < "b", so the comparator is not transitive |
| WriteTree.Insert | src/commands/write_tree.rs:83-98 | definition of one insertion step: the record moves left past every record it compares `Less` with; its properties are in InsertAt, InsertLength and InsertPermutation |
| WriteTree.SortEntries | src/commands/write_tree.rs:83-98 | definition of the sort as successive insertions; its properties are in SortPermutation, SortIsPermutation, SortLength, SortStep, and SortInPlace is proved equal to it |
| WriteTree.InsertPermutation | src/commands/write_tree.rs:83-98 | one insertion step adds exactly the inserted record to the multiset |
| WriteTree.SortPermutation | src/commands/write_tree.rs:83-98 | the sorted records are a permutation of the collected records |
| WriteTree.SortIsPermutation | src/commands/write_tree.rs:83-98 | the sort keeps the length, and exactly the same records are present before and after |
| WriteTree.InsertAt | src/commands/write_tree.rs:83-98 | an insertion step puts the record after the last element it does not compare `Less` with |
| WriteTree.InsertLength | src/commands/write_tree.rs:83-98 | an insertion step adds one element |
| WriteTree.SortLength | src/commands/write_tree.rs:83-98 | sorting keeps the number of records |
| WriteTree.SortStep | src/commands/write_tree.rs:83-98 | sorting one more record inserts it into the already sorted prefix |
| WriteTree.InsertStep | src/commands/write_tree.rs:83 | the in-place step leaves the array as the insertion of `a[i]` into `a[..i]`, followed by the untouched rest |
| WriteTree.SortInPlace | src/commands/write_tree.rs:83-98 | sorting `tree_content` in place leaves the array equal to the sort of its old contents |
| WriteTree.SortedExample | src/commands/write_tree.rs:83-98 | the listing a, ab, b is sorted as ab, a, b |
| WriteTree.EntryBytes | src/commands/write_tree.rs:101-102 | definition of the bytes of one record; its layout is in EntryBytesLayout |
| WriteTree.Serialise | src/commands/write_tree.rs:99-103 | definition of the tree payload; its properties are in SerialiseSnoc, SerialiseCons, SerialiseLength, ParseSerialise and SerialiseInjective |
| WriteTree.TreePayload | src/commands/write_tree.rs:83-103 | definition of the payload of a directory: the serialisation of the sorted records; used by ListingOrderMatters and WriteTreeObj |
| WriteTree.EntryBytesLayout | src/commands/write_tree.rs:101-102 | a record is the mode bytes, one space, the name bytes, one NUL, then the raw digest |
| WriteTree.SerialiseSnoc | src/commands/write_tree.rs:100-103 | each loop iteration appends exactly that record's bytes |
| WriteTree.SerialiseCons | src/commands/write_tree.rs:100-103 | the first record's bytes are followed directly by the rest, with no separator |
| WriteTree.SerialiseLength | src/commands/write_tree.rs:99-103 | the payload length is the sum of mode bytes + name bytes + 2 + digest length over the records |
| WriteTree.ParseOne | src/commands/write_tree.rs:101-102 | a well-formed record is read back off the front of whatever bytes follow it |
| WriteTree.ParseSerialise | src/commands/write_tree.rs:99-103 | a payload of well-formed records reads back as exactly those records, in order |
| WriteTree.SortForward | src/commands/write_tree.rs:83-98 | records a, b, ca listed in that order stay a, b, ca |
| WriteTree.SortBackward | src/commands/write_tree.rs:83-98 | the same records listed as ca, b, a are sorted as b, ca, a |
| WriteTree.ListingOrderMatters | src/commands/write_tree.rs:83-103 | the same three records listed in two orders give two different tree payloads |
| WriteTree.PayloadsDiffer | src/commands/write_tree.rs:99-103 | well-formed records whose first names differ, whatever those names are, give different payloads |
| WriteTree.SerialiseInjective | src/commands/write_tree.rs:99-103 | equal payloads of well-formed records come from equal record lists: modes, names, digests and their order |
| WriteTree.Record | src/commands/write_tree.rs:46-58 | definition of the record pushed for a kept entry; its properties are in RecordKinds and RecordWellFormed |
| WriteTree.Collected | src/commands/write_tree.rs:36-59 | definition of the collector after `k` entries; its properties are in CollectedEntries and CollectedNext |
| WriteTree.EntryWrites | src/commands/write_tree.rs:51-55 | definition of the objects one entry writes: nothing for an ignored directory, the subtree's objects for a directory, one blob for a file |
| WriteTree.EntriesWrites | src/commands/write_tree.rs:39-59 | definition of the objects the first `k` entries write, in order; its step is in EntriesWritesNext |
| WriteTree.TreeHash | src/commands/write_tree.rs:32-62 | definition of the digest of a directory's tree; WriteTreeForPath is proved to return it |
| WriteTree.TreeWrites | src/commands/write_tree.rs:32-62 | definition of every object written below and for a directory, in walk order; WriteTreeForPath is proved to append it to the log |
| WriteTree.CollectedEntries | src/commands/write_tree.rs:36-59 | after `k` entries the collector holds a record for every kept entry, and nothing else |
| WriteTree.RecordKinds | src/commands/write_tree.rs:46-58 | a file is always kept, even one named ".git", "target" or ".idea"; a directory is kept unless it has one of those names, and its record is `40000` with its tree's digest; every record keeps the entry's name and has a valid mode text |
| WriteTree.RecordWellFormed | src/commands/write_tree.rs:52-57 | a record whose name has no NUL reads back unambiguously |
| WriteTree.CollectedNext | src/commands/write_tree.rs:39-59 | one more loop iteration adds that entry's record, if it is kept, after the earlier ones |
| WriteTree.EntriesWritesNext | src/commands/write_tree.rs:39-59 | one more loop iteration adds that entry's objects after the earlier ones |
| WriteTree.CollectEntry | src/commands/write_tree.rs:46-58 | the loop body skips an ignored directory, stores a directory's tree or a file's blob, and pushes the matching record |
| WriteTree.WriteTreeForPath | src/commands/write_tree.rs:32-62 | returns the directory's tree digest; the log gains every object below the directory in walk order, then the directory's own tree |
| WriteTree.WriteTreeObj | src/commands/write_tree.rs:81-106 | stores the serialisation of the sorted records as a tree and returns its digest |
| WriteTree.WriteTreeCmd | src/commands/write_tree.rs:13-17 | prints the hex of the working directory's tree digest, after writing all its objects |
| CatFile.SplitAtByte | src/main.rs:35-36 | slicing at byte offset `n` gives two parts that join back to the hash, the first taking exactly `n` bytes |
| CatFile.SplitAtByteAt | src/main.rs:35-36 | when the first `k` characters take exactly `n` bytes, the slices are `hash[..k]` and `hash[k..]` |
| CatFile.SplitAtByteNone | src/main.rs:35-36 | the slice panics only if no character boundary falls at byte `n` |
| CatFile.ObjectPath | src/main.rs:35-37 | definition of the object file path; its properties are in ObjectPathSplit, ObjectPathPanics and ObjectPathOfHex |
| CatFile.ObjectPathSplit | src/main.rs:35-37 | the path is `.git/objects/` + the first two bytes + `/` + the rest |
| CatFile.ObjectPathPanics | src/main.rs:35 | a hash with no character boundary at byte 2 panics |
| CatFile.ObjectPathOfHex | src/main.rs:35-37 | for a hex digest, the directory is the hex of the first byte and the file name the hex of the other bytes |
| CatFile.UntilNul | src/main.rs:45-47 | `read_until(0)` returns a prefix of the stream that ends at the first NUL, or the whole stream when there is no NUL |
| CatFile.ObjectReader.ReadUntilNul | src/main.rs:45-47 | the reading loop appends exactly `UntilNul` of the unread bytes, and consumes them |
| CatFile.ObjectReader.CopyUpTo | src/main.rs:62-66 | `take(size)` with `io::copy` hands over the first `min(size, remaining)` bytes, and consumes them |
| CatFile.FileTypeFromStr | src/main.rs:84-88 | the type token is accepted exactly when it is `blob`; any other token is `InvalidFileType` |
| CatFile.OtherKindsRefused | src/main.rs:53-54 | the `tree` and `commit` tags are refused |
| CatFile.ParseU64 | src/main.rs:55-57 | definition of `parse::<u64>`; its properties are in ParseU64Correct, ParseU64OfDecimal and OverflowIsPosOverflow |
| CatFile.AccumulateDigits | src/main.rs:55-57 | the digit loop never reports `Empty`, and any value it returns fits in a `u64` |
| CatFile.AccumulateDigitsCorrect | src/main.rs:55-57 | the digits are accepted exactly when all are decimal digits with value at most `u64::MAX`, and the result is that value |
| CatFile.ParseU64Correct | src/main.rs:55-57 | `parse::<u64>` succeeds exactly on one optional `+` followed by a non-empty run of digits whose value fits, and returns that value; `Empty` exactly for the empty token |
| CatFile.ParseU64OfDecimal | src/main.rs:55-57 | the decimal notation of `n` parses back as `n` when `n <= u64::MAX`, and as `PosOverflow` otherwise |
| CatFile.OverflowIsPosOverflow | src/main.rs:55-57 | on digits only, the only possible error is an overflow |
| CatFile.ParseHeader | src/main.rs:48-59 | an accepted header carries a size that fits in a `u64` |
| CatFile.DecodeObject | src/main.rs:45-59 | definition of the header chain on the decompressed stream; its properties are in EmptyStreamPanics, HeaderNotUtf8Refused, HeaderWithoutSpace, DecodeFramed, DecodeHeaderStream, DecodeBlobHeader and MissingNulDropsLastByte |
| CatFile.EmptyStreamPanics | src/main.rs:48 | `buf[..buf.len() - 1]` panics exactly on an empty stream |
| CatFile.HeaderWithoutSpace | src/main.rs:50-51 | a valid header with no space is refused as not having two parts |
| CatFile.HeaderNotUtf8Refused | src/main.rs:48-49 | a header `from_utf8` refuses gives `HeaderNotUtf8`, and only such a header does |
| CatFile.NonUtf8Header | src/main.rs:45-49 | the stream `FF 00` is refused as not UTF-8 |
| CatFile.DecodeFramed | src/main.rs:45-49 | a header followed by a NUL is parsed on its own, and everything after the NUL is left in the stream |
| CatFile.ParseHeaderOf | src/main.rs:50-59 | the header is split at its first space; the first part goes to `FileType::from_str` and the second to `parse::<u64>` |
| CatFile.DecodeHeaderStream | src/main.rs:45-59 | a stream framed as `"<tag> <digits>\0"` decodes as its tag and digits say, in the order the code checks them |
| CatFile.DecodeBlobHeader | src/main.rs:45-59 | `"blob " ++ decimal(n) ++ "\0" ++ p` decodes to a blob of size `n` with `p` left in the stream, for every `n <= u64::MAX` |
| CatFile.DecodeBlobHeaderOverflow | src/main.rs:55-57 | a declared size above `u64::MAX` is refused with `PosOverflow` |
| CatFile.DecodeOtherKinds | src/main.rs:53-54 | what the store writes for a tree or a commit is refused because of its type token |
| CatFile.MissingNulDropsLastByte | src/main.rs:45-48 | a stream with no NUL is parsed with its last byte dropped, and nothing is left to copy |
| CatFile.MissingNulAccepted | src/main.rs:34-76 | the object file `blob 0X`, with no NUL, prints nothing and succeeds |
| CatFile.CatFileSpec | src/main.rs:34-76 | definition of what the command prints and whether it succeeds; its properties are in MissingNulAccepted, CatFileBlobOutput, CatFileReadsStoredBlob and CatFileNothingPrintedBeforeHeader, and the CatFile method is proved equal to it |
| CatFile.CatFileBlobOutput | src/main.rs:60-72 | a blob prints the first `min(size, remaining)` bytes and succeeds exactly when at least `size` bytes remained, otherwise fails with both numbers |
| CatFile.CatFileReadsStoredBlob | src/main.rs:34-76 | the object file of a stored blob prints the payload exactly and succeeds, whatever follows it |
| CatFile.CatFileNothingPrintedBeforeHeader | src/main.rs:35-38 | a failed path split or a missing file prints nothing and fails |
| CatFile.CatFile | src/main.rs:34-76 | the command's output and outcome are those of the specification function `CatFileSpec` |
| CommitTree.CommitText | src/commands/commit_tree.rs:25-39 | definition of the commit text; its properties are in LinesInOrder, ParseCommitText, CommitTextInjective and NewlineInHashInjectsParent |
| CommitTree.CommitPayload | src/commands/commit_tree.rs:25-39 | definition of the stored bytes, the UTF-8 of the text; AssemblePayload is proved to build it |
| CommitTree.AssemblePayload | src/commands/commit_tree.rs:25-39 | the successive `extend` calls produce exactly the UTF-8 bytes of the commit text |
| CommitTree.Extended | src/commands/commit_tree.rs:25-39 | each `extend` keeps the buffer equal to the encoding of the text so far |
| CommitTree.LinesInOrder | src/commands/commit_tree.rs:26-39 | tree line, parent line if any, author line, committer line, empty line, message and final newline, concatenated in the order they are appended, are exactly `CommitText` |
| CommitTree.ParseCommit | src/commands/commit_tree.rs:25-39 | an independent reader of the layout the command writes; ParseCommitText and its cases show it recovers the fields |
| CommitTree.IdentityNoNewline | src/commands/commit_tree.rs:30-36 | the fixed identity adds no newline to the timestamp |
| CommitTree.ParseCommitText | src/commands/commit_tree.rs:25-39 | the commit text reads back as its tree hash, the parent exactly when one was given, identical author and committer identities, and the message unchanged |
| CommitTree.ParseRootCommit | src/commands/commit_tree.rs:26-39 | without a parent, the line after the tree line is the author line |
| CommitTree.ParseChildCommit | src/commands/commit_tree.rs:26-39 | with a parent, the parent line follows the tree line |
| CommitTree.ParseIdentitiesLines | src/commands/commit_tree.rs:34-39 | the author line, the committer line, one empty line, the message and the final newline read back as their parts |
| CommitTree.CommitTextInjective | src/commands/commit_tree.rs:25-39 | when the tree hash, the parent and the timestamp have no newline, different tree hashes, parents, timestamps or messages give different commit texts |
| CommitTree.NewlineInHashInjectsParent | src/commands/commit_tree.rs:26-28 | the tree hash `"a\nparent b"` without a parent gives the same text as `"a"` with parent `"b"`, so the newline-free condition above is needed |
| CommitTree.CommitTreeCmd | src/commands/commit_tree.rs:16-42 | a failed lookup or a non-tree stops with the matching error and writes nothing; a tree stores the commit payload as a commit and returns the hex of its digest |
| ObjectStore.Store.WriteObject | src/commands/write_tree.rs:104 | one object of the given kind and payload is added to the log, and the digest of its framed bytes is returned |
| ObjectStore.EncodeObject | src/main.rs:45-59 | definition of the framing `"<kind> <len>\0" ++ payload` that `cat_file` reads back; its properties are in EncodeObjectLayout and EncodeObjectInjective |
| ObjectStore.EncodeObjectLayout | src/main.rs:45-59 | the framing is the kind tag, a space, the decimal length, a NUL and the payload, with no NUL before the payload |
| ObjectStore.EncodeObjectInjective | src/main.rs:45-59 | two payloads of one kind frame to the same bytes only if they are equal |
| Hex.ToHexString | src/shared.rs:5-9 | the hex string is twice as long as the bytes |
| Hex.ToHexStringDigits | src/shared.rs:7 | every character is one of `0-9a-f` |
| Hex.ToHexStringAt | src/shared.rs:7 | characters `2i` and `2i+1` are the high and low nibble of byte `i` |
| Hex.ByteBelowSixteen | src/shared.rs:7 | the empty input gives "", and 0x0a gives "0a" (zero padding) |
| Hex.ToHexStringAppend | src/shared.rs:7 | hex of a concatenation is the concatenation of the hex strings |
| Hex.FromHexString | src/shared.rs:7 | a decoder for `{:02x}` output, with no counterpart in the source; HexRoundTrip shows it inverts ToHexString |
| Hex.ToHexStringSplit | src/shared.rs:7 | cutting the bytes at `k` cuts the hex string at `2k` |
| Hex.HexRoundTrip | src/shared.rs:7 | decoding the hex string gives back the bytes |
| Hex.HexInjective | src/shared.rs:7 | distinct byte strings have distinct hex strings |
| Hex.NibbleChar | src/shared.rs:7 | a nibble becomes one lowercase hex digit |
| Bytes.SplitOnce | src/main.rs:50 | `split_once` fails exactly when the separator is absent; otherwise the parts join back around one separator, and the first part has none |
| Bytes.SplitOnceOf | src/main.rs:50 | the split happens at the first separator |
| Utf8.Encode | src/commands/commit_tree.rs:26-39 | definition of `as_bytes`, character by character; its properties are in EncodeAppend, EncodeInjective and EncodeValid |
| Utf8.Valid | src/main.rs:48 | definition of what `std::str::from_utf8` accepts, by the table of well-formed sequences; its properties are in EncodeValid, Decode, ValidIffEncoded, ValidAvoidsBytes and InvalidExamples |
| Utf8.EncodeAppend | src/commands/commit_tree.rs:25-39 | the bytes of a concatenation are the concatenated bytes |
| Utf8.EncodeValid | src/main.rs:48 | every encoded string passes `from_utf8` |
| Utf8.AsciiBytesValid | src/main.rs:48 | bytes below 0x80 always pass `from_utf8` |
| Utf8.DecodeChar | src/main.rs:48 | the well-formed sequence at the front of accepted bytes is the encoding of one character |
| Utf8.Decode | src/main.rs:48-49 | bytes `from_utf8` accepts are decoded to a string whose encoding is exactly those bytes |
| Utf8.ValidIffEncoded | src/main.rs:48 | `from_utf8` accepts bytes exactly when they are the encoding of some string |
| Utf8.EncodeCharInjective | src/commands/commit_tree.rs:26-39 | two characters with the same bytes are the same character |
| Utf8.EncodeInjective | src/commands/commit_tree.rs:26-39 | two strings with the same bytes are the same string |
| Utf8.ValidAvoidsBytes | src/main.rs:48 | accepted bytes never contain 0xC0, 0xC1 or any byte from 0xF5 up |
| Utf8.InvalidExamples | src/main.rs:48 | 0xFF, a stray continuation byte, the overlong NUL `C0 80`, the surrogate `ED A0 80` and a truncated `E2 82` are refused |

## Left out

- File system access is not modelled: `read_dir`, `metadata`, `is_dir`, `is_symlink` and opening and reading files. The directory listing, each entry's kind, content, symlink flag and `st_mode`, and the decompressed object files are inputs. `init` (src/main.rs:92-98) is not part of this model.
- SHA-1 and zlib happen inside `write_object`, `write_blob_object` and `read_obj_file`, which are not part of this model. The digest is a function constant of `Store`, and streams are taken already decompressed. The framing `"<kind> <len>\0"` is taken from the format `cat_file` reads.
- The clock and its `"%s %z"` format are not modelled: the timestamp is a parameter. The tree lookup of `commit-tree` is a parameter too: its outcome (not found, or the kind found).
- Printing, `eprintln!`, `process::exit` and command-line parsing (`clap`) are not modelled. The commands return what they would print, and errors are values.
- `cat_file.rs`, `ls_tree.rs`, `hash_object.rs` and `mod.rs` only dispatch, and are not part of this model.
- WriteTree.WriteTreeForPath does not model a `read_dir` entry that fails (the loop stops silently there), a failing `file_name`, or a `get_mode` metadata failure after the blob has already been written. Those are I/O errors.
- WriteTree.NameCmp compares names as Unicode strings, not as UTF-8 bytes. Containment and order are the same on valid UTF-8, but this is not proved. Names that are not valid UTF-8, where `to_str().expect` panics, are not modelled.
- WriteTree.SortInPlace is the insertion sort that `sort_unstable_by` runs on up to 20 elements. Longer directories are sorted by a different algorithm in the Rust standard library, whose result with this non-transitive comparator the model does not predict. Since the comparator is not an order, the model proves that the result is a permutation of the input, not that it is sorted.
- WriteTree.WriteTreeForPath walks a finite `Dir` value. `is_dir` follows symbolic links, so a link to a directory above it makes the source recurse until the operating system refuses the path. The finite datatype cannot express such a cycle.
- CatFile.CatFile returns the size mismatch as the two numbers, not as the message text (whose arguments are swapped in the source). It does not model errors from `read_until` or `io::copy` on a failing stream.
