/** `commit-tree`: check that the given hash names a tree, assemble the
    commit text line by line and store it as a commit object. The identity
    is fixed; the timestamp (the clock formatted as `"%s %z"`) is a
    parameter, and so is the outcome of looking up the tree object. */
module CommitTree {
  import opened Bytes
  import Utf8
  import Hex
  import opened ObjectStore

  const AUTHOR_NAME: string := "Test User"
  const AUTHOR_EMAIL: string := "test@email.com"

  /** `"Test User <test@email.com> <timestamp>"`, shared by the author and
      the committer line. */
  function Identity(timestamp: string): string {
    AUTHOR_NAME + " <" + AUTHOR_EMAIL + "> " + timestamp
  }

  function TreeLine(treeHash: string): string {
    "tree " + treeHash + "\n"
  }

  /** The parent line, present only when a parent is given. */
  function ParentLines(parent: Option<string>): string {
    match parent
    case None => ""
    case Some(p) => "parent " + p + "\n"
  }

  function AuthorLine(timestamp: string): string {
    "author " + Identity(timestamp) + "\n"
  }

  function CommitterLine(timestamp: string): string {
    "committer " + Identity(timestamp) + "\n"
  }

  /** The empty line, the message and the final newline. */
  function Body(message: string): string {
    "\n" + message + "\n"
  }

  /** The commit text: tree line, optional parent line, author and committer
      lines, an empty line, the message and a final newline. */
  function CommitText(treeHash: string, message: string, parent: Option<string>, timestamp: string): string {
    TreeLine(treeHash) + (ParentLines(parent) + (AuthorLine(timestamp) + (CommitterLine(timestamp) + Body(message))))
  }

  /** The bytes stored as the commit's payload. */
  function CommitPayload(treeHash: string, message: string, parent: Option<string>, timestamp: string): seq<byte> {
    Utf8.Encode(CommitText(treeHash, message, parent, timestamp))
  }

  // ---------------------------------------------------------------------------
  // Reading a commit text back

  /** The fields of a commit text; `author` and `committer` are the text
      after the keyword on their lines. */
  datatype CommitFields = CommitFields(
    tree: string, parent: Option<string>, author: string, committer: string, message: string)

  /** Reads the author line, the committer line, the empty line, the message
      and the final newline. */
  function ParseIdentities(tree: string, parent: Option<string>, t: string): Option<CommitFields> {
    match SplitOnce(t, '\n')
    case None => None
    case Some((a, r)) =>
      if !IsPrefix("author ", a) then None
      else match SplitOnce(r, '\n')
        case None => None
        case Some((c, body)) =>
          if !IsPrefix("committer ", c) || |body| < 2 || body[0] != '\n' || body[|body| - 1] != '\n' then None
          else Some(CommitFields(tree, parent, a[7..], c[10..], body[1..|body| - 1]))
  }

  /** Reads a commit text; `None` if it is not laid out as above. */
  function ParseCommit(t: string): (r: Option<CommitFields>) {
    match SplitOnce(t, '\n')
    case None => None
    case Some((l, r)) =>
      if !IsPrefix("tree ", l) then None
      else match SplitOnce(r, '\n')
        case None => None
        case Some((l2, r2)) =>
          if IsPrefix("parent ", l2) then ParseIdentities(l[5..], Some(l2[7..]), r2)
          else ParseIdentities(l[5..], None, r)
  }

  /** A line without a newline is split off at its newline. */
  lemma SplitLine(keyword: string, value: string, rest: string)
    requires '\n' !in keyword && '\n' !in value
    ensures SplitOnce(keyword + value + "\n" + rest, '\n') == Some((keyword + value, rest))
    ensures (keyword + value)[|keyword|..] == value
    ensures IsPrefix(keyword, keyword + value)
  {
    assert keyword + value + "\n" + rest == (keyword + value) + ['\n'] + rest;
    SplitOnceOf(keyword + value, '\n', rest);
    assert (keyword + value)[..|keyword|] == keyword;
  }

  lemma IdentityNoNewline(timestamp: string)
    requires '\n' !in timestamp
    ensures '\n' !in Identity(timestamp)
  {
    var prefix := AUTHOR_NAME + " <" + AUTHOR_EMAIL + "> ";
    assert forall i :: 0 <= i < |prefix| ==> prefix[i] != '\n';
    assert Identity(timestamp) == prefix + timestamp;
  }

  /** What `ParseIdentities` returns once both lines are split off. */
  lemma ParseIdentitiesSteps(tree: string, parent: Option<string>, t: string,
                             a: string, r: string, c: string, body: string)
    requires SplitOnce(t, '\n') == Some((a, r)) && IsPrefix("author ", a)
    requires SplitOnce(r, '\n') == Some((c, body)) && IsPrefix("committer ", c)
    requires |body| >= 2 && body[0] == '\n' && body[|body| - 1] == '\n'
    ensures ParseIdentities(tree, parent, t) == Some(CommitFields(tree, parent, a[7..], c[10..], body[1..|body| - 1]))
  {
  }

  lemma BodyOf(message: string)
    ensures |Body(message)| >= 2 && Body(message)[0] == '\n' && Body(message)[|Body(message)| - 1] == '\n'
    ensures Body(message)[1..|Body(message)| - 1] == message
  {
  }

  /** The two identity lines and the body are read back from their parts. */
  lemma ParseIdentitiesLines(tree: string, parent: Option<string>, a: string, c: string, message: string)
    requires '\n' !in a && '\n' !in c
    ensures ParseIdentities(tree, parent, "author " + a + "\n" + ("committer " + c + "\n" + Body(message)))
         == Some(CommitFields(tree, parent, a, c, message))
  {
    var body := Body(message);
    var r := "committer " + c + "\n" + body;
    SplitLine("committer ", c, body);
    SplitLine("author ", a, r);
    BodyOf(message);
    ParseIdentitiesSteps(tree, parent, "author " + a + "\n" + r, "author " + a, r, "committer " + c, body);
  }

  /** An author line is never taken for a parent line. */
  lemma AuthorIsNotParent(value: string)
    ensures !IsPrefix("parent ", "author " + value)
  {
    assert ("author " + value)[0] == 'a';
  }

  /** Which lines `ParseCommit` reads once the first two are split off. */
  lemma ParseCommitSteps(t: string, l: string, r: string, l2: string, r2: string)
    requires SplitOnce(t, '\n') == Some((l, r)) && IsPrefix("tree ", l)
    requires SplitOnce(r, '\n') == Some((l2, r2))
    ensures ParseCommit(t) == if IsPrefix("parent ", l2) then ParseIdentities(l[5..], Some(l2[7..]), r2)
                              else ParseIdentities(l[5..], None, r)
  {
  }

  /** The commit text reads back as the fields it was built from: the tree
      hash verbatim, the parent exactly when one was given, identical author
      and committer identities and the message unchanged. Hashes and the
      timestamp have no newline; the message may contain any character. */
  lemma ParseCommitText(treeHash: string, message: string, parent: Option<string>, timestamp: string)
    requires '\n' !in treeHash && '\n' !in timestamp
    requires parent.Some? ==> '\n' !in parent.value
    ensures ParseCommit(CommitText(treeHash, message, parent, timestamp))
         == Some(CommitFields(treeHash, parent, Identity(timestamp), Identity(timestamp), message))
  {
    match parent {
      case None => ParseRootCommit(treeHash, message, timestamp);
      case Some(p) => ParseChildCommit(treeHash, message, p, timestamp);
    }
  }

  /** Without a parent the line after the tree line is the author line. */
  lemma ParseRootCommit(treeHash: string, message: string, timestamp: string)
    requires '\n' !in treeHash && '\n' !in timestamp
    ensures ParseCommit(CommitText(treeHash, message, None, timestamp))
         == Some(CommitFields(treeHash, None, Identity(timestamp), Identity(timestamp), message))
  {
    var id := Identity(timestamp);
    IdentityNoNewline(timestamp);
    assert CommitText(treeHash, message, None, timestamp)
        == "tree " + treeHash + "\n" + ("author " + id + "\n" + ("committer " + id + "\n" + Body(message)));
    ParseRootLines(treeHash, id, id, message);
  }

  lemma ParseRootLines(h: string, a: string, c: string, message: string)
    requires '\n' !in h && '\n' !in a && '\n' !in c
    ensures ParseCommit("tree " + h + "\n" + ("author " + a + "\n" + ("committer " + c + "\n" + Body(message))))
         == Some(CommitFields(h, None, a, c, message))
  {
    var after := "committer " + c + "\n" + Body(message);
    var ids := "author " + a + "\n" + after;
    var t := "tree " + h + "\n" + ids;
    SplitLine("tree ", h, ids);
    SplitLine("author ", a, after);
    AuthorIsNotParent(a);
    ParseCommitSteps(t, "tree " + h, ids, "author " + a, after);
    ParseIdentitiesLines(h, None, a, c, message);
  }

  /** With a parent the line after the tree line is the parent line. */
  lemma ParseChildCommit(treeHash: string, message: string, p: string, timestamp: string)
    requires '\n' !in treeHash && '\n' !in timestamp && '\n' !in p
    ensures ParseCommit(CommitText(treeHash, message, Some(p), timestamp))
         == Some(CommitFields(treeHash, Some(p), Identity(timestamp), Identity(timestamp), message))
  {
    var id := Identity(timestamp);
    IdentityNoNewline(timestamp);
    assert CommitText(treeHash, message, Some(p), timestamp)
        == "tree " + treeHash + "\n" + ("parent " + p + "\n" + ("author " + id + "\n" + ("committer " + id + "\n" + Body(message))));
    ParseChildLines(treeHash, p, id, id, message);
  }

  lemma ParseChildLines(h: string, p: string, a: string, c: string, message: string)
    requires '\n' !in h && '\n' !in p && '\n' !in a && '\n' !in c
    ensures ParseCommit("tree " + h + "\n" + ("parent " + p + "\n" + ("author " + a + "\n" + ("committer " + c + "\n" + Body(message)))))
         == Some(CommitFields(h, Some(p), a, c, message))
  {
    var ids := "author " + a + "\n" + ("committer " + c + "\n" + Body(message));
    var rest := "parent " + p + "\n" + ids;
    var t := "tree " + h + "\n" + rest;
    SplitLine("tree ", h, rest);
    SplitLine("parent ", p, ids);
    ParseCommitSteps(t, "tree " + h, rest, "parent " + p, ids);
    ParseIdentitiesLines(h, Some(p), a, c, message);
  }

  /** Distinct inputs give distinct commit texts. */
  lemma CommitTextInjective(h1: string, m1: string, p1: Option<string>, t1: string,
                            h2: string, m2: string, p2: Option<string>, t2: string)
    requires '\n' !in h1 && '\n' !in t1 && (p1.Some? ==> '\n' !in p1.value)
    requires '\n' !in h2 && '\n' !in t2 && (p2.Some? ==> '\n' !in p2.value)
    requires CommitText(h1, m1, p1, t1) == CommitText(h2, m2, p2, t2)
    ensures h1 == h2 && m1 == m2 && p1 == p2 && t1 == t2
  {
    ParseCommitText(h1, m1, p1, t1);
    ParseCommitText(h2, m2, p2, t2);
    var prefix := AUTHOR_NAME + " <" + AUTHOR_EMAIL + "> ";
    assert Identity(t1) == prefix + t1 && Identity(t2) == prefix + t2;
    assert t1 == Identity(t1)[|prefix|..] && t2 == Identity(t2)[|prefix|..];
  }

  /** The lines in the order the command appends them make up the commit
      text: tree line, parent line if any, author line, committer line,
      the empty line, the message and the final newline. */
  lemma LinesInOrder(treeHash: string, message: string, parent: Option<string>, timestamp: string)
    ensures TreeLine(treeHash) + ParentLines(parent) + AuthorLine(timestamp) + CommitterLine(timestamp)
              + "\n" + message + "\n"
         == CommitText(treeHash, message, parent, timestamp)
  {
    var t, p, a, c := TreeLine(treeHash), ParentLines(parent), AuthorLine(timestamp), CommitterLine(timestamp);
    Regroup(t, p, a, c, message);
  }

  lemma Regroup(t: string, p: string, a: string, c: string, message: string)
    ensures t + p + a + c + "\n" + message + "\n" == t + (p + (a + (c + Body(message))))
  {
    var x, b := t + p + a + c, Body(message);
    ConcatAssoc(x, "\n", message);
    ConcatAssoc(x, "\n" + message, "\n");
    ConcatAssoc(t + p + a, c, b);
    ConcatAssoc(t + p, a, c + b);
    ConcatAssoc(t, p, a + (c + b));
  }

  /** Nothing stops a hash from holding a newline, and then the texts of two
      different commits coincide: a tree hash `"a\nparent b"` without a parent
      gives the same text as the tree hash `"a"` with the parent `"b"`. */
  lemma NewlineInHashInjectsParent(message: string, timestamp: string)
    ensures CommitText("a\nparent b", message, None, timestamp) == CommitText("a", message, Some("b"), timestamp)
  {
    var rest := AuthorLine(timestamp) + (CommitterLine(timestamp) + Body(message));
    var h := "a\nparent b";
    assert h == "a" + "\nparent " + "b";
    assert CommitText(h, message, None, timestamp) == TreeLine(h) + ("" + rest);
    assert CommitText("a", message, Some("b"), timestamp) == TreeLine("a") + (ParentLines(Some("b")) + rest);
    InjectedLines("a", "b", rest);
  }

  lemma InjectedLines(h: string, p: string, rest: string)
    ensures TreeLine(h + "\nparent " + p) + ("" + rest) == TreeLine(h) + (ParentLines(Some(p)) + rest)
  {
    var t, q := TreeLine(h), ParentLines(Some(p));
    var joined := h + "\nparent " + p;
    assert TreeLine(joined) == t + q by {
      assert "tree " + joined + "\n" == "tree " + h + "\n" + ("parent " + p + "\n");
    }
    assert "" + rest == rest;
    ConcatAssoc(t, q, rest);
  }

  // ---------------------------------------------------------------------------
  // The command

  datatype CommitError =
    | TreeNotFound(treeHash: string)  // "Couldn't find the tree-hash object for ..."
    | NotATree(found: ObjKind)        // "Provided hash is not tree. Found ..."

  /** `commit_tree`. `lookup` is what reading the object named by `treeHash`
      gave: `None` when it could not be read, otherwise its kind. On success
      the result is the printed hex digest of the new commit. */
  method CommitTreeCmd(store: Store, treeHash: string, message: string, parent: Option<string>,
                       lookup: Option<ObjKind>, timestamp: string)
    returns (r: Result<string, CommitError>)
    modifies store
    ensures lookup.None? ==> r == Err(TreeNotFound(treeHash)) && store.log == old(store.log)
    ensures lookup.Some? && lookup.value != Tree ==>
      r == Err(NotATree(lookup.value)) && store.log == old(store.log)
    ensures lookup == Some(Tree) ==>
      var payload := CommitPayload(treeHash, message, parent, timestamp);
      r == Ok(Hex.ToHexString(store.sha1(EncodeObject(Commit, payload)))) &&
      store.log == old(store.log) + [StoredObject(Commit, payload)]
  {
    if lookup.None? {
      return Err(TreeNotFound(treeHash));
    }
    if lookup.value != Tree {
      return Err(NotATree(lookup.value));
    }
    var commit := AssemblePayload(treeHash, message, parent, timestamp);
    var rawSha := store.WriteObject(Commit, commit);
    r := Ok(Hex.ToHexString(rawSha));
  }

  /** The successive `extend` calls that build the commit payload. */
  method AssemblePayload(treeHash: string, message: string, parent: Option<string>, timestamp: string)
    returns (commit: seq<byte>)
    ensures commit == CommitPayload(treeHash, message, parent, timestamp)
  {
    var treeLine, parentLines := TreeLine(treeHash), ParentLines(parent);
    var authorLine, committerLine := AuthorLine(timestamp), CommitterLine(timestamp);
    commit := [];
    Extended(commit, [], treeLine);
    commit := commit + Utf8.Encode(treeLine);
    ghost var text: string := treeLine;
    assert [] + treeLine == text;
    if parent.Some? {
      Extended(commit, text, parentLines);
      commit := commit + Utf8.Encode(parentLines);
    } else {
      Extended(commit, text, parentLines);
    }
    text := text + parentLines;
    Extended(commit, text, authorLine);
    commit, text := commit + Utf8.Encode(authorLine), text + authorLine;
    Extended(commit, text, committerLine);
    commit, text := commit + Utf8.Encode(committerLine), text + committerLine;
    Extended(commit, text, "\n");
    commit, text := commit + Utf8.Encode("\n"), text + "\n";
    Extended(commit, text, message);
    commit, text := commit + Utf8.Encode(message), text + message;
    Extended(commit, text, "\n");
    commit, text := commit + Utf8.Encode("\n"), text + "\n";
    LinesInOrder(treeHash, message, parent, timestamp);
  }

  /** Extending the payload by the bytes of a piece keeps it the encoding of
      the text so far. */
  lemma Extended(commit: seq<byte>, text: string, piece: string)
    requires commit == Utf8.Encode(text)
    ensures commit + Utf8.Encode(piece) == Utf8.Encode(text + piece)
    ensures piece == [] ==> commit == Utf8.Encode(text + piece)
  {
    Utf8.EncodeAppend(text, piece);
    assert piece == [] ==> text + piece == text;
  }
}
