/** Comparing two canonically packed package trees file by file. */
module PackageDiff {
  import opened Text
  import opened Order
  import DiffText

  type Bytes = seq<nat>

  const DIFF_MAX_FILE_BYTES := 256 * 1024
  const DIFF_MAX_FILES := 200
  const CONTEXT := 3
  const BINARY_PROBE := 8192

  datatype Entry = Entry(path: string, content: Bytes)

  datatype Status = Added | Removed | Modified

  datatype Note = Plain | Binary | TooLarge | NoTextualChange

  datatype FilePatch = FilePatch(path: string, status: Status, diff: Option<string>, note: Note)

  /** An entry path without a leading "./". */
  function Clean(path: string): string {
    if "./" <= path then path[2..] else path
  }

  predicate IsFile(path: string) { path != "" && path[|path| - 1] != '/' }

  /** A later entry replaces an earlier one of the same path; directories are ignored. */
  function TreeOf(entries: seq<Entry>): map<string, Bytes> {
    if entries == [] then map[]
    else
      var tree, last := TreeOf(entries[..|entries| - 1]), entries[|entries| - 1];
      if IsFile(Clean(last.path)) then tree[Clean(last.path) := last.content] else tree
  }

  /** An entry of this path speaks of p: p is the path, less one leading "./" where it has one. */
  ghost predicate Names(path: string, p: string) { path == "./" + p || (path == p && !("./" <= path)) }

  /** The path of a file, not of a directory. */
  ghost predicate FilePath(p: string) { p != "" && p[|p| - 1] != '/' }

  /** What a list of entries says a file holds: the content of the last entry that speaks of it. */
  ghost predicate Holds(entries: seq<Entry>, p: string, content: Bytes) {
    FilePath(p) && exists i :: 0 <= i < |entries| && LastOf(entries, p, i) && entries[i].content == content
  }

  ghost predicate LastOf(entries: seq<Entry>, p: string, i: nat)
    requires i < |entries|
  {
    Names(entries[i].path, p) && forall j :: i < j < |entries| ==> !Names(entries[j].path, p)
  }

  lemma CleanNames(path: string, p: string)
    ensures Clean(path) == p <==> Names(path, p)
  {
    assert ("./" + p)[..2] == "./" && ("./" + p)[2..] == p;
    if "./" <= path { assert path == "./" + path[2..]; }
  }

  lemma HoldsSnoc(entries: seq<Entry>, last: Entry, p: string, content: Bytes)
    ensures Holds(entries + [last], p, content)
        <==> FilePath(p) && if Names(last.path, p) then last.content == content else Holds(entries, p, content)
  {
    hide Names, FilePath;
    var all := entries + [last];
    assert all[|entries|] == last;
    if Names(last.path, p) && last.content == content { assert LastOf(all, p, |entries|); }
    if i :| 0 <= i < |all| && LastOf(all, p, i) && all[i].content == content && i < |entries| {
      assert !Names(all[|entries|].path, p);
      assert forall j :: i <= j < |entries| ==> all[j] == entries[j];
      assert LastOf(entries, p, i) && entries[i].content == content;
    }
    if i :| 0 <= i < |entries| && LastOf(entries, p, i) && entries[i].content == content && !Names(last.path, p) {
      forall j | i < j < |all| ensures !Names(all[j].path, p) { if j < |entries| { assert all[j] == entries[j]; } }
      assert LastOf(all, p, i);
    }
  }

  /**
   * What the tree of a list of entries holds: a path is in it exactly when it is a file's and some entry speaks of it,
   * and its content is that of the last such entry.
   */
  lemma {:induction false} TreeHolds(entries: seq<Entry>, p: string, content: Bytes)
    ensures p in TreeOf(entries) && TreeOf(entries)[p] == content <==> Holds(entries, p, content)
    ensures p in TreeOf(entries) <==> FilePath(p) && exists i :: 0 <= i < |entries| && Names(entries[i].path, p)
  {
    hide Names, Clean, Holds;
    if entries == [] {
      NothingHeld(p, content);
    } else {
      var init, last := entries[..|entries| - 1], entries[|entries| - 1];
      assert entries == init + [last];
      TreeHolds(init, p, content);
      HoldsSnoc(init, last, p, content);
      CleanNames(last.path, p);
      assert entries[|init|] == last && forall i :: 0 <= i < |init| ==> entries[i] == init[i];
    }
  }

  lemma NothingHeld(p: string, content: Bytes)
    ensures !Holds([], p, content)
  {
  }

  /** Two lists of entries make the same tree exactly when they say the same of every file. */
  lemma SameTreeIff(left: seq<Entry>, right: seq<Entry>)
    ensures TreeOf(left) == TreeOf(right)
        <==> forall p, content :: Holds(left, p, content) <==> Holds(right, p, content)
  {
    hide Holds, TreeOf, Names;
    var a, b := TreeOf(left), TreeOf(right);
    forall p, content
      ensures (p in a && a[p] == content <==> Holds(left, p, content))
              && (p in b && b[p] == content <==> Holds(right, p, content))
    {
      TreeHolds(left, p, content);
      TreeHolds(right, p, content);
    }
    if forall p, content :: Holds(left, p, content) <==> Holds(right, p, content) {
      forall p ensures (p in a <==> p in b) && (p in a ==> a[p] == b[p]) {
        if p in a { assert Holds(left, p, a[p]); }
        if p in b { assert Holds(right, p, b[p]); }
      }
    }
  }

  method EntriesToMap(entries: seq<Entry>) returns (tree: map<string, Bytes>)
    ensures tree == TreeOf(entries)
    ensures forall p, content :: p in tree && tree[p] == content <==> Holds(entries, p, content)
  {
    hide Holds;
    tree := map[];
    for i := 0 to |entries|
      invariant tree == TreeOf(entries[..i])
    {
      var path := Clean(entries[i].path);
      assert entries[..i + 1][..i] == entries[..i];
      if IsFile(path) { tree := tree[path := entries[i].content]; }
    }
    assert entries[..|entries|] == entries;
    forall p, content ensures p in tree && tree[p] == content <==> Holds(entries, p, content) {
      TreeHolds(entries, p, content);
    }
  }

  function At(tree: map<string, Bytes>, path: string): Option<Bytes> {
    if path in tree then Some(tree[path]) else None
  }

  predicate LooksBinary(content: Bytes) {
    exists i :: 0 <= i < |content| && i < BINARY_PROBE && content[i] == 0
  }

  function Size(content: Option<Bytes>): nat { if content.Some? then |content.value| else 0 }

  /** `decode` is the lossy UTF-8 decoder; an absent file reads as the empty text. */
  function TextOf(content: Option<Bytes>, decode: Bytes -> string): string {
    if content.Some? then decode(content.value) else ""
  }

  /** The patch of one path whose two sides differ. */
  function PatchOf(path: string, old_: Option<Bytes>, new_: Option<Bytes>, decode: Bytes -> string): (patch: FilePatch)
    requires old_ != new_
    ensures patch.path == path
  {
    var status := if old_.None? then Added else if new_.None? then Removed else Modified;
    var probe := if new_.Some? then new_.value else old_.value;
    if LooksBinary(probe) then FilePatch(path, status, None, Binary)
    else if Size(old_) > DIFF_MAX_FILE_BYTES || Size(new_) > DIFF_MAX_FILE_BYTES then
      FilePatch(path, status, None, TooLarge)
    else
      var diff := DiffText.Rendered(DiffText.DiffOf(TextOf(old_, decode), TextOf(new_, decode), CONTEXT), path);
      if diff == "" then FilePatch(path, status, None, NoTextualChange)
      else FilePatch(path, status, Some(diff), Plain)
  }

  method ScanForNul(content: Bytes) returns (found: bool)
    ensures found == LooksBinary(content)
  {
    var limit := if |content| < BINARY_PROBE then |content| else BINARY_PROBE;
    for i := 0 to limit
      invariant forall k :: 0 <= k < i ==> content[k] != 0
    {
      if content[i] == 0 { return true; }
    }
    return false;
  }

  method PatchFile(path: string, old_: Option<Bytes>, new_: Option<Bytes>, decode: Bytes -> string)
      returns (patch: FilePatch)
    requires old_ != new_
    ensures patch == PatchOf(path, old_, new_, decode)
  {
    hide DiffText.Rendered, DiffText.DiffOf, LooksBinary;
    var status := if old_.None? then Added else if new_.None? then Removed else Modified;
    var probe := if new_.Some? then new_.value else old_.value;
    var binary := ScanForNul(probe);
    if binary { return FilePatch(path, status, None, Binary); }
    if Size(old_) > DIFF_MAX_FILE_BYTES || Size(new_) > DIFF_MAX_FILE_BYTES {
      return FilePatch(path, status, None, TooLarge);
    }
    var diff := DiffText.UnifiedDiff(TextOf(old_, decode), TextOf(new_, decode), path, CONTEXT);
    return if diff == "" then FilePatch(path, status, None, NoTextualChange)
        else FilePatch(path, status, Some(diff), Plain);
  }

  /** The paths on which two trees disagree. */
  function Differing(a: map<string, Bytes>, b: map<string, Bytes>): set<string> {
    set p | p in a.Keys + b.Keys && At(a, p) != At(b, p)
  }

  ghost predicate Describes(patch: FilePatch, a: map<string, Bytes>, b: map<string, Bytes>, decode: Bytes -> string) {
    At(a, patch.path) != At(b, patch.path) && patch == PatchOf(patch.path, At(a, patch.path), At(b, patch.path), decode)
  }

  ghost predicate Increasing(patches: seq<FilePatch>) {
    forall i, j :: 0 <= i < j < |patches| ==> Less(patches[i].path, patches[j].path)
  }

  method SortedPaths(a: map<string, Bytes>, b: map<string, Bytes>) returns (paths: seq<string>)
    ensures Sorted(paths) && Distinct(paths)
    ensures forall p :: p in paths <==> p in a.Keys + b.Keys
  {
    var todo := a.Keys + b.Keys;
    var found: seq<string> := [];
    while todo != {}
      invariant todo <= a.Keys + b.Keys && Distinct(found)
      invariant forall p :: p in found <==> p in a.Keys + b.Keys - todo
      decreases todo
    {
      var p :| p in todo;
      todo := todo - {p};
      assert p !in found;
      found := found + [p];
    }
    SortSorts(found);
    SortKeepsDistinct(found);
    paths := Sort(found);
  }

  ghost predicate Covered(patches: seq<FilePatch>, p: string) {
    exists i :: 0 <= i < |patches| && patches[i].path == p
  }

  lemma CoverGrows(patches: seq<FilePatch>, patch: FilePatch)
    ensures Covered(patches + [patch], patch.path)
    ensures forall p :: Covered(patches, p) ==> Covered(patches + [patch], p)
  {
    assert (patches + [patch])[|patches|] == patch;
    forall p | Covered(patches, p) ensures Covered(patches + [patch], p) {
      var i :| 0 <= i < |patches| && patches[i].path == p;
      assert (patches + [patch])[i].path == p;
    }
  }

  method PatchEach(paths: seq<string>, a: map<string, Bytes>, b: map<string, Bytes>, decode: Bytes -> string)
    returns (patches: seq<FilePatch>)
    requires Sorted(paths) && Distinct(paths)
    ensures Increasing(patches) && forall i :: 0 <= i < |patches| ==> Describes(patches[i], a, b, decode)
    ensures forall p :: p in paths && At(a, p) != At(b, p) ==> Covered(patches, p)
  {
    hide PatchOf, Less;
    patches := [];
    for k := 0 to |paths|
      invariant Increasing(patches) && forall i :: 0 <= i < |patches| ==> Describes(patches[i], a, b, decode)
      invariant forall i :: 0 <= i < |patches| ==> patches[i].path in paths[..k]
      invariant forall l :: 0 <= l < k && At(a, paths[l]) != At(b, paths[l]) ==> Covered(patches, paths[l])
    {
      var p := paths[k];
      if At(a, p) == At(b, p) { continue; }
      forall i | 0 <= i < |patches| ensures Less(patches[i].path, p) {
        assert patches[i].path in paths[..k];
        var l :| 0 <= l < k && paths[..k][l] == patches[i].path;
        assert AtMost(paths[l], paths[k]);
      }
      var patch := PatchFile(p, At(a, p), At(b, p), decode);
      CoverGrows(patches, patch);
      patches := patches + [patch];
    }
  }

  /**
   * The patch list is complete (one patch for each differing path, in path order) up to the cap, which keeps the
   * first ones and counts the rest; `identical` is about content, not about what could be shown.
   */
  method DiffPackageTrees(left: seq<Entry>, right: seq<Entry>, decode: Bytes -> string)
    returns (identical: bool, patches: seq<FilePatch>, omitted: nat)
    ensures identical <==> TreeOf(left) == TreeOf(right)
    ensures identical <==> forall p, content :: Holds(left, p, content) <==> Holds(right, p, content)
    ensures Increasing(patches) && forall i :: 0 <= i < |patches| ==>
        Describes(patches[i], TreeOf(left), TreeOf(right), decode)
    ensures |patches| + omitted == |Differing(TreeOf(left), TreeOf(right))|
    ensures |patches| <= 200 && (omitted > 0 ==> |patches| == 200)
    ensures forall p :: p in Differing(TreeOf(left), TreeOf(right)) ==>
              Covered(patches, p) || (omitted > 0 && forall i :: 0 <= i < |patches| ==> Less(patches[i].path, p))
  {
    hide PatchOf, Less, TreeOf, Holds;
    var a := EntriesToMap(left);
    var b := EntriesToMap(right);
    var paths := SortedPaths(a, b);
    var all := PatchEach(paths, a, b, decode);
    forall p | p in Differing(a, b) ensures Covered(all, p) { assert p in paths; }
    CountPaths(all, Differing(a, b));
    SameOnAll(a, b);
    SameTreeIff(left, right);
    identical := |all| == 0;
    if |all| > DIFF_MAX_FILES {
      omitted := |all| - DIFF_MAX_FILES;
      patches := all[..DIFF_MAX_FILES];
      forall p | p in Differing(a, b)
        ensures Covered(patches, p) || forall i :: 0 <= i < |patches| ==> Less(patches[i].path, p)
      {
        var i :| 0 <= i < |all| && all[i].path == p;
        if i < DIFF_MAX_FILES { assert patches[i].path == p; }
      }
    } else {
      patches, omitted := all, 0;
    }
  }

  lemma {:induction false} CountPaths(patches: seq<FilePatch>, paths: set<string>)
    requires Increasing(patches)
    requires forall i :: 0 <= i < |patches| ==> patches[i].path in paths
    requires forall p :: p in paths ==> Covered(patches, p)
    ensures |patches| == |paths|
  {
    if patches == [] {
      assert paths == {};
    } else {
      var last := patches[|patches| - 1].path;
      var rest := patches[..|patches| - 1];
      forall i | 0 <= i < |rest| ensures rest[i].path in paths - {last} {
        assert Less(patches[i].path, last);
        LessIsTotal(patches[i].path, last);
      }
      forall p | p in paths - {last} ensures Covered(rest, p) {
        var i :| 0 <= i < |patches| && patches[i].path == p;
        assert rest[i].path == p;
      }
      CountPaths(rest, paths - {last});
    }
  }

  lemma SameOnAll(a: map<string, Bytes>, b: map<string, Bytes>)
    ensures Differing(a, b) == {} <==> a == b
  {
    if Differing(a, b) == {} {
      forall p | p in a.Keys + b.Keys ensures At(a, p) == At(b, p) { assert p !in Differing(a, b); }
      assert a.Keys == b.Keys;
    }
  }

  /** The side that is probed for binary content: the new one when there is one. */
  function Probed(a: map<string, Bytes>, b: map<string, Bytes>, path: string): Bytes {
    if path in b then b[path] else if path in a then a[path] else []
  }

  ghost predicate NulWithin8K(content: Bytes) { exists i :: 0 <= i < |content| && i < 8192 && content[i] == 0 }

  lemma BinaryMeans(content: Bytes)
    ensures LooksBinary(content) <==> NulWithin8K(content)
  {
    if i :| 0 <= i < |content| && i < 8192 && content[i] == 0 { assert i < BINARY_PROBE; }
  }

  /**
   * Every patch that shows text turns the old file's text into the new one's and fits the cap; an unshown patch says
   * why. Only the probed side is looked at for a NUL: what that lets through is in `ShowsBinaryIff`.
   */
  lemma PatchIsRight(patch: FilePatch, a: map<string, Bytes>, b: map<string, Bytes>, decode: Bytes -> string)
    requires Describes(patch, a, b, decode)
    ensures patch.diff.Some? ==>
              DiffText.PatchText(TextOf(At(a, patch.path), decode), patch.diff.value, patch.path)
              == Some(TextOf(At(b, patch.path), decode))
    ensures patch.note == NoTextualChange ==> TextOf(At(a, patch.path), decode) == TextOf(At(b, patch.path), decode)
    ensures patch.diff.None? <==> patch.note != Plain
    ensures
      var old_, new_ := TextOf(At(a, patch.path), decode), TextOf(At(b, patch.path), decode);
      patch.diff.Some? ==> patch.diff.value == DiffText.Rendered(DiffText.DiffOf(old_, new_, 3), patch.path)
    ensures patch.note == Binary <==> NulWithin8K(Probed(a, b, patch.path))
    ensures patch.note != Binary ==>
              (patch.note == TooLarge <==> (patch.path in a && |a[patch.path]| > 262144)
                                           || (patch.path in b && |b[patch.path]| > 262144))
    ensures patch.status == Added <==> patch.path !in a
    ensures patch.status == Removed <==> patch.path !in b
  {
    hide DiffText.Rendered, DiffText.DiffOf, DiffText.PatchText, LooksBinary, NulWithin8K;
    BinaryMeans(Probed(a, b, patch.path));
    var old_, new_ := TextOf(At(a, patch.path), decode), TextOf(At(b, patch.path), decode);
    DiffText.DiffTextApplies(old_, new_, patch.path, CONTEXT);
    DiffText.DiffIsEmptyIffSame(old_, new_, patch.path, CONTEXT);
  }

  predicate BinaryAt(content: Option<Bytes>) { content.Some? && LooksBinary(content.value) }

  /**
   * A shown patch has a binary side exactly when both sides exist, the old one has a NUL in its first 8 KiB, the new
   * one has none, both fit the cap and the decoded texts differ.
   */
  lemma ShowsBinaryIff(patch: FilePatch, a: map<string, Bytes>, b: map<string, Bytes>, decode: Bytes -> string)
    requires Describes(patch, a, b, decode)
    ensures
      var old_, new_ := At(a, patch.path), At(b, patch.path);
      patch.diff.Some? && (BinaryAt(old_) || BinaryAt(new_)) <==>
        && old_.Some? && new_.Some? && BinaryAt(old_) && !BinaryAt(new_)
        && Size(old_) <= DIFF_MAX_FILE_BYTES && Size(new_) <= DIFF_MAX_FILE_BYTES
        && TextOf(old_, decode) != TextOf(new_, decode)
  {
    hide DiffText.Rendered, DiffText.DiffOf, LooksBinary;
    var old_, new_ := TextOf(At(a, patch.path), decode), TextOf(At(b, patch.path), decode);
    DiffText.DiffIsEmptyIffSame(old_, new_, patch.path, CONTEXT);
  }

  /** At that input: a binary file that becomes text is shown, its bytes decoded among the deleted lines. */
  lemma BinaryOldSideIsShown(decode: Bytes -> string)
    requires decode([0]) != decode([65])
    ensures BinaryAt(Some([0])) && PatchOf("p", Some([0]), Some([65]), decode).note == Plain
    ensures PatchOf("p", Some([0]), Some([65]), decode).diff.Some?
  {
    hide DiffText.Rendered, DiffText.DiffOf;
    DiffText.DiffIsEmptyIffSame(decode([0]), decode([65]), "p", CONTEXT);
    assert [0][0] == 0;
  }

  // ----- patching a whole tree -----

  function Texts(tree: map<string, Bytes>, decode: Bytes -> string): map<string, string> {
    map p | p in tree :: decode(tree[p])
  }

  function TextAt(texts: map<string, string>, path: string): string { if path in texts then texts[path] else "" }

  /** The text a patch leaves: without a diff the one that was there. */
  function PatchedText(texts: map<string, string>, patch: FilePatch): Option<string> {
    if patch.diff.None? then Some(TextAt(texts, patch.path))
    else DiffText.PatchText(TextAt(texts, patch.path), patch.diff.value, patch.path)
  }

  /** Applies one patch to a tree of texts: a removed file goes, any other gets its new text. */
  function PatchTree(texts: map<string, string>, patch: FilePatch): Option<map<string, string>> {
    match PatchedText(texts, patch)
    case None => None
    case Some(text) => Some(if patch.status == Removed then texts - {patch.path} else texts[patch.path := text])
  }

  function PatchAll(texts: map<string, string>, patches: seq<FilePatch>): Option<map<string, string>> {
    if patches == [] then Some(texts)
    else
      match PatchAll(texts, patches[..|patches| - 1])
      case None => None
      case Some(before) => PatchTree(before, patches[|patches| - 1])
  }

  /** Neither a binary nor an oversized file among the patches. */
  predicate AllTold(patches: seq<FilePatch>) {
    forall i :: 0 <= i < |patches| ==> patches[i].note == Plain || patches[i].note == NoTextualChange
  }

  /** The texts are those of b on the paths patched so far and those of a on the others. */
  ghost predicate Halfway(texts: map<string, string>, patches: seq<FilePatch>, a: map<string, Bytes>,
      b: map<string, Bytes>, decode: Bytes -> string)
  {
    forall p :: Find(texts, p) == Find(Texts(if Covered(patches, p) then b else a, decode), p)
  }

  function Find(texts: map<string, string>, path: string): Option<string> {
    if path in texts then Some(texts[path]) else None
  }

  /** One path was given the text it has in b, and no other was touched. */
  ghost predicate PutRight(texts: map<string, string>, after: Option<map<string, string>>, path: string,
      b: map<string, Bytes>, decode: Bytes -> string)
  {
    && after.Some? && Find(after.value, path) == Find(Texts(b, decode), path)
    && forall p :: p != path ==> Find(after.value, p) == Find(texts, p)
  }

  lemma OnePatch(texts: map<string, string>, patch: FilePatch, a: map<string, Bytes>, b: map<string, Bytes>,
      decode: Bytes -> string)
    requires Describes(patch, a, b, decode) && (patch.note == Plain || patch.note == NoTextualChange)
    requires Find(texts, patch.path) == Find(Texts(a, decode), patch.path)
    ensures PutRight(texts, PatchTree(texts, patch), patch.path, b, decode)
  {
    hide DiffText.PatchText, PatchOf;
    PatchIsRight(patch, a, b, decode);
    assert TextAt(texts, patch.path) == TextOf(At(a, patch.path), decode);
  }

  lemma {:induction false} PatchesGoHalfway(patches: seq<FilePatch>, a: map<string, Bytes>, b: map<string, Bytes>,
      decode: Bytes -> string)
    requires Increasing(patches) && AllTold(patches)
    requires forall i :: 0 <= i < |patches| ==> Describes(patches[i], a, b, decode)
    ensures PatchAll(Texts(a, decode), patches).Some?
    ensures Halfway(PatchAll(Texts(a, decode), patches).value, patches, a, b, decode)
  {
    hide PatchTree, Texts, Describes, Less;
    if patches != [] {
      var init, last := patches[..|patches| - 1], patches[|patches| - 1];
      assert patches == init + [last];
      PatchesGoHalfway(init, a, b, decode);
      var texts := PatchAll(Texts(a, decode), init).value;
      assert !Covered(init, last.path) by {
        forall i | 0 <= i < |init| ensures init[i].path != last.path {
          assert Less(patches[i].path, patches[|init|].path);
          LessIsTotal(init[i].path, last.path);
        }
      }
      OnePatch(texts, last, a, b, decode);
      CoverGrows(init, last);
      forall p | p != last.path ensures Covered(patches, p) <==> Covered(init, p) {
        if Covered(patches, p) { var i :| 0 <= i < |patches| && patches[i].path == p; assert init[i].path == p; }
      }
    }
  }

  /**
   * Applying the patches of a complete diff, none of them about a binary or an oversized file, to the texts of the left
   * tree gives exactly the texts of the right tree: files added, removed and changed.
   */
  lemma PatchesMakeTheOtherTree(patches: seq<FilePatch>, a: map<string, Bytes>, b: map<string, Bytes>,
      decode: Bytes -> string)
    requires Increasing(patches) && AllTold(patches)
    requires forall i :: 0 <= i < |patches| ==> Describes(patches[i], a, b, decode)
    requires forall p :: p in Differing(a, b) ==> Covered(patches, p)
    ensures PatchAll(Texts(a, decode), patches) == Some(Texts(b, decode))
  {
    hide PatchAll, Describes, Less;
    PatchesGoHalfway(patches, a, b, decode);
    var texts := PatchAll(Texts(a, decode), patches).value;
    forall p ensures Find(texts, p) == Find(Texts(b, decode), p) {
      if !Covered(patches, p) { assert p !in Differing(a, b); SameText(a, b, p, decode); }
    }
    SameTexts(texts, Texts(b, decode));
  }

  lemma SameText(a: map<string, Bytes>, b: map<string, Bytes>, p: string, decode: Bytes -> string)
    requires p !in Differing(a, b)
    ensures Find(Texts(a, decode), p) == Find(Texts(b, decode), p)
  {
    assert p in a.Keys + b.Keys ==> At(a, p) == At(b, p);
  }

  lemma SameTexts(x: map<string, string>, y: map<string, string>)
    requires forall p :: Find(x, p) == Find(y, p)
    ensures x == y
  {
    forall p ensures p in x <==> p in y { assert Find(x, p) == Find(y, p); }
    forall p | p in x ensures x[p] == y[p] { assert Find(x, p) == Find(y, p); }
  }
}
