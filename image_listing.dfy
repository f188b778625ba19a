/**
  What the store shows: the depth-first listing of `getAllImagesRecursive`,
  the single-directory listing of `getAllImagesInDir`, the 1-based index
  check of view/delete/rename, the effect of delete and rename on the tree,
  and the paging of `listImages`.
*/
module ImageListing {
  import opened Wrappers
  import opened JsString
  import opened FileTree
  import opened Utils
  import opened ImageNames

  /** A listed image: its path below the image directory and its category. */
  datatype Image = Image(path: Path, category: string)

  /** `rel || 'default'`: the relative directory joined with `/`, or
      `default` for files directly in the image directory. */
  function Category(rel: Path): string {
    if rel == [] then DefaultCategory else Join(rel, "/")
  }

  /** The images found below the entries `es` of the directory `rel`, in
      enumeration order, each directory walked where it stands. */
  function ListDir(es: seq<Entry>, rel: Path, keep: string -> bool): seq<Image>
    decreases es
  {
    if es == [] then [] else ListEntry(es[0], rel, keep) + ListDir(es[1..], rel, keep)
  }

  /** The images an entry of the directory `rel` contributes: those below
      it for a directory, itself for a file whose extension is allowed. */
  function ListEntry(e: Entry, rel: Path, keep: string -> bool): seq<Image>
    decreases e
  {
    match e.node
    case Dir(children) => ListDir(children, rel + [e.name], keep)
    case File(_) => if keep(e.name) then [Image(rel + [e.name], Category(rel))] else []
  }

  /** The whole listing of the image directory. */
  function Listing(root: Node, keep: string -> bool): seq<Image> {
    match root
    case Dir(es) => ListDir(es, [], keep)
    case File(_) => []
  }

  /** `scan(dir, rel)`: pushes the images below `es` onto `results`. */
  method Scan(es: seq<Entry>, rel: Path, keep: string -> bool, results: seq<Image>) returns (out: seq<Image>)
    ensures out == results + ListDir(es, rel, keep)
    decreases es
  {
    out := results;
    for i := 0 to |es|
      invariant out + ListDir(es[i..], rel, keep) == results + ListDir(es, rel, keep)
    {
      var item := es[i];
      assert es[i..][0] == item && es[i..][1..] == es[i + 1..];
      assert ListDir(es[i..], rel, keep) == ListEntry(item, rel, keep) + ListDir(es[i + 1..], rel, keep);
      match item.node {
        case Dir(children) =>
          out := Scan(children, rel + [item.name], keep, out);
        case File(_) =>
          if keep(item.name) {
            out := out + [Image(rel + [item.name], Category(rel))];
          }
      }
    }
    assert es[|es|..] == [];
  }

  /** `p` is the path of some listed image. */
  predicate Listed(images: seq<Image>, p: Path) {
    exists k :: 0 <= k < |images| && images[k].path == p
  }

  lemma ChildOfTail(es: seq<Entry>, x: string)
    requires es != [] && es[0].name != x
    ensures Child(es, x) == Child(es[1..], x)
  {
    match Find(es[1..], x)
    case None =>
      assert forall j :: 0 <= j < |es| ==> es[j].name != x by {
        forall j | 1 <= j < |es| ensures es[j].name != x { assert es[j] == es[1..][j - 1]; }
      }
    case Some(k) =>
      assert es[k + 1] == es[1..][k];
      assert forall j :: 0 <= j < k + 1 ==> es[j].name != x by {
        forall j | 1 <= j < k + 1 ensures es[j].name != x { assert es[j] == es[1..][j - 1]; }
      }
      FindIs(es, x, k + 1);
  }

  lemma ChildOfHead(es: seq<Entry>)
    requires es != []
    ensures Child(es, es[0].name) == Some(es[0].node)
  {
    FindIs(es, es[0].name, 0);
  }

  /** A name looked up in the tail of a directory with distinct names is not
      the head's name. */
  lemma TailNameDiffers(es: seq<Entry>, x: string)
    requires es != [] && DistinctNames(es) && Child(es[1..], x).Some?
    ensures es[0].name != x
  {
    var k := Find(es[1..], x).value;
    assert es[1..][k] == es[k + 1];
  }

  /** `img` is a regular file below `rel` in `root` whose extension is
      allowed, and its category names its directory. */
  predicate SoundBelow(root: Node, rel: Path, img: Image, keep: string -> bool) {
    |img.path| > |rel| && img.path[..|rel|] == rel &&
    KindAt(root, img.path[|rel|..]).IsFile? &&
    keep(img.path[|img.path| - 1]) &&
    img.category == Category(img.path[..|img.path| - 1])
  }

  /** Every image listed below `es` is sound. */
  lemma {:induction false} ListDirSound(es: seq<Entry>, rel: Path, keep: string -> bool, k: nat)
    requires WellFormed(Dir(es))
    requires k < |ListDir(es, rel, keep)|
    ensures SoundBelow(Dir(es), rel, ListDir(es, rel, keep)[k], keep)
    decreases es
  {
    var head := ListEntry(es[0], rel, keep);
    var rest := ListDir(es[1..], rel, keep);
    assert ListDir(es, rel, keep) == head + rest;
    if k < |head| {
      HeadSound(es, rel, keep, k);
    } else {
      WellFormedTail(es);
      ListDirSound(es[1..], rel, keep, k - |head|);
      TailSound(es, rel, keep, rest[k - |head|]);
    }
  }

  lemma HeadSound(es: seq<Entry>, rel: Path, keep: string -> bool, k: nat)
    requires es != [] && WellFormed(es[0].node)
    requires k < |ListEntry(es[0], rel, keep)|
    ensures SoundBelow(Dir(es), rel, ListEntry(es[0], rel, keep)[k], keep)
  {
    var img := ListEntry(es[0], rel, keep)[k];
    ListEntrySound(es[0], rel, keep, k);
    SoundFromHead(es, rel, img, keep);
  }

  /** A file below the first entry of a directory is a file below the directory. */
  lemma SoundFromHead(es: seq<Entry>, rel: Path, img: Image, keep: string -> bool)
    requires es != []
    requires |img.path| > |rel| && img.path[..|rel| + 1] == rel + [es[0].name]
    requires KindAt(es[0].node, img.path[|rel| + 1..]).IsFile?
    requires keep(img.path[|img.path| - 1]) && img.category == Category(img.path[..|img.path| - 1])
    ensures SoundBelow(Dir(es), rel, img, keep)
  {
    var q := img.path[|rel|..];
    SliceTail(img.path, |rel|);
    assert q[0] == (rel + [es[0].name])[|rel|];
    assert img.path[..|rel|] == (rel + [es[0].name])[..|rel|];
    ChildOfHead(es);
  }

  lemma SliceTail<T>(s: seq<T>, k: nat)
    requires k < |s|
    ensures s[k..][0] == s[k] && s[k..][1..] == s[k + 1..]
  {
  }

  lemma TailSound(es: seq<Entry>, rel: Path, keep: string -> bool, img: Image)
    requires es != [] && DistinctNames(es)
    requires SoundBelow(Dir(es[1..]), rel, img, keep)
    ensures SoundBelow(Dir(es), rel, img, keep)
  {
    var q := img.path[|rel|..];
    TailNameDiffers(es, q[0]);
    ChildOfTail(es, q[0]);
  }

  lemma WellFormedTail(es: seq<Entry>)
    requires es != [] && WellFormed(Dir(es))
    ensures WellFormed(Dir(es[1..]))
  {
    forall i | 0 <= i < |es[1..]| ensures ValidName(es[1..][i].name) && WellFormed(es[1..][i].node) {
      assert es[1..][i] == es[i + 1];
    }
  }

  /** Every image an entry contributes lies below that entry. */
  lemma {:induction false} ListEntrySound(e: Entry, rel: Path, keep: string -> bool, k: nat)
    requires WellFormed(e.node)
    requires k < |ListEntry(e, rel, keep)|
    ensures var img := ListEntry(e, rel, keep)[k];
      |img.path| > |rel| && img.path[..|rel| + 1] == rel + [e.name] &&
      KindAt(e.node, img.path[|rel| + 1..]).IsFile? &&
      keep(img.path[|img.path| - 1]) &&
      img.category == Category(img.path[..|img.path| - 1])
    decreases e
  {
    match e.node
    case File(_) =>
      var p := rel + [e.name];
      assert p[|rel| + 1..] == [] && p[..|p| - 1] == rel;
    case Dir(children) =>
      ListDirSound(children, rel + [e.name], keep, k);
  }

  /** Every regular file below `es` whose extension is allowed is listed. */
  lemma {:induction false} ListDirComplete(es: seq<Entry>, rel: Path, keep: string -> bool, p: Path)
    requires p != [] && KindAt(Dir(es), p).IsFile? && keep(p[|p| - 1])
    ensures Listed(ListDir(es, rel, keep), rel + p)
    decreases es
  {
    var head := ListEntry(es[0], rel, keep);
    var rest := ListDir(es[1..], rel, keep);
    var L := ListDir(es, rel, keep);
    assert L == head + rest;
    if p[0] == es[0].name {
      ChildOfHead(es);
      ListEntryComplete(es[0], rel, keep, p);
      var k :| 0 <= k < |head| && head[k].path == rel + p;
      assert L[k] == head[k];
    } else {
      ChildOfTail(es, p[0]);
      ListDirComplete(es[1..], rel, keep, p);
      var k :| 0 <= k < |rest| && rest[k].path == rel + p;
      assert L[|head| + k] == rest[k];
    }
  }

  /** Every allowed regular file at or below an entry is listed by it. */
  lemma {:induction false} ListEntryComplete(e: Entry, rel: Path, keep: string -> bool, p: Path)
    requires p != [] && p[0] == e.name && KindAt(e.node, p[1..]).IsFile? && keep(p[|p| - 1])
    ensures Listed(ListEntry(e, rel, keep), rel + p)
    decreases e
  {
    match e.node
    case File(_) =>
      assert p == [e.name];
      assert ListEntry(e, rel, keep)[0].path == rel + p;
    case Dir(children) =>
      assert p[1..] != [];
      assert p[1..][|p[1..]| - 1] == p[|p| - 1];
      ListDirComplete(children, rel + [e.name], keep, p[1..]);
      assert rel + [e.name] + p[1..] == rel + p;
  }

  /** The listing holds exactly the allowed regular files of the store. */
  lemma ListedIff(root: Node, keep: string -> bool, p: Path)
    requires root.Dir? && WellFormed(root)
    ensures Listed(Listing(root, keep), p) <==>
            p != [] && KindAt(root, p).IsFile? && keep(p[|p| - 1])
  {
    var L := Listing(root, keep);
    if Listed(L, p) {
      var k :| 0 <= k < |L| && L[k].path == p;
      ListDirSound(root.entries, [], keep, k);
      assert p[0..] == p;
    }
    if p != [] && KindAt(root, p).IsFile? && keep(p[|p| - 1]) {
      ListDirComplete(root.entries, [], keep, p);
      assert [] + p == p;
    }
  }

  /** Each listed image's category is `default` at the top and its
      directory path joined with `/` below. */
  lemma ListingCategory(root: Node, keep: string -> bool, k: nat)
    requires root.Dir? && WellFormed(root) && k < |Listing(root, keep)|
    ensures var img := Listing(root, keep)[k];
      img.path != [] &&
      img.category == if |img.path| == 1 then DefaultCategory else Join(img.path[..|img.path| - 1], "/")
  {
    ListDirSound(root.entries, [], keep, k);
  }

  /* ------------------------ getAllImagesInDir ------------------------ */

  /** The allowed regular files directly in a directory, in enumeration order. */
  function FilesIn(es: seq<Entry>, dir: Path, keep: string -> bool): seq<Path> {
    if es == [] then []
    else
      (if es[0].node.File? && keep(es[0].name) then [dir + [es[0].name]] else []) +
      FilesIn(es[1..], dir, keep)
  }

  /** `getAllImagesInDir(dir)`: nothing for a missing directory, `None` when
      `dir` is a regular file (`readdirSync` throws), else the allowed
      regular files directly in it. */
  function InDir(root: Node, dir: Path, keep: string -> bool): Option<seq<Path>> {
    match EntriesAt(root, dir)
    case Some(es) => Some(FilesIn(es, dir, keep))
    case None => if Exists(root, dir) then None else Some([])
  }

  lemma {:induction false} KindBelowEntries(n: Node, dir: Path, x: string)
    requires EntriesAt(n, dir).Some?
    ensures KindAt(n, dir) == IsDir
    ensures KindAt(n, dir + [x]).IsFile? <==>
            Child(EntriesAt(n, dir).value, x).Some? && Child(EntriesAt(n, dir).value, x).value.File?
    decreases dir
  {
    if dir != [] {
      var c := Child(n.entries, dir[0]).value;
      assert (dir + [x])[0] == dir[0] && (dir + [x])[1..] == dir[1..] + [x];
      KindBelowEntries(c, dir[1..], x);
    } else {
      assert [] + [x] == [x];
    }
  }

  lemma {:induction false} FilesInIff(es: seq<Entry>, dir: Path, keep: string -> bool, p: Path)
    requires DistinctNames(es)
    ensures p in FilesIn(es, dir, keep) <==>
            |p| == |dir| + 1 && p[..|dir|] == dir &&
            Child(es, p[|dir|]).Some? && Child(es, p[|dir|]).value.File? && keep(p[|dir|])
    decreases es
  {
    if es != [] {
      assert DistinctNames(es[1..]) by {
        forall i, j | 0 <= i < j < |es[1..]| ensures es[1..][i].name != es[1..][j].name {
          assert es[1..][i] == es[i + 1] && es[1..][j] == es[j + 1];
        }
      }
      FilesInIff(es[1..], dir, keep, p);
      ChildOfHead(es);
      if |p| == |dir| + 1 && p[..|dir|] == dir {
        var x := p[|dir|];
        assert p == dir + [x];
        if x != es[0].name {
          ChildOfTail(es, x);
        } else if Child(es[1..], x).Some? {
          TailNameDiffers(es, x);
        }
      }
    }
  }

  /** The single-directory listing holds exactly the allowed regular files
      directly in `dir`. */
  lemma InDirIff(root: Node, dir: Path, keep: string -> bool, p: Path)
    requires root.Dir? && WellFormed(root) && KindAt(root, dir) == IsDir
    ensures InDir(root, dir, keep).Some?
    ensures p in InDir(root, dir, keep).value <==>
            |p| == |dir| + 1 && p[..|dir|] == dir && KindAt(root, p).IsFile? && keep(p[|dir|])
  {
    EntriesOfDir(root, dir);
    var es := EntriesAt(root, dir).value;
    assert InDir(root, dir, keep) == Some(FilesIn(es, dir, keep));
    FilesInOfDir(root, dir, keep, p, es);
  }

  /** A directory that does not exist lists nothing. */
  lemma InDirMissing(root: Node, dir: Path, keep: string -> bool)
    requires !Exists(root, dir)
    ensures InDir(root, dir, keep) == Some([])
  {
    if EntriesAt(root, dir).Some? {
      KindBelowEntries(root, dir, "");
    }
  }

  /** A regular file in the directory's place makes `readdirSync` throw. */
  lemma InDirOnFile(root: Node, dir: Path, keep: string -> bool)
    requires KindAt(root, dir).IsFile?
    ensures InDir(root, dir, keep) == None
  {
    if EntriesAt(root, dir).Some? {
      KindBelowEntries(root, dir, "");
    }
  }

  lemma FilesInOfDir(root: Node, dir: Path, keep: string -> bool, p: Path, es: seq<Entry>)
    requires EntriesAt(root, dir) == Some(es) && DistinctNames(es)
    ensures p in FilesIn(es, dir, keep) <==>
            |p| == |dir| + 1 && p[..|dir|] == dir && KindAt(root, p).IsFile? && keep(p[|dir|])
  {
    FilesInIff(es, dir, keep, p);
    if |p| == |dir| + 1 && p[..|dir|] == dir {
      var x := p[|dir|];
      assert p == dir + [x];
      KindBelowEntries(root, dir, x);
    }
  }

  /** A directory of a well-formed tree has entries with distinct names. */
  lemma {:induction false} EntriesOfDir(n: Node, dir: Path)
    requires WellFormed(n) && KindAt(n, dir) == IsDir
    ensures EntriesAt(n, dir).Some? && DistinctNames(EntriesAt(n, dir).value)
    decreases dir
  {
    if dir != [] {
      var i := Find(n.entries, dir[0]).value;
      EntriesOfDir(n.entries[i].node, dir[1..]);
    }
  }

  /* ---------------------- the 1-based index check ---------------------- */

  /** `allImages[n - 1]` after the range check `index < 0 || index >= length`. */
  function Pick(images: seq<Image>, n: nat): (r: Option<Image>)
    ensures r.Some? <==> 1 <= n <= |images|
    ensures r.Some? ==> r.value == images[n - 1]
  {
    var index := n - 1;
    if index < 0 || index >= |images| then None else Some(images[index])
  }

  /* -------------------------- delete and rename -------------------------- */

  function Parent(p: Path): Path
    requires p != []
  {
    p[..|p| - 1]
  }

  function Base(p: Path): string
    requires p != []
  {
    p[|p| - 1]
  }

  /** `unlinkSync(p)`. */
  function RemoveFile(root: Node, p: Path): Node
    requires p != []
  {
    PutAt(root, Parent(p), Base(p), None)
  }

  lemma {:induction false} ParentOfFileIsDir(n: Node, p: Path)
    requires p != [] && KindAt(n, p).IsFile?
    ensures KindAt(n, Parent(p)) == IsDir
    decreases p
  {
    if |p| > 1 {
      var c := Child(n.entries, p[0]).value;
      ParentOfFileIsDir(c, p[1..]);
      assert Parent(p)[0] == p[0] && Parent(p)[1..] == Parent(p[1..]);
    }
  }

  lemma {:induction false} NothingBelowFile(n: Node, p: Path, q: Path)
    requires KindAt(n, p).IsFile? && IsPrefix(p, q) && q != p
    ensures KindAt(n, q) == Missing
    decreases p
  {
    if p != [] {
      var c := Child(n.entries, p[0]).value;
      assert q[0] == p[0];
      assert IsPrefix(p[1..], q[1..]) && q[1..] != p[1..];
      NothingBelowFile(c, p[1..], q[1..]);
    } else {
      assert q != [];
    }
  }

  lemma SplitPath(p: Path)
    requires p != []
    ensures Parent(p) + [Base(p)] == p
  {
  }

  /** Deleting a file removes that path and changes nothing else. */
  lemma RemoveFileEffect(root: Node, p: Path, q: Path)
    requires WellFormed(root) && p != [] && KindAt(root, p).IsFile?
    ensures WellFormed(RemoveFile(root, p))
    ensures KindAt(RemoveFile(root, p), q) == if q == p then Missing else KindAt(root, q)
  {
    ParentOfFileIsDir(root, p);
    PutAtKind(root, Parent(p), Base(p), None, q);
    PutAtWellFormed(root, Parent(p), Base(p), None);
    SplitPath(p);
    if IsPrefix(p, q) && q != p {
      NothingBelowFile(root, p, q);
    }
  }

  /** Deleting the `n`-th listed image unlists exactly that image. */
  lemma DeleteUnlists(root: Node, keep: string -> bool, n: nat, q: Path)
    requires root.Dir? && WellFormed(root)
    requires Pick(Listing(root, keep), n).Some?
    ensures var p := Pick(Listing(root, keep), n).value.path;
      p != [] && RemoveFile(root, p).Dir? && WellFormed(RemoveFile(root, p)) &&
      (Listed(Listing(RemoveFile(root, p), keep), q) <==> Listed(Listing(root, keep), q) && q != p)
  {
    var L := Listing(root, keep);
    var p := L[n - 1].path;
    assert Listed(L, p);
    ListedIff(root, keep, p);
    RemoveFileEffect(root, p, q);
    var root' := RemoveFile(root, p);
    ParentOfFileIsDir(root, p);
    ListedIff(root', keep, q);
    ListedIff(root, keep, q);
  }

  /** `renameImage`'s new file name: the sanitised new name followed by the
      old file's extension, letter case kept. */
  function RenamedName(oldName: string, newName: string, now: nat): string {
    SanitizeName(newName, now) + ExtName(oldName)
  }

  /** `existsSync(path.join(dir, safeName))`: `.` and `..` name the directory
      itself and its parent, which always exist. */
  predicate Taken(root: Node, dir: Path, safeName: string) {
    safeName == "." || safeName == ".." || Exists(root, dir + [safeName])
  }

  /** `renameSync(p, dir/safeName)`: the file leaves its old name and
      appears under the new one, in the same directory. */
  function MoveFile(root: Node, p: Path, data: seq<byte>, safeName: string): Node
    requires p != []
  {
    PutAt(RemoveFile(root, p), Parent(p), safeName, Some(File(data)))
  }

  /** A renamed file keeps its extension. */
  lemma RenamedNameKeepsExtension(oldName: string, newName: string, now: nat)
    requires ExtName(oldName) != "" && RenamedName(oldName, newName, now) != ".."
    ensures ExtName(RenamedName(oldName, newName, now)) == ExtName(oldName)
  {
    ExtNameOf(SanitizeName(newName, now), ExtName(oldName));
  }

  /** Renaming a file to the name it already has is refused as taken, so it
      changes nothing. */
  lemma RenameToOwnNameRefused(root: Node, p: Path, newName: string, now: nat)
    requires p != [] && KindAt(root, p).IsFile?
    requires RenamedName(Base(p), newName, now) == Base(p)
    ensures Taken(root, Parent(p), RenamedName(Base(p), newName, now))
  {
    SplitPath(p);
  }

  /** A free new name is a valid single segment. */
  lemma RenamedNameIsValid(oldName: string, newName: string, now: nat)
    requires ValidName(oldName) && RenamedName(oldName, newName, now) != "." && RenamedName(oldName, newName, now) != ".."
    ensures ValidName(RenamedName(oldName, newName, now))
  {
    var s := SanitizeName(newName, now);
    var e := ExtName(oldName);
    NoHazardNoSlash(s);
    SuffixNoSlash(oldName, |oldName| - |e|);
    NoSlashConcat(s, e);
  }

  lemma NoHazardNoSlash(s: string)
    requires NoHazard(s)
    ensures NoSlash(s)
  {
    forall i | 0 <= i < |s| ensures s[i] != '/' {
      assert !IsHazard(s[i]);
    }
  }

  lemma SuffixNoSlash(s: string, k: nat)
    requires NoSlash(s) && k <= |s|
    ensures NoSlash(s[k..])
  {
    forall i | 0 <= i < |s| - k ensures s[k..][i] != '/' {
      assert s[k..][i] == s[k + i];
    }
  }

  lemma NoSlashConcat(a: string, b: string)
    requires NoSlash(a) && NoSlash(b)
    ensures NoSlash(a + b)
  {
    forall i | 0 <= i < |a + b| ensures (a + b)[i] != '/' {
      if i >= |a| { assert (a + b)[i] == b[i - |a|]; }
    }
  }

  /** Renaming to a free name moves the content to the new path and changes
      nothing else. */
  lemma MoveFileEffect(root: Node, p: Path, safeName: string, q: Path)
    requires WellFormed(root) && p != [] && KindAt(root, p).IsFile? && ValidName(safeName)
    requires !Exists(root, Parent(p) + [safeName])
    ensures WellFormed(MoveFile(root, p, KindAt(root, p).data, safeName))
    ensures KindAt(MoveFile(root, p, KindAt(root, p).data, safeName), q) ==
            if q == Parent(p) + [safeName] then KindAt(root, p)
            else if q == p then Missing
            else KindAt(root, q)
  {
    var data := KindAt(root, p).data;
    var mid := RemoveFile(root, p);
    var target := Parent(p) + [safeName];
    ParentOfFileIsDir(root, p);
    RemoveFileEffect(root, p, q);
    RemoveFileEffect(root, p, Parent(p));
    PutAtKind(mid, Parent(p), safeName, Some(File(data)), q);
    PutAtWellFormed(mid, Parent(p), safeName, Some(File(data)));
    if IsPrefix(target, q) && q != target {
      RemoveFileEffect(root, p, target);
      assert target != p;
      NothingBelowMissing(root, target, q);
    }
  }

  lemma {:induction false} NothingBelowMissing(n: Node, p: Path, q: Path)
    requires KindAt(n, p) == Missing && IsPrefix(p, q)
    ensures KindAt(n, q) == Missing
    decreases p
  {
    if p != [] && n.Dir? {
      assert q[0] == p[0] && IsPrefix(p[1..], q[1..]);
      match Child(n.entries, p[0])
      case None =>
      case Some(c) => NothingBelowMissing(c, p[1..], q[1..]);
    }
  }

  /* ------------------------------ paging ------------------------------ */

  const ChunkSize: nat := 20

  /** One line of `listImages`: `n. 【category】file`. */
  function Line(i: nat, img: Image): string {
    Radix(i + 1, 10) + ". 【" + img.category + "】" + (if img.path == [] then "" else Base(img.path))
  }

  function Lines(images: seq<Image>): (r: seq<string>)
    ensures |r| == |images|
  {
    seq(|images|, i requires 0 <= i < |images| => Line(i, images[i]))
  }

  /** The heading of the first reply. */
  function Header(count: nat): string {
    "\U{1F4CA} 图库共 " + Radix(count, 10) + " 张图片：\n"
  }

  /** The number of replies for `n` lines. */
  function PageCount(n: nat): nat {
    (n + ChunkSize - 1) / ChunkSize
  }

  /** `list.slice(i, i + chunkSize)` for the `p`-th reply. */
  function Chunk<T>(lines: seq<T>, p: nat): (r: seq<T>)
    requires p < PageCount(|lines|)
    ensures 0 < |r| <= ChunkSize
  {
    var start := p * ChunkSize;
    lines[start..if start + ChunkSize <= |lines| then start + ChunkSize else |lines|]
  }

  function Concat<T>(chunks: seq<seq<T>>): seq<T> {
    if chunks == [] then [] else chunks[0] + Concat(chunks[1..])
  }

  function Chunks<T>(lines: seq<T>): (r: seq<seq<T>>)
    ensures |r| == PageCount(|lines|)
  {
    seq(PageCount(|lines|), p requires 0 <= p < PageCount(|lines|) => Chunk(lines, p))
  }

  /** The pages cover every line once, in order. */
  lemma {:induction false} ChunksCover<T>(lines: seq<T>)
    ensures Concat(Chunks(lines)) == lines
    decreases |lines|
  {
    if lines != [] {
      var cs := Chunks(lines);
      if |lines| <= ChunkSize {
        assert PageCount(|lines|) == 1;
        assert cs[0] == lines[0..|lines|] == lines;
        assert cs[1..] == [];
      } else {
        var rest := lines[ChunkSize..];
        ChunksCover(rest);
        assert PageCount(|rest|) == PageCount(|lines|) - 1;
        assert cs[0] == lines[..ChunkSize];
        assert cs[1..] == Chunks(rest) by {
          forall p | 0 <= p < |cs| - 1 ensures cs[1..][p] == Chunks(rest)[p] {
            ChunkShift(lines, p);
          }
        }
      }
    }
  }

  /** Page `p + 1` of the lines is page `p` of the lines after the first page. */
  lemma ChunkShift<T>(lines: seq<T>, p: nat)
    requires |lines| > ChunkSize && p + 1 < PageCount(|lines|)
    ensures p < PageCount(|lines| - ChunkSize)
    ensures Chunk(lines, p + 1) == Chunk(lines[ChunkSize..], p)
  {
    var n := |lines|;
    var rest := lines[ChunkSize..];
    var a := (p + 1) * ChunkSize;
    var b := if a + ChunkSize <= n then a + ChunkSize else n;
    var a' := p * ChunkSize;
    var b' := if a' + ChunkSize <= n - ChunkSize then a' + ChunkSize else n - ChunkSize;
    assert a == a' + ChunkSize && b == b' + ChunkSize;
    assert Chunk(lines, p + 1) == lines[a..b];
    assert Chunk(rest, p) == rest[a'..b'];
    assert rest[a'..b'] == lines[a..b] by {
      forall i | 0 <= i < b' - a' ensures rest[a'..b'][i] == lines[a..b][i] {
        assert rest[a' + i] == lines[a + i];
      }
    }
  }

  /** The `p`-th reply of `listImages` for a non-empty store. */
  function Page(images: seq<Image>, p: nat): string
    requires p < PageCount(|images|)
  {
    (if p == 0 then Header(|images|) else "") + Join(Chunk(Lines(images), p), "\n")
  }
}
