/**
  The image directory as a tree. A directory holds its entries in the order
  `readdir` enumerates them; a file holds its bytes. Paths are sequences of
  names relative to the image directory (`path.join` of the segments).
  Every filesystem call of the store is a function over this tree:
  `existsSync`/`statSync` read `KindAt`, `writeFileSync`, `unlinkSync` and
  `renameSync` are `PutAt` edits, and `mkdirSync(dir, { recursive: true })`
  is `MakeDirs`.
*/
module FileTree {
  import opened Wrappers

  type byte = b: int | 0 <= b < 256
  type Path = seq<string>

  datatype Node = File(data: seq<byte>) | Dir(entries: seq<Entry>)
  datatype Entry = Entry(name: string, node: Node)

  /** What a path names: nothing, a regular file with its content, or a directory. */
  datatype Kind = Missing | IsFile(data: seq<byte>) | IsDir

  predicate NoSlash(s: string) {
    forall i :: 0 <= i < |s| ==> s[i] != '/'
  }

  /** A name `readdir` can report: not empty, not `.` or `..`, no `/`. */
  predicate ValidName(s: string) {
    |s| > 0 && s != "." && s != ".." && NoSlash(s)
  }

  predicate DistinctNames(es: seq<Entry>) {
    forall i, j :: 0 <= i < j < |es| ==> es[i].name != es[j].name
  }

  /** Names within a directory are distinct and valid, at every level. */
  predicate WellFormed(n: Node)
    decreases n
  {
    match n
    case File(_) => true
    case Dir(es) =>
      DistinctNames(es) &&
      (forall i :: 0 <= i < |es| ==> ValidName(es[i].name) && WellFormed(es[i].node))
  }

  predicate IsPrefix(a: Path, b: Path) {
    |a| <= |b| && b[..|a|] == a
  }

  /** The position of the entry called `name`, searching from `from`. */
  function FindFrom(es: seq<Entry>, name: string, from: nat): (r: Option<nat>)
    decreases |es| - from
    ensures r.Some? ==> from <= r.value < |es| && es[r.value].name == name
    ensures r.Some? ==> forall j :: from <= j < r.value ==> es[j].name != name
    ensures r.None? ==> forall j :: from <= j < |es| ==> es[j].name != name
  {
    if from >= |es| then None
    else if es[from].name == name then Some(from)
    else FindFrom(es, name, from + 1)
  }

  function Find(es: seq<Entry>, name: string): (r: Option<nat>)
    ensures r.Some? ==> r.value < |es| && es[r.value].name == name
    ensures r.Some? ==> forall j :: 0 <= j < r.value ==> es[j].name != name
    ensures r.None? ==> forall j :: 0 <= j < |es| ==> es[j].name != name
  {
    FindFrom(es, name, 0)
  }

  /** The node a directory holds under `name`. */
  function Child(es: seq<Entry>, name: string): Option<Node> {
    match Find(es, name)
    case Some(i) => Some(es[i].node)
    case None => None
  }

  /** What `p` names in the tree `n`. */
  function KindAt(n: Node, p: Path): Kind
    decreases p
  {
    if p == [] then (match n case File(d) => IsFile(d) case Dir(_) => IsDir)
    else match n
      case File(_) => Missing
      case Dir(es) =>
        match Child(es, p[0])
        case None => Missing
        case Some(c) => KindAt(c, p[1..])
  }

  /** `fs.existsSync`. */
  predicate Exists(n: Node, p: Path) {
    KindAt(n, p) != Missing
  }

  /** The entries of the directory at `dir`, if `dir` is a directory. */
  function EntriesAt(n: Node, dir: Path): Option<seq<Entry>>
    decreases dir
  {
    match n
    case File(_) => None
    case Dir(es) =>
      if dir == [] then Some(es)
      else match Child(es, dir[0])
        case None => None
        case Some(c) => EntriesAt(c, dir[1..])
  }

  /** The names present in the directory `dir` (none when it is not one). */
  function NamesAt(n: Node, dir: Path): set<string> {
    match EntriesAt(n, dir)
    case None => {}
    case Some(es) => set i | 0 <= i < |es| :: es[i].name
  }

  /** Whatever `dir + [name]` names lies among the entries of `dir`. */
  lemma {:induction false} ExistsInNames(n: Node, dir: Path, name: string)
    requires Exists(n, dir + [name])
    ensures name in NamesAt(n, dir)
    decreases dir
  {
    var p := dir + [name];
    match n
    case File(_) =>
    case Dir(es) =>
      if dir == [] {
        var i := Find(es, name).value;
        assert es[i].name in NamesAt(n, dir);
      } else {
        assert p[0] == dir[0] && p[1..] == dir[1..] + [name];
        ExistsInNames(Child(es, dir[0]).value, dir[1..], name);
      }
  }

  /* ------------------------------ edits ------------------------------ */

  /** Puts `child` under `name` in the entry list (replacing an entry of that
      name in place, or appending), or removes the entry when `child` is
      `None`. */
  function SetEntry(es: seq<Entry>, name: string, child: Option<Node>): seq<Entry> {
    match Find(es, name)
    case Some(i) =>
      (match child case Some(c) => es[i := Entry(name, c)] case None => es[..i] + es[i + 1..])
    case None =>
      (match child case Some(c) => es + [Entry(name, c)] case None => es)
  }

  /** Sets entry `name` of the directory at `dir` to `child` (`None` deletes
      it); the tree is unchanged when `dir` is not a directory. */
  function PutAt(n: Node, dir: Path, name: string, child: Option<Node>): Node
    decreases dir
  {
    match n
    case File(_) => n
    case Dir(es) =>
      if dir == [] then Dir(SetEntry(es, name, child))
      else match Find(es, dir[0])
        case None => n
        case Some(i) => Dir(es[i := Entry(dir[0], PutAt(es[i].node, dir[1..], name, child))])
  }

  lemma FindIs(es: seq<Entry>, x: string, k: nat)
    requires k < |es| && es[k].name == x
    requires forall j :: 0 <= j < k ==> es[j].name != x
    ensures Find(es, x) == Some(k)
  {
  }

  /** Replacing nodes without renaming keeps every lookup position. */
  lemma FindSameNames(es: seq<Entry>, es': seq<Entry>, x: string)
    requires |es| == |es'| && forall j :: 0 <= j < |es| ==> es[j].name == es'[j].name
    ensures Find(es', x) == Find(es, x)
  {
    match Find(es, x)
    case None =>
    case Some(k) => FindIs(es', x, k);
  }

  /** Appending an entry of another name keeps every lookup. */
  lemma FindAppend(es: seq<Entry>, e: Entry, x: string)
    ensures Find(es + [e], x) == if Find(es, x).None? && e.name == x then Some(|es|) else Find(es, x)
  {
    var es' := es + [e];
    match Find(es, x)
    case None =>
      if e.name == x { FindIs(es', x, |es|); }
    case Some(k) => FindIs(es', x, k);
  }

  lemma ChildOfSetEntry(es: seq<Entry>, name: string, child: Option<Node>, x: string)
    requires DistinctNames(es)
    ensures Child(SetEntry(es, name, child), x) == if x == name then child else Child(es, x)
  {
    var es' := SetEntry(es, name, child);
    match Find(es, name)
    case Some(i) =>
      if child.None? {
        ChildOfRemove(es, i, x);
      } else {
        FindSameNames(es, es', x);
      }
    case None =>
      if child.Some? {
        FindAppend(es, Entry(name, child.value), x);
      }
  }

  /** Removing the entry at `i` hides its name and keeps every other lookup. */
  lemma ChildOfRemove(es: seq<Entry>, i: nat, x: string)
    requires DistinctNames(es) && i < |es|
    ensures Child(es[..i] + es[i + 1..], x) == if x == es[i].name then None else Child(es, x)
  {
    var es' := es[..i] + es[i + 1..];
    assert forall j :: 0 <= j < |es'| ==> es'[j] == if j < i then es[j] else es[j + 1];
    if x != es[i].name {
      match Find(es, x)
      case None =>
      case Some(k) =>
        var k' := if k < i then k else k - 1;
        FindIs(es', x, k');
    }
  }

  lemma ChildOfUpdate(es: seq<Entry>, i: nat, m: Node, x: string)
    requires i < |es| && Find(es, es[i].name) == Some(i)
    ensures Child(es[i := Entry(es[i].name, m)], x) == if x == es[i].name then Some(m) else Child(es, x)
  {
    FindSameNames(es, es[i := Entry(es[i].name, m)], x);
  }

  /** The frame of an edit: below `dir + [name]` the tree now shows `child`;
      everywhere else it shows what it showed before. */
  lemma {:induction false} PutAtKind(n: Node, dir: Path, name: string, child: Option<Node>, q: Path)
    requires WellFormed(n) && KindAt(n, dir) == IsDir
    ensures KindAt(PutAt(n, dir, name, child), q) ==
            if IsPrefix(dir + [name], q) then
              (match child case None => Missing case Some(c) => KindAt(c, q[|dir| + 1..]))
            else KindAt(n, q)
    decreases dir
  {
    var es := n.entries;
    var n' := PutAt(n, dir, name, child);
    if q != [] {
      if dir == [] {
        ChildOfSetEntry(es, name, child, q[0]);
        assert IsPrefix(dir + [name], q) <==> q[0] == name;
      } else {
        var i := Find(es, dir[0]).value;
        var sub := es[i].node;
        ChildOfUpdate(es, i, PutAt(sub, dir[1..], name, child), q[0]);
        assert es[i := Entry(dir[0], PutAt(sub, dir[1..], name, child))] == n'.entries;
        if q[0] == dir[0] {
          PutAtKind(sub, dir[1..], name, child, q[1..]);
          assert (dir + [name])[1..] == dir[1..] + [name];
          assert IsPrefix(dir + [name], q) <==> IsPrefix(dir[1..] + [name], q[1..]);
          if IsPrefix(dir + [name], q) {
            assert q[|dir| + 1..] == q[1..][|dir[1..]| + 1..];
          }
        } else {
          assert !IsPrefix(dir + [name], q) by { assert (dir + [name])[0] != q[0]; }
        }
      }
    }
  }

  /** An edit that puts a well-formed node under a valid name keeps the
      tree well formed. */
  lemma {:induction false} PutAtWellFormed(n: Node, dir: Path, name: string, child: Option<Node>)
    requires WellFormed(n)
    requires child.Some? ==> ValidName(name) && WellFormed(child.value)
    ensures WellFormed(PutAt(n, dir, name, child))
    decreases dir
  {
    match n
    case File(_) =>
    case Dir(es) =>
      if dir == [] {
        SetEntryWellFormed(es, name, child);
      } else {
        match Find(es, dir[0])
        case None =>
        case Some(i) =>
          PutAtWellFormed(es[i].node, dir[1..], name, child);
          UpdateWellFormed(es, i, PutAt(es[i].node, dir[1..], name, child));
      }
  }

  lemma SetEntryWellFormed(es: seq<Entry>, name: string, child: Option<Node>)
    requires WellFormed(Dir(es))
    requires child.Some? ==> ValidName(name) && WellFormed(child.value)
    ensures WellFormed(Dir(SetEntry(es, name, child)))
  {
    var es' := SetEntry(es, name, child);
    match Find(es, name)
    case Some(i) =>
      if child.None? {
        assert forall j :: 0 <= j < |es'| ==> es'[j] == if j < i then es[j] else es[j + 1];
      }
    case None =>
  }

  lemma UpdateWellFormed(es: seq<Entry>, i: nat, m: Node)
    requires WellFormed(Dir(es)) && i < |es| && WellFormed(m)
    ensures WellFormed(Dir(es[i := Entry(es[i].name, m)]))
  {
  }

  /* ----------------------------- mkdir -p ----------------------------- */

  /** A chain of fresh, empty-ended directories along `dir`. */
  function NewDirs(dir: Path): (r: Node)
    ensures r.Dir?
    decreases dir
  {
    if dir == [] then Dir([]) else Dir([Entry(dir[0], NewDirs(dir[1..]))])
  }

  /** `mkdirSync(dir, { recursive: true })`: creates the missing directories
      along `dir`; `None` when a step of the way is a regular file (the call
      throws). */
  function MakeDirs(n: Node, dir: Path): Option<Node>
    decreases dir
  {
    match n
    case File(_) => None
    case Dir(es) =>
      if dir == [] then Some(n)
      else match Find(es, dir[0])
        case None => Some(Dir(es + [Entry(dir[0], NewDirs(dir[1..]))]))
        case Some(i) =>
          match MakeDirs(es[i].node, dir[1..])
          case None => None
          case Some(m) => Some(Dir(es[i := Entry(dir[0], m)]))
  }

  /** Some prefix of `dir` (itself included) names a regular file. */
  predicate FileOnPath(n: Node, dir: Path) {
    exists k :: 0 <= k <= |dir| && KindAt(n, dir[..k]).IsFile?
  }

  lemma {:induction false} NewDirsKind(dir: Path, q: Path)
    ensures KindAt(NewDirs(dir), q) == if IsPrefix(q, dir) then IsDir else Missing
    decreases dir
  {
    if q != [] && dir != [] {
      if q[0] == dir[0] {
        NewDirsKind(dir[1..], q[1..]);
        assert IsPrefix(q, dir) <==> IsPrefix(q[1..], dir[1..]);
      }
    }
  }

  /** `mkdir -p` fails exactly when a regular file stands on the way; when
      it succeeds every prefix of `dir` is a directory and every other path
      names what it named before. */
  lemma {:induction false} MakeDirsKind(n: Node, dir: Path, q: Path)
    requires WellFormed(n)
    ensures MakeDirs(n, dir).None? <==> FileOnPath(n, dir)
    ensures MakeDirs(n, dir).Some? ==>
              KindAt(MakeDirs(n, dir).value, q) == if IsPrefix(q, dir) then IsDir else KindAt(n, q)
    decreases dir
  {
    match n
    case File(_) =>
      assert KindAt(n, dir[..0]).IsFile?;
    case Dir(es) =>
      if dir == [] {
        assert !FileOnPath(n, dir) by {
          forall k | 0 <= k <= |dir| ensures !KindAt(n, dir[..k]).IsFile? { assert dir[..k] == []; }
        }
      } else {
        var d := dir[0];
        match Find(es, d)
        case None =>
          var m := Dir(es + [Entry(d, NewDirs(dir[1..]))]);
          assert !FileOnPath(n, dir) by {
            forall k | 0 <= k <= |dir| ensures !KindAt(n, dir[..k]).IsFile? {
              if k > 0 { assert dir[..k][0] == d; }
            }
          }
          FindAppend(es, Entry(d, NewDirs(dir[1..])), if q != [] then q[0] else d);
          if q != [] {
            if q[0] == d {
              NewDirsKind(dir[1..], q[1..]);
              assert IsPrefix(q, dir) <==> IsPrefix(q[1..], dir[1..]);
            } else {
              assert !IsPrefix(q, dir);
            }
          }
        case Some(i) =>
          var sub := es[i].node;
          MakeDirsKind(sub, dir[1..], if q != [] then q[1..] else []);
          assert FileOnPath(n, dir) <==> FileOnPath(sub, dir[1..]) by {
            forall k | 1 <= k <= |dir|
              ensures KindAt(n, dir[..k]) == KindAt(sub, dir[1..][..k - 1])
            {
              assert dir[..k][0] == d && dir[..k][1..] == dir[1..][..k - 1];
            }
            if FileOnPath(n, dir) {
              var k :| 0 <= k <= |dir| && KindAt(n, dir[..k]).IsFile?;
              assert k >= 1;
              assert KindAt(sub, dir[1..][..k - 1]).IsFile?;
            }
            if FileOnPath(sub, dir[1..]) {
              var k :| 0 <= k <= |dir[1..]| && KindAt(sub, dir[1..][..k]).IsFile?;
              assert KindAt(n, dir[..k + 1]).IsFile?;
            }
          }
          if MakeDirs(sub, dir[1..]).Some? {
            var m := MakeDirs(sub, dir[1..]).value;
            ChildOfUpdate(es, i, m, if q != [] then q[0] else d);
            if q != [] && q[0] == d {
              assert IsPrefix(q, dir) <==> IsPrefix(q[1..], dir[1..]);
            } else if q != [] {
              assert !IsPrefix(q, dir);
            }
          }
      }
  }

  lemma {:induction false} NewDirsWellFormed(dir: Path)
    requires forall i :: 0 <= i < |dir| ==> ValidName(dir[i])
    ensures WellFormed(NewDirs(dir))
    decreases dir
  {
    if dir != [] {
      NewDirsWellFormed(dir[1..]);
    }
  }

  /** Creating directories with valid names keeps the tree well formed. */
  lemma {:induction false} MakeDirsWellFormed(n: Node, dir: Path)
    requires WellFormed(n)
    requires forall i :: 0 <= i < |dir| ==> ValidName(dir[i])
    ensures MakeDirs(n, dir).Some? ==> WellFormed(MakeDirs(n, dir).value)
    decreases dir
  {
    match n
    case File(_) =>
    case Dir(es) =>
      if dir != [] {
        match Find(es, dir[0])
        case None => NewDirsWellFormed(dir[1..]);
        case Some(i) => MakeDirsWellFormed(es[i].node, dir[1..]);
      }
  }
}
