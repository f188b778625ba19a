/**
  File names in the image store: Node's `path.extname` on a single name,
  the extension filter `isValidImage`, the `\.[^/.]+$` stripping of the
  save loop, and the collision-avoiding choice of a new file name.
*/
module ImageNames {
  import opened Wrappers
  import opened JsString
  import opened FileTree
  import opened Utils
  import opened ImageFormat

  /** The position of the last `.` in `s`. */
  function LastDot(s: string): (r: Option<nat>)
    ensures r.Some? ==> r.value < |s| && s[r.value] == '.'
    ensures r.Some? ==> forall i :: r.value < i < |s| ==> s[i] != '.'
    ensures r.None? ==> forall i :: 0 <= i < |s| ==> s[i] != '.'
  {
    if s == [] then None
    else if s[|s| - 1] == '.' then Some(|s| - 1)
    else LastDot(s[..|s| - 1])
  }

  /** `path.extname` of a name without `/`: from the last dot on, unless
      there is no dot, the only dot leads the name, or the name is `..`. */
  function ExtName(s: string): (r: string)
    ensures r == [] || (|r| < |s| && r == s[|s| - |r|..] && r[0] == '.')
    ensures forall i :: 1 <= i < |r| ==> r[i] != '.'
  {
    match LastDot(s)
    case None => ""
    case Some(k) => if k == 0 || s == ".." then "" else s[k..]
  }

  /** A stem followed by a dot-extension has that extension. */
  lemma ExtNameOf(stem: string, ext: string)
    requires stem != [] && stem + ext != ".."
    requires |ext| > 0 && ext[0] == '.' && forall i :: 1 <= i < |ext| ==> ext[i] != '.'
    ensures ExtName(stem + ext) == ext
  {
    var s := stem + ext;
    var k := LastDot(s).value;
    assert s[|stem|] == '.';
    assert k == |stem|;
    assert s[k..] == ext;
  }

  /** `.replace('.', '')`: the first dot removed. */
  function DropFirstDot(s: string): (r: string)
    ensures IndexOfFrom(s, '.', 0).None? ==> r == s
  {
    match IndexOfFrom(s, '.', 0)
    case None => s
    case Some(k) => s[..k] + s[k + 1..]
  }

  /** The extension tag `isValidImage` compares: lower-cased, without its dot. */
  function ExtTag(name: string): string {
    DropFirstDot(LowerAscii(ExtName(name)))
  }

  /** `isValidImage`: the tag is one of the allowed types. */
  predicate IsValidImage(name: string, allowed: seq<string>) {
    ExtTag(name) in allowed
  }

  /** `isValidImage` as a filter over names, for the listings. */
  function ValidFor(allowed: seq<string>): string -> bool {
    name => IsValidImage(name, allowed)
  }

  /** The tag of a name is its extension without the dot, lower-cased, and
      empty when the name has no extension. */
  lemma ExtTagIs(name: string)
    ensures ExtName(name) == "" ==> ExtTag(name) == ""
    ensures ExtName(name) != "" ==> ExtTag(name) == LowerAscii(ExtName(name)[1..])
  {
    var e := LowerAscii(ExtName(name));
    if ExtName(name) != "" {
      assert IndexOfFrom(e, '.', 0) == Some(0);
      assert e[1..] == LowerAscii(ExtName(name)[1..]);
    }
  }

  /** The tag of `stem + ext` is the extension, lower-cased, without its dot. */
  lemma ExtTagOf(stem: string, ext: string)
    requires stem != [] && stem + ext != ".."
    requires |ext| > 0 && ext[0] == '.' && forall i :: 1 <= i < |ext| ==> ext[i] != '.'
    ensures ExtTag(stem + ext) == LowerAscii(ext)[1..]
  {
    ExtNameOf(stem, ext);
    var e := LowerAscii(ext);
    assert e[0] == '.';
    assert IndexOfFrom(e, '.', 0) == Some(0);
    assert e[..0] + e[1..] == e[1..];
  }

  /** The whitelist ignores the letter case of the extension. */
  lemma IsValidImageIgnoresCase(stem: string, ext1: string, ext2: string, allowed: seq<string>)
    requires stem != [] && stem + ext1 != ".." && stem + ext2 != ".."
    requires |ext1| > 0 && ext1[0] == '.' && forall i :: 1 <= i < |ext1| ==> ext1[i] != '.'
    requires |ext2| > 0 && ext2[0] == '.' && forall i :: 1 <= i < |ext2| ==> ext2[i] != '.'
    requires LowerAscii(ext1) == LowerAscii(ext2)
    ensures IsValidImage(stem + ext1, allowed) <==> IsValidImage(stem + ext2, allowed)
  {
    ExtTagOf(stem, ext1);
    ExtTagOf(stem, ext2);
  }

  /** `name.replace(/\.[^/.]+$/, '')`: drops a final dot-extension that has
      at least one character and no `/`. */
  function StripExt(s: string): (r: string)
    ensures r == s || (|r| < |s| && r == s[..|r|] && s[|r|] == '.')
  {
    match LastDot(s)
    case None => s
    case Some(k) =>
      if k + 1 < |s| && forall i :: k < i < |s| ==> s[i] != '/' then s[..k] else s
  }

  /** The save loop strips exactly the extension it appended. */
  lemma StripExtOf(stem: string, f: Format)
    ensures StripExt(stem + Ext(f)) == stem
  {
    var s := stem + Ext(f);
    var k := LastDot(s).value;
    assert s[|stem|] == '.';
    assert k == |stem|;
    assert s[..k] == stem;
  }

  /** The name of a new file before collisions are considered: the
      sanitised custom name when one is given and not empty, else the
      default timestamp name. */
  function BaseName(customName: Option<string>, now: nat): (r: string)
    ensures r != [] && NoHazard(r)
  {
    if customName.Some? && customName.value != "" then SanitizeName(customName.value, now)
    else
      var d := GenerateDefaultName(now);
      assert forall i :: 3 <= i < |d| ==> IsDigitChar(d[i]);
      d
  }

  /** The `k`-th name the save loop tries: `base + ext` first, then
      `base_1 + ext`, `base_2 + ext`, ... */
  function Candidate(base: string, k: nat, ext: string): string {
    Stem(base, k) + ext
  }

  /** The candidate without its extension: `base`, then `base_1`, `base_2`, ... */
  function Stem(base: string, k: nat): (r: string)
    ensures |r| >= |base| && r[..|base|] == base
  {
    if k == 0 then base else base + "_" + Radix(k, 10)
  }

  /** Distinct attempts are distinct names, so the loop never retries one. */
  lemma CandidateInjective(base: string, j: nat, k: nat, ext: string)
    requires Candidate(base, j, ext) == Candidate(base, k, ext)
    ensures j == k
  {
    var sj, sk := Stem(base, j), Stem(base, k);
    assert |sj| == |sk|;
    assert sj == Candidate(base, j, ext)[..|sj|];
    assert sk == Candidate(base, k, ext)[..|sk|];
    if j != 0 && k != 0 {
      var rj, rk := Radix(j, 10), Radix(k, 10);
      assert rj == sj[|base| + 1..];
      assert rk == sk[|base| + 1..];
      RadixInjective(j, k, 10);
    }
  }

  /** Every candidate is a valid single path segment. */
  lemma CandidateIsValidName(base: string, k: nat, f: Format)
    requires base != [] && NoHazard(base)
    ensures ValidName(Candidate(base, k, Ext(f)))
  {
    var stem := Stem(base, k);
    var e := Ext(f);
    var c := stem + e;
    forall i | 0 <= i < |c| ensures c[i] != '/' {
      if i < |base| {
        assert c[i] == base[i] && !IsHazard(base[i]);
      } else if i >= |stem| {
        assert c[i] == e[i - |stem|];
      } else if i > |base| {
        assert c[i] == Radix(k, 10)[i - |base| - 1];
      }
    }
  }

  /** Every candidate ends in the format's extension, so a whitelist naming
      the format lists the saved file. */
  lemma CandidateIsImageName(base: string, k: nat, f: Format, allowed: seq<string>)
    requires base != []
    ensures ExtName(Candidate(base, k, Ext(f))) == Ext(f)
    ensures IsValidImage(Candidate(base, k, Ext(f)), allowed) <==> Ext(f)[1..] in allowed
  {
    var stem := Stem(base, k);
    var e := Ext(f);
    assert |stem + e| > 2;
    ExtNameOf(stem, e);
    ExtTagOf(stem, e);
    ExtIsLower(f);
  }

  lemma ExtIsLower(f: Format)
    ensures LowerAscii(Ext(f)) == Ext(f)
  {
    var e := Ext(f);
    forall i | 0 <= i < |e| ensures LowerAscii(e)[i] == e[i] {
      if i > 0 { assert 'a' <= e[i] <= 'z'; }
    }
  }

  /** The names tried before the `c`-th attempt. */
  function Tried(base: string, c: nat, ext: string): set<string> {
    set j | 0 <= j < c :: Candidate(base, j, ext)
  }

  /** The first `c` candidates are `c` different names. */
  lemma {:induction false} TriedSize(base: string, c: nat, ext: string)
    ensures |Tried(base, c, ext)| == c
  {
    if c > 0 {
      TriedSize(base, c - 1, ext);
      var name := Candidate(base, c - 1, ext);
      assert name !in Tried(base, c - 1, ext) by {
        if name in Tried(base, c - 1, ext) {
          var j :| 0 <= j < c - 1 && Candidate(base, j, ext) == name;
          CandidateInjective(base, j, c - 1, ext);
        }
      }
      assert Tried(base, c, ext) == Tried(base, c - 1, ext) + {name};
    }
  }

  /** A finite set of names holds no more candidates than it has members. */
  lemma CandidatesBound(base: string, c: nat, ext: string, names: set<string>)
    requires forall j :: 0 <= j < c ==> Candidate(base, j, ext) in names
    ensures c <= |names|
  {
    TriedSize(base, c, ext);
    SubsetSize(Tried(base, c, ext), names);
  }

  lemma {:induction false} SubsetSize<T>(a: set<T>, b: set<T>)
    requires a <= b
    ensures |a| <= |b|
  {
    if a != {} {
      var x :| x in a;
      SubsetSize(a - {x}, b - {x});
    }
  }

  /** The collision loop of `validateAndSaveImage`: tries `base + ext`, then
      appends `_1`, `_2`, ... to the stripped first name until `taken` (the
      `fs.existsSync` test of the name in the target directory) says no.
      Returns the free name and how many suffixes were tried: it is the
      least free candidate. `bound` holds every taken name; a directory has
      finitely many entries, which is why the loop ends. */
  method FreeName(taken: string -> bool, ghost bound: set<string>, base: string, f: Format)
    returns (name: string, k: nat)
    requires forall x :: taken(x) ==> x in bound
    ensures name == Candidate(base, k, Ext(f))
    ensures !taken(name)
    ensures forall j :: 0 <= j < k ==> taken(Candidate(base, j, Ext(f)))
  {
    var ext := Ext(f);
    var finalFilename := base + ext;
    var counter := 1;
    name := finalFilename;
    StripExtOf(base, f);
    while taken(name)
      invariant counter >= 1 && name == Candidate(base, counter - 1, ext)
      invariant forall j :: 0 <= j < counter - 1 ==> taken(Candidate(base, j, ext))
      invariant counter - 1 <= |bound|
      decreases |bound| - (counter - 1)
    {
      CandidatesBound(base, counter, ext, bound);
      var nameWithoutExt := StripExt(finalFilename);
      name := nameWithoutExt + "_" + Radix(counter, 10) + ext;
      counter := counter + 1;
    }
    k := counter - 1;
  }
}
