/**
  The image manager: the settings object it is built from and the store
  operations behind the chat commands. The image directory is the tree
  `images`; downloading, replying and the chat event are outside the model,
  so each operation takes the values the command extracted (the buffer,
  the number, the new name) and returns what it decided.
*/
module ImageStore {
  import opened Wrappers
  import opened JsString
  import opened FileTree
  import opened Utils
  import opened ImageFormat
  import opened ImageNames
  import opened ImageListing

  const DefaultMaxFileSize: nat := 10 * MiB
  const DefaultAllowedTypes: seq<string> := ["jpg", "jpeg", "png", "gif", "webp"]
  /** The largest limit `setMaxFileSize` accepts. */
  const LimitCeiling: nat := 100 * MiB

  /** The settings object: the limit and whitelist in effect, and what
      `save()` last wrote to the settings file. */
  class Config {
    var maxFileSize: nat
    var allowedTypes: seq<string>
    var savedMaxFileSize: nat
    var savedAllowedTypes: seq<string>

    constructor(maxFileSize: nat, allowedTypes: seq<string>)
      ensures this.maxFileSize == maxFileSize && this.allowedTypes == allowedTypes
      ensures savedMaxFileSize == maxFileSize && savedAllowedTypes == allowedTypes
    {
      this.maxFileSize := maxFileSize;
      this.allowedTypes := allowedTypes;
      savedMaxFileSize := maxFileSize;
      savedAllowedTypes := allowedTypes;
    }

    /** `save()`: persists the current settings. */
    method Save()
      modifies this`savedMaxFileSize, this`savedAllowedTypes
      ensures savedMaxFileSize == maxFileSize && savedAllowedTypes == allowedTypes
    {
      savedMaxFileSize := maxFileSize;
      savedAllowedTypes := allowedTypes;
    }
  }

  datatype SaveResult = Saved(path: Path) | Refused(reason: Refusal) | MkdirFailed | WriteFailed
  datatype DeleteResult = Deleted(path: Path) | DeleteOutOfRange
  datatype RenameResult = Renamed(safeName: string) | NoNewName | RenameOutOfRange | NameTaken
  datatype LimitError = BadUnit | OutOfRange

  /* --------------------- the save pipeline, as values --------------------- */

  /** `if (!existsSync(dir)) mkdirSync(dir, { recursive: true })`; `None`
      when `mkdirSync` throws. */
  function Prepared(tree: Node, dir: Path): Option<Node> {
    if Exists(tree, dir) then Some(tree) else MakeDirs(tree, dir)
  }

  /** `path` is `dir` joined with the first candidate name that is free. */
  ghost predicate LeastFreeName(tree: Node, dir: Path, base: string, f: Format, path: Path) {
    exists k: nat ::
      path == dir + [Candidate(base, k, Ext(f))] && !Exists(tree, path) &&
      forall j :: 0 <= j < k ==> Exists(tree, dir + [Candidate(base, j, Ext(f))])
  }

  /** Every prefix of a directory is a directory. */
  lemma DirPrefixes(n: Node, dir: Path, q: Path)
    requires KindAt(n, dir) == IsDir && IsPrefix(q, dir)
    ensures KindAt(n, q) == IsDir
  {
    if KindAt(n, q) == Missing {
      NothingBelowMissing(n, q, dir);
    } else if KindAt(n, q).IsFile? {
      NothingBelowFile(n, q, dir);
    }
  }

  /** Making the directory succeeds and leaves a directory exactly when no
      regular file stands on its path; it then adds the missing directories
      and changes nothing else. */
  lemma PreparedKind(tree: Node, dir: Path, q: Path)
    requires WellFormed(tree)
    requires forall i :: 0 <= i < |dir| ==> ValidName(dir[i])
    ensures Prepared(tree, dir).None? ==> FileOnPath(tree, dir)
    ensures Prepared(tree, dir).Some? ==>
              WellFormed(Prepared(tree, dir).value) &&
              (KindAt(Prepared(tree, dir).value, dir) == IsDir <==> !FileOnPath(tree, dir)) &&
              (KindAt(Prepared(tree, dir).value, dir) != IsDir ==>
                 Prepared(tree, dir).value == tree && KindAt(tree, dir).IsFile?)
    ensures !FileOnPath(tree, dir) ==>
              Prepared(tree, dir).Some? &&
              KindAt(Prepared(tree, dir).value, q) == if IsPrefix(q, dir) then IsDir else KindAt(tree, q)
  {
    if Exists(tree, dir) {
      if KindAt(tree, dir) == IsDir {
        assert !FileOnPath(tree, dir) by {
          forall k | 0 <= k <= |dir| ensures !KindAt(tree, dir[..k]).IsFile? {
            DirPrefixes(tree, dir, dir[..k]);
          }
        }
        if IsPrefix(q, dir) { DirPrefixes(tree, dir, q); }
      } else {
        assert dir[..|dir|] == dir;
      }
    } else {
      MakeDirsKind(tree, dir, q);
      MakeDirsKind(tree, dir, dir);
      MakeDirsWellFormed(tree, dir);
    }
  }

  /** Creating the directories changes no name inside `dir`, so the least
      free name after `mkdir` is the least free name before it. */
  lemma SavedNameIsLeast(tree: Node, prepared: Node, dir: Path, base: string, f: Format, k: nat)
    requires WellFormed(tree)
    requires forall i :: 0 <= i < |dir| ==> ValidName(dir[i])
    requires !FileOnPath(tree, dir) && Prepared(tree, dir) == Some(prepared)
    requires !Exists(prepared, dir + [Candidate(base, k, Ext(f))])
    requires forall j :: 0 <= j < k ==> Exists(prepared, dir + [Candidate(base, j, Ext(f))])
    ensures LeastFreeName(tree, dir, base, f, dir + [Candidate(base, k, Ext(f))])
  {
    forall x {
      PreparedKind(tree, dir, dir + [x]);
    }
  }

  /** A save adds exactly one regular file holding the buffer at a path
      that was free, besides the directories it had to create; every other
      path names what it named before, and the tree stays well formed. */
  lemma SaveEffect(tree: Node, dir: Path, name: string, data: seq<byte>, q: Path)
    requires WellFormed(tree) && ValidName(name)
    requires forall i :: 0 <= i < |dir| ==> ValidName(dir[i])
    requires !FileOnPath(tree, dir) && !Exists(tree, dir + [name])
    ensures Prepared(tree, dir).Some?
    ensures var t := PutAt(Prepared(tree, dir).value, dir, name, Some(File(data)));
      WellFormed(t) &&
      KindAt(t, q) == if q == dir + [name] then IsFile(data) else if IsPrefix(q, dir) then IsDir else KindAt(tree, q)
  {
    PreparedKind(tree, dir, q);
    var t0 := Prepared(tree, dir).value;
    PutAtKind(t0, dir, name, Some(File(data)), q);
    PutAtWellFormed(t0, dir, name, Some(File(data)));
    var p := dir + [name];
    if IsPrefix(p, q) && q != p {
      assert q[|dir| + 1..] != [];
      PreparedKind(tree, dir, p);
      NothingBelowMissing(tree, p, q);
      assert !IsPrefix(q, dir);
    } else if IsPrefix(q, dir) {
      assert !IsPrefix(p, q);
    }
  }

  /** The directory a category command saves into: one segment, the
      sanitised trimmed category; `None` when the trimmed category is empty. */
  function CategoryDir(category: string): Option<Path> {
    var c := Trim(category);
    if c == "" then None else Some([SanitizeCategory(c)])
  }

  /** A category directory is a single valid segment: sanitising rules out
      `/`, `.` and `..`, so a category never leaves the image directory. */
  lemma CategoryDirIsOneSegment(category: string)
    requires CategoryDir(category).Some?
    ensures |CategoryDir(category).value| == 1 && ValidName(CategoryDir(category).value[0])
  {
    var s := SanitizeCategory(Trim(category));
    SafeCategoryHasNoSeparators(s);
    assert s != "." by { assert "."[0] == '.'; }
    assert s != ".." by { assert ".."[0] == '.'; }
  }

  /* ------------------------------ limits ------------------------------ */

  /** `setMaxFileSize`'s conversion and range check. */
  function LimitBytes(size: nat, unit: string): Result<nat, LimitError> {
    var bytes := if unit == "MB" then Some(size * 1024 * 1024) else if unit == "KB" then Some(size * 1024) else None;
    match bytes
    case None => Err(BadUnit)
    case Some(b) => if b <= 0 || b > 100 * 1024 * 1024 then Err(OutOfRange) else Ok(b)
  }

  /** Any unit other than MB and KB is refused; MB sizes from 1 to 100 and
      KB sizes from 1 to 102400 are accepted, converted by 1048576 and 1024. */
  lemma LimitBytesCases(size: nat, unit: string)
    ensures LimitBytes(size, unit) == Err(BadUnit) <==> unit != "MB" && unit != "KB"
    ensures unit == "MB" ==> (LimitBytes(size, unit).Ok? <==> 1 <= size <= 100)
    ensures unit == "KB" ==> (LimitBytes(size, unit).Ok? <==> 1 <= size <= 102400)
    ensures LimitBytes(size, unit).Ok? ==>
              LimitBytes(size, unit).value == if unit == "MB" then size * MiB else size * 1024
  {
  }

  /** The accepted limits are exactly the whole numbers of KiB from 1 KiB to
      100 MiB. */
  lemma AcceptedLimits(size: nat, unit: string, b: nat)
    ensures LimitBytes(size, unit) == Ok(b) ==> b % 1024 == 0 && 1024 <= b <= LimitCeiling
    ensures b % 1024 == 0 && 1024 <= b <= LimitCeiling ==> LimitBytes(b / 1024, "KB") == Ok(b)
  {
    if LimitBytes(size, unit) == Ok(b) && unit == "MB" {
      assert b == (size * 1024) * 1024;
    }
  }

  /** The image manager. It copies the limit and the whitelist out of the
      settings when it is built. */
  class ImageManager {
    const config: Config
    var maxFileSize: nat
    var allowedTypes: seq<string>
    /** The image directory. */
    var images: Node

    predicate Valid()
      reads this
    {
      images.Dir? && WellFormed(images)
    }

    constructor(config: Config, images: Node)
      requires images.Dir? && WellFormed(images)
      ensures this.config == config && this.images == images
      ensures maxFileSize == config.maxFileSize && allowedTypes == config.allowedTypes
      ensures Valid()
    {
      this.config := config;
      this.images := images;
      maxFileSize := config.maxFileSize;
      allowedTypes := config.allowedTypes;
    }

    /** `validateAndSaveImage(buffer, customName, saveDir)`. `saveDir` is a
        path below the image directory (callers pass a sanitised category or
        `default`); `now` is the clock reading the names use. */
    method ValidateAndSaveImage(buffer: seq<byte>, customName: Option<string>, saveDir: Path, now: nat)
      returns (r: SaveResult)
      requires Valid()
      requires forall i :: 0 <= i < |saveDir| ==> ValidName(saveDir[i])
      modifies this`images
      ensures Valid()
      ensures CheckBuffer(buffer, maxFileSize).Err? ==>
                r == Refused(CheckBuffer(buffer, maxFileSize).error) && images == old(images)
      ensures CheckBuffer(buffer, maxFileSize).Ok? && FileOnPath(old(images), saveDir) ==>
                images == old(images) &&
                r == if KindAt(old(images), saveDir).IsFile? then WriteFailed else MkdirFailed
      ensures CheckBuffer(buffer, maxFileSize).Ok? && !FileOnPath(old(images), saveDir) ==>
                r.Saved? &&
                LeastFreeName(old(images), saveDir, BaseName(customName, now), CheckBuffer(buffer, maxFileSize).value, r.path) &&
                forall q :: KindAt(images, q) ==
                  if q == r.path then IsFile(buffer)
                  else if IsPrefix(q, saveDir) then IsDir
                  else KindAt(old(images), q)
    {
      var check := CheckBuffer(buffer, maxFileSize);
      if check.Err? {
        return Refused(check.error);
      }
      var f := check.value;
      ghost var tree := images;
      PreparedKind(tree, saveDir, saveDir);
      if !Exists(images, saveDir) {
        var made := MakeDirs(images, saveDir);
        if made.None? {
          return MkdirFailed;
        }
        images := made.value;
      }
      assert Prepared(tree, saveDir) == Some(images);
      var base := BaseName(customName, now);
      var current := images;
      var taken := x => Exists(current, saveDir + [x]);
      forall x | taken(x) ensures x in NamesAt(current, saveDir) {
        ExistsInNames(current, saveDir, x);
      }
      var name, k := FreeName(taken, NamesAt(current, saveDir), base, f);
      if KindAt(images, saveDir) != IsDir {
        return WriteFailed;
      }
      SavedNameIsLeast(tree, images, saveDir, base, f, k);
      CandidateIsValidName(base, k, f);
      images := PutAt(images, saveDir, name, Some(File(buffer)));
      r := Saved(saveDir + [name]);
      forall q {
        SaveEffect(tree, saveDir, name, buffer, q);
      }
    }

    /** `getAllImagesRecursive()`. */
    method GetAllImagesRecursive() returns (results: seq<Image>)
      requires Valid()
      ensures results == Listing(images, ValidFor(allowedTypes))
    {
      results := Scan(images.entries, [], ValidFor(allowedTypes), []);
    }

    /** `viewSpecificImage`: the `n`-th listed image, if `n` is in range. */
    method ViewSpecificImage(n: nat) returns (r: Option<Image>)
      requires Valid()
      ensures r.Some? <==> 1 <= n <= |Listing(images, ValidFor(allowedTypes))|
      ensures r.Some? ==> r.value == Listing(images, ValidFor(allowedTypes))[n - 1]
    {
      var allImages := GetAllImagesRecursive();
      r := Pick(allImages, n);
    }

    /** `listImages`: the replies sent, one per block of 20 lines, the first
        headed by the count; a single notice when the store is empty. */
    method ListImages() returns (replies: seq<string>)
      requires Valid()
      ensures |Listing(images, ValidFor(allowedTypes))| == 0 ==> replies == ["图库为空"]
      ensures var all := Listing(images, ValidFor(allowedTypes));
        |all| > 0 ==>
          |replies| == PageCount(|all|) &&
          forall p :: 0 <= p < |replies| ==> replies[p] == Page(all, p)
    {
      var allImages := GetAllImagesRecursive();
      if |allImages| == 0 {
        return ["图库为空"];
      }
      var list := Lines(allImages);
      replies := [];
      var i := 0;
      while i < |list|
        invariant i == |replies| * ChunkSize
        invariant |replies| == 0 || (|replies| - 1) * ChunkSize < |list|
        invariant forall p :: 0 <= p < |replies| ==> p < PageCount(|allImages|) && replies[p] == Page(allImages, p)
        decreases |list| - i
      {
        var end := if i + ChunkSize <= |list| then i + ChunkSize else |list|;
        var chunk := list[i..end];
        assert |replies| < PageCount(|allImages|);
        assert chunk == Chunk(list, |replies|);
        if i == 0 {
          replies := replies + [Header(|allImages|) + Join(chunk, "\n")];
        } else {
          replies := replies + [Join(chunk, "\n")];
        }
        i := i + ChunkSize;
      }
    }

    /** `deleteImage`: removes the `n`-th listed file, or nothing when `n`
        is out of range. */
    method DeleteImage(n: nat) returns (r: DeleteResult)
      requires Valid()
      modifies this`images
      ensures Valid()
      ensures Pick(old(Listing(images, ValidFor(allowedTypes))), n).None? ==>
                r == DeleteOutOfRange && images == old(images)
      ensures Pick(old(Listing(images, ValidFor(allowedTypes))), n).Some? ==>
                var p := Pick(old(Listing(images, ValidFor(allowedTypes))), n).value.path;
                p != [] && r == Deleted(p) && images == RemoveFile(old(images), p)
    {
      var allImages := GetAllImagesRecursive();
      var picked := Pick(allImages, n);
      if picked.None? {
        return DeleteOutOfRange;
      }
      DeleteUnlists(images, ValidFor(allowedTypes), n, []);
      var p := picked.value.path;
      images := RemoveFile(images, p);
      r := Deleted(p);
    }

    /** `renameImage`: gives the `n`-th listed file the sanitised new name
        with its old extension, in its own directory, unless that name is
        taken. */
    method RenameImage(n: nat, newName: string, now: nat) returns (r: RenameResult)
      requires Valid()
      modifies this`images
      ensures Valid()
      ensures Trim(newName) == "" ==> r == NoNewName && images == old(images)
      ensures Trim(newName) != "" && Pick(old(Listing(images, ValidFor(allowedTypes))), n).None? ==>
                r == RenameOutOfRange && images == old(images)
      ensures Trim(newName) != "" && Pick(old(Listing(images, ValidFor(allowedTypes))), n).Some? ==>
                var p := Pick(old(Listing(images, ValidFor(allowedTypes))), n).value.path;
                p != [] && KindAt(old(images), p).IsFile? &&
                var safeName := RenamedName(Base(p), Trim(newName), now);
                (Taken(old(images), Parent(p), safeName) ==> r == NameTaken && images == old(images)) &&
                (!Taken(old(images), Parent(p), safeName) ==>
                   r == Renamed(safeName) && images == MoveFile(old(images), p, KindAt(old(images), p).data, safeName))
    {
      var name := Trim(newName);
      if name == "" {
        return NoNewName;
      }
      var allImages := GetAllImagesRecursive();
      var picked := Pick(allImages, n);
      if picked.None? {
        return RenameOutOfRange;
      }
      var oldPath := picked.value.path;
      assert Listed(allImages, oldPath);
      ListedIff(images, ValidFor(allowedTypes), oldPath);
      var dir := Parent(oldPath);
      var safeName := RenamedName(Base(oldPath), name, now);
      if Taken(images, dir, safeName) {
        return NameTaken;
      }
      NamesOnPathValid(images, oldPath);
      RenamedNameIsValid(Base(oldPath), name, now);
      MoveFileEffect(images, oldPath, safeName, []);
      images := MoveFile(images, oldPath, KindAt(images, oldPath).data, safeName);
      r := Renamed(safeName);
    }

    /** `setMaxFileSize` as written: converts and checks the size, then
        updates and saves the settings. The manager's own copy of the limit,
        which the save pipeline reads, is left as it was. */
    method SetMaxFileSize(size: nat, unit: string) returns (r: Result<nat, LimitError>)
      modifies config`maxFileSize, config`savedMaxFileSize, config`savedAllowedTypes
      ensures r == LimitBytes(size, unit)
      ensures r.Err? ==> unchanged(config)
      ensures r.Ok? ==> config.maxFileSize == r.value && config.savedMaxFileSize == r.value &&
                        config.savedAllowedTypes == config.allowedTypes
      ensures maxFileSize == old(maxFileSize)
    {
      var bytes: nat;
      if unit == "MB" {
        bytes := size * 1024 * 1024;
      } else if unit == "KB" {
        bytes := size * 1024;
      } else {
        return Err(BadUnit);
      }
      if bytes <= 0 || bytes > 100 * 1024 * 1024 {
        return Err(OutOfRange);
      }
      config.maxFileSize := bytes;
      config.Save();
      r := Ok(bytes);
    }

    /** `setMaxFileSize` as evidently intended: the new limit also becomes
        the one the save pipeline checks. */
    method SetMaxFileSizeApplied(size: nat, unit: string) returns (r: Result<nat, LimitError>)
      modifies this`maxFileSize, config`maxFileSize, config`savedMaxFileSize, config`savedAllowedTypes
      ensures r == LimitBytes(size, unit)
      ensures r.Err? ==> unchanged(config) && maxFileSize == old(maxFileSize)
      ensures r.Ok? ==> maxFileSize == r.value && config.maxFileSize == r.value &&
                        config.savedMaxFileSize == r.value && config.savedAllowedTypes == config.allowedTypes
    {
      r := SetMaxFileSize(size, unit);
      if r.Ok? {
        maxFileSize := r.value;
      }
    }
  }

  /** After setting the limit to 1 MB as written, a PNG of 1 MiB + 1 bytes is
      still saved: the check uses the limit copied at start-up. */
  method StaleLimitExample() returns (limit: nat, size: nat, r: SaveResult)
    ensures limit == MiB && size == MiB + 1 && r.Saved?
  {
    var config := new Config(DefaultMaxFileSize, DefaultAllowedTypes);
    var manager := new ImageManager(config, Dir([]));
    var outcome := manager.SetMaxFileSize(1, "MB");
    limit := config.maxFileSize;
    var buffer := Sample(Png, MiB + 1);
    SampleHasSignature(Png, MiB + 1);
    size := |buffer|;
    NoFileOnFreshPath();
    r := manager.ValidateAndSaveImage(buffer, None, [DefaultCategory], 0);
  }

  /** With the corrected operation the same buffer is refused as too large. */
  method AppliedLimitExample() returns (limit: nat, size: nat, r: SaveResult)
    ensures limit == MiB && size == MiB + 1 && r == Refused(TooLarge)
  {
    var config := new Config(DefaultMaxFileSize, DefaultAllowedTypes);
    var manager := new ImageManager(config, Dir([]));
    var outcome := manager.SetMaxFileSizeApplied(1, "MB");
    limit := manager.maxFileSize;
    var buffer := Sample(Png, MiB + 1);
    size := |buffer|;
    r := manager.ValidateAndSaveImage(buffer, None, [DefaultCategory], 0);
  }

  lemma NoFileOnFreshPath()
    ensures !FileOnPath(Dir([]), [DefaultCategory])
  {
    forall k | 0 <= k <= 1 ensures !KindAt(Dir([]), [DefaultCategory][..k]).IsFile? {
      if k == 1 { assert [DefaultCategory][..k] == [DefaultCategory]; }
    }
  }

  /** Every name on the path to an existing node of a well-formed tree is valid. */
  lemma {:induction false} NamesOnPathValid(n: Node, p: Path)
    requires WellFormed(n) && p != [] && Exists(n, p)
    ensures ValidName(p[|p| - 1])
    decreases p
  {
    var i := Find(n.entries, p[0]).value;
    if |p| > 1 {
      NamesOnPathValid(n.entries[i].node, p[1..]);
    }
  }
}
