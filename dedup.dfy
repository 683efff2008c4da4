/**
 * Duplicate detection and removal by perceptual hash (`duplicate_data_check` and
 * `remove_duplicates`). One pass in listing order over the `.jpeg` names keeps a registry
 * from hash to the first file seen with it; every later file with a registered hash is a
 * duplicate. The perceptual hash is the parameter `hash`, an arbitrary function of contents.
 */
module Dedup {
  import opened Outcomes
  import opened FileSystems

  /** Every name of `files` is an entry of `dir`. */
  ghost predicate InDir<C>(dir: map<FileName, C>, files: seq<FileName>) {
    forall f :: f in files ==> f in dir
  }

  /** The set of hashes of the files. */
  function Hashes<C, H(==)>(hash: C -> H, dir: map<FileName, C>, files: seq<FileName>): set<H>
    requires InDir(dir, files)
    decreases |files|
  {
    if files == [] then {}
    else
      var init, last := files[..|files| - 1], files[|files| - 1];
      assert files == init + [last];
      Hashes(hash, dir, init) + {hash(dir[last])}
  }

  /** A hash is among the hashes of the files exactly when some file has it. */
  lemma {:induction false} HashesMembers<C, H>(hash: C -> H, dir: map<FileName, C>, files: seq<FileName>)
    requires InDir(dir, files)
    ensures forall i :: 0 <= i < |files| ==> hash(dir[files[i]]) in Hashes(hash, dir, files)
    ensures forall h :: h in Hashes(hash, dir, files) ==> exists i :: 0 <= i < |files| && hash(dir[files[i]]) == h
    decreases |files|
  {
    if files != [] {
      var init, last := files[..|files| - 1], files[|files| - 1];
      assert files == init + [last];
      HashesMembers(hash, dir, init);
      forall h | h in Hashes(hash, dir, files)
        ensures exists i :: 0 <= i < |files| && hash(dir[files[i]]) == h
      {
        if h != hash(dir[last]) {
          var i :| 0 <= i < |init| && hash(dir[init[i]]) == h;
          assert files[i] == init[i];
        }
      }
    }
  }

  /** The files a pass keeps: those whose hash no earlier file has. */
  function Survivors<C, H(==)>(hash: C -> H, dir: map<FileName, C>, files: seq<FileName>): (r: seq<FileName>)
    requires InDir(dir, files)
    ensures forall x :: x in r ==> x in files
    decreases |files|
  {
    if files == [] then []
    else
      var init, last := files[..|files| - 1], files[|files| - 1];
      assert files == init + [last];
      Survivors(hash, dir, init) + (if hash(dir[last]) in Hashes(hash, dir, init) then [] else [last])
  }

  /** The files a pass reports (and deletes): those whose hash an earlier file already has. */
  function Duplicates<C, H(==)>(hash: C -> H, dir: map<FileName, C>, files: seq<FileName>): (r: seq<FileName>)
    requires InDir(dir, files)
    ensures forall x :: x in r ==> x in files
    decreases |files|
  {
    if files == [] then []
    else
      var init, last := files[..|files| - 1], files[|files| - 1];
      assert files == init + [last];
      Duplicates(hash, dir, init) + (if hash(dir[last]) in Hashes(hash, dir, init) then [last] else [])
  }

  /** One more file in the pass: how the hashes, survivors and duplicates grow. */
  lemma PassStep<C, H>(hash: C -> H, dir: map<FileName, C>, files: seq<FileName>, i: int)
    requires InDir(dir, files)
    requires 0 <= i < |files|
    ensures var seen := hash(dir[files[i]]) in Hashes(hash, dir, files[..i]);
      && Hashes(hash, dir, files[..i + 1]) == Hashes(hash, dir, files[..i]) + {hash(dir[files[i]])}
      && Survivors(hash, dir, files[..i + 1]) == Survivors(hash, dir, files[..i]) + (if seen then [] else [files[i]])
      && Duplicates(hash, dir, files[..i + 1]) == Duplicates(hash, dir, files[..i]) + (if seen then [files[i]] else [])
  {
    assert files[..i + 1][..i] == files[..i];
  }

  /** What a removal pass leaves of `dir` after its first `i` files. */
  ghost function Kept<C, H>(hash: C -> H, dir: map<FileName, C>, files: seq<FileName>, i: int): map<FileName, C>
    requires InDir(dir, files)
    requires 0 <= i <= |files|
  {
    dir - Elems(Duplicates(hash, dir, files[..i]))
  }

  /** Before a removal pass has looked at any file, the whole directory is kept. */
  lemma KeptStart<C, H>(hash: C -> H, dir: map<FileName, C>, files: seq<FileName>)
    requires InDir(dir, files)
    ensures Kept(hash, dir, files, 0) == dir
  {
    assert files[..0] == [];
    assert Elems<FileName>([]) == {};
  }

  /** One more file in a removal pass: a duplicate is deleted, any other file stays. */
  lemma RemovalStep<C, H>(hash: C -> H, dir: map<FileName, C>, files: seq<FileName>, i: int)
    requires InDir(dir, files)
    requires Distinct(files)
    requires 0 <= i < |files|
    ensures files[i] in Kept(hash, dir, files, i)
    ensures Kept(hash, dir, files, i)[files[i]] == dir[files[i]]
    ensures Kept(hash, dir, files, i + 1) ==
      if hash(dir[files[i]]) in Hashes(hash, dir, files[..i])
      then Kept(hash, dir, files, i) - {files[i]}
      else Kept(hash, dir, files, i)
  {
    PassStep(hash, dir, files, i);
    var dups := Duplicates(hash, dir, files[..i]);
    assert files[i] !in files[..i];
    if hash(dir[files[i]]) in Hashes(hash, dir, files[..i]) {
      assert Elems(dups + [files[i]]) == Elems(dups) + {files[i]};
    } else {
      assert dups + [] == dups;
    }
  }

  /**
   * One more file in a removal pass over the directory `dirs[dirPath]`: a duplicate is
   * deleted from it and counted, any other file is registered.
   */
  lemma RemovalAdvance<C, H>(hash: C -> H, dirs: map<Path, map<FileName, C>>, dirPath: Path,
                             files: seq<FileName>, i: int, registry: map<H, FileName>, count: int)
    requires dirPath in dirs
    requires InDir(dirs[dirPath], files)
    requires Distinct(files)
    requires 0 <= i < |files|
    requires PassState(hash, dirs[dirPath], files, i, registry, count)
    ensures var dir, kept := dirs[dirPath], Kept(hash, dirs[dirPath], files, i);
      && files[i] in kept && kept[files[i]] == dir[files[i]]
      && var h := hash(dir[files[i]]);
      if h in registry then
        && PassState(hash, dir, files, i + 1, registry, count + 1)
        && dirs[dirPath := kept][dirPath := kept - {files[i]}] == dirs[dirPath := Kept(hash, dir, files, i + 1)]
      else
        && PassState(hash, dir, files, i + 1, registry[h := files[i]], count)
        && Kept(hash, dir, files, i + 1) == kept
  {
    var dir, kept := dirs[dirPath], Kept(hash, dirs[dirPath], files, i);
    PassAdvance(hash, dir, files, i, registry, count);
    RemovalStep(hash, dir, files, i);
    UpdateTwice(dirs, dirPath, kept, kept - {files[i]});
  }

  /** The hash of `files[i]` already belongs to a file at an earlier position. */
  ghost predicate SeenBefore<C, H>(hash: C -> H, dir: map<FileName, C>, files: seq<FileName>, i: int)
    requires InDir(dir, files)
    requires 0 <= i < |files|
  {
    exists j :: 0 <= j < i && hash(dir[files[j]]) == hash(dir[files[i]])
  }

  /** One survivor per distinct hash: the number of duplicates is the number of files minus the number of distinct hashes. */
  lemma {:induction false} DuplicatesCount<C, H>(hash: C -> H, dir: map<FileName, C>, files: seq<FileName>)
    requires InDir(dir, files)
    ensures |Survivors(hash, dir, files)| == |Hashes(hash, dir, files)|
    ensures |Duplicates(hash, dir, files)| + |Hashes(hash, dir, files)| == |files|
    decreases |files|
  {
    if files != [] {
      var init, last := files[..|files| - 1], files[|files| - 1];
      assert files == init + [last];
      DuplicatesCount(hash, dir, init);
      if hash(dir[last]) in Hashes(hash, dir, init) {
        assert Hashes(hash, dir, files) == Hashes(hash, dir, init);
      } else {
        assert |Hashes(hash, dir, files)| == |Hashes(hash, dir, init)| + 1;
      }
    }
  }

  /** The survivors have the same hashes as all the files. */
  lemma {:induction false} SurvivorHashes<C, H>(hash: C -> H, dir: map<FileName, C>, files: seq<FileName>)
    requires InDir(dir, files)
    ensures Hashes(hash, dir, Survivors(hash, dir, files)) == Hashes(hash, dir, files)
    decreases |files|
  {
    if files != [] {
      var init, last := files[..|files| - 1], files[|files| - 1];
      assert files == init + [last];
      SurvivorHashes(hash, dir, init);
      var s, s' := Survivors(hash, dir, init), Survivors(hash, dir, files);
      if hash(dir[last]) !in Hashes(hash, dir, init) {
        assert s' == s + [last];
        assert s'[..|s'| - 1] == s && s'[|s'| - 1] == last;
        assert Hashes(hash, dir, s') == Hashes(hash, dir, s) + {hash(dir[last])};
      } else {
        assert s' == s;
      }
    }
  }

  /** No two survivors share a hash. */
  lemma {:induction false} SurvivorsDistinctHashes<C, H>(hash: C -> H, dir: map<FileName, C>, files: seq<FileName>)
    requires InDir(dir, files)
    ensures forall i, j :: 0 <= i < j < |Survivors(hash, dir, files)| ==>
      hash(dir[Survivors(hash, dir, files)[i]]) != hash(dir[Survivors(hash, dir, files)[j]])
    decreases |files|
  {
    if files != [] {
      var init, last := files[..|files| - 1], files[|files| - 1];
      assert files == init + [last];
      SurvivorsDistinctHashes(hash, dir, init);
      var s := Survivors(hash, dir, init);
      if hash(dir[last]) !in Hashes(hash, dir, init) {
        SurvivorHashes(hash, dir, init);
        HashesMembers(hash, dir, s);
      }
    }
  }

  /** Two different survivors have different hashes. */
  lemma SurvivorsHashInjective<C, H>(hash: C -> H, dir: map<FileName, C>, files: seq<FileName>)
    requires InDir(dir, files)
    ensures var s := Survivors(hash, dir, files);
      forall f, g :: f in s && g in s && f != g ==> hash(dir[f]) != hash(dir[g])
  {
    var s := Survivors(hash, dir, files);
    SurvivorsDistinctHashes(hash, dir, files);
    forall f, g | f in s && g in s && f != g
      ensures hash(dir[f]) != hash(dir[g])
    {
      var i :| 0 <= i < |s| && s[i] == f;
      var j :| 0 <= j < |s| && s[j] == g;
      if j < i {
        assert hash(dir[s[j]]) != hash(dir[s[i]]);
      }
    }
  }

  /**
   * First seen wins: among files without repeated names, a file survives exactly when no
   * earlier file has its hash.
   */
  lemma {:induction false} SurvivorIsFirstSeen<C, H>(hash: C -> H, dir: map<FileName, C>, files: seq<FileName>, i: int)
    requires InDir(dir, files)
    requires Distinct(files)
    requires 0 <= i < |files|
    ensures files[i] in Survivors(hash, dir, files) <==> !SeenBefore(hash, dir, files, i)
    decreases |files|
  {
    var init, last := files[..|files| - 1], files[|files| - 1];
    assert files == init + [last];
    assert Distinct(init);
    HashesMembers(hash, dir, init);
    if i == |files| - 1 {
      assert last !in Survivors(hash, dir, init);
      if hash(dir[last]) in Hashes(hash, dir, init) {
        var j :| 0 <= j < |init| && hash(dir[init[j]]) == hash(dir[last]);
        assert files[j] == init[j];
      } else {
        forall j | 0 <= j < i
          ensures hash(dir[files[j]]) != hash(dir[files[i]])
        {
          assert files[j] == init[j];
        }
      }
    } else {
      SurvivorIsFirstSeen(hash, dir, init, i);
      assert files[i] != last;
      assert SeenBefore(hash, dir, files, i) <==> SeenBefore(hash, dir, init, i) by {
        forall j | 0 <= j < i ensures files[j] == init[j] { }
      }
    }
  }

  /** Among files without repeated names, every file is a survivor or a duplicate, never both. */
  lemma {:induction false} SurvivorsAndDuplicatesPartition<C, H>(hash: C -> H, dir: map<FileName, C>, files: seq<FileName>)
    requires InDir(dir, files)
    requires Distinct(files)
    ensures Elems(Survivors(hash, dir, files)) + Elems(Duplicates(hash, dir, files)) == Elems(files)
    ensures Elems(Survivors(hash, dir, files)) !! Elems(Duplicates(hash, dir, files))
    decreases |files|
  {
    if files != [] {
      var init, last := files[..|files| - 1], files[|files| - 1];
      assert files == init + [last];
      assert Distinct(init);
      SurvivorsAndDuplicatesPartition(hash, dir, init);
      assert last !in Elems(init);
      ElemsAppend(init, [last]);
      var s, d := Survivors(hash, dir, init), Duplicates(hash, dir, init);
      if hash(dir[last]) in Hashes(hash, dir, init) {
        assert Survivors(hash, dir, files) == s && Duplicates(hash, dir, files) == d + [last];
        ElemsAppend(d, [last]);
      } else {
        assert Survivors(hash, dir, files) == s + [last] && Duplicates(hash, dir, files) == d;
        ElemsAppend(s, [last]);
      }
    }
  }

  /** When no two files share a hash, a pass finds no duplicate. */
  lemma {:induction false} NoDuplicatesWithDistinctHashes<C, H>(hash: C -> H, dir: map<FileName, C>, files: seq<FileName>)
    requires InDir(dir, files)
    requires forall i, j :: 0 <= i < j < |files| ==> hash(dir[files[i]]) != hash(dir[files[j]])
    ensures Duplicates(hash, dir, files) == []
    ensures Survivors(hash, dir, files) == files
    decreases |files|
  {
    if files != [] {
      var init, last := files[..|files| - 1], files[|files| - 1];
      assert files == init + [last];
      NoDuplicatesWithDistinctHashes(hash, dir, init);
      HashesMembers(hash, dir, init);
      assert forall j :: 0 <= j < |init| ==> init[j] == files[j];
      assert hash(dir[last]) !in Hashes(hash, dir, init);
    }
  }

  /** The directory `remove_duplicates` leaves: the duplicates among its `.jpeg` files are deleted. */
  function Deduplicated<C, H(==)>(hash: C -> H, dir: map<FileName, C>, order: seq<FileName>): (r: map<FileName, C>)
    requires forall f :: f in order ==> f in dir
    ensures forall f :: f in dir && !IsJpeg(f) ==> f in r && r[f] == dir[f]
    ensures forall f :: f in r ==> f in dir && r[f] == dir[f]
  {
    dir - Elems(Duplicates(hash, dir, JpegNames(order)))
  }

  /** The `.jpeg` files left by removal are the survivors of the pass. */
  lemma DeduplicatedJpegs<C, H>(hash: C -> H, dir: map<FileName, C>, order: seq<FileName>)
    requires IsListing(dir, order)
    ensures JpegKeys(Deduplicated(hash, dir, order)) == Elems(Survivors(hash, dir, JpegNames(order)))
  {
    var files := JpegNames(order);
    ListingJpegs(dir, order);
    SurvivorsAndDuplicatesPartition(hash, dir, files);
  }

  /** After removal no two `.jpeg` files of the directory have the same hash. */
  lemma DeduplicatedHashesDistinct<C, H>(hash: C -> H, dir: map<FileName, C>, order: seq<FileName>)
    requires IsListing(dir, order)
    ensures var r := Deduplicated(hash, dir, order);
      forall f, g :: f in r && g in r && IsJpeg(f) && IsJpeg(g) && f != g ==> hash(r[f]) != hash(r[g])
  {
    var r := Deduplicated(hash, dir, order);
    var s := Survivors(hash, dir, JpegNames(order));
    DeduplicatedJpegs(hash, dir, order);
    SurvivorsHashInjective(hash, dir, JpegNames(order));
    forall f, g | f in r && g in r && IsJpeg(f) && IsJpeg(g) && f != g
      ensures hash(r[f]) != hash(r[g])
    {
      assert f in JpegKeys(r) && g in JpegKeys(r);
      assert f in Elems(s) && g in Elems(s);
    }
  }

  /**
   * For each hash the survivor is the earliest `.jpeg` file in listing order: a `.jpeg`
   * file stays exactly when no earlier `.jpeg` file has its hash.
   */
  lemma DeduplicatedKeepsFirstSeen<C, H>(hash: C -> H, dir: map<FileName, C>, order: seq<FileName>, i: int)
    requires IsListing(dir, order)
    requires 0 <= i < |JpegNames(order)|
    ensures JpegNames(order)[i] in Deduplicated(hash, dir, order) <==> !SeenBefore(hash, dir, JpegNames(order), i)
  {
    var files := JpegNames(order);
    JpegNamesDistinct(order);
    SurvivorsAndDuplicatesPartition(hash, dir, files);
    SurvivorIsFirstSeen(hash, dir, files, i);
    assert files[i] in Elems(files);
  }

  /**
   * The number removed plus the number of `.jpeg` files left is the original `.jpeg`
   * count, and the number left is the number of distinct hashes.
   */
  lemma DeduplicatedCount<C, H>(hash: C -> H, dir: map<FileName, C>, order: seq<FileName>)
    requires IsListing(dir, order)
    ensures var files := JpegNames(order);
      && |JpegKeys(Deduplicated(hash, dir, order))| == |Hashes(hash, dir, files)|
      && |Duplicates(hash, dir, files)| + |JpegKeys(Deduplicated(hash, dir, order))| == |JpegKeys(dir)|
  {
    var files := JpegNames(order);
    ListingJpegs(dir, order);
    DeduplicatedJpegs(hash, dir, order);
    DuplicatesCount(hash, dir, files);
    var s := Survivors(hash, dir, files);
    assert Distinct(s) by {
      forall i, j | 0 <= i < j < |s| ensures s[i] != s[j] {
        SurvivorsDistinctHashes(hash, dir, files);
      }
    }
    DistinctCard(s);
  }

  /**
   * Removal is idempotent: a second pass over the result, in whatever order the
   * directory is listed then, finds no duplicate and leaves the directory as it is.
   */
  lemma DeduplicatedIdempotent<C, H>(hash: C -> H, dir: map<FileName, C>, order: seq<FileName>, order2: seq<FileName>)
    requires IsListing(dir, order)
    requires IsListing(Deduplicated(hash, dir, order), order2)
    ensures Duplicates(hash, Deduplicated(hash, dir, order), JpegNames(order2)) == []
    ensures Deduplicated(hash, Deduplicated(hash, dir, order), order2) == Deduplicated(hash, dir, order)
  {
    var r := Deduplicated(hash, dir, order);
    var files := JpegNames(order2);
    JpegNamesDistinct(order2);
    DeduplicatedHashesDistinct(hash, dir, order);
    forall i, j | 0 <= i < j < |files|
      ensures hash(r[files[i]]) != hash(r[files[j]])
    {
      assert files[i] in order2 && files[j] in order2;
    }
    NoDuplicatesWithDistinctHashes(hash, r, files);
    assert Elems<FileName>([]) == {};
    assert r - {} == r;
  }

  /**
   * The state of a pass after its first `i` files: the registry maps exactly the hashes
   * seen so far, each to the first file seen with it, and `count` is the number of
   * duplicates met so far.
   */
  ghost predicate PassState<C, H>(hash: C -> H, dir: map<FileName, C>, files: seq<FileName>, i: int,
                                  registry: map<H, FileName>, count: int)
    requires InDir(dir, files)
    requires 0 <= i <= |files|
  {
    && registry.Keys == Hashes(hash, dir, files[..i])
    && (forall h :: h in registry ==>
          registry[h] in Survivors(hash, dir, files[..i]) && hash(dir[registry[h]]) == h)
    && count == |Duplicates(hash, dir, files[..i])|
  }

  /** Processing `files[i]` as the source does keeps the pass state. */
  lemma PassAdvance<C, H>(hash: C -> H, dir: map<FileName, C>, files: seq<FileName>, i: int,
                          registry: map<H, FileName>, count: int)
    requires InDir(dir, files)
    requires 0 <= i < |files|
    requires PassState(hash, dir, files, i, registry, count)
    ensures var h := hash(dir[files[i]]);
      if h in registry then PassState(hash, dir, files, i + 1, registry, count + 1)
      else PassState(hash, dir, files, i + 1, registry[h := files[i]], count)
  {
    PassStep(hash, dir, files, i);
  }

  /** At the start of a pass nothing is registered and nothing counted. */
  lemma PassStart<C, H>(hash: C -> H, dir: map<FileName, C>, files: seq<FileName>)
    requires InDir(dir, files)
    ensures PassState(hash, dir, files, 0, map[], 0)
  {
    assert files[..0] == [];
  }

  /**
   * `duplicate_data_check(class_dir)`: the number of duplicates it reports, read-only.
   * It equals the `.jpeg` count minus the number of distinct hashes.
   */
  method DuplicateDataCheck<C, H(==)>(fs: FileSystem<C>, classDir: Path, order: seq<FileName>, hash: C -> H)
    returns (r: Outcome<nat>)
    requires classDir in fs.dirs ==> IsListing(fs.dirs[classDir], order)
    ensures r.Err? <==> classDir !in fs.dirs
    ensures r.Err? ==> r.error == FileNotFound(classDir)
    ensures r.Ok? ==> r.value == |Duplicates(hash, fs.dirs[classDir], JpegNames(order))|
    ensures r.Ok? ==> r.value + |Hashes(hash, fs.dirs[classDir], JpegNames(order))| == |JpegKeys(fs.dirs[classDir])|
  {
    if classDir !in fs.dirs {
      return Err(FileNotFound(classDir));
    }
    var dir := fs.dirs[classDir];
    var imageFiles := JpegNames(order);
    var total := 0;
    var imageHashes: map<H, FileName> := map[];
    PassStart(hash, dir, imageFiles);
    for i := 0 to |imageFiles|
      invariant PassState(hash, dir, imageFiles, i, imageHashes, total)
    {
      var imageFile := imageFiles[i];
      var imgHash := hash(dir[imageFile]);
      PassAdvance(hash, dir, imageFiles, i, imageHashes, total);
      if imgHash in imageHashes {
        total := total + 1;
      } else {
        imageHashes := imageHashes[imgHash := imageFile];
      }
    }
    assert imageFiles[..|imageFiles|] == imageFiles;
    DuplicatesCount(hash, dir, imageFiles);
    ListingJpegs(dir, order);
    return Ok(total);
  }

  /**
   * `remove_duplicates(class_dir)`: deletes every duplicate, keeping for each hash the
   * first `.jpeg` file listed, and returns the number deleted.
   */
  method RemoveDuplicates<C, H(==)>(fs: FileSystem<C>, classDir: Path, order: seq<FileName>, hash: C -> H)
    returns (r: Outcome<nat>)
    requires classDir in fs.dirs ==> IsListing(fs.dirs[classDir], order)
    modifies fs
    ensures r.Err? <==> classDir !in old(fs.dirs)
    ensures r.Err? ==> r.error == FileNotFound(classDir) && fs.dirs == old(fs.dirs)
    ensures r.Ok? ==> fs.dirs == old(fs.dirs)[classDir := Deduplicated(hash, old(fs.dirs)[classDir], order)]
    ensures r.Ok? ==> r.value == |Duplicates(hash, old(fs.dirs)[classDir], JpegNames(order))|
    ensures r.Ok? ==> r.value + |JpegKeys(fs.dirs[classDir])| == |JpegKeys(old(fs.dirs)[classDir])|
  {
    if classDir !in fs.dirs {
      return Err(FileNotFound(classDir));
    }
    ghost var dirs0 := fs.dirs;
    ghost var dir0 := fs.dirs[classDir];
    var removedCount := 0;
    var imageHashes: map<H, FileName> := map[];
    var imageFiles := JpegNames(order);
    ListingJpegs(dir0, order);
    PassStart(hash, dir0, imageFiles);
    KeptStart(hash, dir0, imageFiles);
    UpdateSame(dirs0, classDir);
    for i := 0 to |imageFiles|
      invariant fs.dirs == dirs0[classDir := Kept(hash, dir0, imageFiles, i)]
      invariant PassState(hash, dir0, imageFiles, i, imageHashes, removedCount)
    {
      var imageFile := imageFiles[i];
      RemovalAdvance(hash, dirs0, classDir, imageFiles, i, imageHashes, removedCount);
      var imgHash := hash(fs.dirs[classDir][imageFile]);
      if imgHash in imageHashes {
        fs.dirs := fs.dirs[classDir := fs.dirs[classDir] - {imageFile}];
        removedCount := removedCount + 1;
      } else {
        imageHashes := imageHashes[imgHash := imageFile];
      }
    }
    assert imageFiles[..|imageFiles|] == imageFiles;
    assert Kept(hash, dir0, imageFiles, |imageFiles|) == Deduplicated(hash, dir0, order);
    DeduplicatedCount(hash, dir0, order);
    return Ok(removedCount);
  }
}
