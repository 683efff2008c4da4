/**
 * Consolidation (`move_images`): the `.jpeg` files of one directory are copied into
 * another, a file of the same name in the destination being overwritten.
 */
module Consolidation {
  import opened Outcomes
  import opened FileSystems

  /** The `.jpeg` entries of a directory. */
  function JpegEntries<C>(src: map<FileName, C>): (r: map<FileName, C>)
    ensures r.Keys == JpegKeys(src)
    ensures forall f :: f in r ==> r[f] == src[f]
  {
    map f | f in src && IsJpeg(f) :: src[f]
  }

  /** The destination after every `.jpeg` file of the source has been copied into it. */
  function Consolidated<C>(dst: map<FileName, C>, src: map<FileName, C>): (r: map<FileName, C>)
    ensures r.Keys == dst.Keys + JpegKeys(src)
    ensures forall f :: f in src && IsJpeg(f) ==> r[f] == src[f]
    ensures forall f :: f in dst && !(f in src && IsJpeg(f)) ==> r[f] == dst[f]
  {
    dst + JpegEntries(src)
  }

  /** When two sources are copied in turn, a name present in both ends up with the later copy. */
  lemma LaterCopyWins<C>(dst: map<FileName, C>, first: map<FileName, C>, second: map<FileName, C>, f: FileName)
    requires f in first && f in second && IsJpeg(f)
    ensures Consolidated(Consolidated(dst, first), second)[f] == second[f]
  {
  }

  /** Copying the same source twice is the same as copying it once. */
  lemma ConsolidatedIdempotent<C>(dst: map<FileName, C>, src: map<FileName, C>)
    ensures Consolidated(Consolidated(dst, src), src) == Consolidated(dst, src)
  {
  }

  /**
   * Name collisions lose files silently: the `.jpeg` count after copying is the two counts
   * added, less the number of `.jpeg` names the destination and the source share.
   */
  lemma ConsolidatedCount<C>(dst: map<FileName, C>, src: map<FileName, C>)
    ensures |JpegKeys(Consolidated(dst, src))| == |JpegKeys(dst)| + |JpegKeys(src)| - |JpegKeys(dst) * JpegKeys(src)|
  {
    var r := Consolidated(dst, src);
    assert JpegKeys(r) == JpegKeys(dst) + JpegKeys(src);
    CardUnion(JpegKeys(dst), JpegKeys(src));
  }

  lemma {:induction false} CardUnion<T>(a: set<T>, b: set<T>)
    ensures |a + b| == |a| + |b| - |a * b|
    decreases |b|
  {
    if b != {} {
      var x :| x in b;
      var b' := b - {x};
      CardUnion(a, b');
      if x in a {
        assert a + b == a + b';
        assert a * b == (a * b') + {x};
      } else {
        assert a + b == (a + b') + {x};
        assert a * b == a * b';
      }
    }
  }

  /**
   * `move_images(source_dir, destination_dir)`: creates the destination when it is
   * absent, then copies each `.jpeg` file of the source into it, in listing order.
   * An empty destination path makes `os.makedirs` raise before anything happens.
   * Copying a file onto itself (`source_dir == destination_dir`) raises at the first
   * `.jpeg` file; listing a source that does not exist raises after the destination has
   * been created.
   */
  method MoveImages<C>(fs: FileSystem<C>, sourceDir: Path, destinationDir: Path, order: seq<FileName>)
    returns (r: Outcome<()>)
    requires var made := MakeDirs(fs.dirs, destinationDir);
      made.Ok? && sourceDir in made.value ==> IsListing(made.value[sourceDir], order)
    modifies fs
    ensures destinationDir != "" ==> destinationDir in fs.dirs
    ensures sourceDir in old(fs.dirs) ==> sourceDir in fs.dirs && fs.dirs[sourceDir] == old(fs.dirs)[sourceDir]
    ensures forall p :: p in old(fs.dirs) && p != destinationDir ==> p in fs.dirs && fs.dirs[p] == old(fs.dirs)[p]
    ensures destinationDir == "" ==> r == Err(FileNotFound(destinationDir)) && fs.dirs == old(fs.dirs)
    ensures destinationDir != "" ==>
      var dirs := MakeDirs(old(fs.dirs), destinationDir).value;
      if sourceDir !in dirs then
        r == Err(FileNotFound(sourceDir)) && fs.dirs == dirs
      else if sourceDir == destinationDir && JpegKeys(dirs[sourceDir]) != {} then
        r == Err(SameFile(Join(sourceDir, JpegNames(order)[0]))) && fs.dirs == dirs
      else
        r == Ok(()) && fs.dirs == dirs[destinationDir := Consolidated(dirs[destinationDir], dirs[sourceDir])]
  {
    var made := MakeDirs(fs.dirs, destinationDir);
    if made.Err? {
      r := Err(made.error);
      MoveFrame(old(fs.dirs), sourceDir, destinationDir, order, r, fs.dirs);
      return;
    }
    fs.dirs := made.value;
    if sourceDir !in fs.dirs {
      r := Err(FileNotFound(sourceDir));
      MoveFrame(old(fs.dirs), sourceDir, destinationDir, order, r, fs.dirs);
      return;
    }
    ghost var dirs := fs.dirs;
    ghost var src := fs.dirs[sourceDir];
    ghost var dst := fs.dirs[destinationDir];
    ListingJpegs(src, order);
    CopiedNone(src, order, dst);
    UpdateSame(dirs, destinationDir);
    for i := 0 to |order|
      invariant sourceDir == destinationDir ==> JpegNames(order[..i]) == []
      invariant fs.dirs == dirs[destinationDir := dst + CopiedSoFar(src, order, i)]
    {
      var filename := order[i];
      ghost var before := fs.dirs;
      if IsJpeg(filename) {
        var sourcePath := Join(sourceDir, filename);
        var destinationPath := Join(destinationDir, filename);
        if sourceDir == destinationDir {
          JpegNamesTake(order, i);
          FirstJpeg(order, i);
          NothingCopiedYet(src, order, i);
          r := Err(SameFile(sourcePath));
          MoveFrame(old(fs.dirs), sourceDir, destinationDir, order, r, fs.dirs);
          return;
        }
        fs.dirs := fs.dirs[destinationDir := fs.dirs[destinationDir][filename := fs.dirs[sourceDir][filename]]];
      }
      CopyAdvance(dirs, sourceDir, destinationDir, order, i, before, fs.dirs);
    }
    CopiedAll(src, order);
    if sourceDir == destinationDir {
      assert order[..|order|] == order;
      NoJpegsConsolidated(dst, src);
    }
    r := Ok(());
    MoveFrame(old(fs.dirs), sourceDir, destinationDir, order, r, fs.dirs);
  }

  /**
   * What `MoveImages` leaves in each of its outcomes keeps every directory other than the
   * destination, and the source.
   */
  lemma MoveFrame<C>(before: map<Path, map<FileName, C>>, sourceDir: Path, destinationDir: Path, order: seq<FileName>,
                     r: Outcome<()>, after: map<Path, map<FileName, C>>)
    requires var made := MakeDirs(before, destinationDir);
      made.Ok? && sourceDir in made.value ==> IsListing(made.value[sourceDir], order)
    requires destinationDir == "" ==> r == Err(FileNotFound(destinationDir)) && after == before
    requires destinationDir != "" ==>
      var dirs := MakeDirs(before, destinationDir).value;
      if sourceDir !in dirs then
        r == Err(FileNotFound(sourceDir)) && after == dirs
      else if sourceDir == destinationDir && JpegKeys(dirs[sourceDir]) != {} then
        r == Err(SameFile(Join(sourceDir, JpegNames(order)[0]))) && after == dirs
      else
        r == Ok(()) && after == dirs[destinationDir := Consolidated(dirs[destinationDir], dirs[sourceDir])]
    ensures destinationDir != "" ==> destinationDir in after
    ensures sourceDir in before ==> sourceDir in after && after[sourceDir] == before[sourceDir]
    ensures forall p :: p in before && p != destinationDir ==> p in after && after[p] == before[p]
  {
    if destinationDir != "" {
      var dirs := MakeDirs(before, destinationDir).value;
      if sourceDir in dirs && sourceDir == destinationDir && JpegKeys(dirs[sourceDir]) == {} {
        NoJpegsConsolidated(dirs[destinationDir], dirs[sourceDir]);
      }
    }
  }

  /** Before the first `.jpeg` name of the listing nothing has been copied. */
  lemma NothingCopiedYet<C>(src: map<FileName, C>, order: seq<FileName>, i: int)
    requires 0 <= i <= |order|
    requires JpegNames(order[..i]) == []
    ensures CopiedSoFar(src, order, i) == map[]
  {
    assert forall f :: f in order[..i] && IsJpeg(f) ==> f in JpegNames(order[..i]);
  }

  /** The `.jpeg` entries of `src` among the first `i` listed names. */
  ghost function CopiedSoFar<C>(src: map<FileName, C>, order: seq<FileName>, i: int): map<FileName, C>
    requires 0 <= i <= |order|
  {
    map f | f in src && IsJpeg(f) && f in order[..i] :: src[f]
  }

  /** Copying from a directory without `.jpeg` files changes nothing. */
  lemma NoJpegsConsolidated<C>(dst: map<FileName, C>, src: map<FileName, C>)
    requires JpegKeys(src) == {}
    ensures Consolidated(dst, src) == dst
  {
    assert JpegEntries(src) == map[];
  }

  lemma UnionUpdate<K, V>(a: map<K, V>, b: map<K, V>, k: K, v: V)
    ensures a + b[k := v] == (a + b)[k := v]
  {
  }

  /** When no `.jpeg` name precedes position `i` and `order[i]` is one, it is the first. */
  lemma FirstJpeg(order: seq<FileName>, i: int)
    requires 0 <= i < |order|
    requires JpegNames(order[..i]) == [] && IsJpeg(order[i])
    ensures |JpegNames(order)| > 0 && JpegNames(order)[0] == order[i]
  {
    var pre, post := order[..i + 1], order[i + 1..];
    JpegNamesTake(order, i);
    assert order == pre + post;
    JpegNamesAppend(pre, post);
  }

  lemma CopiedNone<C>(src: map<FileName, C>, order: seq<FileName>, dst: map<FileName, C>)
    ensures dst + CopiedSoFar(src, order, 0) == dst
  {
    assert CopiedSoFar(src, order, 0) == map[];
  }

  lemma CopiedStep<C>(src: map<FileName, C>, order: seq<FileName>, i: int)
    requires 0 <= i < |order|
    requires order[i] in src
    ensures CopiedSoFar(src, order, i + 1) ==
      if IsJpeg(order[i]) then CopiedSoFar(src, order, i)[order[i] := src[order[i]]] else CopiedSoFar(src, order, i)
  {
    assert order[..i + 1] == order[..i] + [order[i]];
  }

  lemma CopiedAll<C>(src: map<FileName, C>, order: seq<FileName>)
    requires IsListing(src, order)
    ensures CopiedSoFar(src, order, |order|) == JpegEntries(src)
  {
    assert order[..|order|] == order;
  }

  /**
   * One more listed name in `MoveImages`: copying a `.jpeg` name into a different
   * directory, and doing nothing for any other name, keeps the destination equal to its
   * old entries plus the `.jpeg` entries of the source listed so far.
   */
  lemma CopyAdvance<C>(dirs: map<Path, map<FileName, C>>, sourceDir: Path, destinationDir: Path,
                       order: seq<FileName>, i: int, before: map<Path, map<FileName, C>>, after: map<Path, map<FileName, C>>)
    requires sourceDir in dirs && destinationDir in dirs
    requires IsListing(dirs[sourceDir], order)
    requires 0 <= i < |order|
    requires sourceDir == destinationDir ==> JpegNames(order[..i]) == []
    requires before == dirs[destinationDir := dirs[destinationDir] + CopiedSoFar(dirs[sourceDir], order, i)]
    requires !(IsJpeg(order[i]) && sourceDir == destinationDir)
    requires after ==
      if IsJpeg(order[i]) then before[destinationDir := before[destinationDir][order[i] := before[sourceDir][order[i]]]]
      else before
    ensures sourceDir == destinationDir ==> JpegNames(order[..i + 1]) == []
    ensures after == dirs[destinationDir := dirs[destinationDir] + CopiedSoFar(dirs[sourceDir], order, i + 1)]
  {
    var src, dst, f := dirs[sourceDir], dirs[destinationDir], order[i];
    JpegNamesTake(order, i);
    assert f in src;
    CopiedStep(src, order, i);
    if IsJpeg(f) {
      var so := dst + CopiedSoFar(src, order, i);
      assert before[sourceDir] == src;
      UnionUpdate(dst, CopiedSoFar(src, order, i), f, src[f]);
      UpdateTwice(dirs, destinationDir, so, so[f := src[f]]);
    }
  }
}
