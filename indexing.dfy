/**
 * Indexing (`creating_dataframe`): the table of image paths and labels built from the
 * `NORMAL` and `PNEUMONIA` sub-directories of a dataset directory.
 */
module Indexing {
  import opened Outcomes
  import opened FileSystems

  /** The label of an image of a healthy patient. */
  const NormalLabel := 0
  /** The label of an image of a patient with pneumonia. */
  const PneumoniaLabel := 1

  /** The two columns of the `pandas` data frame, `image_path` and `label`, row by row. */
  datatype DataFrame = DataFrame(imagePath: seq<Path>, labels: seq<int>)

  /** `os.path.join(dir, f)` for each name, in order. */
  function JoinAll(dir: Path, names: seq<FileName>): (r: seq<Path>)
    ensures |r| == |names|
    ensures forall i :: 0 <= i < |names| ==> r[i] == Join(dir, names[i])
  {
    seq(|names|, i requires 0 <= i < |names| => Join(dir, names[i]))
  }

  lemma JoinAllSnoc(dir: Path, names: seq<FileName>, x: FileName)
    ensures JoinAll(dir, names + [x]) == JoinAll(dir, names) + [Join(dir, x)]
  {
  }

  function Repeat(v: int, n: nat): (r: seq<int>)
    ensures |r| == n
    ensures forall i :: 0 <= i < n ==> r[i] == v
  {
    seq(n, _ => v)
  }

  lemma RepeatSnoc(v: int, n: nat)
    ensures Repeat(v, n) + [v] == Repeat(v, n + 1)
  {
  }

  lemma AppendAssoc<T>(a: seq<T>, b: seq<T>, c: seq<T>)
    ensures (a + b) + c == a + (b + c)
  {
  }

  /**
   * One more listed name in `AppendRows`: appending the joined path and the label for a
   * `.jpeg` name, and nothing for any other name, keeps the columns equal to the rows of
   * the names filtered so far.
   */
  lemma AppendAdvance(imagePath: seq<Path>, labels: seq<int>, dir: Path, order: seq<FileName>, classLabel: int,
                      i: int, paths: seq<Path>, labs: seq<int>, paths': seq<Path>, labs': seq<int>)
    requires 0 <= i < |order|
    requires paths == imagePath + JoinAll(dir, JpegNames(order[..i]))
    requires labs == labels + Repeat(classLabel, |JpegNames(order[..i])|)
    requires paths' == if IsJpeg(order[i]) then paths + [Join(dir, order[i])] else paths
    requires labs' == if IsJpeg(order[i]) then labs + [classLabel] else labs
    ensures paths' == imagePath + JoinAll(dir, JpegNames(order[..i + 1]))
    ensures labs' == labels + Repeat(classLabel, |JpegNames(order[..i + 1])|)
  {
    JpegNamesTake(order, i);
    var names := JpegNames(order[..i]);
    if IsJpeg(order[i]) {
      JoinAllSnoc(dir, names, order[i]);
      AppendAssoc(imagePath, JoinAll(dir, names), [Join(dir, order[i])]);
      AppendAssoc(labels, Repeat(classLabel, |names|), [classLabel]);
      RepeatSnoc(classLabel, |names|);
    }
  }

  /**
   * The frame for the given `.jpeg` names of the two directories: the normal images first,
   * labelled 0, then the pneumonia images, labelled 1, each group in listing order.
   */
  function Frame(normalDir: Path, normalNames: seq<FileName>, pneumoniaDir: Path, pneumoniaNames: seq<FileName>)
    : (df: DataFrame)
    ensures |df.imagePath| == |df.labels| == |normalNames| + |pneumoniaNames|
    ensures forall i :: 0 <= i < |normalNames| ==>
      df.imagePath[i] == Join(normalDir, normalNames[i]) && df.labels[i] == NormalLabel
    ensures forall i :: |normalNames| <= i < |df.labels| ==>
      df.imagePath[i] == Join(pneumoniaDir, pneumoniaNames[i - |normalNames|]) && df.labels[i] == PneumoniaLabel
  {
    DataFrame(JoinAll(normalDir, normalNames) + JoinAll(pneumoniaDir, pneumoniaNames),
              Repeat(NormalLabel, |normalNames|) + Repeat(PneumoniaLabel, |pneumoniaNames|))
  }

  /**
   * One loop of `creating_dataframe`: for each name of the listing of `dir`, in order, a
   * `.jpeg` name appends its joined path and `classLabel` to the two columns.
   */
  method AppendRows(imagePath: seq<Path>, labels: seq<int>, dir: Path, order: seq<FileName>, classLabel: int)
    returns (imagePath': seq<Path>, labels': seq<int>)
    ensures imagePath' == imagePath + JoinAll(dir, JpegNames(order))
    ensures labels' == labels + Repeat(classLabel, |JpegNames(order)|)
  {
    imagePath', labels' := imagePath, labels;
    for i := 0 to |order|
      invariant imagePath' == imagePath + JoinAll(dir, JpegNames(order[..i]))
      invariant labels' == labels + Repeat(classLabel, |JpegNames(order[..i])|)
    {
      var filename := order[i];
      ghost var paths, labs := imagePath', labels';
      if IsJpeg(filename) {
        var path := Join(dir, filename);
        imagePath' := imagePath' + [path];
        labels' := labels' + [classLabel];
      }
      AppendAdvance(imagePath, labels, dir, order, classLabel, i, paths, labs, imagePath', labels');
    }
    assert order[..|order|] == order;
  }

  /**
   * `creating_dataframe(dataset_dir)`: lists `NORMAL` and then `PNEUMONIA` under the dataset
   * directory and appends a row for each `.jpeg` file. A missing sub-directory raises
   * `FileNotFoundError`, the `NORMAL` one being listed first.
   */
  method CreatingDataframe<C>(fs: FileSystem<C>, datasetDir: Path, normalOrder: seq<FileName>, pneumoniaOrder: seq<FileName>)
    returns (r: Outcome<DataFrame>)
    requires var d := Join(datasetDir, "NORMAL"); d in fs.dirs ==> IsListing(fs.dirs[d], normalOrder)
    requires var d := Join(datasetDir, "PNEUMONIA"); d in fs.dirs ==> IsListing(fs.dirs[d], pneumoniaOrder)
    ensures var normalDir, pneumoniaDir := Join(datasetDir, "NORMAL"), Join(datasetDir, "PNEUMONIA");
      if normalDir !in fs.dirs then r == Err(FileNotFound(normalDir))
      else if pneumoniaDir !in fs.dirs then r == Err(FileNotFound(pneumoniaDir))
      else r == Ok(Frame(normalDir, JpegNames(normalOrder), pneumoniaDir, JpegNames(pneumoniaOrder)))
  {
    var imagePath: seq<Path> := [];
    var labels: seq<int> := [];

    var normalDir := Join(datasetDir, "NORMAL");
    if normalDir !in fs.dirs {
      return Err(FileNotFound(normalDir));
    }
    imagePath, labels := AppendRows(imagePath, labels, normalDir, normalOrder, NormalLabel);
    assert imagePath == JoinAll(normalDir, JpegNames(normalOrder));
    assert labels == Repeat(NormalLabel, |JpegNames(normalOrder)|);

    var pneumoniaDir := Join(datasetDir, "PNEUMONIA");
    if pneumoniaDir !in fs.dirs {
      return Err(FileNotFound(pneumoniaDir));
    }
    imagePath, labels := AppendRows(imagePath, labels, pneumoniaDir, pneumoniaOrder, PneumoniaLabel);
    return Ok(DataFrame(imagePath, labels));
  }

  /**
   * Over real listings the frame has one row per `.jpeg` file of the two directories, of
   * which the first `|JpegKeys(normal)|` are the normal ones.
   */
  lemma FrameSize<C>(normalDir: Path, normal: map<FileName, C>, normalOrder: seq<FileName>,
                     pneumoniaDir: Path, pneumonia: map<FileName, C>, pneumoniaOrder: seq<FileName>)
    requires IsListing(normal, normalOrder) && IsListing(pneumonia, pneumoniaOrder)
    ensures var df := Frame(normalDir, JpegNames(normalOrder), pneumoniaDir, JpegNames(pneumoniaOrder));
      && |df.imagePath| == |df.labels| == |JpegKeys(normal)| + |JpegKeys(pneumonia)|
      && (forall i :: 0 <= i < |df.labels| ==> (df.labels[i] == NormalLabel <==> i < |JpegKeys(normal)|))
  {
    ListingJpegs(normal, normalOrder);
    ListingJpegs(pneumonia, pneumoniaOrder);
  }

  /** A `.jpeg` file of a directory sits at some position of the filtered listing. */
  lemma ListedName<C>(dir: map<FileName, C>, order: seq<FileName>, f: FileName)
    requires IsListing(dir, order) && f in JpegKeys(dir)
    ensures exists k :: 0 <= k < |JpegNames(order)| && JpegNames(order)[k] == f
  {
    assert f in JpegNames(order);
  }

  /** Every `.jpeg` file of either directory has a row, labelled by the directory it is in. */
  lemma FrameCoversImages<C>(normalDir: Path, normal: map<FileName, C>, normalOrder: seq<FileName>,
                             pneumoniaDir: Path, pneumonia: map<FileName, C>, pneumoniaOrder: seq<FileName>,
                             df: DataFrame)
    requires IsListing(normal, normalOrder) && IsListing(pneumonia, pneumoniaOrder)
    requires df == Frame(normalDir, JpegNames(normalOrder), pneumoniaDir, JpegNames(pneumoniaOrder))
    ensures forall f :: f in JpegKeys(normal) ==>
      exists i :: 0 <= i < |df.labels| && df.imagePath[i] == Join(normalDir, f) && df.labels[i] == NormalLabel
    ensures forall f :: f in JpegKeys(pneumonia) ==>
      exists i :: 0 <= i < |df.labels| && df.imagePath[i] == Join(pneumoniaDir, f) && df.labels[i] == PneumoniaLabel
  {
    forall f | f in JpegKeys(normal)
      ensures exists i :: 0 <= i < |df.labels| && df.imagePath[i] == Join(normalDir, f) && df.labels[i] == NormalLabel
    {
      ListedName(normal, normalOrder, f);
      NormalRow(normalDir, JpegNames(normalOrder), pneumoniaDir, JpegNames(pneumoniaOrder), df, f);
    }
    forall f | f in JpegKeys(pneumonia)
      ensures exists i :: 0 <= i < |df.labels| && df.imagePath[i] == Join(pneumoniaDir, f) && df.labels[i] == PneumoniaLabel
    {
      ListedName(pneumonia, pneumoniaOrder, f);
      PneumoniaRow(normalDir, JpegNames(normalOrder), pneumoniaDir, JpegNames(pneumoniaOrder), df, f);
    }
  }

  lemma NormalRow(normalDir: Path, normalNames: seq<FileName>, pneumoniaDir: Path, pneumoniaNames: seq<FileName>,
                  df: DataFrame, f: FileName)
    requires df == Frame(normalDir, normalNames, pneumoniaDir, pneumoniaNames)
    requires exists k :: 0 <= k < |normalNames| && normalNames[k] == f
    ensures exists i :: 0 <= i < |df.labels| && df.imagePath[i] == Join(normalDir, f) && df.labels[i] == NormalLabel
  {
    var k :| 0 <= k < |normalNames| && normalNames[k] == f;
    assert df.imagePath[k] == Join(normalDir, f);
  }

  lemma PneumoniaRow(normalDir: Path, normalNames: seq<FileName>, pneumoniaDir: Path, pneumoniaNames: seq<FileName>,
                     df: DataFrame, f: FileName)
    requires df == Frame(normalDir, normalNames, pneumoniaDir, pneumoniaNames)
    requires exists k :: 0 <= k < |pneumoniaNames| && pneumoniaNames[k] == f
    ensures exists i :: 0 <= i < |df.labels| && df.imagePath[i] == Join(pneumoniaDir, f) && df.labels[i] == PneumoniaLabel
  {
    var k :| 0 <= k < |pneumoniaNames| && pneumoniaNames[k] == f;
    var i := |normalNames| + k;
    assert i - |normalNames| == k;
    assert df.imagePath[i] == Join(pneumoniaDir, f);
  }

  /** Joining one directory with distinct relative names gives distinct paths. */
  lemma JoinAllDistinct(dir: Path, names: seq<FileName>)
    requires Distinct(names)
    requires forall k :: 0 <= k < |names| ==> Relative(names[k])
    ensures Distinct(JoinAll(dir, names))
  {
    var paths := JoinAll(dir, names);
    forall i, j | 0 <= i < j < |paths| ensures paths[i] != paths[j] {
      JoinInjective(dir, names[i], names[j]);
    }
  }

  /** Two rows with one label lie in the same group, so distinct groups give distinct rows per label. */
  lemma GroupsDistinct(normalPaths: seq<Path>, pneumoniaPaths: seq<Path>, df: DataFrame)
    requires Distinct(normalPaths) && Distinct(pneumoniaPaths)
    requires df.imagePath == normalPaths + pneumoniaPaths
    requires df.labels == Repeat(NormalLabel, |normalPaths|) + Repeat(PneumoniaLabel, |pneumoniaPaths|)
    ensures forall i, j :: 0 <= i < j < |df.imagePath| && df.labels[i] == df.labels[j] ==>
      df.imagePath[i] != df.imagePath[j]
  {
    var n0 := |normalPaths|;
    forall i, j | 0 <= i < j < |df.imagePath| && df.labels[i] == df.labels[j]
      ensures df.imagePath[i] != df.imagePath[j]
    {
      if j < n0 {
        assert df.imagePath[i] == normalPaths[i] && df.imagePath[j] == normalPaths[j];
      } else {
        assert df.labels[j] == PneumoniaLabel;
        assert n0 <= i;
        assert df.imagePath[i] == pneumoniaPaths[i - n0] && df.imagePath[j] == pneumoniaPaths[j - n0];
      }
    }
  }

  /** The `.jpeg` names of a listing of relative names are relative. */
  lemma NamesRelative(order: seq<FileName>)
    requires forall f :: f in order ==> Relative(f)
    ensures var names := JpegNames(order); forall k :: 0 <= k < |names| ==> Relative(names[k])
  {
    var names := JpegNames(order);
    forall k | 0 <= k < |names| ensures Relative(names[k]) {
      assert names[k] in names;
    }
  }

  /**
   * No two rows of one class name the same file, since a listing names each entry once and
   * its names are relative.
   */
  lemma FrameRowsDistinct<C>(normalDir: Path, normal: map<FileName, C>, normalOrder: seq<FileName>,
                             pneumoniaDir: Path, pneumonia: map<FileName, C>, pneumoniaOrder: seq<FileName>,
                             df: DataFrame)
    requires IsListing(normal, normalOrder) && IsListing(pneumonia, pneumoniaOrder)
    requires forall f :: f in normalOrder ==> Relative(f)
    requires forall f :: f in pneumoniaOrder ==> Relative(f)
    requires df == Frame(normalDir, JpegNames(normalOrder), pneumoniaDir, JpegNames(pneumoniaOrder))
    ensures forall i, j :: 0 <= i < j < |df.imagePath| && df.labels[i] == df.labels[j] ==>
      df.imagePath[i] != df.imagePath[j]
  {
    var normalNames, pneumoniaNames := JpegNames(normalOrder), JpegNames(pneumoniaOrder);
    JpegNamesDistinct(normalOrder);
    JpegNamesDistinct(pneumoniaOrder);
    NamesRelative(normalOrder);
    NamesRelative(pneumoniaOrder);
    JoinAllDistinct(normalDir, normalNames);
    JoinAllDistinct(pneumoniaDir, pneumoniaNames);
    GroupsDistinct(JoinAll(normalDir, normalNames), JoinAll(pneumoniaDir, pneumoniaNames), df);
  }

  /** The labels never go down: all zeros, then all ones. */
  lemma FrameLabelsSorted(normalDir: Path, normalNames: seq<FileName>, pneumoniaDir: Path, pneumoniaNames: seq<FileName>)
    ensures var df := Frame(normalDir, normalNames, pneumoniaDir, pneumoniaNames);
      forall i, j :: 0 <= i <= j < |df.labels| ==> df.labels[i] <= df.labels[j]
  {
    var df := Frame(normalDir, normalNames, pneumoniaDir, pneumoniaNames);
    forall i, j | 0 <= i <= j < |df.labels|
      ensures df.labels[i] <= df.labels[j]
    {
      assert df.labels[i] == (if i < |normalNames| then NormalLabel else PneumoniaLabel);
      assert df.labels[j] == (if j < |normalNames| then NormalLabel else PneumoniaLabel);
    }
  }
}
