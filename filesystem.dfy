/**
 * The part of the operating system the data-preparation script touches: directories of
 * files, the `.jpeg` suffix test, `os.path.join` and the guarded `os.makedirs`.
 */
module FileSystems {
  import opened Outcomes

  type Path = string
  type FileName = string

  /** `name.endswith('.jpeg')`. */
  predicate IsJpeg(name: FileName) {
    |name| >= 5 && name[|name| - 5..] == ".jpeg"
  }

  /** POSIX `os.path.join(a, b)` for two components. */
  function Join(a: Path, b: FileName): (r: Path)
    ensures |r| >= |b| && r[|r| - |b|..] == b
    ensures (|b| == 0 || b[0] != '/') ==> |r| >= |a| && r[..|a|] == a
  {
    if |b| > 0 && b[0] == '/' then b
    else if a == "" || a[|a| - 1] == '/' then a + b
    else a + "/" + b
  }

  /** A name `os.path.join` appends rather than substitutes: it does not start with `/`. */
  predicate Relative(name: FileName) {
    |name| == 0 || name[0] != '/'
  }

  /** Joining one directory with two different relative names gives two different paths. */
  lemma JoinInjective(a: Path, b1: FileName, b2: FileName)
    requires Relative(b1) && Relative(b2)
    requires b1 != b2
    ensures Join(a, b1) != Join(a, b2)
  {
    var p := if a == "" || a[|a| - 1] == '/' then a else a + "/";
    assert Join(a, b1) == p + b1 && Join(a, b2) == p + b2;
    assert (p + b1)[|p|..] == b1;
    assert (p + b2)[|p|..] == b2;
  }

  /**
   * The file system: every existing directory, by path, maps the names of its entries to
   * their contents. A path is its canonical spelling.
   */
  class FileSystem<C> {
    var dirs: map<Path, map<FileName, C>>

    constructor (initial: map<Path, map<FileName, C>>)
      ensures dirs == initial
    {
      dirs := initial;
    }
  }

  /**
   * `os.makedirs(p)` guarded by `os.path.exists(p)`: an absent directory is created empty.
   * The empty path never exists, and `os.makedirs('')` raises `FileNotFoundError`.
   */
  function MakeDirs<C>(dirs: map<Path, map<FileName, C>>, p: Path): (r: Outcome<map<Path, map<FileName, C>>>)
    ensures r.Err? <==> p == ""
    ensures r.Err? ==> r.error == FileNotFound(p)
    ensures r.Ok? ==> p in r.value
    ensures r.Ok? && p in dirs ==> r.value == dirs
    ensures r.Ok? && p !in dirs ==> r.value[p] == map[]
    ensures r.Ok? ==> forall q :: q in dirs ==> q in r.value && r.value[q] == dirs[q]
  {
    if p == "" then Err(FileNotFound(p))
    else if p in dirs then Ok(dirs)
    else Ok(dirs[p := map[]])
  }

  /** Updating the same key twice keeps the second value. */
  lemma UpdateTwice<K, V>(m: map<K, V>, k: K, a: V, b: V)
    ensures m[k := a][k := b] == m[k := b]
  {
  }

  /** Storing back the value a key already has changes nothing. */
  lemma UpdateSame<K, V>(m: map<K, V>, k: K)
    requires k in m
    ensures m[k := m[k]] == m
  {
  }

  ghost predicate Distinct<T>(s: seq<T>) {
    forall i, j :: 0 <= i < j < |s| ==> s[i] != s[j]
  }

  /** `order` is an `os.listdir` result for `dir`: each entry exactly once, in some order. */
  ghost predicate IsListing<C>(dir: map<FileName, C>, order: seq<FileName>) {
    && Distinct(order)
    && forall f :: f in order <==> f in dir
  }

  function Elems<T>(s: seq<T>): set<T> {
    set x | x in s
  }

  lemma ElemsAppend<T>(a: seq<T>, b: seq<T>)
    ensures Elems(a + b) == Elems(a) + Elems(b)
  {
  }

  /** The names of the `.jpeg` entries of a directory. */
  function JpegKeys<C>(dir: map<FileName, C>): set<FileName> {
    set f | f in dir && IsJpeg(f)
  }

  /** `[f for f in names if f.endswith('.jpeg')]`. */
  function JpegNames(names: seq<FileName>): (r: seq<FileName>)
    ensures forall x :: x in r <==> x in names && IsJpeg(x)
    ensures forall i :: 0 <= i < |r| ==> IsJpeg(r[i])
    ensures |r| <= |names|
    decreases |names|
  {
    if names == [] then []
    else
      var init, last := names[..|names| - 1], names[|names| - 1];
      assert names == init + [last];
      JpegNames(init) + (if IsJpeg(last) then [last] else [])
  }

  /** Filtering one more name appends it when it is a `.jpeg` name. */
  lemma JpegNamesSnoc(names: seq<FileName>, x: FileName)
    ensures JpegNames(names + [x]) == JpegNames(names) + (if IsJpeg(x) then [x] else [])
  {
    assert (names + [x])[..|names + [x]| - 1] == names;
  }

  /** Filtering a prefix one name longer. */
  lemma JpegNamesTake(names: seq<FileName>, i: int)
    requires 0 <= i < |names|
    ensures JpegNames(names[..i + 1]) == JpegNames(names[..i]) + (if IsJpeg(names[i]) then [names[i]] else [])
  {
    assert names[..i + 1] == names[..i] + [names[i]];
    JpegNamesSnoc(names[..i], names[i]);
  }

  /** Filtering a concatenation filters each part. */
  lemma {:induction false} JpegNamesAppend(a: seq<FileName>, b: seq<FileName>)
    ensures JpegNames(a + b) == JpegNames(a) + JpegNames(b)
    decreases |b|
  {
    if b != [] {
      var b', last := b[..|b| - 1], b[|b| - 1];
      assert a + b == (a + b') + [last];
      assert (a + b)[..|a + b| - 1] == a + b';
      JpegNamesAppend(a, b');
    } else {
      assert a + b == a;
    }
  }

  /** Filtering keeps the names of a distinct sequence distinct. */
  lemma {:induction false} JpegNamesDistinct(names: seq<FileName>)
    requires Distinct(names)
    ensures Distinct(JpegNames(names))
    decreases |names|
  {
    if names != [] {
      var init, last := names[..|names| - 1], names[|names| - 1];
      assert Distinct(init);
      JpegNamesDistinct(init);
      assert last !in init;
    }
  }

  /** A sequence without repetitions has as many elements as its set of elements. */
  lemma {:induction false} DistinctCard<T>(s: seq<T>)
    requires Distinct(s)
    ensures |Elems(s)| == |s|
    decreases |s|
  {
    if s != [] {
      var init, last := s[..|s| - 1], s[|s| - 1];
      assert Distinct(init);
      DistinctCard(init);
      assert s == init + [last];
      assert Elems(s) == Elems(init) + {last};
      assert last !in Elems(init);
    }
  }

  /**
   * The `.jpeg` names picked out of a listing are exactly the `.jpeg` entries of the
   * directory, each once: their number is the directory's `.jpeg` count.
   */
  lemma ListingJpegs<C>(dir: map<FileName, C>, order: seq<FileName>)
    requires IsListing(dir, order)
    ensures Distinct(JpegNames(order))
    ensures Elems(JpegNames(order)) == JpegKeys(dir)
    ensures |JpegNames(order)| == |JpegKeys(dir)|
  {
    JpegNamesDistinct(order);
    DistinctCard(JpegNames(order));
  }
}
