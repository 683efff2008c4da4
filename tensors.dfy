/**
 * Tensors (`flatten_images`, `reshape_images`): turning a batch of `h x w x c` images into
 * one row of `h * w * c` values per image, for the oversampler, and back, in `numpy`'s
 * row-major (`C`) order. The element type is left abstract: the values are never inspected.
 */
module Tensors {
  import opened Outcomes

  /** An image as rows of pixels, each pixel a sequence of channel values. */
  type Image<T> = seq<seq<seq<T>>>

  /** Every element of `xs` has length `k`. */
  ghost predicate Uniform<T>(xs: seq<seq<T>>, k: nat) {
    forall i :: 0 <= i < |xs| ==> |xs[i]| == k
  }

  /** `img` has the shape `(h, w, c)`. */
  ghost predicate IsImage<T>(img: Image<T>, h: nat, w: nat, c: nat) {
    |img| == h && Uniform(img, w) && forall i :: 0 <= i < h ==> Uniform(img[i], c)
  }

  /** `batch` is an array of shape `(n, h, w, c)` for `n == |batch|`. */
  ghost predicate IsBatch<T>(batch: seq<Image<T>>, h: nat, w: nat, c: nat) {
    forall n :: 0 <= n < |batch| ==> IsImage(batch[n], h, w, c)
  }

  /** The parts one after another. */
  function Concat<T>(xs: seq<seq<T>>): seq<T> {
    if xs == [] then [] else xs[0] + Concat(xs[1..])
  }

  /** `v` cut into consecutive pieces of length `k`, the last one possibly shorter. */
  function Chunks<T>(v: seq<T>, k: nat): (r: seq<seq<T>>)
    requires k > 0
    ensures forall i :: 0 <= i < |r| ==> 0 < |r[i]| <= k
    decreases |v|
  {
    if v == [] then []
    else
      var n := if |v| < k then |v| else k;
      [v[..n]] + Chunks(v[n..], k)
  }

  /** An image's values in row-major order. */
  function FlattenImage<T>(img: Image<T>): seq<T> {
    Concat(Concat(img))
  }

  /** Row-major values read back into an image of width `w` with `c` channels. */
  function UnflattenImage<T>(v: seq<T>, w: nat, c: nat): Image<T>
    requires w > 0 && c > 0
  {
    Chunks(Chunks(v, c), w)
  }

  /** Each image of a batch as its row of values. */
  function FlattenEach<T>(images: seq<Image<T>>): (rows: seq<seq<T>>)
    ensures |rows| == |images|
    ensures forall i :: 0 <= i < |images| ==> rows[i] == FlattenImage(images[i])
  {
    seq(|images|, i requires 0 <= i < |images| => FlattenImage(images[i]))
  }

  /**
   * `flatten_images(images)`, `images.reshape(images.shape[0], -1)` on an array of shape
   * `(n, h, w, c)`. With no image `numpy` cannot infer the `-1` dimension and raises.
   */
  function FlattenImages<T>(images: seq<Image<T>>, h: nat, w: nat, c: nat): (r: Outcome<seq<seq<T>>>)
    requires IsBatch(images, h, w, c)
    ensures r.Err? <==> |images| == 0
    ensures r.Err? ==> r.error == CannotReshape(0)
    ensures r.Ok? ==> |r.value| == |images| && Uniform(r.value, h * w * c)
  {
    if |images| == 0 then Err(CannotReshape(0))
    else
      var rows := FlattenEach(images);
      assert Uniform(rows, h * w * c) by {
        forall i | 0 <= i < |images| ensures |rows[i]| == h * w * c {
          FlattenImageLength(images[i], h, w, c);
        }
      }
      Ok(rows)
  }

  /**
   * `reshape_images(flattened_images, (h, w, c))`, `flattened_images.reshape(-1, h, w, c)`:
   * the values of all rows, in order, regrouped into images of shape `(h, w, c)`. `numpy`
   * raises when the known dimensions multiply to zero or do not divide the array's size.
   */
  function ReshapeImages<T>(flattened: seq<seq<T>>, h: nat, w: nat, c: nat): (r: Outcome<seq<Image<T>>>)
    ensures r.Err? <==> h * w * c == 0 || |Concat(flattened)| % (h * w * c) != 0
    ensures r.Err? ==> r.error == CannotReshape(|Concat(flattened)|)
    ensures r.Ok? ==> |r.value| * (h * w * c) == |Concat(flattened)| && IsBatch(r.value, h, w, c)
  {
    var v, size := Concat(flattened), h * w * c;
    if size == 0 || |v| % size != 0 then Err(CannotReshape(|v|))
    else
      RegroupShape(v, h, w, c);
      Ok(Regroup(v, h, w, c))
  }

  /** The values cut into pieces of `h * w * c`, each read back as an image. */
  function Regroup<T>(v: seq<T>, h: nat, w: nat, c: nat): seq<Image<T>>
    requires h * w * c != 0
  {
    NonZeroProduct(h, w, c);
    var chunks := Chunks(v, h * w * c);
    seq(|chunks|, i requires 0 <= i < |chunks| => UnflattenImage(chunks[i], w, c))
  }

  /** A whole number of images' worth of values regroups into that many `(h, w, c)` images. */
  lemma RegroupShape<T>(v: seq<T>, h: nat, w: nat, c: nat)
    requires h * w * c != 0 && |v| % (h * w * c) == 0
    ensures |Regroup(v, h, w, c)| * (h * w * c) == |v|
    ensures IsBatch(Regroup(v, h, w, c), h, w, c)
  {
    var size := h * w * c;
    var n := |v| / size;
    var chunks := Chunks(v, size);
    ChunksOfProduct(v, n, size);
    var images := Regroup(v, h, w, c);
    forall i | 0 <= i < n ensures IsImage(images[i], h, w, c) {
      UnflattenImageShape(chunks[i], h, w, c);
    }
  }

  lemma {:induction false} ConcatLength<T>(xs: seq<seq<T>>, k: nat)
    requires Uniform(xs, k)
    ensures |Concat(xs)| == |xs| * k
  {
    if xs != [] {
      ConcatLength(xs[1..], k);
      MulSucc(|xs| - 1, k);
    }
  }

  lemma DivMul(n: nat, k: nat)
    requires k > 0
    ensures (n * k) / k == n && (n * k) % k == 0
  {
    var q, r := (n * k) / k, (n * k) % k;
    assert n * k == q * k + r && 0 <= r < k;
    MulMono(q + 1, n, k);
    MulMono(n + 1, q, k);
    MulSucc(q, k);
    MulSucc(n, k);
  }

  lemma MulSucc(a: int, k: nat)
    ensures (a + 1) * k == a * k + k
  {
  }

  lemma MulMono(a: int, b: int, k: nat)
    ensures a <= b ==> a * k <= b * k
  {
  }

  lemma FlattenImageLength<T>(img: Image<T>, h: nat, w: nat, c: nat)
    requires IsImage(img, h, w, c)
    ensures |FlattenImage(img)| == h * w * c
  {
    ConcatLength(img, w);
    ConcatUniform(img, c);
    ConcatLength(Concat(img), c);
  }

  /** Concatenating rows of pixels with `c` channels each gives pixels with `c` channels. */
  lemma {:induction false} ConcatUniform<T>(img: Image<T>, c: nat)
    requires forall i :: 0 <= i < |img| ==> Uniform(img[i], c)
    ensures Uniform(Concat(img), c)
  {
    if img != [] {
      ConcatUniform(img[1..], c);
      var rest := Concat(img[1..]);
      assert Concat(img) == img[0] + rest;
      forall p | 0 <= p < |img[0] + rest| ensures |(img[0] + rest)[p]| == c {
        if p >= |img[0]| {
          assert (img[0] + rest)[p] == rest[p - |img[0]|];
        }
      }
    }
  }

  /** Cutting a sequence of `n * k` values gives `n` pieces of length exactly `k`. */
  lemma {:induction false} ChunksOfProduct<T>(v: seq<T>, n: nat, k: nat)
    requires k > 0 && |v| == n * k
    ensures |Chunks(v, k)| == n && Uniform(Chunks(v, k), k)
  {
    if n > 0 {
      MulSucc(n - 1, k);
      ChunksOfProduct(v[k..], n - 1, k);
    }
  }

  /** Joining the pieces gives the sequence back. */
  lemma {:induction false} ConcatChunks<T>(v: seq<T>, k: nat)
    requires k > 0
    ensures Concat(Chunks(v, k)) == v
    decreases |v|
  {
    if v != [] {
      var n := if |v| < k then |v| else k;
      ConcatChunks(v[n..], k);
      assert ([v[..n]] + Chunks(v[n..], k))[1..] == Chunks(v[n..], k);
    }
  }

  /** Cutting the concatenation of pieces of length `k` gives those pieces back. */
  lemma {:induction false} ChunksConcat<T>(xs: seq<seq<T>>, k: nat)
    requires k > 0 && Uniform(xs, k)
    ensures Chunks(Concat(xs), k) == xs
  {
    if xs != [] {
      var v := Concat(xs);
      ConcatLength(xs[1..], k);
      assert v[..k] == xs[0];
      assert v[k..] == Concat(xs[1..]);
      ChunksConcat(xs[1..], k);
    }
  }

  /** Pieces of a sequence of pixels with `c` channels hold pixels with `c` channels. */
  lemma {:induction false} ChunksUniform<T>(pixels: seq<seq<T>>, k: nat, c: nat)
    requires k > 0 && Uniform(pixels, c)
    ensures forall i :: 0 <= i < |Chunks(pixels, k)| ==> Uniform(Chunks(pixels, k)[i], c)
    decreases |pixels|
  {
    if pixels != [] {
      var n := if |pixels| < k then |pixels| else k;
      var rest := Chunks(pixels[n..], k);
      ChunksUniform(pixels[n..], k, c);
      assert Chunks(pixels, k) == [pixels[..n]] + rest;
      forall i | 0 <= i < |Chunks(pixels, k)| ensures Uniform(Chunks(pixels, k)[i], c) {
        if i > 0 {
          assert Chunks(pixels, k)[i] == rest[i - 1];
        }
      }
    }
  }

  /** `h * w * c` values read back form an image of shape `(h, w, c)`. */
  lemma UnflattenImageShape<T>(v: seq<T>, h: nat, w: nat, c: nat)
    requires w > 0 && c > 0 && |v| == h * w * c
    ensures IsImage(UnflattenImage(v, w, c), h, w, c)
  {
    assert |v| == (h * w) * c;
    ChunksOfProduct(v, h * w, c);
    var pixels := Chunks(v, c);
    ChunksOfProduct(pixels, h, w);
    ChunksUniform(pixels, w, c);
  }

  /** The value at `(i, j, d)` of an `(h, w, c)` image is at `(i * w + j) * c + d` of its row. */
  lemma FlattenImageAt<T>(img: Image<T>, h: nat, w: nat, c: nat, i: nat, j: nat, d: nat)
    requires IsImage(img, h, w, c) && i < h && j < w && d < c
    ensures |FlattenImage(img)| == h * w * c
    ensures (i * w + j) * c + d < h * w * c && FlattenImage(img)[(i * w + j) * c + d] == img[i][j][d]
  {
    FlattenImageLength(img, h, w, c);
    ConcatAt(img, w, i, j);
    ConcatUniform(img, c);
    ConcatLength(img, w);
    IndexBound(i, j, h, w);
    ConcatAt(Concat(img), c, i * w + j, d);
    IndexBound(i * w + j, d, h * w, c);
  }

  lemma IndexBound(i: nat, j: nat, h: nat, w: nat)
    requires i < h && j < w
    ensures i * w + j < h * w
  {
    MulMono(i + 1, h, w);
    MulSucc(i, w);
  }

  /** Position `(i, j)` of pieces of length `k` lands at `i * k + j` of their concatenation. */
  lemma {:induction false} ConcatAt<T>(xs: seq<seq<T>>, k: nat, i: nat, j: nat)
    requires Uniform(xs, k) && i < |xs| && j < k
    ensures i * k + j < |Concat(xs)| && Concat(xs)[i * k + j] == xs[i][j]
  {
    ConcatLength(xs, k);
    IndexBound(i, j, |xs|, k);
    assert |xs[0]| == k;
    if i > 0 {
      var rest := Concat(xs[1..]);
      ConcatAt(xs[1..], k, i - 1, j);
      MulSucc(i - 1, k);
      assert (xs[0] + rest)[i * k + j] == rest[(i - 1) * k + j];
    }
  }

  /** The value at `(i, j, d)` of image `n` is at position `(i * w + j) * c + d` of row `n`. */
  lemma FlattenImagesAt<T>(images: seq<Image<T>>, h: nat, w: nat, c: nat, n: nat, i: nat, j: nat, d: nat)
    requires IsBatch(images, h, w, c) && n < |images| && i < h && j < w && d < c
    ensures var r := FlattenImages(images, h, w, c);
      r.Ok? && (i * w + j) * c + d < |r.value[n]| && r.value[n][(i * w + j) * c + d] == images[n][i][j][d]
  {
    FlattenImageAt(images[n], h, w, c, i, j, d);
  }

  /** Flattening a non-empty batch and reshaping it with the same image shape restores it. */
  lemma ReshapeFlattenRoundTrip<T>(images: seq<Image<T>>, h: nat, w: nat, c: nat)
    requires IsBatch(images, h, w, c) && |images| > 0 && h > 0 && w > 0 && c > 0
    ensures var f := FlattenImages(images, h, w, c);
      f.Ok? && ReshapeImages(f.value, h, w, c) == Ok(images)
  {
    var rows := FlattenImages(images, h, w, c).value;
    var size := h * w * c;
    assert size > 0;
    ChunksConcat(rows, size);
    ConcatLength(rows, size);
    DivMul(|images|, size);
    var r := ReshapeImages(rows, h, w, c);
    assert r.Ok? && |r.value| == |images|;
    forall n | 0 <= n < |images| ensures r.value[n] == images[n] {
      UnflattenFlatten(images[n], h, w, c);
    }
    assert r.value == images;
  }

  /** Reading an image back from its flattened values gives the image. */
  lemma UnflattenFlatten<T>(img: Image<T>, h: nat, w: nat, c: nat)
    requires IsImage(img, h, w, c) && w > 0 && c > 0
    ensures UnflattenImage(FlattenImage(img), w, c) == img
  {
    ConcatUniform(img, c);
    ChunksConcat(Concat(img), c);
    ChunksConcat(img, w);
  }

  /**
   * Reshaping rows of exactly `h * w * c` values and flattening the images again restores
   * the rows: the oversampler's output is regrouped without losing or moving a value.
   */
  lemma FlattenReshapeRoundTrip<T>(rows: seq<seq<T>>, h: nat, w: nat, c: nat)
    requires |rows| > 0 && h > 0 && w > 0 && c > 0 && Uniform(rows, h * w * c)
    ensures var r := ReshapeImages(rows, h, w, c);
      r.Ok? && FlattenImages(r.value, h, w, c) == Ok(rows)
  {
    var size := h * w * c;
    ConcatLength(rows, size);
    DivMul(|rows|, size);
    ChunksConcat(rows, size);
    var r := ReshapeImages(rows, h, w, c);
    assert r.Ok? && |r.value| == |rows|;
    var f := FlattenImages(r.value, h, w, c);
    assert f.Ok? && |f.value| == |rows|;
    forall n | 0 <= n < |rows| ensures f.value[n] == rows[n] {
      FlattenUnflatten(rows[n], w, c);
    }
    assert f.value == rows;
  }

  /** Flattening the image read from row-major values gives the values. */
  lemma FlattenUnflatten<T>(v: seq<T>, w: nat, c: nat)
    requires w > 0 && c > 0
    ensures FlattenImage(UnflattenImage(v, w, c)) == v
  {
    ConcatChunks(Chunks(v, c), w);
    ConcatChunks(v, c);
  }

  /**
   * Whatever input `reshape_images` accepts, its images hold the input's values in
   * row-major order: flattening them one after another gives the values of all rows.
   */
  lemma ReshapeImagesValues<T>(flattened: seq<seq<T>>, h: nat, w: nat, c: nat)
    ensures ReshapeImages(flattened, h, w, c).Ok? ==>
      Concat(FlattenEach(ReshapeImages(flattened, h, w, c).value)) == Concat(flattened)
  {
    var r := ReshapeImages(flattened, h, w, c);
    if r.Ok? {
      var v, size := Concat(flattened), h * w * c;
      NonZeroProduct(h, w, c);
      var chunks := Chunks(v, size);
      var rows := FlattenEach(r.value);
      assert r.value == Regroup(v, h, w, c);
      forall i | 0 <= i < |chunks| ensures rows[i] == chunks[i] {
        FlattenUnflatten(chunks[i], w, c);
      }
      assert rows == chunks;
      ConcatChunks(v, size);
    }
  }

  lemma NonZeroProduct(h: nat, w: nat, c: nat)
    requires h * w * c != 0
    ensures h > 0 && w > 0 && c > 0
  {
  }
}
