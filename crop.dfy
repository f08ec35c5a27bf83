/**
 * `resize_and_crop_image`: the choice between resizing and centre-cropping,
 * and the crop itself as the array slice the source takes.
 */
module Crop {

  newtype byte = x: int | 0 <= x < 256

  /** A pixel as `cv2.imread` gives it (three channels, blue first). */
  datatype Pixel = Pixel(blue: byte, green: byte, red: byte)

  /** A decoded image, row by row: `image[row][col]`, shape (height, width). */
  type Image = seq<seq<Pixel>>

  /** `image.shape[0]` */
  function Height(img: Image): nat {
    |img|
  }

  /** `image.shape[1]` */
  function Width(img: Image): nat {
    if img == [] then 0 else |img[0]|
  }

  /** The image has `h` rows of `w` pixels each. */
  predicate IsRect(img: Image, h: nat, w: nat) {
    |img| == h && forall i :: 0 <= i < |img| ==> |img[i]| == w
  }

  /** A pixel array, as decoding produces: every row as wide as the first. */
  predicate Rectangular(img: Image) {
    IsRect(img, Height(img), Width(img))
  }

  /** `cv2.resize(image, (w, h), interpolation=cv2.INTER_LINEAR)`. */
  type Resizer = (Image, int, int) -> Image

  /** The one promise kept of the interpolation: the result has exactly the
      requested width and height. */
  ghost predicate ResizesExactly(resize: Resizer) {
    forall img, w, h :: w >= 1 && h >= 1 ==> IsRect(resize(img, w, h), h, w)
  }

  /** Python's `int()` of a float: truncation toward zero. */
  function Trunc(x: real): int {
    if x >= 0.0 then x.Floor else -((-x).Floor)
  }

  /** The crop's start along one axis, `int(n/2 - t/2)` with true division. */
  function CropStart(n: int, t: int): int {
    Trunc(n as real / 2.0 - t as real / 2.0)
  }

  /** One bound of a Python slice over a sequence of length `n`: a negative
      bound counts from the end, and the result is clamped into `0..n`. */
  function SliceBound(x: int, n: nat): (r: nat)
    ensures r <= n
  {
    if x < 0 then (if x + n < 0 then 0 else x + n)
    else if x > n then n else x
  }

  /** `s[a:b]` */
  function Slice<T>(s: seq<T>, a: int, b: int): (r: seq<T>)
    ensures |r| <= |s|
  {
    var lo, hi := SliceBound(a, |s|), SliceBound(b, |s|);
    if lo < hi then s[lo..hi] else []
  }

  /** The resize branch: the image is smaller than the target along some axis. */
  predicate NeedsResize(h: int, w: int, tw: int, th: int) {
    h < th || w < tw
  }

  /** `image[sr:sr+th, sc:sc+tw]` */
  function Window(img: Image, sr: int, sc: int, th: int, tw: int): Image {
    var rows := Slice(img, sr, sr + th);
    seq(|rows|, i requires 0 <= i < |rows| => Slice(rows[i], sc, sc + tw))
  }

  /** The centred crop of the source, starting at `int(h/2 - th/2)`,
      `int(w/2 - tw/2)`. */
  function CropCentre(img: Image, tw: int, th: int): Image {
    Window(img, CropStart(Height(img), th), CropStart(Width(img), tw), th, tw)
  }

  /** The image written for target size `(tw, th)`. */
  function ResizeOrCrop(img: Image, tw: int, th: int, resize: Resizer): Image {
    if NeedsResize(Height(img), Width(img), tw, th) then resize(img, tw, th)
    else CropCentre(img, tw, th)
  }

  /** When the target fits (`t <= n`), `int(n/2 - t/2)` is the floor of
      `(n - t) / 2`: non-negative, and the window `[start, start + t)` ends
      inside `0..n`. */
  lemma CropStartExact(n: int, t: int)
    requires t <= n
    ensures CropStart(n, t) == (n - t) / 2
    ensures 0 <= CropStart(n, t) && CropStart(n, t) + t <= n
  {
    var q, r := (n - t) / 2, (n - t) % 2;
    var x := n as real / 2.0 - t as real / 2.0;
    assert n - t == 2 * q + r && (r == 0 || r == 1);
    assert x == q as real + r as real / 2.0;
    assert q as real <= x < q as real + 1.0;
    assert x.Floor == q;
  }

  lemma SliceInside<T>(s: seq<T>, a: int, len: int)
    requires 0 <= a && 0 <= len && a + len <= |s|
    ensures Slice(s, a, a + len) == s[a..a + len]
  {
  }

  /** A window that lies inside a rectangular image is `th` rows of `tw`
      pixels copied from it. */
  lemma WindowInside(img: Image, sr: int, sc: int, th: int, tw: int)
    requires Rectangular(img)
    requires 0 <= sr && 0 <= th && sr + th <= Height(img)
    requires 0 <= sc && 0 <= tw && sc + tw <= Width(img)
    ensures var r := Window(img, sr, sc, th, tw);
      IsRect(r, th, tw) &&
      forall i, j :: 0 <= i < th && 0 <= j < tw ==> r[i][j] == img[sr + i][sc + j]
  {
    var r := Window(img, sr, sc, th, tw);
    var rows := Slice(img, sr, sr + th);
    SliceInside(img, sr, th);
    assert |r| == |rows| == th;
    forall i | 0 <= i < th
      ensures |r[i]| == tw && forall j :: 0 <= j < tw ==> r[i][j] == img[sr + i][sc + j]
    {
      assert rows[i] == img[sr + i];
      assert |img[sr + i]| == Width(img);
      SliceInside(rows[i], sc, tw);
      assert r[i] == rows[i][sc..sc + tw];
    }
  }

  lemma CropCentreIsWindow(img: Image, tw: int, th: int)
    requires th <= Height(img) && tw <= Width(img)
    ensures CropCentre(img, tw, th) == Window(img, (Height(img) - th) / 2, (Width(img) - tw) / 2, th, tw)
  {
    CropStartExact(Height(img), th);
    CropStartExact(Width(img), tw);
  }

  /** In the crop branch the window lies inside the image, so the crop is
      exactly `th` rows of `tw` pixels, pixel (i, j) being the source's
      pixel (start_row + i, start_col + j). */
  lemma CropWindow(img: Image, tw: int, th: int)
    requires Rectangular(img)
    requires 0 <= th <= Height(img) && 0 <= tw <= Width(img)
    ensures var r := CropCentre(img, tw, th);
      var sr, sc := (Height(img) - th) / 2, (Width(img) - tw) / 2;
      IsRect(r, th, tw) &&
      forall i, j :: 0 <= i < th && 0 <= j < tw ==> r[i][j] == img[sr + i][sc + j]
  {
    var sr, sc := (Height(img) - th) / 2, (Width(img) - tw) / 2;
    CropCentreIsWindow(img, tw, th);
    WindowInside(img, sr, sc, th, tw);
  }

  /** Whenever the target is a real size (both sides at least one), the written
      image has exactly the target size, on either branch. */
  lemma TargetSize(img: Image, tw: int, th: int, resize: Resizer)
    requires Rectangular(img) && ResizesExactly(resize)
    requires tw >= 1 && th >= 1
    ensures IsRect(ResizeOrCrop(img, tw, th, resize), th, tw)
  {
    if !NeedsResize(Height(img), Width(img), tw, th) {
      CropWindow(img, tw, th);
    }
  }

  /** A 200x200 image cropped to 100x100 is its `[50:150, 50:150]` region. */
  lemma CentreOf200(img: Image, resize: Resizer)
    requires IsRect(img, 200, 200)
    ensures var r := ResizeOrCrop(img, 100, 100, resize);
      IsRect(r, 100, 100) &&
      forall i, j :: 0 <= i < 100 && 0 <= j < 100 ==> r[i][j] == img[50 + i][50 + j]
  {
    CropWindow(img, 100, 100);
  }
}
