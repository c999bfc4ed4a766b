/** The pixel layout fill shared by `build_observation_array` in
    src/prepare.rs and `run` in src/inference.rs.

    One observation is a channel-first block `[channel][row][column]` of
    `IMAGE_CHANNELS x IMAGE_HEIGHT x IMAGE_WIDTH` cells, zero-initialised.
    Pixel `(x, y)` of the decoded image writes its first three samples,
    scaled to the unit range, to cells `[c][y][x]` for `c` in 0..2; cells
    the image does not cover keep their 0. Indexing a cell outside the
    block panics, which ends the command.
 */
module Layout {
  import opened Failures

  /** The array extent; the program fixes it in constants. */
  datatype Shape = Shape(channels: nat, height: nat, width: nat)

  /** The fill writes channels 0, 1 and 2, so the extent has at least three. */
  type Dims = d: Shape | d.channels >= 3 && d.height > 0 && d.width > 0 witness Shape(3, 1, 1)

  /** One 8-bit sample of a decoded pixel. */
  type Sample = x: int | 0 <= x < 256

  /** A decoded image: its extent and the sample of channel `c` of pixel
      `(x, y)`, as `get_pixel(x, y).0[c]` reads it. */
  datatype Image = Image(width: nat, height: nat, pixel: (nat, nat, nat) -> Sample)

  /** A sample scaled to the unit range (`sample as f32 / 255.`). */
  function Intensity(s: Sample): real {
    s as real / 255.0
  }

  /** One observation's cells, indexed `[channel][row][column]`. */
  type Slice = seq<seq<seq<real>>>

  predicate Shaped(d: Dims, v: Slice) {
    && |v| == d.channels
    && forall c :: 0 <= c < |v| ==>
         |v[c]| == d.height && forall y :: 0 <= y < |v[c]| ==> |v[c][y]| == d.width
  }

  /** Cell `[c][y][x]` receives a sample of the image. */
  predicate Covered(img: Image, c: int, y: int, x: int) {
    0 <= c < 3 && 0 <= y < img.height && 0 <= x < img.width
  }

  /** What cell `[c][y][x]` holds once the image is filled in. */
  function Expected(img: Image, c: int, y: int, x: int): real {
    if Covered(img, c, y, x) then Intensity(img.pixel(x, y, c)) else 0.0
  }

  /** No covered pixel lies outside the block. An image with no rows or no
      columns writes nothing, so it fits whatever its other extent. */
  predicate Fits(d: Dims, img: Image) {
    img.width == 0 || img.height == 0 || (img.width <= d.width && img.height <= d.height)
  }

  /** The block every observation starts from. */
  function Zeros(d: Dims): (v: Slice)
    ensures Shaped(d, v)
    ensures forall c, y, x :: 0 <= c < d.channels && 0 <= y < d.height && 0 <= x < d.width ==> v[c][y][x] == 0.0
  {
    seq(d.channels, c => seq(d.height, y => seq(d.width, x => 0.0)))
  }

  /** The filled block, as a value; `FillPixels` is the loop that computes it. */
  function Fill(d: Dims, path: string, img: Image): (r: Result<Slice>)
    ensures r.Ok? <==> Fits(d, img)
    ensures r.Err? ==> r.error == ImageOutOfBounds(path)
    ensures r.Ok? ==> Shaped(d, r.value)
  {
    if Fits(d, img) then Ok(seq(d.channels, c => seq(d.height, y => seq(d.width, x => Expected(img, c, y, x)))))
    else Err(ImageOutOfBounds(path))
  }

  /** Cell assignment `v[[c, y, x]] = value`. */
  function Write(v: Slice, c: int, y: int, x: int, value: real): (w: Slice)
    requires 0 <= c < |v| && 0 <= y < |v[c]| && 0 <= x < |v[c][y]|
    ensures |w| == |v|
    ensures forall c' :: 0 <= c' < |v| ==> |w[c']| == |v[c']|
    ensures forall c', y' :: 0 <= c' < |v| && 0 <= y' < |v[c']| ==> |w[c'][y']| == |v[c'][y']|
    ensures forall c', y', x' :: 0 <= c' < |v| && 0 <= y' < |v[c']| && 0 <= x' < |v[c'][y']| ==>
      w[c'][y'][x'] == if c' == c && y' == y && x' == x then value else v[c'][y'][x']
  {
    v[c := v[c][y := v[c][y][x := value]]]
  }

  /** Two blocks of the same shape that agree cell by cell are equal. */
  lemma SliceExtensionality(d: Dims, a: Slice, b: Slice)
    requires Shaped(d, a) && Shaped(d, b)
    requires forall c, y, x :: 0 <= c < d.channels && 0 <= y < d.height && 0 <= x < d.width ==> a[c][y][x] == b[c][y][x]
    ensures a == b
  {
    forall c | 0 <= c < d.channels ensures a[c] == b[c] {
      forall y | 0 <= y < d.height ensures a[c][y] == b[c][y] {
        assert forall x :: 0 <= x < d.width ==> a[c][y][x] == b[c][y][x];
      }
    }
  }

  /** The nested row/column loop over the image's pixels. It fails exactly
      when some covered pixel falls outside the block; otherwise each
      cell holds channel `c` of pixel `(x, y)` where the image covers it
      and 0 elsewhere. */
  method FillPixels(d: Dims, path: string, img: Image) returns (r: Result<Slice>)
    ensures r.Ok? <==> Fits(d, img)
    ensures r.Err? ==> r.error == ImageOutOfBounds(path)
    ensures r.Ok? ==> Shaped(d, r.value)
    ensures r.Ok? ==> forall c, y, x :: 0 <= c < d.channels && 0 <= y < d.height && 0 <= x < d.width ==>
      r.value[c][y][x] == (if c < 3 && y < img.height && x < img.width then Intensity(img.pixel(x, y, c)) else 0.0)
    ensures r == Fill(d, path, img)
  {
    var v := Zeros(d);
    var y := 0;
    while y < img.height
      invariant 0 <= y <= img.height
      invariant Shaped(d, v)
      invariant y > 0 && img.width > 0 ==> y <= d.height && img.width <= d.width
      invariant forall c, yy, xx :: 0 <= c < d.channels && 0 <= yy < d.height && 0 <= xx < d.width ==>
        v[c][yy][xx] == (if yy < y then Expected(img, c, yy, xx) else 0.0)
    {
      var x := 0;
      while x < img.width
        invariant 0 <= x <= img.width
        invariant Shaped(d, v)
        invariant x > 0 ==> y < d.height && x <= d.width
        invariant forall c, yy, xx :: 0 <= c < d.channels && 0 <= yy < d.height && 0 <= xx < d.width ==>
          v[c][yy][xx] == (if yy < y || (yy == y && xx < x) then Expected(img, c, yy, xx) else 0.0)
      {
        if y >= d.height || x >= d.width {
          return Err(ImageOutOfBounds(path));
        }
        v := Write(v, 0, y, x, Intensity(img.pixel(x, y, 0)));
        v := Write(v, 1, y, x, Intensity(img.pixel(x, y, 1)));
        v := Write(v, 2, y, x, Intensity(img.pixel(x, y, 2)));
        x := x + 1;
      }
      y := y + 1;
    }
    r := Ok(v);
    var expected := seq(d.channels, c => seq(d.height, y => seq(d.width, x => Expected(img, c, y, x))));
    SliceExtensionality(d, v, expected);
  }
}
