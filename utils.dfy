/** Frame geometry: padding a rendered frame to the em canvas, cropping it to
    the last rows (the scrolling viewport), and centring one image on another.
    An image is a grid of opaque pixels; `Image` is its value, an `array2` the
    buffer the source allocates and overwrites. */
module Utils {
  import opened Config

  /** A picture of `height` rows of `width` pixels each. */
  datatype Image<P> = Image(height: nat, width: nat, rows: seq<seq<P>>)

  predicate Valid<P>(img: Image<P>)
  {
    |img.rows| == img.height &&
    forall i :: 0 <= i < img.height ==> |img.rows[i]| == img.width
  }

  /** The image has a top-left pixel `img[0, 0]` to fill with. */
  predicate HasCorner<P>(img: Image<P>)
  {
    img.height >= 1 && img.width >= 1
  }

  function Max(a: int, b: int): int
  {
    if a < b then b else a
  }

  function Min(a: int, b: int): int
  {
    if a < b then a else b
  }

  /** The picture an array holds. */
  function Contents<P>(a: array2<P>): (r: Image<P>)
    reads a
    ensures Valid(r) && r.height == a.Length0 && r.width == a.Length1
    ensures forall i, j :: 0 <= i < a.Length0 && 0 <= j < a.Length1 ==> r.rows[i][j] == a[i, j]
  {
    Image(a.Length0, a.Length1,
      seq(a.Length0, i requires 0 <= i < a.Length0 reads a =>
        seq(a.Length1, j requires 0 <= j < a.Length1 reads a => a[i, j])))
  }

  /** Two pictures of the same size with the same pixels are the same picture. */
  lemma ImageEq<P>(a: Image<P>, b: Image<P>)
    requires Valid(a) && Valid(b) && a.height == b.height && a.width == b.width
    requires forall i, j :: 0 <= i < a.height && 0 <= j < a.width ==> a.rows[i][j] == b.rows[i][j]
    ensures a == b
  {
    forall i | 0 <= i < a.height
      ensures a.rows[i] == b.rows[i]
    {
      assert |a.rows[i]| == |b.rows[i]|;
    }
  }

  /** `np.ones((h, w, 3)) * c`: a picture of one colour. */
  function Filled<P>(h: nat, w: nat, c: P): (r: Image<P>)
    ensures Valid(r) && r.height == h && r.width == w
    ensures forall i, j :: 0 <= i < h && 0 <= j < w ==> r.rows[i][j] == c
  {
    Image(h, w, seq(h, i => seq(w, j => c)))
  }

  /** `src` covers the pixel (i, j) when its top-left corner is put at (oy, ox). */
  predicate Covers<P>(src: Image<P>, oy: int, ox: int, i: int, j: int)
  {
    oy <= i < oy + src.height && ox <= j < ox + src.width
  }

  /** `dst` with `src` laid over it, top-left corner at row `oy`, column `ox`;
      the parts of `src` outside `dst` are cut off. This is PIL's `paste`
      and, at offset (0, 0) with `src` inside `dst`, numpy's
      `out[:h, :w] = img`. */
  function Pasted<P>(dst: Image<P>, src: Image<P>, oy: int, ox: int): (r: Image<P>)
    requires Valid(dst) && Valid(src)
    ensures Valid(r) && r.height == dst.height && r.width == dst.width
    ensures forall i, j :: 0 <= i < dst.height && 0 <= j < dst.width ==>
      r.rows[i][j] == (if Covers(src, oy, ox, i, j) then src.rows[i - oy][j - ox] else dst.rows[i][j])
  {
    Image(dst.height, dst.width,
      seq(dst.height, i requires 0 <= i < dst.height =>
        seq(dst.width, j requires 0 <= j < dst.width =>
          if Covers(src, oy, ox, i, j) then src.rows[i - oy][j - ox] else dst.rows[i][j])))
  }

  /** `pad_width`: an image narrower than `ew` is widened to `ew` on the
      right, the new columns in the colour of its top-left pixel; a wide
      enough image is returned as it is. */
  function PaddedWidth<P>(img: Image<P>, ew: int): (r: Image<P>)
    requires Valid(img)
    requires img.width < ew ==> HasCorner(img)
    ensures Valid(r) && r.height == img.height && r.width == Max(img.width, ew)
    ensures img.width >= ew ==> r == img
    ensures forall i, j :: 0 <= i < img.height && 0 <= j < img.width ==> r.rows[i][j] == img.rows[i][j]
    ensures forall i, j :: 0 <= i < r.height && img.width <= j < r.width ==> r.rows[i][j] == img.rows[0][0]
  {
    if img.width < ew then Pasted(Filled(img.height, ew, img.rows[0][0]), img, 0, 0)
    else img
  }

  /** The start index Python gives the slice `xs[k:]` of a sequence of length `n`. */
  function SliceStart(n: nat, k: int): (r: nat)
    ensures r <= n
    ensures k < 0 ==> r == Max(0, n + k)
    ensures k >= 0 ==> r == Min(k, n)
  {
    if k < 0 then (if n + k < 0 then 0 else n + k)
    else if k < n then k else n
  }

  /** The rows of `img` from `s` on: `img[s:]`. */
  function Cropped<P>(img: Image<P>, s: nat): (r: Image<P>)
    requires Valid(img) && s <= img.height
    ensures Valid(r) && r.height == img.height - s && r.width == img.width && r.rows == img.rows[s..]
  {
    Image(img.height - s, img.width, img.rows[s..])
  }

  /** `pad_height`: an image shorter than `eh` gets new rows below in the
      colour of its top-left pixel; a taller one is cut to `img[-eh:]`, its
      last `eh` rows when `eh >= 1`. As written, `eh == 0` gives `img[-0:]`,
      the whole image, and a negative `eh` drops the first `-eh` rows. */
  function PaddedHeight<P>(img: Image<P>, eh: int): (r: Image<P>)
    requires Valid(img)
    requires img.height < eh ==> HasCorner(img)
    ensures Valid(r) && r.width == img.width
    ensures img.height < eh ==> r.height == eh
    ensures img.height < eh ==> forall i, j :: 0 <= i < img.height && 0 <= j < img.width ==> r.rows[i][j] == img.rows[i][j]
    ensures img.height < eh ==> forall i, j :: img.height <= i < eh && 0 <= j < img.width ==> r.rows[i][j] == img.rows[0][0]
    ensures img.height > eh ==> r.height == img.height - SliceStart(img.height, -eh)
    ensures img.height > eh >= 1 ==> r.height == eh && r.rows == img.rows[img.height - eh..]
    ensures img.height == eh || eh == 0 ==> r == img
    ensures eh < 0 ==> r.rows == img.rows[Min(-eh, img.height)..]
  {
    if img.height < eh then Pasted(Filled(eh, img.width, img.rows[0][0]), img, 0, 0)
    else if img.height > eh then Cropped(img, SliceStart(img.height, -eh))
    else img
  }

  /** The (height, width) `pad` gives an image of `h` rows and `w` columns. */
  function PaddedShape(h: nat, w: nat, ew: int, eh: int): (r: (int, int))
    ensures r.1 == Max(w, ew)
    ensures eh >= 1 ==> r.0 == eh
    ensures eh == 0 ==> r.0 == h
  {
    (if h < eh then eh else if h > eh then h - SliceStart(h, -eh) else h, Max(w, ew))
  }

  /** `pad`: width first, then height. */
  function Padded<P>(img: Image<P>, ew: int, eh: int): (r: Image<P>)
    requires Valid(img)
    requires img.width < ew || img.height < eh ==> HasCorner(img)
    ensures Valid(r)
    ensures (r.height, r.width) == PaddedShape(img.height, img.width, ew, eh)
    ensures eh >= 1 ==> r.height == eh && r.width == Max(img.width, ew)
  {
    PaddedHeight(PaddedWidth(img, ew), eh)
  }

  /** What `pad` shows at each pixel, for a canvas at least one row high: the
      last `eh` rows of a tall image, or the image on top of fill rows, each
      row widened with fill. The fill is the top-left pixel of the original. */
  lemma PadPixels<P>(img: Image<P>, ew: int, eh: int, i: int, j: int)
    requires Valid(img) && eh >= 1
    requires img.width < ew || img.height < eh ==> HasCorner(img)
    requires 0 <= i < eh && 0 <= j < Max(img.width, ew)
    ensures Padded(img, ew, eh).rows[i][j] ==
      if j >= img.width then img.rows[0][0]
      else if img.height > eh then img.rows[img.height - eh + i][j]
      else if i < img.height then img.rows[i][j]
      else img.rows[0][0]
  {
    var wide := PaddedWidth(img, ew);
    if img.height > eh {
      assert Padded(img, ew, eh).rows[i] == wide.rows[img.height - eh + i];
    }
  }

  /** With a canvas at least one row high, padding twice is padding once. */
  lemma PadIdempotent<P>(img: Image<P>, ew: int, eh: int)
    requires Valid(img) && eh >= 1
    requires img.width < ew || img.height < eh ==> HasCorner(img)
    ensures var once := Padded(img, ew, eh);
      !(once.width < ew || once.height < eh) && Padded(once, ew, eh) == once
  {
  }

  /** The writer accepts only frames of shape `em_shape == (eh, ew)`
      (writer.py line 26). A padded frame has that shape exactly when the
      rendered image was no wider than the canvas: `pad` never crops width. */
  lemma PadFitsWriter<P>(img: Image<P>, ew: int, eh: int)
    requires Valid(img) && eh >= 1
    requires img.width < ew || img.height < eh ==> HasCorner(img)
    ensures var r := Padded(img, ew, eh);
      (r.height, r.width) == EmShape(ew, eh) <==> img.width <= ew
  {
  }

  /** The offset that centres a length `inner` inside a length `outer`:
      `(outer - inner) // 2`, rounded down. */
  function CentringOffset(outer: int, inner: int): (r: int)
    ensures 2 * r <= outer - inner < 2 * r + 2
  {
    (outer - inner) / 2
  }

  /** `superimpose`: `top` pasted onto a copy of `base` at the centring offsets. */
  function Superimposed<P>(base: Image<P>, top: Image<P>): (r: Image<P>)
    requires Valid(base) && Valid(top)
    ensures Valid(r) && r.height == base.height && r.width == base.width
  {
    Pasted(base, top, CentringOffset(base.height, top.height), CentringOffset(base.width, top.width))
  }

  /** When `top` fits inside `base`, all of it shows, framed by margins of
      `base` whose two sides differ by at most one pixel. */
  lemma SuperimposeCentred<P>(base: Image<P>, top: Image<P>)
    requires Valid(base) && Valid(top)
    requires top.height <= base.height && top.width <= base.width
    ensures var oy := CentringOffset(base.height, top.height);
      var ox := CentringOffset(base.width, top.width);
      0 <= oy && oy + top.height <= base.height && 0 <= ox && ox + top.width <= base.width &&
      0 <= (base.height - top.height - oy) - oy <= 1 &&
      0 <= (base.width - top.width - ox) - ox <= 1
    ensures forall i, j :: 0 <= i < top.height && 0 <= j < top.width ==>
      Superimposed(base, top).rows[CentringOffset(base.height, top.height) + i][CentringOffset(base.width, top.width) + j]
        == top.rows[i][j]
    ensures forall i, j ::
      (0 <= i < base.height && 0 <= j < base.width &&
       !Covers(top, CentringOffset(base.height, top.height), CentringOffset(base.width, top.width), i, j)) ==>
      Superimposed(base, top).rows[i][j] == base.rows[i][j]
  {
    var oy := CentringOffset(base.height, top.height);
    var ox := CentringOffset(base.width, top.width);
    var r := Superimposed(base, top);
    forall i, j | 0 <= i < top.height && 0 <= j < top.width
      ensures r.rows[oy + i][ox + j] == top.rows[i][j]
    {
      assert Covers(top, oy, ox, oy + i, ox + j);
    }
  }

  /** Lays `src` over `dst` in place, at row `oy` and column `ox`, cut to
      the bounds of `dst`. */
  method Paste<P>(dst: array2<P>, src: array2<P>, oy: int, ox: int)
    requires dst != src
    modifies dst
    ensures Contents(dst) == Pasted(old(Contents(dst)), Contents(src), oy, ox)
  {
    ghost var before := Contents(dst);
    ghost var s := Contents(src);
    for i := 0 to dst.Length0
      invariant forall y, x :: 0 <= y < i && 0 <= x < dst.Length1 ==>
        dst[y, x] == (if Covers(s, oy, ox, y, x) then s.rows[y - oy][x - ox] else before.rows[y][x])
      invariant forall y, x :: i <= y < dst.Length0 && 0 <= x < dst.Length1 ==> dst[y, x] == before.rows[y][x]
    {
      for j := 0 to dst.Length1
        invariant forall y, x :: 0 <= y < i && 0 <= x < dst.Length1 ==>
          dst[y, x] == (if Covers(s, oy, ox, y, x) then s.rows[y - oy][x - ox] else before.rows[y][x])
        invariant forall x :: 0 <= x < j ==>
          dst[i, x] == (if Covers(s, oy, ox, i, x) then s.rows[i - oy][x - ox] else before.rows[i][x])
        invariant forall y, x :: i <= y < dst.Length0 && 0 <= x < dst.Length1 && (y > i || x >= j) ==>
          dst[y, x] == before.rows[y][x]
      {
        if oy <= i < oy + src.Length0 && ox <= j < ox + src.Length1 {
          dst[i, j] := src[i - oy, j - ox];
        }
      }
    }
    ImageEq(Contents(dst), Pasted(before, s, oy, ox));
  }

  /** `pad_width` on an array: a new, filled and overwritten array when the
      image is too narrow, the same array otherwise. */
  method PadWidth<P>(img: array2<P>, ew: int) returns (out: array2<P>)
    requires img.Length1 < ew ==> img.Length0 >= 1 && img.Length1 >= 1
    ensures Contents(out) == PaddedWidth(Contents(img), ew)
    ensures img.Length1 >= ew ==> out == img
    ensures img.Length1 < ew ==> fresh(out)
  {
    if img.Length1 < ew {
      var c := img[0, 0];
      out := new P[img.Length0, ew]((i, j) => c);
      ImageEq(Contents(out), Filled(img.Length0, ew, c));
      Paste(out, img, 0, 0);
    } else {
      out := img;
    }
  }

  /** `pad_height` on an array: a new, filled and overwritten array when the
      image is too short, a copy of its last rows when it is too tall (the
      source takes a view, see README), the same array otherwise. */
  method PadHeight<P>(img: array2<P>, eh: int) returns (out: array2<P>)
    requires img.Length0 < eh ==> img.Length0 >= 1 && img.Length1 >= 1
    ensures Contents(out) == PaddedHeight(Contents(img), eh)
    ensures img.Length0 == eh ==> out == img
    ensures img.Length0 != eh ==> fresh(out)
  {
    var h, w := img.Length0, img.Length1;
    if h < eh {
      var c := img[0, 0];
      out := new P[eh, w]((i, j) => c);
      ImageEq(Contents(out), Filled(eh, w, c));
      Paste(out, img, 0, 0);
    } else if h > eh {
      var s := SliceStart(h, -eh);
      out := new P[h - s, w]((i, j) requires 0 <= i < h - s && 0 <= j < w reads img => img[s + i, j]);
      ImageEq(Contents(out), Cropped(Contents(img), s));
    } else {
      out := img;
    }
  }

  /** `pad`: `PadWidth`, then `PadHeight`. */
  method Pad<P>(img: array2<P>, ew: int, eh: int) returns (out: array2<P>)
    requires img.Length1 < ew || img.Length0 < eh ==> img.Length0 >= 1 && img.Length1 >= 1
    ensures Contents(out) == Padded(Contents(img), ew, eh)
  {
    out := PadWidth(img, ew);
    out := PadHeight(out, eh);
  }

  /** `superimpose`: a copy of `base` with `top` pasted at the centring
      offsets; `base` itself is left as it is. */
  method Superimpose<P>(base: array2<P>, top: array2<P>) returns (out: array2<P>)
    ensures fresh(out)
    ensures Contents(out) == Superimposed(Contents(base), Contents(top))
  {
    var h, w := base.Length0, base.Length1;
    out := new P[h, w]((i, j) requires 0 <= i < h && 0 <= j < w reads base => base[i, j]);
    ImageEq(Contents(out), Contents(base));
    Paste(out, top, CentringOffset(h, top.Length0), CentringOffset(w, top.Length1));
  }
}
