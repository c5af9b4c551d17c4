/** image.js: RGBA pixel buffers (`Image`) with clone, mirror and alpha blending, and the slicing of
    a sprite sheet into a grid of equally sized cells (`unpackSpriteMap`).

    `Bitmap` is the value an `Image` holds; every method of `Image` is proved to produce, in freshly
    allocated storage, exactly the bitmap that the corresponding function below describes. */
module Images {
  import opened Base
  import opened Text

  /** Four bytes per pixel, in the order R, G, B, A. */
  const BytesPerPixel: nat := 4

  type Byte = b: int | 0 <= b < 256

  /** The contents of an image: its size and its row-major RGBA bytes. */
  datatype Bitmap = Bitmap(width: nat, height: nat, data: seq<Byte>) {
    /** The buffer holds exactly one RGBA quadruple per pixel. */
    predicate Valid() {
      |data| == width * height * BytesPerPixel
    }
  }

  predicate SameSize(a: Bitmap, b: Bitmap) {
    a.width == b.width && a.height == b.height
  }

  // ---------------------------------------------------------------------------------------------
  // Row-major addressing

  lemma MulComm(a: nat, b: nat)
    ensures a * b == b * a
  {
  }

  lemma MulSucc(a: nat, k: nat)
    ensures (a + 1) * k == a * k + k
  {
  }

  /** How many pixels precede row `y` in row-major order. */
  function RowStart(w: nat, h: nat, y: nat): (n: nat)
    requires y <= h
    ensures n == y * w && n <= w * h && (y < h ==> n + w <= w * h)
  {
    MulLe(y, h, w);
    MulSucc(y, w);
    if y < h then (MulLe(y + 1, h, w); y * w) else y * w
  }

  /** The position of pixel (x, y) in row-major order. */
  function PixelAt(w: nat, h: nat, x: nat, y: nat): (p: nat)
    requires x < w && y < h
    ensures p == y * w + x && p < w * h
  {
    MulLe(y + 1, h, w);
    y * w + x
  }

  /** Every pixel position of a `w` by `h` image is the position of exactly one (x, y). */
  lemma PixelOf(w: nat, h: nat, p: nat) returns (x: nat, y: nat)
    requires p < w * h
    ensures x == p % w && y == p / w
    ensures x < w && y < h && PixelAt(w, h, x, y) == p
  {
    DivMod(p, w);
    if p / w >= h {
      MulLe(h, p / w, w);
    }
    x, y := p % w, p / w;
  }

  /** Where byte `c` of pixel (x, y) lies in a row-major RGBA buffer of width `w`. */
  function Offset(w: nat, h: nat, x: nat, y: nat, c: nat): (o: nat)
    requires x < w && y < h && c < BytesPerPixel
    ensures o == y * w * BytesPerPixel + x * BytesPerPixel + c
    ensures y * w * BytesPerPixel + w * BytesPerPixel <= w * h * BytesPerPixel
    ensures o < w * h * BytesPerPixel
  {
    MulLe(y + 1, h, w);
    (y * w + x) * BytesPerPixel + c
  }

  /** The bytes of two different pixels of one row do not overlap. */
  lemma PixelsApart(w: nat, h: nat, x1: nat, x2: nat, y: nat, c: nat)
    requires x1 < w && x2 < w && y < h && c < BytesPerPixel && x1 != x2
    ensures Offset(w, h, x1, y, c) < Offset(w, h, x2, y, 0) || Offset(w, h, x2, y, 0) + BytesPerPixel <= Offset(w, h, x1, y, c)
  {
  }

  /** Euclidean division is unique: `y * w + x` with `x < w` has quotient `y` and remainder `x`. */
  lemma DivModUnique(p: nat, w: nat, y: nat, x: nat)
    requires x < w && p == y * w + x
    ensures p / w == y && p % w == x
  {
    var q, r := p / w, p % w;
    DivMod(p, w);
    if q > y {
      MulLe(y + 1, q, w);
      assert false;
    } else if q < y {
      MulLe(q + 1, y, w);
      assert false;
    }
  }

  function PixelX(w: nat, i: nat): nat
    requires w > 0
  {
    (i / BytesPerPixel) % w
  }

  function PixelY(w: nat, i: nat): nat
    requires w > 0
  {
    (i / BytesPerPixel) / w
  }

  function Channel(i: nat): nat {
    i % BytesPerPixel
  }

  /** Every byte index of a `w` by `h` buffer is the offset of exactly one (x, y, channel). */
  lemma Decompose(w: nat, h: nat, i: nat)
    requires i < w * h * BytesPerPixel
    ensures w > 0 && PixelX(w, i) < w && PixelY(w, i) < h && Channel(i) < BytesPerPixel
    ensures Offset(w, h, PixelX(w, i), PixelY(w, i), Channel(i)) == i
  {
    assert w > 0;
    var p := i / BytesPerPixel;
    DivMod(p, w);
    if p / w >= h {
      MulLe(h, p / w, w);
      assert false;
    }
  }

  lemma Compose(w: nat, h: nat, x: nat, y: nat, c: nat)
    requires x < w && y < h && c < BytesPerPixel
    ensures PixelX(w, Offset(w, h, x, y, c)) == x
    ensures PixelY(w, Offset(w, h, x, y, c)) == y
    ensures Channel(Offset(w, h, x, y, c)) == c
  {
    var p := y * w + x;
    assert Offset(w, h, x, y, c) / BytesPerPixel == p;
    DivModUnique(p, w, y, x);
  }

  /** Two buffers of the same size are equal once they agree on every byte of every pixel. */
  lemma SamePixels(a: seq<Byte>, b: seq<Byte>, w: nat, h: nat)
    requires |a| == |b| == w * h * BytesPerPixel
    requires forall x: nat, y: nat, c: nat :: x < w && y < h && c < BytesPerPixel ==>
               a[Offset(w, h, x, y, c)] == b[Offset(w, h, x, y, c)]
    ensures a == b
  {
    forall i | 0 <= i < |a| ensures a[i] == b[i] {
      Decompose(w, h, i);
    }
  }

  function Blank(w: nat, h: nat): (b: Bitmap)
    ensures b.Valid()
  {
    Bitmap(w, h, seq(w * h * BytesPerPixel, _ => 0))
  }

  // ---------------------------------------------------------------------------------------------
  // Mirroring (image.js:30-46)

  function MirrorX(w: nat, x: nat, horizontal: bool): (m: nat)
    requires x < w
    ensures m < w
  {
    if horizontal then w - 1 - x else x
  }

  /** The input byte that lands at output byte `i` when mirroring. */
  function MirrorSource(w: nat, h: nat, i: nat, horizontal: bool): (j: nat)
    requires i < w * h * BytesPerPixel
    ensures j < w * h * BytesPerPixel
  {
    Decompose(w, h, i);
    Offset(w, h, MirrorX(w, PixelX(w, i), horizontal), PixelY(w, i), Channel(i))
  }

  /** The image `flip({ horizontal })` returns: same size, each row reversed pixel by pixel when
      `horizontal`, unchanged otherwise. */
  function FlipBitmap(b: Bitmap, horizontal: bool): (r: Bitmap)
    requires b.Valid()
    ensures SameSize(r, b) && r.Valid()
  {
    Bitmap(b.width, b.height,
           seq(|b.data|, i requires 0 <= i < |b.data| => b.data[MirrorSource(b.width, b.height, i, horizontal)]))
  }

  /** Output pixel (x, y) of a mirror is input pixel (w-1-x, y), or (x, y) when not horizontal. */
  lemma FlipAt(b: Bitmap, horizontal: bool, x: nat, y: nat, c: nat)
    requires b.Valid() && x < b.width && y < b.height && c < BytesPerPixel
    ensures FlipBitmap(b, horizontal).data[Offset(b.width, b.height, x, y, c)]
            == b.data[Offset(b.width, b.height, MirrorX(b.width, x, horizontal), y, c)]
  {
    Compose(b.width, b.height, x, y, c);
  }

  /** Without `horizontal` the mirror is a plain copy. */
  lemma FlipIdentity(b: Bitmap)
    requires b.Valid()
    ensures FlipBitmap(b, false) == b
  {
    var w, h := b.width, b.height;
    forall x: nat, y: nat, c: nat | x < w && y < h && c < BytesPerPixel
      ensures FlipBitmap(b, false).data[Offset(w, h, x, y, c)] == b.data[Offset(w, h, x, y, c)]
    {
      FlipAt(b, false, x, y, c);
    }
    SamePixels(FlipBitmap(b, false).data, b.data, w, h);
  }

  /** Mirroring twice restores every byte. */
  lemma FlipInvolution(b: Bitmap)
    requires b.Valid()
    ensures FlipBitmap(FlipBitmap(b, true), true) == b
  {
    var w, h := b.width, b.height;
    var once := FlipBitmap(b, true);
    forall x: nat, y: nat, c: nat | x < w && y < h && c < BytesPerPixel
      ensures FlipBitmap(once, true).data[Offset(w, h, x, y, c)] == b.data[Offset(w, h, x, y, c)]
    {
      FlipAt(once, true, x, y, c);
      FlipAt(b, true, w - 1 - x, y, c);
    }
    SamePixels(FlipBitmap(once, true).data, b.data, w, h);
  }

  /** A mirror's row `y` is complete once every pixel of that row has been copied to its mirrored place. */
  lemma FlipRowDone(b: Bitmap, horizontal: bool, y: nat, out: seq<Byte>)
    requires b.Valid() && y < b.height && |out| == |b.data|
    requires forall i :: 0 <= i < y * b.width * BytesPerPixel ==> out[i] == FlipBitmap(b, horizontal).data[i]
    requires forall x: nat, c: nat :: x < b.width && c < BytesPerPixel ==>
               out[Offset(b.width, b.height, MirrorX(b.width, x, horizontal), y, c)]
               == b.data[Offset(b.width, b.height, x, y, c)]
    ensures (y + 1) * b.width * BytesPerPixel <= |out|
    ensures forall i :: 0 <= i < (y + 1) * b.width * BytesPerPixel ==> out[i] == FlipBitmap(b, horizontal).data[i]
  {
    var w, h := b.width, b.height;
    MulLe(y + 1, h, w);
    forall i | y * w * BytesPerPixel <= i < (y + 1) * w * BytesPerPixel
      ensures out[i] == FlipBitmap(b, horizontal).data[i]
    {
      var j := i - y * w * BytesPerPixel;
      var x, c := j / BytesPerPixel, j % BytesPerPixel;
      assert i == Offset(w, h, x, y, c);
      var src := MirrorX(w, x, horizontal);
      assert MirrorX(w, src, horizontal) == x;
      FlipAt(b, horizontal, x, y, c);
    }
  }

  // ---------------------------------------------------------------------------------------------
  // Blending (image.js:48-78)

  /** The four bytes of pixel `p`. */
  function Quad(data: seq<Byte>, p: nat): (q: seq<Byte>)
    requires BytesPerPixel * p + BytesPerPixel <= |data|
    ensures |q| == BytesPerPixel
  {
    data[BytesPerPixel * p .. BytesPerPixel * p + BytesPerPixel]
  }

  /** Byte `i` of a buffer of `n` pixels is byte `i % 4` of pixel `i / 4`. */
  lemma QuadIndex(i: nat, n: nat)
    requires i < n * BytesPerPixel
    ensures i / BytesPerPixel < n && i == BytesPerPixel * (i / BytesPerPixel) + i % BytesPerPixel
  {
  }

  /** The "source over" alpha numerator, scaled by 255 * 255. Positive whenever the source alpha is. */
  function Coverage(sa: Byte, da: Byte): (n: int)
    requires sa > 0
    ensures n >= 255
  {
    assert da * (255 - sa) >= 0;
    255 * sa + da * (255 - sa)
  }

  /** A colour channel of the blend, computed exactly and truncated into a byte. */
  function MixChannel(s: Byte, d: Byte, sa: Byte, da: Byte): Byte
    requires sa > 0
  {
    ((255 * s * sa + d * da * (255 - sa)) / Coverage(sa, da)) % 256
  }

  /** The alpha channel of the blend: `resultAlpha * 255`, truncated into a byte. */
  function MixAlpha(sa: Byte, da: Byte): Byte
    requires sa > 0
  {
    (Coverage(sa, da) / 255) % 256
  }

  /** The four bytes `blend` writes for source pixel `s` over destination pixel `d`. A transparent
      source pixel clears the alpha byte and leaves the destination's colour. */
  function Over(s: seq<Byte>, d: seq<Byte>): (q: seq<Byte>)
    requires |s| == BytesPerPixel && |d| == BytesPerPixel
    ensures |q| == BytesPerPixel
  {
    if s[3] == 0 then d[..3] + [0]
    else [MixChannel(s[0], d[0], s[3], d[3]), MixChannel(s[1], d[1], s[3], d[3]),
          MixChannel(s[2], d[2], s[3], d[3]), MixAlpha(s[3], d[3])]
  }

  /** The image `dst.blend(src)` returns; `None` stands for JavaScript's `null`. */
  function BlendBitmap(dst: Bitmap, src: Option<Bitmap>): (r: Bitmap)
    requires dst.Valid()
    requires src.Some? ==> src.value.Valid() && SameSize(src.value, dst)
    ensures SameSize(r, dst) && r.Valid()
  {
    match src
    case None => dst
    case Some(s) =>
      Bitmap(dst.width, dst.height,
             seq(|dst.data|, i requires 0 <= i < |dst.data| =>
                   Over(Quad(s.data, i / BytesPerPixel), Quad(dst.data, i / BytesPerPixel))[i % BytesPerPixel]))
  }

  predicate Sized(b: Bitmap, w: nat, h: nat) {
    b.Valid() && b.width == w && b.height == h
  }

  /** Blending with no source is a copy of the destination. */
  lemma BlendNothing(dst: Bitmap)
    requires dst.Valid()
    ensures BlendBitmap(dst, None) == dst
  {
  }

  /** Where the source is fully transparent the result is transparent and keeps the destination's colour. */
  lemma BlendTransparentPixel(dst: Bitmap, src: Bitmap, p: nat)
    requires dst.Valid() && src.Valid() && SameSize(src, dst)
    requires p < dst.width * dst.height && Quad(src.data, p)[3] == 0
    ensures Quad(BlendBitmap(dst, Some(src)).data, p)[3] == 0
    ensures Quad(BlendBitmap(dst, Some(src)).data, p)[..3] == Quad(dst.data, p)[..3]
  {
    BlendQuad(dst, src, p);
  }

  /** Where the source is fully opaque the result pixel is the source pixel. */
  lemma BlendOpaquePixel(dst: Bitmap, src: Bitmap, p: nat)
    requires dst.Valid() && src.Valid() && SameSize(src, dst)
    requires p < dst.width * dst.height && Quad(src.data, p)[3] == 255
    ensures Quad(BlendBitmap(dst, Some(src)).data, p) == Quad(src.data, p)
  {
    BlendQuad(dst, src, p);
    var s, d := Quad(src.data, p), Quad(dst.data, p);
    MixOpaque(s[0], d[0], d[3]);
    MixOpaque(s[1], d[1], d[3]);
    MixOpaque(s[2], d[2], d[3]);
  }

  /** Pixel `p` of the blend is the source pixel over the destination pixel. */
  lemma BlendQuad(dst: Bitmap, src: Bitmap, p: nat)
    requires dst.Valid() && src.Valid() && SameSize(src, dst) && p < dst.width * dst.height
    ensures BytesPerPixel * p + BytesPerPixel <= |dst.data|
    ensures Quad(BlendBitmap(dst, Some(src)).data, p) == Over(Quad(src.data, p), Quad(dst.data, p))
  {
    var r := BlendBitmap(dst, Some(src)).data;
    forall c | 0 <= c < BytesPerPixel
      ensures Quad(r, p)[c] == Over(Quad(src.data, p), Quad(dst.data, p))[c]
    {
      var i := BytesPerPixel * p + c;
      assert i / BytesPerPixel == p && i % BytesPerPixel == c;
      assert Quad(r, p)[c] == r[i];
    }
  }

  lemma MixOpaque(s: Byte, d: Byte, da: Byte)
    ensures MixChannel(s, d, 255, da) == s && MixAlpha(255, da) == 255
  {
    assert Coverage(255, da) == 65025;
    assert d * da * (255 - 255) == 0;
    assert 255 * s * 255 == 65025 * s;
  }

  predicate AlphaEverywhere(b: Bitmap, a: Byte)
    requires b.Valid()
  {
    forall p :: 0 <= p < b.width * b.height ==> Quad(b.data, p)[3] == a
  }

  /** A fully opaque source covers the destination completely. */
  lemma BlendOpaque(dst: Bitmap, src: Bitmap)
    requires dst.Valid() && src.Valid() && SameSize(src, dst) && AlphaEverywhere(src, 255)
    ensures BlendBitmap(dst, Some(src)) == src
  {
    var r := BlendBitmap(dst, Some(src)).data;
    forall p | 0 <= p < dst.width * dst.height ensures Quad(r, p) == Quad(src.data, p) {
      BlendOpaquePixel(dst, src, p);
    }
    SameQuads(r, src.data, dst.width * dst.height);
  }

  /** Two buffers of `n` pixels are equal once every pixel is. */
  lemma SameQuads(a: seq<Byte>, b: seq<Byte>, n: nat)
    requires |a| == |b| == n * BytesPerPixel
    requires forall p :: 0 <= p < n ==> Quad(a, p) == Quad(b, p)
    ensures a == b
  {
    forall i | 0 <= i < |a| ensures a[i] == b[i] {
      QuadIndex(i, n);
      var p := i / BytesPerPixel;
      assert a[i] == Quad(a, p)[i % BytesPerPixel];
      assert b[i] == Quad(b, p)[i % BytesPerPixel];
    }
  }

  /** A fully transparent source leaves a fully transparent result. */
  lemma BlendTransparent(dst: Bitmap, src: Bitmap)
    requires dst.Valid() && src.Valid() && SameSize(src, dst) && AlphaEverywhere(src, 0)
    ensures AlphaEverywhere(BlendBitmap(dst, Some(src)), 0)
  {
    forall p | 0 <= p < dst.width * dst.height
      ensures Quad(BlendBitmap(dst, Some(src)).data, p)[3] == 0
    {
      BlendTransparentPixel(dst, src, p);
    }
  }

  // ---------------------------------------------------------------------------------------------
  // Slicing a sprite sheet (image.js:81-114)

  lemma QuotientFits(n: nat, d: nat, q: nat)
    requires d > 0 && q < n / d
    ensures q * d + d <= n
  {
    DivMod(n, d);
    MulLe(q + 1, n / d, d);
  }

  /** Cell (cx, cy) of size `sw` by `sh` lies inside the sheet. */
  predicate CellInside(sheet: Bitmap, sw: nat, sh: nat, cx: nat, cy: nat) {
    sw > 0 && sh > 0 && cx * sw + sw <= sheet.width && cy * sh + sh <= sheet.height
  }

  /** The sheet byte copied into byte `i` of cell (cx, cy). */
  function CellSource(sheet: Bitmap, sw: nat, sh: nat, cx: nat, cy: nat, i: nat): (j: nat)
    requires sheet.Valid() && CellInside(sheet, sw, sh, cx, cy) && i < sw * sh * BytesPerPixel
    ensures j < |sheet.data|
  {
    Decompose(sw, sh, i);
    Offset(sheet.width, sheet.height, cx * sw + PixelX(sw, i), cy * sh + PixelY(sw, i), Channel(i))
  }

  /** Cell (cx, cy) of the sheet: the `sw` by `sh` rectangle whose top-left pixel is (cx*sw, cy*sh). */
  function Cell(sheet: Bitmap, sw: nat, sh: nat, cx: nat, cy: nat): (r: Bitmap)
    requires sheet.Valid() && CellInside(sheet, sw, sh, cx, cy)
    ensures r.Valid() && r.width == sw && r.height == sh
  {
    Bitmap(sw, sh, seq(sw * sh * BytesPerPixel, i requires 0 <= i < sw * sh * BytesPerPixel =>
                         sheet.data[CellSource(sheet, sw, sh, cx, cy, i)]))
  }

  /** The grid `unpackSpriteMap` returns, indexed `[row][column]`: `floor(height / sh)` rows of
      `floor(width / sw)` cells; remainder pixels at the right and bottom edges are dropped. */
  function SpriteGrid(sheet: Bitmap, sw: nat, sh: nat): (grid: seq<seq<Bitmap>>)
    requires sheet.Valid() && sw > 0 && sh > 0
    ensures |grid| == sheet.height / sh
    ensures forall y :: 0 <= y < |grid| ==> |grid[y]| == sheet.width / sw
  {
    seq(sheet.height / sh, y requires 0 <= y < sheet.height / sh =>
          seq(sheet.width / sw, x requires 0 <= x < sheet.width / sw =>
                QuotientFits(sheet.width, sw, x);
                QuotientFits(sheet.height, sh, y);
                Cell(sheet, sw, sh, x, y)))
  }

  /** Pixel (col, row) of cell (cx, cy) is sheet pixel (cx*sw + col, cy*sh + row). */
  lemma CellAt(sheet: Bitmap, sw: nat, sh: nat, cx: nat, cy: nat, col: nat, row: nat, c: nat)
    requires sheet.Valid() && CellInside(sheet, sw, sh, cx, cy)
    requires col < sw && row < sh && c < BytesPerPixel
    ensures cx * sw + col < sheet.width && cy * sh + row < sheet.height
    ensures Cell(sheet, sw, sh, cx, cy).data[Offset(sw, sh, col, row, c)]
            == sheet.data[Offset(sheet.width, sheet.height, cx * sw + col, cy * sh + row, c)]
  {
    Compose(sw, sh, col, row, c);
  }

  /** Cell (x, y) of the grid is the rectangle of the sheet at (x*sw, y*sh). */
  lemma GridAt(sheet: Bitmap, sw: nat, sh: nat, x: nat, y: nat)
    requires sheet.Valid() && sw > 0 && sh > 0 && x < sheet.width / sw && y < sheet.height / sh
    ensures CellInside(sheet, sw, sh, x, y)
    ensures SpriteGrid(sheet, sw, sh)[y][x] == Cell(sheet, sw, sh, x, y)
  {
    QuotientFits(sheet.width, sw, x);
    QuotientFits(sheet.height, sh, y);
  }

  /** Every cell of the grid has the cell size, so the cells can be blended with one another. */
  lemma GridUniform(sheet: Bitmap, sw: nat, sh: nat)
    requires sheet.Valid() && sw > 0 && sh > 0
    ensures forall y, x :: 0 <= y < |SpriteGrid(sheet, sw, sh)| && 0 <= x < |SpriteGrid(sheet, sw, sh)[y]| ==>
              Sized(SpriteGrid(sheet, sw, sh)[y][x], sw, sh)
  {
  }

  // ---------------------------------------------------------------------------------------------
  // The Image class

  /** Node's `source.copy(target, targetStart, sourceStart, sourceEnd)` between two distinct buffers. */
  method CopyBytes(source: array<Byte>, target: array<Byte>, targetStart: nat, sourceStart: nat, sourceEnd: nat)
    requires source != target
    requires sourceStart <= sourceEnd <= source.Length
    requires targetStart + (sourceEnd - sourceStart) <= target.Length
    modifies target
    ensures forall i :: 0 <= i < target.Length && !(targetStart <= i < targetStart + (sourceEnd - sourceStart)) ==>
              target[i] == old(target[i])
    ensures forall i :: targetStart <= i < targetStart + (sourceEnd - sourceStart) ==>
              target[i] == source[sourceStart + (i - targetStart)]
  {
    var n := sourceEnd - sourceStart;
    for k := 0 to n
      invariant forall i :: 0 <= i < target.Length && !(targetStart <= i < targetStart + k) ==> target[i] == old(target[i])
      invariant forall i :: targetStart <= i < targetStart + k ==> target[i] == source[sourceStart + (i - targetStart)]
    {
      target[targetStart + k] := source[sourceStart + k];
    }
  }

  /** Copying pixel (x, y) (at `s`) to its mirrored place (at `t`) extends the pixels of row `y`
      already placed. */
  lemma FlipPixelStep(b: Bitmap, horizontal: bool, y: nat, x: nat, t: nat, s: nat, before: seq<Byte>, after: seq<Byte>)
    requires b.Valid() && x < b.width && y < b.height && |before| == |after| == |b.data|
    requires t == Offset(b.width, b.height, MirrorX(b.width, x, horizontal), y, 0)
    requires s == Offset(b.width, b.height, x, y, 0)
    requires forall xx: nat, c: nat :: xx < x && c < BytesPerPixel ==>
               before[Offset(b.width, b.height, MirrorX(b.width, xx, horizontal), y, c)]
               == b.data[Offset(b.width, b.height, xx, y, c)]
    requires forall i :: 0 <= i < |after| && !(t <= i < t + BytesPerPixel) ==> after[i] == before[i]
    requires forall i :: t <= i < t + BytesPerPixel ==> after[i] == b.data[s + (i - t)]
    ensures forall xx: nat, c: nat :: xx <= x && c < BytesPerPixel ==>
              after[Offset(b.width, b.height, MirrorX(b.width, xx, horizontal), y, c)]
              == b.data[Offset(b.width, b.height, xx, y, c)]
  {
    var w, h := b.width, b.height;
    forall xx: nat, c: nat | xx <= x && c < BytesPerPixel
      ensures after[Offset(w, h, MirrorX(w, xx, horizontal), y, c)] == b.data[Offset(w, h, xx, y, c)]
    {
      if xx < x {
        PixelsApart(w, h, MirrorX(w, xx, horizontal), MirrorX(w, x, horizontal), y, c);
      } else {
        assert Offset(w, h, MirrorX(w, x, horizontal), y, c) == t + c;
      }
    }
  }

  /** Two buffers of length `n` that agree below `n` are equal. */
  lemma Agree(a: seq<Byte>, b: seq<Byte>, n: nat)
    requires |a| == |b| == n
    requires forall i :: 0 <= i < n ==> a[i] == b[i]
    ensures a == b
  {
  }

  /** Two buffers of length `n` with equal prefixes of length `n` are equal. */
  lemma PrefixWhole(a: seq<Byte>, b: seq<Byte>, n: nat)
    requires |a| == |b| == n && a[..n] == b[..n]
    ensures a == b
  {
    assert a == a[..n] && b == b[..n];
  }

  class Image {
    var width: nat
    var height: nat
    var data: array<Byte>

    ghost predicate Valid()
      reads this
    {
      data.Length == width * height * BytesPerPixel
    }

    /** The bitmap this image currently holds. */
    function Value(): Bitmap
      reads this, data
    {
      Bitmap(width, height, data[..])
    }

    /** `new Image(width, height)`: a zero-filled buffer of `width * height` pixels. */
    constructor (width: nat, height: nat)
      ensures this.width == width && this.height == height && fresh(data) && Valid()
      ensures Value() == Blank(width, height)
    {
      this.width := width;
      this.height := height;
      data := new Byte[width * height * BytesPerPixel](_ => 0);
    }

    /** `Image.clone(image)`: same size and bytes, in storage of its own. */
    static method Clone(image: Image) returns (cloned: Image)
      ensures fresh(cloned) && fresh(cloned.data)
      ensures cloned.Value() == image.Value()
      ensures image.Valid() ==> cloned.Valid()
    {
      cloned := new Image(image.width, image.height);
      var copy := new Byte[image.data.Length](_ => 0);
      CopyBytes(image.data, copy, 0, 0, image.data.Length);
      cloned.data := copy;
    }

    /** `image.flip({ horizontal })`. */
    method Flip(horizontal: bool) returns (flipped: Image)
      requires Valid()
      ensures fresh(flipped) && fresh(flipped.data) && flipped.Valid()
      ensures flipped.Value() == FlipBitmap(Value(), horizontal)
    {
      flipped := new Image(width, height);
      ghost var spec := FlipBitmap(Value(), horizontal).data;
      for y := 0 to height
        invariant fresh(flipped.data) && flipped.width == width && flipped.height == height && flipped.Valid()
        invariant y * width * BytesPerPixel <= data.Length
        invariant forall i :: 0 <= i < y * width * BytesPerPixel ==> flipped.data[i] == spec[i]
      {
        FlipRow(flipped.data, y, horizontal);
        FlipRowDone(Value(), horizontal, y, flipped.data[..]);
      }
      MulLe(height, height, width);
      Agree(flipped.data[..], spec, height * width * BytesPerPixel);
    }

    /** Row `y` of `flip`'s loop: every pixel of the row is copied to its mirrored place in `target`. */
    method FlipRow(target: array<Byte>, y: nat, horizontal: bool)
      requires Valid() && target != data && target.Length == data.Length && y < height
      modifies target
      ensures forall i :: 0 <= i < y * width * BytesPerPixel && i < target.Length ==> target[i] == old(target[i])
      ensures forall i :: (y + 1) * width * BytesPerPixel <= i < target.Length ==> target[i] == old(target[i])
      ensures forall xx: nat, c: nat :: xx < width && c < BytesPerPixel ==>
                target[Offset(width, height, MirrorX(width, xx, horizontal), y, c)]
                == data[Offset(width, height, xx, y, c)]
    {
      ghost var b := Value();
      var w, h := width, height;
      assert b.Valid() && w == b.width && h == b.height && b.data == data[..];
      for x := 0 to w
        invariant forall i :: 0 <= i < y * w * BytesPerPixel && i < target.Length ==> target[i] == old(target[i])
        invariant forall i :: (y + 1) * w * BytesPerPixel <= i < target.Length ==> target[i] == old(target[i])
        invariant forall xx: nat, c: nat :: xx < x && c < BytesPerPixel ==>
                    target[Offset(w, h, MirrorX(w, xx, horizontal), y, c)] == b.data[Offset(w, h, xx, y, c)]
      {
        var rowOffset := y * w;
        var targetStart := (rowOffset + (if horizontal then w - x - 1 else x)) * BytesPerPixel;
        var sourceStart := (rowOffset + x) * BytesPerPixel;
        assert targetStart == Offset(w, h, MirrorX(w, x, horizontal), y, 0);
        assert sourceStart == Offset(w, h, x, y, 0);
        ghost var before := target[..];
        CopyBytes(data, target, targetStart, sourceStart, (rowOffset + x + 1) * BytesPerPixel);
        FlipPixelStep(b, horizontal, y, x, targetStart, sourceStart, before, target[..]);
      }
    }

    /** `image.blend(source)`; a `null` source yields a clone. */
    method Blend(source: Image?) returns (blended: Image)
      requires Valid()
      requires source != null ==> source.Valid() && source.width == width && source.height == height
      ensures fresh(blended) && fresh(blended.data) && blended.Valid()
      ensures blended.Value() == BlendBitmap(Value(), if source == null then None else Some(source.Value()))
    {
      blended := Clone(this);
      if source == null {
        return;
      }
      ghost var dst, src := Value(), source.Value();
      ghost var spec := BlendBitmap(dst, Some(src)).data;
      assert dst.Valid() && src.Valid() && SameSize(src, dst);
      var w, h := source.width, source.height;
      assert w == dst.width && h == dst.height;
      ghost var p := 0;  // pixels blended so far, in row-major order
      for y := 0 to h
        invariant fresh(blended.data) && blended.width == w && blended.height == h && blended.data.Length == |spec|
        invariant p == RowStart(w, h, y)
        invariant blended.data[..BytesPerPixel * p] == spec[..BytesPerPixel * p]
        invariant forall i :: BytesPerPixel * p <= i < |spec| ==> blended.data[i] == dst.data[i]
      {
        MulSucc(y, w);
        for x := 0 to w
          invariant fresh(blended.data) && blended.width == w && blended.height == h && blended.data.Length == |spec|
          invariant p == RowStart(w, h, y) + x
          invariant data[..] == dst.data && source.data[..] == src.data
          invariant blended.data[..BytesPerPixel * p] == spec[..BytesPerPixel * p]
          invariant forall i :: BytesPerPixel * p <= i < |spec| ==> blended.data[i] == dst.data[i]
        {
          BlendInto(blended.data, data, source.data, dst, src, PixelAt(w, h, x, y));
          p := p + 1;
        }
      }
      MulComm(h, w);
      PrefixWhole(blended.data[..], spec, BytesPerPixel * p);
    }
  }

  /** One pixel of `blend`'s loop: once pixel `p` holds the source-over value, the blended prefix
      grows by one pixel and the rest of the buffer still holds the destination's bytes. */
  lemma BlendStep(dst: Bitmap, src: Bitmap, p: nat, before: seq<Byte>, after: seq<Byte>)
    requires dst.Valid() && src.Valid() && SameSize(src, dst) && p < dst.width * dst.height
    requires |before| == |after| == |dst.data|
    requires before[..BytesPerPixel * p] == BlendBitmap(dst, Some(src)).data[..BytesPerPixel * p]
    requires forall i :: BytesPerPixel * p <= i < |before| ==> before[i] == dst.data[i]
    requires forall i :: 0 <= i < |after| && !(BytesPerPixel * p <= i < BytesPerPixel * p + BytesPerPixel) ==>
               after[i] == before[i]
    requires Quad(after, p) == Over(Quad(src.data, p), Quad(dst.data, p))
    ensures after[..BytesPerPixel * (p + 1)] == BlendBitmap(dst, Some(src)).data[..BytesPerPixel * (p + 1)]
    ensures forall i :: BytesPerPixel * (p + 1) <= i < |after| ==> after[i] == dst.data[i]
  {
    var spec := BlendBitmap(dst, Some(src)).data;
    BlendQuad(dst, src, p);
    assert after[..BytesPerPixel * p] == before[..BytesPerPixel * p];
    PrefixGrows(after, spec, p);
  }

  /** The body of `blend`'s pixel loop: writes pixel `p` of `source` over pixel `p` of `destination`
      into `target`, which still holds the destination's bytes there. */
  method BlendPixel(target: array<Byte>, destination: array<Byte>, source: array<Byte>, p: nat)
    requires target != destination && target != source
    requires BytesPerPixel * p + BytesPerPixel <= target.Length == destination.Length == source.Length
    requires forall i :: BytesPerPixel * p <= i < BytesPerPixel * p + BytesPerPixel ==> target[i] == destination[i]
    modifies target
    ensures forall i :: 0 <= i < target.Length && !(BytesPerPixel * p <= i < BytesPerPixel * p + BytesPerPixel) ==>
              target[i] == old(target[i])
    ensures Quad(target[..], p) == Over(Quad(source[..], p), Quad(destination[..], p))
  {
    var offset := BytesPerPixel * p;
    var sourceAlpha := source[offset + 3];
    if sourceAlpha == 0 {
      target[offset + 3] := 0;
    } else {
      var destinationAlpha := destination[offset + 3];
      target[offset + 0] := MixChannel(source[offset + 0], destination[offset + 0], sourceAlpha, destinationAlpha);
      target[offset + 1] := MixChannel(source[offset + 1], destination[offset + 1], sourceAlpha, destinationAlpha);
      target[offset + 2] := MixChannel(source[offset + 2], destination[offset + 2], sourceAlpha, destinationAlpha);
      target[offset + 3] := MixAlpha(sourceAlpha, destinationAlpha);
    }
  }

  /** One pass of `blend`'s pixel loop: with the first `p` pixels of `target` blended and the rest
      still the destination's, blending pixel `p` extends the blended prefix by one pixel. */
  method BlendInto(target: array<Byte>, destination: array<Byte>, source: array<Byte>,
                   ghost dst: Bitmap, ghost src: Bitmap, p: nat)
    requires target != destination && target != source
    requires dst.Valid() && src.Valid() && SameSize(src, dst) && p < dst.width * dst.height
    requires destination[..] == dst.data && source[..] == src.data && target.Length == |dst.data|
    requires target[..BytesPerPixel * p] == BlendBitmap(dst, Some(src)).data[..BytesPerPixel * p]
    requires forall i :: BytesPerPixel * p <= i < |dst.data| ==> target[i] == dst.data[i]
    modifies target
    ensures target[..BytesPerPixel * (p + 1)] == BlendBitmap(dst, Some(src)).data[..BytesPerPixel * (p + 1)]
    ensures forall i :: BytesPerPixel * (p + 1) <= i < |dst.data| ==> target[i] == dst.data[i]
  {
    MulLe(p + 1, dst.width * dst.height, BytesPerPixel);
    ghost var before := target[..];
    BlendPixel(target, destination, source, p);
    BlendStep(dst, src, p, before, target[..]);
  }

  /** Agreement on the first `p` pixels and on pixel `p` is agreement on the first `p + 1` pixels. */
  lemma PrefixGrows(a: seq<Byte>, b: seq<Byte>, p: nat)
    requires BytesPerPixel * p + BytesPerPixel <= |a| && BytesPerPixel * p + BytesPerPixel <= |b|
    requires a[..BytesPerPixel * p] == b[..BytesPerPixel * p] && Quad(a, p) == Quad(b, p)
    ensures a[..BytesPerPixel * (p + 1)] == b[..BytesPerPixel * (p + 1)]
  {
    assert a[..BytesPerPixel * (p + 1)] == a[..BytesPerPixel * p] + Quad(a, p);
    assert b[..BytesPerPixel * (p + 1)] == b[..BytesPerPixel * p] + Quad(b, p);
  }

  /** No two cells of `cells` share a buffer. */
  ghost predicate DistinctBuffers(cells: seq<seq<Image>>)
    reads set y, x | 0 <= y < |cells| && 0 <= x < |cells[y]| :: cells[y][x]
  {
    forall y, x, y', x' ::
      (0 <= y < |cells| && 0 <= x < |cells[y]| && 0 <= y' < |cells| && 0 <= x' < |cells[y']|
       && (y, x) != (y', x')) ==> cells[y][x].data != cells[y'][x'].data
  }

  /** `unpackSpriteMap(spriteMap, { spriteWidth, spriteHeight })`: one fresh image per cell, row by row. */
  method UnpackSpriteMap(spriteMap: Image, spriteWidth: nat, spriteHeight: nat) returns (sprites: seq<seq<Image>>)
    requires spriteMap.Valid() && spriteWidth > 0 && spriteHeight > 0
    ensures |sprites| == spriteMap.height / spriteHeight
    ensures forall y :: 0 <= y < |sprites| ==> |sprites[y]| == spriteMap.width / spriteWidth
    ensures forall y, x :: 0 <= y < |sprites| && 0 <= x < |sprites[y]| ==>
              fresh(sprites[y][x].data) && sprites[y][x].Valid()
              && sprites[y][x].Value() == SpriteGrid(spriteMap.Value(), spriteWidth, spriteHeight)[y][x]
    ensures DistinctBuffers(sprites)
  {
    ghost var grid := SpriteGrid(spriteMap.Value(), spriteWidth, spriteHeight);
    var spriteMapWidth := spriteMap.width / spriteWidth;
    var spriteMapHeight := spriteMap.height / spriteHeight;
    sprites := [];
    for y := 0 to spriteMapHeight
      invariant |sprites| == y
      invariant forall yy :: 0 <= yy < y ==> |sprites[yy]| == spriteMapWidth
      invariant forall yy, xx :: 0 <= yy < y && 0 <= xx < spriteMapWidth ==>
                  fresh(sprites[yy][xx].data) && sprites[yy][xx].Valid() && sprites[yy][xx].Value() == grid[yy][xx]
      invariant DistinctBuffers(sprites)
    {
      var row := NewRow(spriteMap, spriteWidth, spriteHeight, y);
      DistinctAppend(sprites, row);
      sprites := sprites + [row];
    }
  }

  /** Row `y` of `unpackSpriteMap`'s grid: one fresh image per column. */
  method NewRow(spriteMap: Image, spriteWidth: nat, spriteHeight: nat, y: nat) returns (row: seq<Image>)
    requires spriteMap.Valid() && spriteWidth > 0 && spriteHeight > 0 && y < spriteMap.height / spriteHeight
    ensures |row| == spriteMap.width / spriteWidth
    ensures forall x :: 0 <= x < |row| ==>
              fresh(row[x].data) && row[x].Valid()
              && row[x].Value() == SpriteGrid(spriteMap.Value(), spriteWidth, spriteHeight)[y][x]
    ensures DistinctBuffers([row])
  {
    ghost var grid := SpriteGrid(spriteMap.Value(), spriteWidth, spriteHeight);
    var spriteMapWidth := spriteMap.width / spriteWidth;
    row := [];
    for x := 0 to spriteMapWidth
      invariant |row| == x
      invariant forall xx :: 0 <= xx < x ==> fresh(row[xx].data) && row[xx].Valid() && row[xx].Value() == grid[y][xx]
      invariant forall xx, xx' :: 0 <= xx < x && 0 <= xx' < x && xx != xx' ==> row[xx].data != row[xx'].data
    {
      GridAt(spriteMap.Value(), spriteWidth, spriteHeight, x, y);
      var sprite := NewCell(spriteMap, spriteWidth, spriteHeight, x, y);
      row := row + [sprite];
    }
  }

  /** A row of buffers distinct from one another and from those of `cells` keeps the grid's buffers distinct. */
  lemma DistinctAppend(cells: seq<seq<Image>>, row: seq<Image>)
    requires DistinctBuffers(cells) && DistinctBuffers([row])
    requires forall y, x, x' :: 0 <= y < |cells| && 0 <= x < |cells[y]| && 0 <= x' < |row| ==> row[x'].data != cells[y][x].data
    ensures DistinctBuffers(cells + [row])
  {
    var grown: seq<seq<Image>> := cells + [row];
    forall y: int, x: int, y': int, x': int |
      0 <= y < |grown| && 0 <= x < |grown[y]| && 0 <= y' < |grown| && 0 <= x' < |grown[y']| && (y, x) != (y', x')
      ensures grown[y][x].data != grown[y'][x'].data
    {
      if y == |cells| && y' == |cells| {
        assert [row][0][x] == grown[y][x] && [row][0][x'] == grown[y'][x'];
      } else if y < |cells| && y' < |cells| {
        assert grown[y][x] == cells[y][x] && grown[y'][x'] == cells[y'][x'];
      }
    }
  }

  /** One step of `unpackSpriteMap`'s inner loop: a fresh `spriteWidth` by `spriteHeight` image into
      which cell (x, y) of the sheet is copied row by row. */
  method NewCell(spriteMap: Image, spriteWidth: nat, spriteHeight: nat, x: nat, y: nat) returns (sprite: Image)
    requires spriteMap.Valid() && CellInside(spriteMap.Value(), spriteWidth, spriteHeight, x, y)
    ensures fresh(sprite) && fresh(sprite.data) && sprite.Valid()
    ensures sprite.Value() == Cell(spriteMap.Value(), spriteWidth, spriteHeight, x, y)
  {
    ghost var sheet := spriteMap.Value();
    ghost var spec := Cell(sheet, spriteWidth, spriteHeight, x, y).data;
    var spriteSize := spriteWidth * spriteHeight;
    sprite := new Image(spriteWidth, spriteHeight);
    sprite.data := new Byte[spriteSize * BytesPerPixel](_ => 0);
    var sourceOrigin := (x * spriteWidth) + (y * spriteHeight * spriteMap.width);
    for row := 0 to spriteHeight
      invariant fresh(sprite.data) && sprite.width == spriteWidth && sprite.height == spriteHeight && sprite.Valid()
      invariant forall i :: 0 <= i < row * spriteWidth * BytesPerPixel && i < sprite.data.Length ==> sprite.data[i] == spec[i]
    {
      var targetRowStart := row * spriteWidth;
      var sourceRowStart := sourceOrigin + row * spriteMap.width;
      CellRow(sheet, spriteWidth, spriteHeight, x, y, row);
      assert targetRowStart * BytesPerPixel == Offset(spriteWidth, spriteHeight, 0, row, 0);
      ghost var before := sprite.data[..];
      CopyBytes(spriteMap.data, sprite.data, targetRowStart * BytesPerPixel,
                sourceRowStart * BytesPerPixel, (sourceRowStart + spriteWidth) * BytesPerPixel);
      CellRowStep(sheet, spriteWidth, spriteHeight, x, y, row, targetRowStart * BytesPerPixel,
                  sourceRowStart * BytesPerPixel, before, sprite.data[..]);
    }
    MulComm(spriteHeight, spriteWidth);
    Agree(sprite.data[..], spec, spriteHeight * spriteWidth * BytesPerPixel);
  }

  /** Row `row` of cell (x, y) starts at sheet pixel (x*sw, y*sh + row), which `unpackSpriteMap`
      computes as `x*sw + y*sh*width + row*width`; the whole row lies inside the sheet. */
  lemma CellRow(sheet: Bitmap, sw: nat, sh: nat, x: nat, y: nat, row: nat)
    requires sheet.Valid() && CellInside(sheet, sw, sh, x, y) && row < sh
    ensures x * sw < sheet.width && y * sh + row < sheet.height
    ensures (x * sw + y * sh * sheet.width + row * sheet.width) * BytesPerPixel
            == Offset(sheet.width, sheet.height, x * sw, y * sh + row, 0)
    ensures Offset(sheet.width, sheet.height, x * sw, y * sh + row, 0) + sw * BytesPerPixel <= |sheet.data|
  {
    assert y * sh * sheet.width + row * sheet.width == (y * sh + row) * sheet.width;
  }

  /** One row of `unpackSpriteMap`'s copy loop: once the bytes of row `row` of cell (x, y) are copied
      from the sheet, the cell's first `row + 1` rows are in place. */
  lemma CellRowStep(sheet: Bitmap, sw: nat, sh: nat, x: nat, y: nat, row: nat, start: nat, sourceStart: nat,
                    before: seq<Byte>, after: seq<Byte>)
    requires sheet.Valid() && CellInside(sheet, sw, sh, x, y) && row < sh
    requires x * sw < sheet.width && y * sh + row < sheet.height
    requires start == Offset(sw, sh, 0, row, 0)
    requires sourceStart == Offset(sheet.width, sheet.height, x * sw, y * sh + row, 0)
    requires sourceStart + sw * BytesPerPixel <= |sheet.data|
    requires |before| == |after| == sw * sh * BytesPerPixel
    requires forall i :: 0 <= i < start && i < |before| ==> before[i] == Cell(sheet, sw, sh, x, y).data[i]
    requires forall i :: 0 <= i < |after| && !(start <= i < start + sw * BytesPerPixel) ==> after[i] == before[i]
    requires forall i :: start <= i < start + sw * BytesPerPixel ==> after[i] == sheet.data[sourceStart + (i - start)]
    ensures forall i :: 0 <= i < (row + 1) * sw * BytesPerPixel && i < |after| ==> after[i] == Cell(sheet, sw, sh, x, y).data[i]
  {
    MulSucc(row, sw);
    forall i | start <= i < start + sw * BytesPerPixel && i < |after|
      ensures after[i] == Cell(sheet, sw, sh, x, y).data[i]
    {
      var j := i - start;
      var col, c := j / BytesPerPixel, j % BytesPerPixel;
      assert i == Offset(sw, sh, col, row, c);
      CellAt(sheet, sw, sh, x, y, col, row, c);
      assert sourceStart + j == Offset(sheet.width, sheet.height, x * sw + col, y * sh + row, c);
    }
  }
}
