/** puzzleScriptObject.js: turning a sprite into a PuzzleScript object definition, that is a name,
    a palette of at most eleven RGB colours in first-seen order and a grid of palette indices, and
    writing it out as text. */
module PuzzleScript {
  import opened Base
  import opened Images
  import opened Text

  /** The palette may hold eleven colours: a new colour is refused once it has more than ten. */
  const MaxColours: nat := 11

  /** A 24-bit RGB value. */
  type Colour = c: nat | c < 0x100_0000

  /** A constructed `PuzzleScriptObject`: `None` is JavaScript's `null` (a pixel that is not fully opaque). */
  datatype PuzzleScriptObject = PuzzleScriptObject(name: string, palette: seq<Colour>, pixels: seq<seq<Option<nat>>>)

  // ---------------------------------------------------------------------------------------------
  // Pixels (puzzleScriptObject.js:13-21)

  /** `readUIntBE(offset, 4)`: the four bytes of a pixel read as one big-endian unsigned integer. */
  function PixelValue(q: seq<Byte>): (v: nat)
    requires |q| == BytesPerPixel
    ensures v < 0x1_0000_0000
  {
    Rgb(q) * 256 + q[3]
  }

  /** The red, green and blue bytes of a pixel read as one big-endian number. */
  function Rgb(q: seq<Byte>): (v: nat)
    requires |q| == BytesPerPixel
    ensures v < 0x100_0000
  {
    (q[0] as nat * 256 + q[1] as nat) * 256 + q[2] as nat
  }

  /** The colour of pixel `p`: `null` when the low byte (alpha) of its value is below 255, otherwise
      `pixelValue >>> 8`. */
  function PixelColour(data: seq<Byte>, p: nat): Option<Colour>
    requires BytesPerPixel * p + BytesPerPixel <= |data|
  {
    var v := PixelValue(Quad(data, p));
    if v % 256 < 255 then None else Some(v / 256)
  }

  /** The colours of the first `n` pixels, in row-major order. */
  function ColoursUpTo(data: seq<Byte>, n: nat): (cs: seq<Option<Colour>>)
    requires BytesPerPixel * n <= |data|
    ensures |cs| == n
    decreases n
  {
    if n == 0 then [] else ColoursUpTo(data, n - 1) + [PixelColour(data, n - 1)]
  }

  /** The colours of all pixels, in row-major order. */
  function Colours(b: Bitmap): (cs: seq<Option<Colour>>)
    requires b.Valid()
    ensures |cs| == b.width * b.height
  {
    MulComm(b.width * b.height, BytesPerPixel);
    ColoursUpTo(b.data, b.width * b.height)
  }

  lemma {:induction false} ColoursUpToAt(data: seq<Byte>, n: nat, p: nat)
    requires BytesPerPixel * n <= |data| && p < n
    ensures ColoursUpTo(data, n)[p] == PixelColour(data, p)
    decreases n
  {
    if p < n - 1 {
      ColoursUpToAt(data, n - 1, p);
    }
  }

  /** Pixel `p`'s entry is the colour decoded from its four bytes. */
  lemma ColoursAt(b: Bitmap, p: nat)
    requires b.Valid() && p < b.width * b.height
    ensures BytesPerPixel * p + BytesPerPixel <= |b.data|
    ensures Colours(b)[p] == PixelColour(b.data, p)
  {
    MulComm(b.width * b.height, BytesPerPixel);
    ColoursUpToAt(b.data, b.width * b.height, p);
  }

  /** A pixel has no colour exactly when its alpha byte is below 255; otherwise its colour is its
      red, green and blue bytes read as one 24-bit number. */
  lemma PixelColourBytes(data: seq<Byte>, p: nat)
    requires BytesPerPixel * p + BytesPerPixel <= |data|
    ensures PixelColour(data, p).None? <==> Quad(data, p)[3] < 255
    ensures PixelColour(data, p).Some? ==> PixelColour(data, p).value == Rgb(Quad(data, p))
  {
    var q := Quad(data, p);
    DivModUnique(PixelValue(q), 256, Rgb(q), q[3]);
  }

  // ---------------------------------------------------------------------------------------------
  // The palette (puzzleScriptObject.js:23-30)

  function Init<T>(s: seq<T>): seq<T>
    requires |s| > 0
  {
    s[..|s| - 1]
  }

  function Last<T>(s: seq<T>): T
    requires |s| > 0
  {
    s[|s| - 1]
  }

  /** The palette after one more pixel: a colour not yet in it is appended, unless the palette
      already has more than ten entries, which is the error naming the object. */
  function AddColour(palette: seq<Colour>, c: Option<Colour>, name: string): Result<seq<Colour>> {
    match c
    case None => Ok(palette)
    case Some(colour) =>
      if colour in palette then Ok(palette)
      else if |palette| > 10 then Err(TooManyColours(name))
      else Ok(palette + [colour])
  }

  /** The palette the constructor's loops have built once they have read the first `k` of the
      pixels `cs`, or the error they have thrown by then. */
  function PaletteAfter(cs: seq<Option<Colour>>, k: nat, name: string): Result<seq<Colour>>
    requires k <= |cs|
    decreases k
  {
    if k == 0 then Ok([])
    else match PaletteAfter(cs, k - 1, name)
      case Err(e) => Err(e)
      case Ok(palette) => AddColour(palette, cs[k - 1], name)
  }

  /** Reference definition: the distinct colours of `cs` in order of first appearance, without bound. */
  function Distinct(cs: seq<Option<Colour>>): seq<Colour>
    decreases |cs|
  {
    if cs == [] then []
    else
      var seen := Distinct(Init(cs));
      match Last(cs)
      case None => seen
      case Some(c) => if c in seen then seen else seen + [c]
  }

  /** Where `x` first occurs in `s`. */
  function FirstIndex<T(==)>(s: seq<T>, x: T): (i: nat)
    requires x in s
    ensures i < |s| && s[i] == x && forall k :: 0 <= k < i ==> s[k] != x
    decreases |s|
  {
    if x in Init(s) then FirstIndex(Init(s), x) else |s| - 1
  }

  /** The distinct colours hold each colour once. */
  lemma {:induction false} DistinctUnique(cs: seq<Option<Colour>>)
    ensures forall i, j :: 0 <= i < j < |Distinct(cs)| ==> Distinct(cs)[i] != Distinct(cs)[j]
    decreases |cs|
  {
    if cs != [] {
      DistinctUnique(Init(cs));
    }
  }

  /** A colour is among the distinct colours exactly when some pixel has it. */
  lemma {:induction false} DistinctContents(cs: seq<Option<Colour>>, c: Colour)
    ensures c in Distinct(cs) <==> Some(c) in cs
    decreases |cs|
  {
    if cs != [] {
      DistinctContents(Init(cs), c);
      assert cs == Init(cs) + [Last(cs)];
    }
  }

  /** The distinct colours appear in the order in which the pixels first show them. */
  lemma {:induction false} DistinctOrder(cs: seq<Option<Colour>>)
    ensures forall i :: 0 <= i < |Distinct(cs)| ==> Some(Distinct(cs)[i]) in cs
    ensures forall i, j :: 0 <= i < j < |Distinct(cs)| ==>
              FirstIndex(cs, Some(Distinct(cs)[i])) < FirstIndex(cs, Some(Distinct(cs)[j]))
    decreases |cs|
  {
    if cs != [] {
      var init, d := Init(cs), Distinct(cs);
      DistinctOrder(init);
      assert cs == init + [Last(cs)];
      forall i | 0 <= i < |Distinct(init)| ensures FirstIndex(cs, Some(d[i])) == FirstIndex(init, Some(d[i])) {
        assert d[i] == Distinct(init)[i];
      }
      if |d| > |Distinct(init)| {
        var c := d[|d| - 1];
        assert Last(cs) == Some(c) && c !in Distinct(init);
        DistinctContents(init, c);
        assert FirstIndex(cs, Some(c)) == |cs| - 1;
      }
    }
  }

  /** The distinct colours of a prefix of the pixels are a prefix of all the distinct colours. */
  lemma {:induction false} DistinctPrefix(cs: seq<Option<Colour>>, k: nat)
    requires k <= |cs|
    ensures Distinct(cs[..k]) <= Distinct(cs)
    decreases |cs|
  {
    if k < |cs| {
      assert Init(cs)[..k] == cs[..k];
      DistinctPrefix(Init(cs), k);
    } else {
      assert cs[..k] == cs;
    }
  }

  /** After `k` pixels the loops have failed exactly when those pixels show more than eleven distinct
      colours, and otherwise have built exactly their distinct colours in first-seen order. */
  lemma {:induction false} PaletteAfterSpec(cs: seq<Option<Colour>>, k: nat, name: string)
    requires k <= |cs|
    ensures PaletteAfter(cs, k, name).Err? <==> |Distinct(cs[..k])| > MaxColours
    ensures PaletteAfter(cs, k, name).Err? ==> PaletteAfter(cs, k, name).error == TooManyColours(name)
    ensures PaletteAfter(cs, k, name).Ok? ==> PaletteAfter(cs, k, name).value == Distinct(cs[..k])
    decreases k
  {
    if k > 0 {
      PaletteAfterSpec(cs, k - 1, name);
      assert Init(cs[..k]) == cs[..k - 1] && Last(cs[..k]) == cs[k - 1];
      if PaletteAfter(cs, k - 1, name).Err? {
        DistinctPrefix(cs[..k], k - 1);
      }
    }
  }

  /** Once the loops have failed after `k` pixels, they end in that error. */
  lemma PaletteAfterFails(cs: seq<Option<Colour>>, k: nat, j: nat, name: string)
    requires k <= j <= |cs| && PaletteAfter(cs, k, name).Err?
    ensures PaletteAfter(cs, j, name) == Err(TooManyColours(name))
  {
    PaletteAfterSpec(cs, k, name);
    PaletteAfterSpec(cs, j, name);
    DistinctPrefix(cs[..j], k);
    assert cs[..j][..k] == cs[..k];
  }

  /** A palette built from all the pixels has at most eleven entries, no colour twice, and every
      pixel colour in it. */
  lemma PaletteShape(cs: seq<Option<Colour>>, name: string)
    requires PaletteAfter(cs, |cs|, name).Ok?
    ensures |PaletteAfter(cs, |cs|, name).value| <= MaxColours
    ensures forall i, j :: 0 <= i < j < |PaletteAfter(cs, |cs|, name).value| ==>
              PaletteAfter(cs, |cs|, name).value[i] != PaletteAfter(cs, |cs|, name).value[j]
    ensures forall c :: c in PaletteAfter(cs, |cs|, name).value <==> Some(c) in cs
  {
    PaletteAfterSpec(cs, |cs|, name);
    assert cs[..|cs|] == cs;
    DistinctUnique(cs);
    forall c: Colour ensures c in PaletteAfter(cs, |cs|, name).value <==> Some(c) in cs {
      DistinctContents(cs, c);
    }
  }

  /** `palette.indexOf(colour)`, for a colour the palette holds: its first position. */
  function IndexOf(palette: seq<Colour>, c: Colour): (i: nat)
    requires c in palette
    ensures i < |palette| && palette[i] == c
    ensures forall k :: 0 <= k < i ==> palette[k] != c
  {
    FirstIndex(palette, c)
  }

  /** The pixel grid entry for colour `c`: `null`, or the colour's palette index. */
  function IndexIn(palette: seq<Colour>, c: Option<Colour>): Option<nat>
    requires c.Some? ==> c.value in palette
  {
    match c
    case None => None
    case Some(colour) => Some(IndexOf(palette, colour))
  }

  /** Appending colours to a palette does not move the colours already in it. */
  lemma IndexStable(palette: seq<Colour>, more: seq<Colour>, c: Colour)
    requires c in palette
    ensures IndexOf(palette + more, c) == IndexOf(palette, c)
  {
    var i, j := IndexOf(palette, c), IndexOf(palette + more, c);
    assert (palette + more)[i] == c;
    assert j <= i;
    assert palette[j] == (palette + more)[j];
  }

  // ---------------------------------------------------------------------------------------------
  // The constructor (puzzleScriptObject.js:4-33)

  /** `new PuzzleScriptObject(name, image)`, or the error it throws. */
  function Encode(name: string, b: Bitmap): (r: Result<PuzzleScriptObject>)
    requires b.Valid()
    ensures r.Ok? ==> r.value.name == name && |r.value.pixels| == b.height
    ensures r.Ok? ==> forall y :: 0 <= y < b.height ==> |r.value.pixels[y]| == b.width
  {
    var cs := Colours(b);
    match PaletteAfter(cs, |cs|, name)
    case Err(e) => Err(e)
    case Ok(palette) =>
      PaletteShape(cs, name);
      Ok(PuzzleScriptObject(name, palette,
           seq(b.height, y requires 0 <= y < b.height =>
                 seq(b.width, x requires 0 <= x < b.width => IndexIn(palette, cs[PixelAt(b.width, b.height, x, y)])))))
  }

  /** The constructor fails, naming the object, exactly when the image shows more than eleven
      distinct opaque colours; otherwise its palette is those colours in first-seen row-major order,
      without repetition and at most eleven of them. */
  lemma EncodePalette(name: string, b: Bitmap)
    requires b.Valid()
    ensures Encode(name, b).Err? <==> |Distinct(Colours(b))| > MaxColours
    ensures Encode(name, b).Err? ==> Encode(name, b).error == TooManyColours(name)
    ensures Encode(name, b).Ok? ==> Encode(name, b).value.palette == Distinct(Colours(b))
    ensures Encode(name, b).Ok? ==> |Encode(name, b).value.palette| <= MaxColours
  {
    var cs := Colours(b);
    PaletteAfterSpec(cs, |cs|, name);
    assert cs[..|cs|] == cs;
  }

  /** Pixel (x, y) of a constructed object is `null` exactly when the image pixel is not fully
      opaque, and otherwise a palette index whose entry is that pixel's colour. */
  lemma EncodePixel(name: string, b: Bitmap, x: nat, y: nat)
    requires b.Valid() && x < b.width && y < b.height && Encode(name, b).Ok?
    ensures BytesPerPixel * PixelAt(b.width, b.height, x, y) + BytesPerPixel <= |b.data|
    ensures var o, q := Encode(name, b).value, Quad(b.data, PixelAt(b.width, b.height, x, y));
            (o.pixels[y][x].None? <==> q[3] < 255)
            && (o.pixels[y][x].Some? ==> o.pixels[y][x].value < |o.palette|
                                         && o.palette[o.pixels[y][x].value] == Rgb(q))
  {
    var p := PixelAt(b.width, b.height, x, y);
    ColoursAt(b, p);
    PixelColourBytes(b.data, p);
  }

  /** `buffer.readUIntBE(offset, 4)`: four bytes read as one big-endian unsigned integer. */
  function ReadUIntBE(data: array<Byte>, offset: nat): (v: nat)
    reads data
    requires offset + BytesPerPixel <= data.Length
    ensures v == PixelValue(data[..][offset..offset + BytesPerPixel])
  {
    ((data[offset] as nat * 256 + data[offset + 1] as nat) * 256 + data[offset + 2] as nat) * 256
    + data[offset + 3] as nat
  }

  /** The constructor's nested loops: pixels are read row by row; a pixel that is not fully opaque
      gets `null`, an opaque one the palette index of its colour, which is appended to the palette
      when new, unless the palette already holds more than ten colours: then the object is refused. */
  method NewObject(name: string, image: Image) returns (r: Result<PuzzleScriptObject>)
    requires image.Valid()
    ensures r == Encode(name, image.Value())
  {
    ghost var b := image.Value();
    assert b.Valid();
    var w, h := image.width, image.height;
    ghost var cs := Colours(b);
    var palette: seq<Colour> := [];
    var pixels: seq<seq<Option<nat>>> := [];
    for y := 0 to h
      invariant PaletteAfter(cs, RowStart(w, h, y), name) == Ok(palette)
      invariant pixels == GridRows(cs, w, h, y)
    {
      var row: seq<Option<nat>> := [];
      for x := 0 to w
        invariant PaletteAfter(cs, RowStart(w, h, y) + x, name) == Ok(palette)
        invariant row == RowEntries(cs, w, h, y, x)
      {
        var pixel := PixelAt(w, h, x, y);
        PixelInBounds(w, h, pixel);
        var pixelValue := ReadUIntBE(image.data, pixel * BytesPerPixel);
        PixelBits(b.data, pixel, pixelValue);
        ghost var before := palette;
        ghost var c: Option<Colour> := None;
        var entry: Option<nat>;
        if pixelValue % 256 < 255 {
          entry := None;
        } else {
          var colorValue: Colour := pixelValue / 256;
          c := Some(colorValue);
          if colorValue !in palette {
            if |palette| > 10 {
              PixelRead(b, cs, w, h, name, x, y, before, row, c, Err(TooManyColours(name)), None);
              EncodeFails(name, b);
              return Err(TooManyColours(name));
            }
            palette := palette + [colorValue];
          }
          entry := Some(IndexOf(palette, colorValue));
        }
        PixelRead(b, cs, w, h, name, x, y, before, row, c, Ok(palette), entry);
        row := row + [entry];
      }
      MulSucc(y, w);
      GridRowsSnoc(cs, w, h, y);
      pixels := pixels + [row];
    }
    MulComm(h, w);
    EncodeGrid(name, b, palette, pixels);
    r := Ok(PuzzleScriptObject(name, palette, pixels));
  }

  /** The value read for pixel `p`: its low byte is the alpha byte, the rest its colour. */
  lemma PixelBits(data: seq<Byte>, p: nat, v: nat)
    requires BytesPerPixel * p + BytesPerPixel <= |data|
    requires v == PixelValue(data[p * BytesPerPixel..p * BytesPerPixel + BytesPerPixel])
    ensures v / 256 < 0x100_0000
    ensures PixelColour(data, p) == if v % 256 < 255 then None else Some(v / 256)
  {
  }

  lemma PixelInBounds(w: nat, h: nat, p: nat)
    requires p < w * h
    ensures BytesPerPixel * p + BytesPerPixel <= w * h * BytesPerPixel
  {
    MulLe(p + 1, w * h, BytesPerPixel);
  }

  /** One pass of the inner loop keeps its invariants, or ends in the constructor's error. */
  lemma PixelRead(b: Bitmap, cs: seq<Option<Colour>>, w: nat, h: nat, name: string, x: nat, y: nat,
                  palette: seq<Colour>, row: seq<Option<nat>>,
                  c: Option<Colour>, next: Result<seq<Colour>>, entry: Option<nat>)
    requires b.Valid() && cs == Colours(b) && w == b.width && h == b.height && x < w && y < h
    requires PaletteAfter(cs, RowStart(w, h, y) + x, name) == Ok(palette)
    requires row == RowEntries(cs, w, h, y, x)
    requires c == PixelColour(b.data, PixelAt(w, h, x, y))
    requires next == AddColour(palette, c, name) && (next.Ok? ==> EntryFor(next.value, c, entry))
    ensures next.Err? ==> next == Err(TooManyColours(name)) && PaletteAfter(cs, w * h, name) == next
    ensures next.Ok? ==> PaletteAfter(cs, RowStart(w, h, y) + (x + 1), name) == next
    ensures next.Ok? ==> row + [entry] == RowEntries(cs, w, h, y, x + 1)
  {
    var p := PixelAt(w, h, x, y);
    ColoursAt(b, p);
    if next.Err? {
      PaletteAfterFails(cs, p + 1, |cs|, name);
    } else {
      EntryExpected(cs, p, name, next.value, entry);
      RowEntriesSnoc(cs, w, h, y, x);
    }
  }

  /** Grid entry `e` for a pixel of colour `c` agrees with `palette`. */
  predicate EntryFor(palette: seq<Colour>, c: Option<Colour>, e: Option<nat>) {
    (c.Some? ==> c.value in palette) && e == IndexIn(palette, c)
  }

  /** The entry for pixel `k`, stated against all the distinct colours of the image rather than
      the palette built so far. */
  function Expected(cs: seq<Option<Colour>>, k: nat): Option<nat>
    requires k < |cs|
  {
    match cs[k]
    case None => None
    case Some(c) => DistinctContents(cs, c); Some(IndexOf(Distinct(cs), c))
  }

  /** The first `n` entries of row `y`. */
  function RowEntries(cs: seq<Option<Colour>>, w: nat, h: nat, y: nat, n: nat): seq<Option<nat>>
    requires |cs| == w * h && y < h && n <= w
  {
    seq(n, xx requires 0 <= xx < n => Expected(cs, PixelAt(w, h, xx, y)))
  }

  /** The first `n` complete rows. */
  function GridRows(cs: seq<Option<Colour>>, w: nat, h: nat, n: nat): seq<seq<Option<nat>>>
    requires |cs| == w * h && n <= h
  {
    seq(n, yy requires 0 <= yy < n => RowEntries(cs, w, h, yy, w))
  }

  lemma RowEntriesSnoc(cs: seq<Option<Colour>>, w: nat, h: nat, y: nat, n: nat)
    requires |cs| == w * h && y < h && n < w
    ensures RowEntries(cs, w, h, y, n + 1) == RowEntries(cs, w, h, y, n) + [Expected(cs, PixelAt(w, h, n, y))]
  {
  }

  lemma GridRowsSnoc(cs: seq<Option<Colour>>, w: nat, h: nat, n: nat)
    requires |cs| == w * h && n < h
    ensures GridRows(cs, w, h, n + 1) == GridRows(cs, w, h, n) + [RowEntries(cs, w, h, n, w)]
  {
  }

  /** The index pushed for pixel `p`, an index into the palette built so far, is the colour's index
      among all distinct colours: later colours are only ever appended. */
  lemma EntryExpected(cs: seq<Option<Colour>>, p: nat, name: string, palette: seq<Colour>, e: Option<nat>)
    requires p < |cs| && PaletteAfter(cs, p + 1, name) == Ok(palette) && EntryFor(palette, cs[p], e)
    ensures e == Expected(cs, p)
  {
    PaletteAfterSpec(cs, p + 1, name);
    DistinctPrefix(cs, p + 1);
    var all := Distinct(cs);
    assert all == palette + all[|palette|..];
    if cs[p].Some? {
      IndexStable(palette, all[|palette|..], cs[p].value);
    }
  }

  lemma EncodeFails(name: string, b: Bitmap)
    requires b.Valid() && PaletteAfter(Colours(b), b.width * b.height, name).Err?
    ensures Encode(name, b) == Err(PaletteAfter(Colours(b), b.width * b.height, name).error)
  {
  }

  /** The rows the loops pushed are the grid of `Encode`. */
  lemma EncodeGrid(name: string, b: Bitmap, palette: seq<Colour>, pixels: seq<seq<Option<nat>>>)
    requires b.Valid() && PaletteAfter(Colours(b), b.width * b.height, name) == Ok(palette)
    requires pixels == GridRows(Colours(b), b.width, b.height, b.height)
    ensures Encode(name, b) == Ok(PuzzleScriptObject(name, palette, pixels))
  {
    var cs := Colours(b);
    PaletteAfterSpec(cs, |cs|, name);
    assert cs[..|cs|] == cs;
    var o := Encode(name, b).value;
    assert o.name == name && o.palette == palette;
    forall yy | 0 <= yy < b.height ensures o.pixels[yy] == pixels[yy] {
      forall xx | 0 <= xx < b.width ensures o.pixels[yy][xx] == pixels[yy][xx] {
        assert pixels[yy][xx] == Expected(cs, PixelAt(b.width, b.height, xx, yy));
      }
    }
    assert o.pixels == pixels;
  }

  // ---------------------------------------------------------------------------------------------
  // isBlank (puzzleScriptObject.js:35-39)

  /** `isBlank()`: every pixel of every row is `null`. */
  predicate IsBlank(o: PuzzleScriptObject) {
    forall y, x :: 0 <= y < |o.pixels| && 0 <= x < |o.pixels[y]| ==> o.pixels[y][x].None?
  }

  /** No pixel has a colour. */
  predicate NoColour(cs: seq<Option<Colour>>) {
    forall k :: 0 <= k < |cs| ==> cs[k].None?
  }

  /** Entry (x, y) of a constructed object is the palette index of pixel (x, y)'s colour. */
  lemma EncodeAt(name: string, b: Bitmap, x: nat, y: nat)
    requires b.Valid() && Encode(name, b).Ok? && x < b.width && y < b.height
    ensures var o, c := Encode(name, b).value, Colours(b)[PixelAt(b.width, b.height, x, y)];
            (c.Some? ==> c.value in o.palette) && o.pixels[y][x] == IndexIn(o.palette, c)
  {
    PaletteShape(Colours(b), name);
  }

  /** A constructed object is blank exactly when no pixel of the image is fully opaque. */
  lemma BlankPixels(name: string, b: Bitmap)
    requires b.Valid() && Encode(name, b).Ok?
    ensures IsBlank(Encode(name, b).value) <==> NoColour(Colours(b))
  {
    var o, cs := Encode(name, b).value, Colours(b);
    if IsBlank(o) {
      forall k | 0 <= k < |cs| ensures cs[k].None? {
        var x, y := PixelOf(b.width, b.height, k);
        EncodeAt(name, b, x, y);
      }
    }
    if NoColour(cs) {
      forall y, x | 0 <= y < |o.pixels| && 0 <= x < |o.pixels[y]| ensures o.pixels[y][x].None? {
        EncodeAt(name, b, x, y);
      }
    }
  }

  /** The distinct colours are empty exactly when no pixel has a colour. */
  lemma NoColourDistinct(cs: seq<Option<Colour>>)
    ensures NoColour(cs) <==> Distinct(cs) == []
  {
    if Distinct(cs) != [] {
      DistinctContents(cs, Distinct(cs)[0]);
    } else {
      forall k | 0 <= k < |cs| ensures cs[k].None? {
        if cs[k].Some? {
          DistinctContents(cs, cs[k].value);
        }
      }
    }
  }

  /** A constructed object is blank exactly when no pixel of the image is fully opaque, which is
      exactly when its palette is empty. */
  lemma BlankIff(name: string, b: Bitmap)
    requires b.Valid() && Encode(name, b).Ok?
    ensures IsBlank(Encode(name, b).value) <==> NoColour(Colours(b))
    ensures IsBlank(Encode(name, b).value) <==> Encode(name, b).value.palette == []
  {
    BlankPixels(name, b);
    EncodePalette(name, b);
    NoColourDistinct(Colours(b));
  }

  // ---------------------------------------------------------------------------------------------
  // format (puzzleScriptObject.js:41-62)

  /** `formatHexColor(value)`: `#` and the lower-case hexadecimal digits, left-padded with `0` to six. */
  function FormatHexColor(v: Colour): string {
    "#" + PadStart(ToBase(v, 16), 6, '0')
  }

  /** A formatted colour is seven characters, `#` and six hexadecimal digits that read back as the colour. */
  lemma FormatHexColorShape(v: Colour)
    ensures |FormatHexColor(v)| == 7 && FormatHexColor(v)[0] == '#'
    ensures forall i :: 1 <= i < 7 ==> IsDigitOf(FormatHexColor(v)[i], 16)
    ensures FromBase(FormatHexColor(v)[1..], 16) == v
  {
    var digits := ToBase(v, 16);
    assert Pow(16, 6) == 0x100_0000;
    ToBaseLength(v, 16, 6);
    ToBaseDigits(v, 16);
    ToBaseRoundTrip(v, 16);
    var s := FormatHexColor(v);
    var padded := PadStart(digits, 6, '0');
    assert s[1..] == padded;
    assert padded == seq(6 - |digits|, _ => '0') + digits;
    FromBaseLeadingZeros(6 - |digits|, digits, 16);
    forall i | 1 <= i < 7 ensures IsDigitOf(s[i], 16) {
      if i - 1 < 6 - |digits| {
        assert s[i] == '0' == Digits[..16][0];
      } else {
        assert s[i] == digits[i - 1 - (6 - |digits|)];
      }
    }
  }

  /** A pixel as `format` writes it: its palette index in decimal, or `.` for `null`. */
  function FormatIndex(e: Option<nat>): string {
    match e
    case None => "."
    case Some(i) => NatToString(i)
  }

  /** One row of pixels, written without separators. */
  function RowText(row: seq<Option<nat>>): string {
    Join(FormattedIndices(row), "")
  }

  /** `pixelRow.map(...)`: each entry of a row as its text. */
  function FormattedIndices(row: seq<Option<nat>>): seq<string> {
    seq(|row|, x requires 0 <= x < |row| => FormatIndex(row[x]))
  }

  /** The palette line: the formatted colours separated by single spaces. */
  function PaletteLine(palette: seq<Colour>): string {
    Join(FormattedPalette(palette), " ")
  }

  /** `palette.map(formatHexColor)`. */
  function FormattedPalette(palette: seq<Colour>): seq<string> {
    seq(|palette|, i requires 0 <= i < |palette| => FormatHexColor(palette[i]))
  }

  /** Each pixel row as its line of text. */
  function FormattedRows(pixels: seq<seq<Option<nat>>>): seq<string> {
    seq(|pixels|, y requires 0 <= y < |pixels| => RowText(pixels[y]))
  }

  /** The lines of `format()`'s text: the name, the palette, one line per pixel row, an empty line. */
  function Lines(o: PuzzleScriptObject): seq<string> {
    [o.name, PaletteLine(o.palette)] + FormattedRows(o.pixels) + [""]
  }

  /** Each line followed by a newline. */
  function Unlines(lines: seq<string>): string
    decreases |lines|
  {
    if lines == [] then "" else lines[0] + "\n" + Unlines(lines[1..])
  }

  lemma {:induction false} UnlinesAppend(a: seq<string>, b: seq<string>)
    ensures Unlines(a + b) == Unlines(a) + Unlines(b)
    decreases |a|
  {
    if a != [] {
      assert (a + b)[1..] == a[1..] + b;
      UnlinesAppend(a[1..], b);
    } else {
      assert a + b == b;
    }
  }

  /** `format()`: the name line, the palette line and each row line appended in turn, then an empty line. */
  method Format(o: PuzzleScriptObject) returns (text: string)
    ensures text == Unlines(Lines(o))
  {
    var formattedPalette := FormattedPalette(o.palette);
    var formattedPixels := FormattedRows(o.pixels);
    ghost var lines := Lines(o);
    text := o.name + "\n";
    text := text + Join(formattedPalette, " ") + "\n";
    assert lines[..2] == [o.name] + [PaletteLine(o.palette)];
    assert Unlines([PaletteLine(o.palette)]) == PaletteLine(o.palette) + "\n" + Unlines([]);
    assert text == Unlines(lines[..2]);
    for y := 0 to |formattedPixels|
      invariant text == Unlines(lines[..y + 2])
    {
      assert lines[..y + 3] == lines[..y + 2] + [formattedPixels[y]];
      UnlinesAppend(lines[..y + 2], [formattedPixels[y]]);
      text := text + formattedPixels[y] + "\n";
    }
    assert lines == lines[..|formattedPixels| + 2] + [""];
    UnlinesAppend(lines[..|formattedPixels| + 2], [""]);
    text := text + "\n";
  }

  /** `s.split(sep)`: the pieces between separators; there is one more piece than separators. */
  function Split(s: string, sep: char): (parts: seq<string>)
    ensures |parts| >= 1
    decreases |s|
  {
    if s == [] then [""]
    else if s[0] == sep then [""] + Split(s[1..], sep)
    else
      var rest := Split(s[1..], sep);
      [[s[0]] + rest[0]] + rest[1..]
  }

  lemma {:induction false} SplitLine(line: string, rest: string, sep: char)
    requires NoChar(line, sep)
    ensures Split(line + [sep] + rest, sep) == [line] + Split(rest, sep)
    decreases |line|
  {
    if line == [] {
      assert line + [sep] + rest == [sep] + rest;
      assert ([sep] + rest)[1..] == rest;
    } else {
      assert (line + [sep] + rest)[1..] == line[1..] + [sep] + rest;
      SplitLine(line[1..], rest, sep);
      assert [line[0]] + line[1..] == line;
    }
  }

  /** Splitting written lines at the newlines gives the lines back, and one empty piece after the last newline. */
  lemma {:induction false} SplitUnlines(lines: seq<string>)
    requires forall k :: 0 <= k < |lines| ==> NoChar(lines[k], '\n')
    ensures Split(Unlines(lines), '\n') == lines + [""]
    decreases |lines|
  {
    if lines != [] {
      SplitUnlines(lines[1..]);
      SplitLine(lines[0], Unlines(lines[1..]), '\n');
      assert lines[0] + "\n" + Unlines(lines[1..]) == lines[0] + ['\n'] + Unlines(lines[1..]);
      assert lines == [lines[0]] + lines[1..];
    }
  }

  lemma FormatIndexAvoids(e: Option<nat>, ch: char)
    requires ch !in Digits && ch != '.'
    ensures NoChar(FormatIndex(e), ch)
  {
    if e.Some? {
      ToBaseAvoids(e.value, 10, ch);
    }
  }

  lemma FormatHexColorAvoids(v: Colour, ch: char)
    requires ch !in Digits && ch != '#'
    ensures NoChar(FormatHexColor(v), ch)
  {
    FormatHexColorShape(v);
    forall i | 0 <= i < 7 ensures FormatHexColor(v)[i] != ch {
      if i > 0 {
        assert FormatHexColor(v)[i] in Digits[..16];
      }
    }
  }

  /** For a name without a newline, the lines of `format()`'s text are exactly the name, the palette
      line, the row lines and one empty line, followed by the empty piece after the final newline. */
  lemma FormatLines(o: PuzzleScriptObject)
    requires NoChar(o.name, '\n')
    ensures Split(Unlines(Lines(o)), '\n') == [o.name, PaletteLine(o.palette)] + FormattedRows(o.pixels) + ["", ""]
  {
    var lines := Lines(o);
    forall i | 0 <= i < |o.palette| ensures NoChar(FormatHexColor(o.palette[i]), '\n') {
      FormatHexColorAvoids(o.palette[i], '\n');
    }
    JoinAvoids(FormattedPalette(o.palette), " ", '\n');
    forall y | 0 <= y < |o.pixels| ensures NoChar(RowText(o.pixels[y]), '\n') {
      var row := o.pixels[y];
      forall x | 0 <= x < |row| ensures NoChar(FormatIndex(row[x]), '\n') {
        FormatIndexAvoids(row[x], '\n');
      }
      JoinAvoids(FormattedIndices(row), "", '\n');
    }
    forall k | 0 <= k < |lines| ensures NoChar(lines[k], '\n') {
      if k == 0 {
        assert lines[k] == o.name;
      } else if k == 1 {
        assert lines[k] == PaletteLine(o.palette);
      } else if k == |lines| - 1 {
        assert lines[k] == "";
      } else {
        assert lines[k] == RowText(o.pixels[k - 2]);
      }
    }
    SplitUnlines(lines);
  }

  /** How many entries of `row` are written with two or more digits. */
  function WideCount(row: seq<Option<nat>>): nat
    decreases |row|
  {
    if row == [] then 0 else WideCount(row[..|row| - 1]) + (if Last(row).Some? && Last(row).value >= 10 then 1 else 0)
  }

  /** A row with indices below 100 is one character per pixel plus one per two-digit index; so rows
      are of equal width only when no index reaches 10. */
  lemma {:induction false} RowTextLength(row: seq<Option<nat>>)
    requires forall x :: 0 <= x < |row| && row[x].Some? ==> row[x].value < 100
    ensures |RowText(row)| == |row| + WideCount(row)
    decreases |row|
  {
    if row != [] {
      var init := row[..|row| - 1];
      RowTextLength(init);
      assert FormattedIndices(row) == FormattedIndices(init) + [FormatIndex(Last(row))];
      if init != [] {
        JoinSnoc(FormattedIndices(init), "", FormatIndex(Last(row)));
      }
      if Last(row).Some? {
        var i := Last(row).value;
        if i < 10 {
          assert NatToString(i) == [DigitChar(i)];
        } else {
          DivBelow(i, 10, 10);
          assert ToBase(i / 10, 10) == [DigitChar(i / 10)];
          assert NatToString(i) == ToBase(i / 10, 10) + [DigitChar(i % 10)];
        }
      }
    }
  }

  /** In a constructed object every index is at most 10, so each pixel is written with one or two characters. */
  lemma EncodeIndexBound(name: string, b: Bitmap, y: nat, x: nat)
    requires b.Valid() && Encode(name, b).Ok? && y < b.height && x < b.width
    ensures Encode(name, b).value.pixels[y][x].Some? ==> Encode(name, b).value.pixels[y][x].value <= 10
  {
    EncodePixel(name, b, x, y);
    EncodePalette(name, b);
  }
}
