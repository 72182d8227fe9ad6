/** Compositing of images onto a destination buffer, in place
    (imageproc/ImageCombination): a binary foreground, optionally restricted
    by a binary mask, or a colour foreground, optionally restricted by a
    mask, is drawn onto an 8-bit indexed or a 32-bit (A)RGB destination; and
    applyMask paints every pixel outside a mask white or black. */
module ImageCombination {
  import opened BinaryImages
  import opened Palettes

  /** The pixel formats an image may carry. Only the first three are
      accepted as destinations. */
  datatype Format = Indexed8 | Rgb32 | Argb32 | Mono | MonoLsb | OtherFormat

  /** The test of checkImageFormatSupported. */
  predicate Supported(f: Format) {
    f == Indexed8 || f == Rgb32 || f == Argb32
  }

  predicate IsMono(f: Format) {
    f == Mono || f == MonoLsb
  }

  /** The two kinds of invalid_argument the public entry points throw. */
  datatype Error = WrongImageFormat | SizeMismatch
  datatype Outcome = Success | Failure(error: Error)

  datatype ImageSize = ImageSize(width: int, height: int)

  /** The filling colour of applyMask. */
  datatype BWColor = White | Black

  /** `(pixel & 0x00ffffff) != 0x00ffffff`: a pixel whose colour bits are not
      all set is drawn; an all-white one counts as transparent. */
  predicate Opaque(c: bv32) {
    c & 0x00ff_ffff != 0x00ff_ffff
  }

  /** Promotion of an 8-bit pixel to the 32-bit operand of the test above. */
  function Widen8(b: bv8): bv32 {
    b as bv32
  }

  /** An 8-bit pixel, promoted, never looks transparent: the test can only
      match a value whose low 24 bits are all set. */
  lemma BytesAreOpaque(b: bv8)
    ensures Opaque(Widen8(b))
  {
  }

  /** h rows of at least w pixels each. */
  predicate HasRows<T>(rows: seq<seq<T>>, w: nat, h: nat) {
    h <= |rows| && forall y :: 0 <= y < h ==> w <= |rows[y]|
  }

  /** A read-only operand image (the foreground). Its pixel buffer is seen
      as bytes or as 32-bit words, depending on which routine reads it;
      `mono` is what converting a Mono/MonoLSB image to a BinaryImage
      yields. */
  datatype Picture = Picture(
    width: nat, height: nat, format: Format, grayscale: bool,
    palette: seq<bv32>, bytes: seq<seq<bv8>>, words: seq<seq<bv32>>, mono: BinaryImage)
  {
    function Size(): ImageSize {
      ImageSize(width, height)
    }

    /** Every byte of the first h rows and w columns indexes the palette. */
    predicate IndexesPalette(w: nat, h: nat) {
      && HasRows(bytes, w, h)
      && forall y, x :: 0 <= y < h && 0 <= x < w ==> bytes[y][x] as int < |palette|
    }

    /** Every byte that lies under a set bit of the mask indexes the
        palette; bytes outside the mask are never looked up. */
    predicate IndexesPaletteUnder(mask: BinaryImage, w: nat, h: nat) {
      && HasRows(bytes, w, h) && mask.Covers(w, h)
      && forall y, x :: 0 <= y < h && 0 <= x < w && PixelSet(mask, y, x) ==> bytes[y][x] as int < |palette|
    }

    /** The colour of pixel (y, x) of an indexed image. */
    function ColorAt(w: nat, h: nat, y: nat, x: nat): bv32
      requires HasRows(bytes, w, h) && y < h && x < w && bytes[y][x] as int < |palette|
    {
      palette[bytes[y][x]]
    }
  }

  /** The destination image, changed in place. Its pixel buffer has
      `height` rows of a stride of at least `width` pixels, seen as bytes
      (Indexed8) or as 32-bit words (the other formats). */
  class Image {
    const width: nat
    const height: nat
    const format: Format
    const grayscale: bool
    var palette: seq<bv32>
    const bytes: array2<bv8>
    const words: array2<bv32>

    predicate Valid() {
      && (format == Indexed8 ==> bytes.Length0 == height && width <= bytes.Length1)
      && (format != Indexed8 ==> words.Length0 == height && width <= words.Length1)
    }

    function Size(): ImageSize {
      ImageSize(width, height)
    }

    constructor (width: nat, height: nat, stride: nat, format: Format, grayscale: bool, palette: seq<bv32>)
      requires width <= stride
      ensures Valid()
      ensures this.width == width && this.height == height && this.format == format
      ensures this.grayscale == grayscale && this.palette == palette
      ensures fresh(bytes) && fresh(words)
    {
      this.width := width;
      this.height := height;
      this.format := format;
      this.grayscale := grayscale;
      this.palette := palette;
      if format == Indexed8 {
        bytes := new bv8[height, stride];
        words := new bv32[0, 0];
      } else {
        bytes := new bv8[0, 0];
        words := new bv32[height, stride];
      }
    }
  }

  // ---------------------------------------------------------------------
  // The per-depth routines. `P` stands for the destination's pixel type:
  // bv8 for Indexed8 and bv32 for RGB32/ARGB32.
  // ---------------------------------------------------------------------

  /** combineImagesMono<MixedPixel>(mixed, foreground): a set foreground bit
      paints the pixel opaque black, a clear bit leaves it alone. */
  method CombineImagesMono<P>(lines: array2<P>, width: nat, height: nat, fg: BinaryImage, cast: bv32 -> P)
    requires lines.Length0 == height && width <= lines.Length1
    requires fg.Covers(width, height)
    modifies lines
    ensures forall y, x :: 0 <= y < lines.Length0 && 0 <= x < lines.Length1 ==>
      lines[y, x] == if x < width && PixelSet(fg, y, x) then cast(0xff00_0000) else old(lines[y, x])
  {
    for y := 0 to height
      invariant forall j, i :: 0 <= j < lines.Length0 && 0 <= i < lines.Length1 ==>
        lines[j, i] == if j < y && i < width && PixelSet(fg, j, i) then cast(0xff00_0000) else old(lines[j, i])
    {
      var line := fg.lines[y];
      for x := 0 to width
        invariant forall j, i :: 0 <= j < lines.Length0 && 0 <= i < lines.Length1 ==>
          lines[j, i] == if (j < y || (j == y && i < x)) && i < width && PixelSet(fg, j, i)
                         then cast(0xff00_0000) else old(lines[j, i])
      {
        if BitSet(line, x) {
          var tmp := MonoColor(line[x / 32], Offset(x));
          assert tmp == 0xff00_0000;
          lines[y, x] := cast(tmp);
        }
      }
    }
  }

  /** combineImagesMono<MixedPixel>(mixed, foreground, mask): inside the mask
      a pixel becomes black where the foreground bit is set and white where
      it is clear; outside the mask nothing changes. */
  method CombineImagesMonoMasked<P>(lines: array2<P>, width: nat, height: nat, fg: BinaryImage, mask: BinaryImage, cast: bv32 -> P)
    requires lines.Length0 == height && width <= lines.Length1
    requires fg.Covers(width, height) && mask.Covers(width, height)
    modifies lines
    ensures forall y, x :: 0 <= y < lines.Length0 && 0 <= x < lines.Length1 ==>
      lines[y, x] == if x < width && PixelSet(mask, y, x)
                     then cast(if PixelSet(fg, y, x) then 0xff00_0000 else 0xffff_ffff)
                     else old(lines[y, x])
  {
    for y := 0 to height
      invariant forall j, i :: 0 <= j < lines.Length0 && 0 <= i < lines.Length1 ==>
        lines[j, i] == if j < y && i < width && PixelSet(mask, j, i)
                       then cast(if PixelSet(fg, j, i) then 0xff00_0000 else 0xffff_ffff)
                       else old(lines[j, i])
    {
      var fgLine, maskLine := fg.lines[y], mask.lines[y];
      for x := 0 to width
        invariant forall j, i :: 0 <= j < lines.Length0 && 0 <= i < lines.Length1 ==>
          lines[j, i] == if (j < y || (j == y && i < x)) && i < width && PixelSet(mask, j, i)
                         then cast(if PixelSet(fg, j, i) then 0xff00_0000 else 0xffff_ffff)
                         else old(lines[j, i])
      {
        if BitSet(maskLine, x) {
          lines[y, x] := cast(MonoColor(fgLine[x / 32], Offset(x)));
        }
      }
    }
  }

  /** combineImagesColor<MixedPixel>(mixed, foreground) for images of the
      same depth: every foreground pixel that passes the transparency test is
      copied. */
  method CombineImagesColor<P>(lines: array2<P>, width: nat, height: nat, fg: seq<seq<P>>, widen: P -> bv32)
    requires lines.Length0 == height && width <= lines.Length1
    requires HasRows(fg, width, height)
    modifies lines
    ensures forall y, x :: 0 <= y < lines.Length0 && 0 <= x < lines.Length1 ==>
      lines[y, x] == if x < width && Opaque(widen(fg[y][x])) then fg[y][x] else old(lines[y, x])
  {
    for y := 0 to height
      invariant forall j, i :: 0 <= j < lines.Length0 && 0 <= i < lines.Length1 ==>
        lines[j, i] == if j < y && i < width && Opaque(widen(fg[j][i])) then fg[j][i] else old(lines[j, i])
    {
      var line := fg[y];
      for x := 0 to width
        invariant forall j, i :: 0 <= j < lines.Length0 && 0 <= i < lines.Length1 ==>
          lines[j, i] == if (j < y || (j == y && i < x)) && i < width && Opaque(widen(fg[j][i]))
                         then fg[j][i] else old(lines[j, i])
      {
        if Opaque(widen(line[x])) {
          lines[y, x] := line[x];
        }
      }
    }
  }

  /** combineImagesColor<uint32_t, uint8_t>(mixed, foreground): a 32-bit
      destination under an indexed foreground; each foreground index is
      resolved through the foreground palette, then tested and copied. */
  method CombineRgbWithIndexed(lines: array2<bv32>, width: nat, height: nat, fg: Picture)
    requires lines.Length0 == height && width <= lines.Length1
    requires fg.IndexesPalette(width, height)
    modifies lines
    ensures forall y, x :: 0 <= y < lines.Length0 && 0 <= x < lines.Length1 ==>
      lines[y, x] == if x < width && Opaque(fg.ColorAt(width, height, y, x))
                     then fg.ColorAt(width, height, y, x) else old(lines[y, x])
  {
    for y := 0 to height
      invariant forall j, i :: 0 <= j < lines.Length0 && 0 <= i < lines.Length1 ==>
        lines[j, i] == if j < y && i < width && Opaque(fg.ColorAt(width, height, j, i))
                       then fg.ColorAt(width, height, j, i) else old(lines[j, i])
    {
      var line := fg.bytes[y];
      for x := 0 to width
        invariant forall j, i :: 0 <= j < lines.Length0 && 0 <= i < lines.Length1 ==>
          lines[j, i] == if (j < y || (j == y && i < x)) && i < width && Opaque(fg.ColorAt(width, height, j, i))
                         then fg.ColorAt(width, height, j, i) else old(lines[j, i])
      {
        var color := fg.palette[line[x]];
        if Opaque(color) {
          lines[y, x] := color;
        }
      }
    }
  }

  /** combineImagesColor<uint8_t, uint8_t>(mixed, foreground): both images
      indexed. The foreground palette is merged into the destination's when
      that has fewer than 256 entries (then cut to 256), and each drawn pixel
      receives the index of its colour in the resulting palette, or 0 when
      the colour was cut off. */
  method CombineIndexedWithIndexed(img: Image, fg: Picture)
    requires img.Valid() && img.format == Indexed8
    requires fg.IndexesPalette(img.width, img.height)
    modifies img, img.bytes
    ensures img.palette == CombinedPalette(old(img.palette), fg.palette)
    ensures forall y, x :: 0 <= y < img.bytes.Length0 && 0 <= x < img.bytes.Length1 ==>
      img.bytes[y, x] == if x < img.width && Opaque(fg.ColorAt(img.width, img.height, y, x))
                         then ColorIndex(img.palette, fg.ColorAt(img.width, img.height, y, x))
                         else old(img.bytes[y, x])
  {
    var mixedPalette := ExtendedColorTable(img.palette, fg.palette);
    img.palette := mixedPalette;
    var colorToIndex := BuildColorToIndex(mixedPalette);
    var lines, width, height := img.bytes, img.width, img.height;
    for y := 0 to height
      modifies lines
      invariant forall c: bv32 :: c in mixedPalette ==> c as int in colorToIndex
      invariant forall c: bv32 :: c as int in colorToIndex ==> colorToIndex[c as int] == ColorIndex(mixedPalette, c)
      invariant forall j, i :: 0 <= j < lines.Length0 && 0 <= i < lines.Length1 ==>
        lines[j, i] == if j < y && i < width && Opaque(fg.ColorAt(width, height, j, i))
                       then ColorIndex(mixedPalette, fg.ColorAt(width, height, j, i)) else old(lines[j, i])
    {
      var line := fg.bytes[y];
      for x := 0 to width
        modifies lines
        invariant forall c: bv32 :: c in mixedPalette ==> c as int in colorToIndex
        invariant forall c: bv32 :: c as int in colorToIndex ==> colorToIndex[c as int] == ColorIndex(mixedPalette, c)
        invariant forall j, i :: 0 <= j < lines.Length0 && 0 <= i < lines.Length1 ==>
          lines[j, i] == if (j < y || (j == y && i < x)) && i < width && Opaque(fg.ColorAt(width, height, j, i))
                         then ColorIndex(mixedPalette, fg.ColorAt(width, height, j, i)) else old(lines[j, i])
      {
        var color := fg.palette[line[x]];
        if Opaque(color) {
          colorToIndex := LookupOrInsert(colorToIndex, mixedPalette, color);
          lines[y, x] := colorToIndex[color as int];
        }
      }
    }
  }

  /** combineImagesColor<MixedPixel>(mixed, foreground, mask) for images of
      the same depth: the foreground pixel is copied wherever the mask bit is
      set, without any transparency test. */
  method CombineImagesColorMasked<P>(lines: array2<P>, width: nat, height: nat, fg: seq<seq<P>>, mask: BinaryImage)
    requires lines.Length0 == height && width <= lines.Length1
    requires HasRows(fg, width, height) && mask.Covers(width, height)
    modifies lines
    ensures forall y, x :: 0 <= y < lines.Length0 && 0 <= x < lines.Length1 ==>
      lines[y, x] == if x < width && PixelSet(mask, y, x) then fg[y][x] else old(lines[y, x])
  {
    for y := 0 to height
      invariant forall j, i :: 0 <= j < lines.Length0 && 0 <= i < lines.Length1 ==>
        lines[j, i] == if j < y && i < width && PixelSet(mask, j, i) then fg[j][i] else old(lines[j, i])
    {
      var line, maskLine := fg[y], mask.lines[y];
      for x := 0 to width
        invariant forall j, i :: 0 <= j < lines.Length0 && 0 <= i < lines.Length1 ==>
          lines[j, i] == if (j < y || (j == y && i < x)) && i < width && PixelSet(mask, j, i)
                         then fg[j][i] else old(lines[j, i])
      {
        if BitSet(maskLine, x) {
          lines[y, x] := line[x];
        }
      }
    }
  }

  /** combineImagesColor<uint32_t, uint8_t>(mixed, foreground, mask): the
      palette colour of the foreground index is stored wherever the mask bit
      is set, without any transparency test. */
  method CombineRgbWithIndexedMasked(lines: array2<bv32>, width: nat, height: nat, fg: Picture, mask: BinaryImage)
    requires lines.Length0 == height && width <= lines.Length1
    requires fg.IndexesPaletteUnder(mask, width, height)
    modifies lines
    ensures forall y, x :: 0 <= y < lines.Length0 && 0 <= x < lines.Length1 ==>
      lines[y, x] == if x < width && PixelSet(mask, y, x) then fg.ColorAt(width, height, y, x) else old(lines[y, x])
  {
    for y := 0 to height
      invariant forall j, i :: 0 <= j < lines.Length0 && 0 <= i < lines.Length1 ==>
        lines[j, i] == if j < y && i < width && PixelSet(mask, j, i)
                       then fg.ColorAt(width, height, j, i) else old(lines[j, i])
    {
      var line, maskLine := fg.bytes[y], mask.lines[y];
      for x := 0 to width
        invariant forall j, i :: 0 <= j < lines.Length0 && 0 <= i < lines.Length1 ==>
          lines[j, i] == if (j < y || (j == y && i < x)) && i < width && PixelSet(mask, j, i)
                         then fg.ColorAt(width, height, j, i) else old(lines[j, i])
      {
        if BitSet(maskLine, x) {
          var color := fg.palette[line[x]];
          lines[y, x] := color;
        }
      }
    }
  }

  /** combineImagesColor<uint8_t, uint8_t>(mixed, foreground, mask): the
      colour table step of the unmasked routine, then, wherever the mask bit
      is set, the index of the foreground colour in the resulting table (0
      for a colour that was cut off), without any transparency test. */
  method CombineIndexedWithIndexedMasked(img: Image, fg: Picture, mask: BinaryImage)
    requires img.Valid() && img.format == Indexed8
    requires fg.IndexesPaletteUnder(mask, img.width, img.height)
    modifies img, img.bytes
    ensures img.palette == CombinedPalette(old(img.palette), fg.palette)
    ensures forall y, x :: 0 <= y < img.bytes.Length0 && 0 <= x < img.bytes.Length1 ==>
      img.bytes[y, x] == if x < img.width && PixelSet(mask, y, x)
                         then ColorIndex(img.palette, fg.ColorAt(img.width, img.height, y, x))
                         else old(img.bytes[y, x])
  {
    var mixedPalette := ExtendedColorTable(img.palette, fg.palette);
    img.palette := mixedPalette;
    var colorToIndex := BuildColorToIndex(mixedPalette);
    var lines, width, height := img.bytes, img.width, img.height;
    for y := 0 to height
      modifies lines
      invariant forall c: bv32 :: c in mixedPalette ==> c as int in colorToIndex
      invariant forall c: bv32 :: c as int in colorToIndex ==> colorToIndex[c as int] == ColorIndex(mixedPalette, c)
      invariant forall j, i :: 0 <= j < lines.Length0 && 0 <= i < lines.Length1 ==>
        lines[j, i] == if j < y && i < width && PixelSet(mask, j, i)
                       then ColorIndex(mixedPalette, fg.ColorAt(width, height, j, i)) else old(lines[j, i])
    {
      var line, maskLine := fg.bytes[y], mask.lines[y];
      for x := 0 to width
        modifies lines
        invariant forall c: bv32 :: c in mixedPalette ==> c as int in colorToIndex
        invariant forall c: bv32 :: c as int in colorToIndex ==> colorToIndex[c as int] == ColorIndex(mixedPalette, c)
        invariant forall j, i :: 0 <= j < lines.Length0 && 0 <= i < lines.Length1 ==>
          lines[j, i] == if (j < y || (j == y && i < x)) && i < width && PixelSet(mask, j, i)
                         then ColorIndex(mixedPalette, fg.ColorAt(width, height, j, i)) else old(lines[j, i])
      {
        if BitSet(maskLine, x) {
          var color := fg.palette[line[x]];
          colorToIndex := LookupOrInsert(colorToIndex, mixedPalette, color);
          lines[y, x] := colorToIndex[color as int];
        }
      }
    }
  }

  /** The value applyMask paints: 0xffffffff for white, 0 for black, before
      the cast to the destination's pixel type. */
  function FillValue(fill: BWColor): bv32 {
    if fill == White then 0xffff_ffff else 0
  }

  /** applyMask<MixedPixel>: every pixel of the first `width` columns whose
      mask bit is clear is painted with the filling colour. */
  method ApplyMaskLines<P>(lines: array2<P>, width: nat, height: nat, mask: BinaryImage, fill: BWColor, cast: bv32 -> P)
    requires lines.Length0 == height && width <= lines.Length1
    requires mask.Covers(width, height)
    modifies lines
    ensures forall y, x :: 0 <= y < lines.Length0 && 0 <= x < lines.Length1 ==>
      lines[y, x] == if x < width && !PixelSet(mask, y, x) then cast(FillValue(fill)) else old(lines[y, x])
  {
    var fillingPixel := cast(if fill == White then 0xffff_ffff else 0x0000_0000);
    for y := 0 to height
      invariant forall j, i :: 0 <= j < lines.Length0 && 0 <= i < lines.Length1 ==>
        lines[j, i] == if j < y && i < width && !PixelSet(mask, j, i) then fillingPixel else old(lines[j, i])
    {
      var maskLine := mask.lines[y];
      for x := 0 to width
        invariant forall j, i :: 0 <= j < lines.Length0 && 0 <= i < lines.Length1 ==>
          lines[j, i] == if (j < y || (j == y && i < x)) && i < width && !PixelSet(mask, j, i)
                         then fillingPixel else old(lines[j, i])
      {
        if !BitSet(maskLine, x) {
          lines[y, x] := fillingPixel;
        }
      }
    }
  }

  /** The colour-table step that both indexed-on-indexed routines repeat:
      merge and cut to 256 entries when the destination table has room,
      otherwise keep it. (The source only calls setColorTable in the first
      case; in the second the table it would set is the one it has.) */
  method ExtendedColorTable(current: seq<bv32>, incoming: seq<bv32>) returns (r: seq<bv32>)
    ensures r == CombinedPalette(current, incoming)
  {
    r := current;
    if |r| < MaxColors {
      r := MergePalettes(r, incoming);
      if |r| > MaxColors {
        r := r[..MaxColors];
      }
    }
  }

  /** `colorToIndex[color]` on a std::unordered_map: a missing key is
      inserted with the value 0 before it is read. */
  method LookupOrInsert(m: map<int, bv8>, palette: seq<bv32>, color: bv32) returns (m': map<int, bv8>)
    requires forall c: bv32 :: c in palette ==> c as int in m
    requires forall c: bv32 :: c as int in m ==> m[c as int] == ColorIndex(palette, c)
    ensures color as int in m' && m'[color as int] == ColorIndex(palette, color)
    ensures forall c: bv32 :: c in palette ==> c as int in m'
    ensures forall c: bv32 :: c as int in m' ==> m'[c as int] == ColorIndex(palette, c)
  {
    m' := m;
    if color as int !in m' {
      m' := m'[color as int := 0];
      forall c: bv32 | c as int in m'
        ensures m'[c as int] == ColorIndex(palette, c)
      {
        KeyInjective(c, color);
      }
    }
  }

  // ---------------------------------------------------------------------
  // What the destination looks like after each operation.
  // ---------------------------------------------------------------------

  /** A binary foreground drawn onto the destination: a set bit makes the
      pixel opaque black (index 0 of an indexed destination), a clear bit and
      every padding column leave it as it was. */
  twostate predicate MonoDrawn(img: Image, fg: BinaryImage)
    requires img.Valid() && fg.Covers(img.width, img.height)
    reads img.bytes, img.words
  {
    if img.format == Indexed8 then
      && unchanged(img.words)
      && forall y, x :: 0 <= y < img.bytes.Length0 && 0 <= x < img.bytes.Length1 ==>
           img.bytes[y, x] == if x < img.width && PixelSet(fg, y, x) then 0 else old(img.bytes[y, x])
    else
      && unchanged(img.bytes)
      && forall y, x :: 0 <= y < img.words.Length0 && 0 <= x < img.words.Length1 ==>
           img.words[y, x] == if x < img.width && PixelSet(fg, y, x) then 0xff00_0000 else old(img.words[y, x])
  }

  /** A binary foreground drawn through a mask: inside the mask a pixel
      becomes black (0xff000000, index 0) where the foreground bit is set and
      white (0xffffffff, index 255) where it is clear; outside the mask it is
      left alone. */
  twostate predicate MonoDrawnMasked(img: Image, fg: BinaryImage, mask: BinaryImage)
    requires img.Valid() && fg.Covers(img.width, img.height) && mask.Covers(img.width, img.height)
    reads img.bytes, img.words
  {
    if img.format == Indexed8 then
      && unchanged(img.words)
      && forall y, x :: 0 <= y < img.bytes.Length0 && 0 <= x < img.bytes.Length1 ==>
           img.bytes[y, x] == if x < img.width && PixelSet(mask, y, x)
                              then (if PixelSet(fg, y, x) then 0 else 0xff)
                              else old(img.bytes[y, x])
    else
      && unchanged(img.bytes)
      && forall y, x :: 0 <= y < img.words.Length0 && 0 <= x < img.words.Length1 ==>
           img.words[y, x] == if x < img.width && PixelSet(mask, y, x)
                              then (if PixelSet(fg, y, x) then 0xff00_0000 else 0xffff_ffff)
                              else old(img.words[y, x])
  }

  /** The four colour routines the dispatcher chooses from. */
  datatype ColorRoutine =
    | GraySameDepth      // combineImagesColor<uint8_t>: both images grayscale indexed
    | IndexedOnIndexed   // combineImagesColor<uint8_t, uint8_t>: palettes merged
    | RgbSameDepth       // combineImagesColor<uint32_t>: both images 32-bit
    | RgbOnIndexed       // combineImagesColor<uint32_t, uint8_t>: foreground read as indexed

  /** The choice impl::combineImagesColor makes: an indexed destination takes
      the same-depth route only when both images are grayscale; a 32-bit one
      takes it only under an RGB32/ARGB32 foreground and otherwise reads the
      foreground as 8-bit indices into its palette. */
  function RoutineFor(destFormat: Format, destGray: bool, fg: Picture): ColorRoutine {
    if destFormat == Indexed8 then
      (if destGray && fg.grayscale then GraySameDepth else IndexedOnIndexed)
    else if fg.format == Rgb32 || fg.format == Argb32 then RgbSameDepth
    else RgbOnIndexed
  }

  /** What a routine reads of the foreground is there: its byte rows (and,
      through the palette, valid indices) or its word rows. */
  predicate CanRead(r: ColorRoutine, fg: Picture, w: nat, h: nat) {
    match r
    case GraySameDepth => HasRows(fg.bytes, w, h)
    case IndexedOnIndexed => fg.IndexesPalette(w, h)
    case RgbSameDepth => HasRows(fg.words, w, h)
    case RgbOnIndexed => fg.IndexesPalette(w, h)
  }

  /** What a masked routine reads of the foreground is there: the same rows,
      but palette indices only where the mask bit is set. */
  predicate CanReadMasked(r: ColorRoutine, fg: Picture, mask: BinaryImage, w: nat, h: nat) {
    match r
    case GraySameDepth => HasRows(fg.bytes, w, h) && mask.Covers(w, h)
    case IndexedOnIndexed => fg.IndexesPaletteUnder(mask, w, h)
    case RgbSameDepth => HasRows(fg.words, w, h) && mask.Covers(w, h)
    case RgbOnIndexed => fg.IndexesPaletteUnder(mask, w, h)
  }

  /** A colour foreground drawn onto the destination by the routine the
      dispatcher chose. Only the indexed-on-indexed route changes the colour
      table; on the grayscale route every pixel is copied, because an 8-bit
      pixel never passes for transparent. */
  twostate predicate ColorDrawn(img: Image, fg: Picture)
    requires img.Valid() && CanRead(RoutineFor(img.format, img.grayscale, fg), fg, img.width, img.height)
    reads img, img.bytes, img.words
  {
    var w, h := img.width, img.height;
    match RoutineFor(img.format, img.grayscale, fg)
    case GraySameDepth =>
      && img.palette == old(img.palette) && unchanged(img.words)
      && forall y, x :: 0 <= y < img.bytes.Length0 && 0 <= x < img.bytes.Length1 ==>
           img.bytes[y, x] == if x < w then fg.bytes[y][x] else old(img.bytes[y, x])
    case IndexedOnIndexed =>
      && img.palette == CombinedPalette(old(img.palette), fg.palette) && unchanged(img.words)
      && forall y, x :: 0 <= y < img.bytes.Length0 && 0 <= x < img.bytes.Length1 ==>
           img.bytes[y, x] == if x < w && Opaque(fg.ColorAt(w, h, y, x))
                              then ColorIndex(img.palette, fg.ColorAt(w, h, y, x))
                              else old(img.bytes[y, x])
    case RgbSameDepth =>
      && img.palette == old(img.palette) && unchanged(img.bytes)
      && forall y, x :: 0 <= y < img.words.Length0 && 0 <= x < img.words.Length1 ==>
           img.words[y, x] == if x < w && Opaque(fg.words[y][x]) then fg.words[y][x] else old(img.words[y, x])
    case RgbOnIndexed =>
      && img.palette == old(img.palette) && unchanged(img.bytes)
      && forall y, x :: 0 <= y < img.words.Length0 && 0 <= x < img.words.Length1 ==>
           img.words[y, x] == if x < w && Opaque(fg.ColorAt(w, h, y, x))
                              then fg.ColorAt(w, h, y, x) else old(img.words[y, x])
  }

  /** A colour foreground drawn through a mask: wherever the mask bit is set
      the (palette-resolved) foreground pixel is stored, with no transparency
      test; elsewhere nothing changes. */
  twostate predicate ColorDrawnMasked(img: Image, fg: Picture, mask: BinaryImage)
    requires img.Valid() && CanReadMasked(RoutineFor(img.format, img.grayscale, fg), fg, mask, img.width, img.height)
    reads img, img.bytes, img.words
  {
    var w, h := img.width, img.height;
    match RoutineFor(img.format, img.grayscale, fg)
    case GraySameDepth =>
      && img.palette == old(img.palette) && unchanged(img.words)
      && forall y, x :: 0 <= y < img.bytes.Length0 && 0 <= x < img.bytes.Length1 ==>
           img.bytes[y, x] == if x < w && PixelSet(mask, y, x) then fg.bytes[y][x] else old(img.bytes[y, x])
    case IndexedOnIndexed =>
      && img.palette == CombinedPalette(old(img.palette), fg.palette) && unchanged(img.words)
      && forall y, x :: 0 <= y < img.bytes.Length0 && 0 <= x < img.bytes.Length1 ==>
           img.bytes[y, x] == if x < w && PixelSet(mask, y, x)
                              then ColorIndex(img.palette, fg.ColorAt(w, h, y, x))
                              else old(img.bytes[y, x])
    case RgbSameDepth =>
      && img.palette == old(img.palette) && unchanged(img.bytes)
      && forall y, x :: 0 <= y < img.words.Length0 && 0 <= x < img.words.Length1 ==>
           img.words[y, x] == if x < w && PixelSet(mask, y, x) then fg.words[y][x] else old(img.words[y, x])
    case RgbOnIndexed =>
      && img.palette == old(img.palette) && unchanged(img.bytes)
      && forall y, x :: 0 <= y < img.words.Length0 && 0 <= x < img.words.Length1 ==>
           img.words[y, x] == if x < w && PixelSet(mask, y, x)
                              then fg.ColorAt(w, h, y, x) else old(img.words[y, x])
  }

  /** applyMask's result: every pixel of the first `width` columns whose mask
      bit is clear holds the filling colour (0xffffffff or 255 for white, 0
      for black); every other pixel, padding included, is as it was. */
  twostate predicate MaskApplied(img: Image, mask: BinaryImage, fill: BWColor)
    requires img.Valid() && mask.Covers(img.width, img.height)
    reads img.bytes, img.words
  {
    if img.format == Indexed8 then
      && unchanged(img.words)
      && forall y, x :: 0 <= y < img.bytes.Length0 && 0 <= x < img.bytes.Length1 ==>
           img.bytes[y, x] == if x < img.width && !PixelSet(mask, y, x)
                              then (if fill == White then 0xff else 0)
                              else old(img.bytes[y, x])
    else
      && unchanged(img.bytes)
      && forall y, x :: 0 <= y < img.words.Length0 && 0 <= x < img.words.Length1 ==>
           img.words[y, x] == if x < img.width && !PixelSet(mask, y, x)
                              then (if fill == White then 0xffff_ffff else 0)
                              else old(img.words[y, x])
  }

  // ---------------------------------------------------------------------
  // impl:: dispatchers: one routine per destination depth.
  // ---------------------------------------------------------------------

  /** impl::combineImagesMono(mixed, foreground). */
  method DispatchMono(img: Image, fg: BinaryImage)
    requires img.Valid() && fg.Covers(img.width, img.height)
    modifies img.bytes, img.words
    ensures MonoDrawn(img, fg)
  {
    if img.format == Indexed8 {
      CombineImagesMono(img.bytes, img.width, img.height, fg, Low8);
    } else {
      CombineImagesMono(img.words, img.width, img.height, fg, Same32);
    }
  }

  /** impl::combineImagesMono(mixed, foreground, mask). */
  method DispatchMonoMasked(img: Image, fg: BinaryImage, mask: BinaryImage)
    requires img.Valid() && fg.Covers(img.width, img.height) && mask.Covers(img.width, img.height)
    modifies img.bytes, img.words
    ensures MonoDrawnMasked(img, fg, mask)
  {
    if img.format == Indexed8 {
      CombineImagesMonoMasked(img.bytes, img.width, img.height, fg, mask, Low8);
    } else {
      CombineImagesMonoMasked(img.words, img.width, img.height, fg, mask, Same32);
    }
  }

  /** impl::combineImagesColor(mixed, foreground). */
  method DispatchColor(img: Image, fg: Picture)
    requires img.Valid() && CanRead(RoutineFor(img.format, img.grayscale, fg), fg, img.width, img.height)
    modifies img, img.bytes, img.words
    ensures ColorDrawn(img, fg)
  {
    if img.format == Indexed8 {
      if img.grayscale && fg.grayscale {
        CombineImagesColor(img.bytes, img.width, img.height, fg.bytes, Widen8);
        forall b: bv8 ensures Opaque(Widen8(b)) {
          BytesAreOpaque(b);
        }
      } else {
        CombineIndexedWithIndexed(img, fg);
      }
    } else {
      if fg.format == Rgb32 || fg.format == Argb32 {
        CombineImagesColor(img.words, img.width, img.height, fg.words, Same32);
      } else {
        CombineRgbWithIndexed(img.words, img.width, img.height, fg);
      }
    }
  }

  /** impl::combineImagesColor(mixed, foreground, mask). */
  method DispatchColorMasked(img: Image, fg: Picture, mask: BinaryImage)
    requires img.Valid() && CanReadMasked(RoutineFor(img.format, img.grayscale, fg), fg, mask, img.width, img.height)
    modifies img, img.bytes, img.words
    ensures ColorDrawnMasked(img, fg, mask)
  {
    if img.format == Indexed8 {
      if img.grayscale && fg.grayscale {
        CombineImagesColorMasked(img.bytes, img.width, img.height, fg.bytes, mask);
      } else {
        CombineIndexedWithIndexedMasked(img, fg, mask);
      }
    } else {
      if fg.format == Rgb32 || fg.format == Argb32 {
        CombineImagesColorMasked(img.words, img.width, img.height, fg.words, mask);
      } else {
        CombineRgbWithIndexedMasked(img.words, img.width, img.height, fg, mask);
      }
    }
  }

  /** impl::applyMask(image, mask, filling colour). */
  method DispatchApplyMask(img: Image, mask: BinaryImage, fill: BWColor)
    requires img.Valid() && mask.Covers(img.width, img.height)
    modifies img.bytes, img.words
    ensures MaskApplied(img, mask, fill)
  {
    if img.format == Indexed8 {
      ApplyMaskLines(img.bytes, img.width, img.height, mask, fill, Low8);
    } else {
      ApplyMaskLines(img.words, img.width, img.height, mask, fill, Same32);
    }
  }

  // ---------------------------------------------------------------------
  // The checks and the public entry points.
  // ---------------------------------------------------------------------

  /** checkImageFormatSupported. */
  function CheckFormat(f: Format): (o: Outcome)
    ensures o.Success? <==> Supported(f)
    ensures o.Failure? ==> o.error == WrongImageFormat
  {
    if Supported(f) then Success else Failure(WrongImageFormat)
  }

  /** checkImagesHaveEqualSize for two operands. */
  function CheckSizes(a: ImageSize, b: ImageSize): (o: Outcome)
    ensures o.Success? <==> a == b
    ensures o.Failure? ==> o.error == SizeMismatch
  {
    if a != b then Failure(SizeMismatch) else Success
  }

  /** checkImagesHaveEqualSize for three operands: the first must match both
      others. */
  function CheckSizes3(a: ImageSize, b: ImageSize, c: ImageSize): (o: Outcome)
    ensures o.Success? <==> a == b && a == c
    ensures o.Failure? ==> o.error == SizeMismatch
  {
    if a != b || a != c then Failure(SizeMismatch) else Success
  }

  function BinarySize(b: BinaryImage): ImageSize {
    ImageSize(b.width, b.height)
  }

  /** combineImages(mixed, BinaryImage foreground). */
  method CombineImages(img: Image, fg: BinaryImage) returns (o: Outcome)
    requires img.Valid() && fg.Valid()
    modifies img.bytes, img.words
    ensures !Supported(img.format) ==> o == Failure(WrongImageFormat)
    ensures Supported(img.format) && img.Size() != BinarySize(fg) ==> o == Failure(SizeMismatch)
    ensures o.Success? <==> Supported(img.format) && img.Size() == BinarySize(fg)
    ensures o.Failure? ==> unchanged(img.bytes, img.words)
    ensures o.Success? ==> MonoDrawn(img, fg)
  {
    o := CheckFormat(img.format);
    if o.Failure? {
      return;
    }
    o := CheckSizes(img.Size(), BinarySize(fg));
    if o.Failure? {
      return;
    }
    DispatchMono(img, fg);
  }

  /** combineImages(mixed, BinaryImage foreground, mask). Only the
      foreground's size is checked against the destination; the mask's is
      not, so a caller must pass a mask that covers the destination. */
  method CombineImagesMasked(img: Image, fg: BinaryImage, mask: BinaryImage) returns (o: Outcome)
    requires img.Valid() && fg.Valid() && mask.Valid()
    requires Supported(img.format) && img.Size() == BinarySize(fg) ==> mask.Covers(img.width, img.height)
    modifies img.bytes, img.words
    ensures !Supported(img.format) ==> o == Failure(WrongImageFormat)
    ensures Supported(img.format) && img.Size() != BinarySize(fg) ==> o == Failure(SizeMismatch)
    ensures o.Success? <==> Supported(img.format) && img.Size() == BinarySize(fg)
    ensures o.Failure? ==> unchanged(img.bytes, img.words)
    ensures o.Success? ==> MonoDrawnMasked(img, fg, mask)
  {
    o := CheckFormat(img.format);
    if o.Failure? {
      return;
    }
    o := CheckSizes(img.Size(), BinarySize(fg));
    if o.Failure? {
      return;
    }
    DispatchMonoMasked(img, fg, mask);
  }

  /** What the public colour entry points need of the foreground once the
      checks passed: a Mono/MonoLSB foreground converts to a BinaryImage of
      its own size; any other is readable by the routine chosen for it. */
  predicate ForegroundReadable(img: Image, fg: Picture) {
    if IsMono(fg.format) then
      fg.mono.Valid() && BinarySize(fg.mono) == fg.Size()
    else
      CanRead(RoutineFor(img.format, img.grayscale, fg), fg, img.width, img.height)
  }

  /** The same for the masked entry point, where the chosen masked routine
      looks up palette indices only under the mask. */
  predicate ForegroundReadableMasked(img: Image, fg: Picture, mask: BinaryImage) {
    if IsMono(fg.format) then
      fg.mono.Valid() && BinarySize(fg.mono) == fg.Size()
    else
      CanReadMasked(RoutineFor(img.format, img.grayscale, fg), fg, mask, img.width, img.height)
  }

  /** combineImages(mixed, QImage foreground): a Mono/MonoLSB foreground is
      drawn as a binary image, any other through the colour routines. */
  method CombineImagesWithPicture(img: Image, fg: Picture) returns (o: Outcome)
    requires img.Valid()
    requires Supported(img.format) && img.Size() == fg.Size() ==> ForegroundReadable(img, fg)
    modifies img, img.bytes, img.words
    ensures !Supported(img.format) ==> o == Failure(WrongImageFormat)
    ensures Supported(img.format) && img.Size() != fg.Size() ==> o == Failure(SizeMismatch)
    ensures o.Success? <==> Supported(img.format) && img.Size() == fg.Size()
    ensures o.Failure? ==> unchanged(img.bytes, img.words) && img.palette == old(img.palette)
    ensures o.Success? && IsMono(fg.format) ==> MonoDrawn(img, fg.mono) && img.palette == old(img.palette)
    ensures o.Success? && !IsMono(fg.format) ==> ColorDrawn(img, fg)
  {
    o := CheckFormat(img.format);
    if o.Failure? {
      return;
    }
    o := CheckSizes(img.Size(), fg.Size());
    if o.Failure? {
      return;
    }
    if IsMono(fg.format) {
      DispatchMono(img, fg.mono);
    } else {
      DispatchColor(img, fg);
    }
  }

  /** combineImages(mixed, QImage foreground, mask): all three sizes are
      checked. */
  method CombineImagesWithPictureMasked(img: Image, fg: Picture, mask: BinaryImage) returns (o: Outcome)
    requires img.Valid() && mask.Valid()
    requires Supported(img.format) && img.Size() == fg.Size() && img.Size() == BinarySize(mask)
      ==> ForegroundReadableMasked(img, fg, mask)
    modifies img, img.bytes, img.words
    ensures !Supported(img.format) ==> o == Failure(WrongImageFormat)
    ensures Supported(img.format) && (img.Size() != fg.Size() || img.Size() != BinarySize(mask))
      ==> o == Failure(SizeMismatch)
    ensures o.Success? <==> Supported(img.format) && img.Size() == fg.Size() && img.Size() == BinarySize(mask)
    ensures o.Failure? ==> unchanged(img.bytes, img.words) && img.palette == old(img.palette)
    ensures o.Success? && IsMono(fg.format) ==> MonoDrawnMasked(img, fg.mono, mask) && img.palette == old(img.palette)
    ensures o.Success? && !IsMono(fg.format) ==> ColorDrawnMasked(img, fg, mask)
  {
    o := CheckFormat(img.format);
    if o.Failure? {
      return;
    }
    o := CheckSizes3(img.Size(), fg.Size(), BinarySize(mask));
    if o.Failure? {
      return;
    }
    if IsMono(fg.format) {
      DispatchMonoMasked(img, fg.mono, mask);
    } else {
      DispatchColorMasked(img, fg, mask);
    }
  }

  /** applyMask(image, mask, filling colour). */
  method ApplyMask(img: Image, mask: BinaryImage, fill: BWColor) returns (o: Outcome)
    requires img.Valid() && mask.Valid()
    modifies img.bytes, img.words
    ensures !Supported(img.format) ==> o == Failure(WrongImageFormat)
    ensures Supported(img.format) && img.Size() != BinarySize(mask) ==> o == Failure(SizeMismatch)
    ensures o.Success? <==> Supported(img.format) && img.Size() == BinarySize(mask)
    ensures o.Failure? ==> unchanged(img.bytes, img.words)
    ensures o.Success? ==> MaskApplied(img, mask, fill)
  {
    o := CheckFormat(img.format);
    if o.Failure? {
      return;
    }
    o := CheckSizes(img.Size(), BinarySize(mask));
    if o.Failure? {
      return;
    }
    DispatchApplyMask(img, mask, fill);
  }

  // ---------------------------------------------------------------------
  // Callers that repeat an operation: both operations are idempotent.
  // ---------------------------------------------------------------------

  /** Drawing the same binary foreground twice leaves the destination as
      drawing it once does. */
  method CombineImagesTwice(img: Image, fg: BinaryImage) returns (first: Outcome, second: Outcome)
    requires img.Valid() && fg.Valid()
    modifies img.bytes, img.words
    ensures first == second
    ensures first.Success? <==> Supported(img.format) && img.Size() == BinarySize(fg)
    ensures first.Success? ==> MonoDrawn(img, fg)
    ensures first.Failure? ==> unchanged(img.bytes, img.words)
  {
    first := CombineImages(img, fg);
    second := CombineImages(img, fg);
  }

  /** Applying the same mask twice leaves the image as applying it once
      does. */
  method ApplyMaskTwice(img: Image, mask: BinaryImage, fill: BWColor) returns (first: Outcome, second: Outcome)
    requires img.Valid() && mask.Valid()
    modifies img.bytes, img.words
    ensures first == second
    ensures first.Success? <==> Supported(img.format) && img.Size() == BinarySize(mask)
    ensures first.Success? ==> MaskApplied(img, mask, fill)
    ensures first.Failure? ==> unchanged(img.bytes, img.words)
  {
    first := ApplyMask(img, mask, fill);
    second := ApplyMask(img, mask, fill);
  }
}
