/** The Deck's panel: a source frame is scaled by a whole number, rotated onto the portrait
    framebuffer and centred on black. A staging frame is built first and only its rectangle
    is copied to the live memory; black is written only when the source size changes. */
module Framebuffer {

  import opened Basics

  type u32 = n: int | 0 <= n < 0x1_0000_0000

  const LOGICAL_WIDTH := 1280
  const LOGICAL_HEIGHT := 480
  const PHYSICAL_WIDTH := 600
  const PHYSICAL_HEIGHT := 1280
  const SAFE_INSET := 16

  // ---------------------------------------------------------------- layout

  datatype Layout = Layout(scale: int, x: int, y: int, width: int, height: int)

  /** The largest scale whose picture lies in the safe area, and where that picture goes. */
  function ComputeScaledLayout(sourceWidth: nat, sourceHeight: nat): (layout: Option<Layout>)
    ensures layout.Some? <==>
      1 <= sourceWidth <= LOGICAL_WIDTH - 2 * SAFE_INSET && 1 <= sourceHeight <= LOGICAL_HEIGHT - 2 * SAFE_INSET
    ensures layout.Some? ==> Centred(layout.value, sourceWidth, sourceHeight)
    ensures layout.Some? ==> forall s: int :: s > layout.value.scale ==> !SafelyFits(s, sourceWidth, sourceHeight)
  {
    var usableWidth := LOGICAL_WIDTH - 2 * SAFE_INSET;
    var usableHeight := LOGICAL_HEIGHT - 2 * SAFE_INSET;
    if sourceWidth == 0 || sourceHeight == 0 || sourceWidth > usableWidth || sourceHeight > usableHeight then None
    else
      var scale := Min(usableWidth / sourceWidth, usableHeight / sourceHeight);
      ScaleFits(usableWidth, sourceWidth, scale);
      ScaleFits(usableHeight, sourceHeight, scale);
      NoLargerScale(sourceWidth, sourceHeight);
      if scale < 1 then None
      else
        var width, height := sourceWidth * scale, sourceHeight * scale;
        var x, y := (LOGICAL_WIDTH - width) / 2, (LOGICAL_HEIGHT - height) / 2;
        if x >= SAFE_INSET && y >= SAFE_INSET && x + width <= LOGICAL_WIDTH - SAFE_INSET
           && y + height <= LOGICAL_HEIGHT - SAFE_INSET
        then Some(Layout(scale, x, y, width, height))
        else None
  }

  predicate SafelyFits(scale: int, sourceWidth: nat, sourceHeight: nat) {
    scale * sourceWidth <= LOGICAL_WIDTH - 2 * SAFE_INSET && scale * sourceHeight <= LOGICAL_HEIGHT - 2 * SAFE_INSET
  }

  /** The picture is the source scaled, inside the safe area, with equal margins up to one pixel. */
  predicate Centred(layout: Layout, sourceWidth: nat, sourceHeight: nat) {
    && layout.scale >= 1
    && layout.width == sourceWidth * layout.scale
    && layout.height == sourceHeight * layout.scale
    && SAFE_INSET <= layout.x && layout.x + layout.width <= LOGICAL_WIDTH - SAFE_INSET
    && SAFE_INSET <= layout.y && layout.y + layout.height <= LOGICAL_HEIGHT - SAFE_INSET
    && 0 <= (LOGICAL_WIDTH - layout.x - layout.width) - layout.x <= 1
    && 0 <= (LOGICAL_HEIGHT - layout.y - layout.height) - layout.y <= 1
  }

  lemma ScaleFits(usable: int, n: int, scale: int)
    requires 1 <= n <= usable && scale <= usable / n
    ensures n * scale <= usable && 1 <= usable / n
  {
  }

  lemma NoLargerScale(w: int, h: int)
    requires 1 <= w && 1 <= h
    ensures forall s: int :: s > Min((LOGICAL_WIDTH - 2 * SAFE_INSET) / w, (LOGICAL_HEIGHT - 2 * SAFE_INSET) / h)
              ==> !SafelyFits(s, w, h)
  {
    forall s: int | s > Min((LOGICAL_WIDTH - 2 * SAFE_INSET) / w, (LOGICAL_HEIGHT - 2 * SAFE_INSET) / h)
      ensures !SafelyFits(s, w, h)
    {
      if s > (LOGICAL_WIDTH - 2 * SAFE_INSET) / w {
        MulUp(w, (LOGICAL_WIDTH - 2 * SAFE_INSET) / w + 1, s);
      } else {
        MulUp(h, (LOGICAL_HEIGHT - 2 * SAFE_INSET) / h + 1, s);
      }
    }
  }

  // ---------------------------------------------------------------- colours

  /** Eight bits a channel to five, six and five: the low bits are dropped. */
  function Rgb888To565(color: u32): u16 {
    var red, green, blue := color / 65536 % 256, color / 256 % 256, color % 256;
    red / 8 * 2048 + green / 4 * 32 + blue / 8
  }

  /** A panel word has the upper five bits of red on top, then six of green, and five of blue at the bottom. */
  predicate HasChannels(word: u16, red: byte, green: byte, blue: byte) {
    word / 2048 == red / 8 && word / 32 % 64 == green / 4 && word % 32 == blue / 8
  }

  /** The channels of a colour of 32 bits; its top byte does not matter. */
  predicate SameColor(word: u16, color: u32) {
    HasChannels(word, color / 0x1_0000 % 0x100, color / 0x100 % 0x100, color % 0x100)
  }

  lemma ColorKept(color: u32)
    ensures SameColor(Rgb888To565(color), color)
  {
    var red, green, blue := color / 65536 % 256, color / 256 % 256, color % 256;
    FieldsApart(red / 8, green / 4, blue / 8);
  }

  lemma FieldsApart(red: int, green: int, blue: int)
    requires 0 <= red < 32 && 0 <= green < 64 && 0 <= blue < 32
    ensures var word := red * 2048 + green * 32 + blue;
      word / 2048 == red && word / 32 % 64 == green && word % 32 == blue
  {
    var word := red * 2048 + green * 32 + blue;
    assert word / 32 == red * 64 + green;
  }

  /** Whatever the bytes of a colour are. */
  lemma ChannelsKept(top: byte, red: byte, green: byte, blue: byte)
    ensures HasChannels(Rgb888To565(top * 0x100_0000 + red * 0x1_0000 + green * 0x100 + blue), red, green, blue)
  {
    var color := top * 0x100_0000 + red * 0x1_0000 + green * 0x100 + blue;
    LowByte(top * 0x1_0000 + red * 0x100 + green, blue);
    LowByte(top * 0x100 + red, green);
    LowByte(top, red);
    ShiftedTwice(color);
    ColorKept(color);
    hide HasChannels, Rgb888To565;
  }

  lemma LowByte(high: nat, low: byte)
    ensures (high * 0x100 + low) / 0x100 == high && (high * 0x100 + low) % 0x100 == low
  {
  }

  lemma ShiftedTwice(n: nat)
    ensures n / 0x1_0000 == n / 0x100 / 0x100
  {
  }

  // ------------------------------------------------------------- the picture

  /** A source frame in panel colours, as rows from the top. */
  datatype Image = Image(width: nat, height: nat, rows: seq<seq<u16>>) {
    predicate Valid() {
      |rows| == height && forall y :: 0 <= y < height ==> |rows[y]| == width
    }
  }

  const NOTHING := Image(0, 0, [])

  /** Which of n cells of `scale` pixels pixel d lies in. */
  function Cell(d: int, scale: int, n: int): (q: int)
    requires scale >= 1 && 0 <= d < n * scale
    ensures 0 <= q < n && q * scale <= d < q * scale + scale
  {
    CellBounds(d, scale, n);
    d / scale
  }

  lemma CellBounds(d: int, scale: int, n: int)
    requires scale >= 1 && 0 <= d < n * scale
    ensures 0 <= d / scale < n
    ensures d / scale * scale <= d < d / scale * scale + scale
  {
  }

  lemma OneCell(d: int, scale: int, p: int, q: int)
    requires p * scale <= d < p * scale + scale && q * scale <= d < q * scale + scale
    ensures p == q
  {
    if p < q {
      MulUp(scale, p + 1, q);
    } else if q < p {
      MulUp(scale, q + 1, p);
    }
  }

  /** Cell q of n is the stretch of `scale` pixels from q * scale. */
  lemma CellIs(d: int, scale: int, n: int, q: int)
    requires scale >= 1 && 0 <= q < n
    ensures q * scale <= d < q * scale + scale <==> 0 <= d < n * scale && Cell(d, scale, n) == q
  {
    if q * scale <= d < q * scale + scale {
      MulUp(scale, q + 1, n);
      MulUp(scale, 0, q);
      OneCell(d, scale, Cell(d, scale, n), q);
    }
  }

  predicate Inside(layout: Layout, row: int, column: int) {
    && layout.x <= PHYSICAL_HEIGHT - 1 - row < layout.x + layout.width
    && layout.y <= column < layout.y + layout.height
  }

  /** What the panel shows at a physical row and column for a picture placed by a layout. */
  function Lit(image: Image, layout: Layout, row: int, column: int): u16
    requires image.Valid() && Centred(layout, image.width, image.height)
  {
    if !Inside(layout, row, column) then 0
    else
      var y := Cell(column - layout.y, layout.scale, image.height);
      var x := Cell(PHYSICAL_HEIGHT - 1 - row - layout.x, layout.scale, image.width);
      image.rows[y][x]
  }

  function PanelAt(image: Image, row: int, column: int): u16
    requires image.Valid()
  {
    var layout := ComputeScaledLayout(image.width, image.height);
    if layout.None? then 0 else Lit(image, layout.value, row, column)
  }

  /** The square of the panel that shows source pixel (x, y): a quarter turn from where it was. */
  predicate InBlock(layout: Layout, x: int, y: int, row: int, column: int) {
    && layout.x + x * layout.scale <= PHYSICAL_HEIGHT - 1 - row < layout.x + x * layout.scale + layout.scale
    && layout.y + y * layout.scale <= column < layout.y + y * layout.scale + layout.scale
  }

  /** Where Cell finds pixel (x, y). */
  predicate CellsAre(image: Image, layout: Layout, x: int, y: int, row: int, column: int)
    requires Centred(layout, image.width, image.height)
  {
    && Inside(layout, row, column)
    && Cell(column - layout.y, layout.scale, image.height) == y
    && Cell(PHYSICAL_HEIGHT - 1 - row - layout.x, layout.scale, image.width) == x
  }

  lemma BlocksAreCells(image: Image, layout: Layout, x: int, y: int, row: int, column: int)
    requires Centred(layout, image.width, image.height)
    requires 0 <= x < image.width && 0 <= y < image.height
    ensures InBlock(layout, x, y, row, column) <==> CellsAre(image, layout, x, y, row, column)
  {
    CellIs(PHYSICAL_HEIGHT - 1 - row - layout.x, layout.scale, image.width, x);
    CellIs(column - layout.y, layout.scale, image.height, y);
  }

  /** Every panel pixel in the block of a source pixel shows that pixel. */
  lemma EachPixelShown(image: Image, x: int, y: int, row: int, column: int)
    requires image.Valid() && 0 <= x < image.width && 0 <= y < image.height
    requires ComputeScaledLayout(image.width, image.height).Some?
    requires InBlock(ComputeScaledLayout(image.width, image.height).value, x, y, row, column)
    ensures PanelAt(image, row, column) == image.rows[y][x]
  {
    BlocksAreCells(image, ComputeScaledLayout(image.width, image.height).value, x, y, row, column);
  }

  /** The border of the panel and everything beyond the logical screen stay black. */
  lemma MarginsAreBlack(image: Image, row: int, column: int)
    requires image.Valid()
    requires row < SAFE_INSET || row >= PHYSICAL_HEIGHT - SAFE_INSET
          || column < SAFE_INSET || column >= LOGICAL_HEIGHT - SAFE_INSET
    ensures PanelAt(image, row, column) == 0
  {
  }

  /** Scaling loses nothing: pictures of one size that look the same are the same. */
  lemma PanelTellsImage(a: Image, b: Image)
    requires a.Valid() && b.Valid() && a.width == b.width && a.height == b.height
    requires ComputeScaledLayout(a.width, a.height).Some?
    requires forall row, column :: PanelAt(a, row, column) == PanelAt(b, row, column)
    ensures a == b
  {
    forall y | 0 <= y < a.height
      ensures a.rows[y] == b.rows[y]
    {
      forall x | 0 <= x < a.width
        ensures a.rows[y][x] == b.rows[y][x]
      {
        var layout := ComputeScaledLayout(a.width, a.height).value;
        var row := PHYSICAL_HEIGHT - 1 - layout.x - x * layout.scale;
        var column := layout.y + y * layout.scale;
        EachPixelShown(a, x, y, row, column);
        EachPixelShown(b, x, y, row, column);
      }
    }
  }

  // -------------------------------------------------------------- the device

  type Words = array2<u16>

  ghost function Grid(words: Words): seq<seq<u16>>
    reads words
  {
    seq(words.Length0, r requires 0 <= r < words.Length0 reads words =>
      seq(words.Length1, c requires 0 <= c < words.Length1 reads words => words[r, c]))
  }

  /** Both a staging frame and the live memory, at the end of every call, hold this. */
  ghost predicate Holds(words: Words, image: Image)
    requires image.Valid()
    reads words
  {
    forall row, column :: 0 <= row < words.Length0 && 0 <= column < words.Length1 ==>
      words[row, column] == PanelAt(image, row, column)
  }

  /** A source frame as a program hands it over: pixels row by row, `pitch` of them apart. */
  datatype Pixels =
    | Rgb565(colors: seq<u16>)
    | Xrgb8888(values: seq<u32>)
    | Indexed(indices: seq<byte>, palette: seq<u32>)
  {
    function Count(): nat {
      match this
      case Rgb565(colors) => |colors|
      case Xrgb8888(values) => |values|
      case Indexed(indices, _) => |indices|
    }

    function ColorAt(i: nat): u16
      requires i < Count()
    {
      match this
      case Rgb565(colors) => colors[i]
      case Xrgb8888(values) => Rgb888To565(values[i])
      case Indexed(indices, palette) =>
        Rgb888To565(if indices[i] < |palette| then palette[indices[i]] else 0)
    }
  }

  datatype Source = Source(pixels: Pixels, width: nat, height: nat, pitch: nat) {
    /** The buffer holds all the rows it is said to. */
    predicate Backed() {
      pitch >= width && height > 0 ==> pixels.Count() >= (height - 1) * pitch + width
    }

    /** What is refused: rows that overlap, an empty palette, a size that does not fit. */
    predicate Accepted() {
      && pitch >= width
      && (pixels.Indexed? ==> pixels.palette != [])
      && ComputeScaledLayout(width, height).Some?
    }

    function At(x: nat, y: nat): (r: u16)
      requires Backed() && pitch >= width && x < width && y < height
    {
      InBuffer(x, y);
      pixels.ColorAt(y * pitch + x)
    }

    lemma InBuffer(x: nat, y: nat)
      requires Backed() && pitch >= width && x < width && y < height
      ensures 0 <= y * pitch + x < pixels.Count()
    {
    }

    /** The frame in panel colours. */
    function Picture(): (r: Image)
      requires Backed() && pitch >= width
      ensures r.Valid() && r.width == width && r.height == height
    {
      Image(width, height,
        seq(height, y requires 0 <= y < height => seq(width, x requires 0 <= x < width => At(x, y))))
    }
  }

  /** A panel word shows pixel i: its own colour, or its channels; an index beyond the palette is black. */
  predicate ShowsPixel(word: u16, pixels: Pixels, i: nat)
    requires i < pixels.Count()
  {
    match pixels
    case Rgb565(colors) => word == colors[i]
    case Xrgb8888(values) => SameColor(word, values[i])
    case Indexed(indices, palette) =>
      SameColor(word, if indices[i] < |palette| then palette[indices[i]] else 0)
  }

  lemma ColorShows(pixels: Pixels, i: nat)
    requires i < pixels.Count()
    ensures ShowsPixel(pixels.ColorAt(i), pixels, i)
  {
    match pixels
    case Rgb565(_) =>
    case Xrgb8888(values) => ColorKept(values[i]);
    case Indexed(indices, palette) => ColorKept(if indices[i] < |palette| then palette[indices[i]] else 0);
  }

  /** All of the square of source pixel (x, y) shows that pixel.  The panel stands upright: the picture's
      columns run from its bottom to its top. */
  ghost predicate SquareShows(words: Words, source: Source, x: nat, y: nat)
    requires source.Backed() && source.Accepted() && x < source.width && y < source.height
    reads words
  {
    var layout := ComputeScaledLayout(source.width, source.height).value;
    source.InBuffer(x, y);
    forall row, column :: 0 <= row < words.Length0 && 0 <= column < words.Length1 ==>
      layout.x + x * layout.scale <= 1279 - row < layout.x + x * layout.scale + layout.scale
      && layout.y + y * layout.scale <= column < layout.y + y * layout.scale + layout.scale ==>
      ShowsPixel(words[row, column], source.pixels, y * source.pitch + x)
  }

  /** The panel shows a frame: every pixel in its square, and black around the picture. */
  ghost predicate PanelShows(words: Words, source: Source)
    requires source.Backed() && source.Accepted()
    reads words
  {
    var layout := ComputeScaledLayout(source.width, source.height).value;
    && (forall x: nat, y: nat :: x < source.width && y < source.height ==> SquareShows(words, source, x, y))
    && forall row, column :: 0 <= row < words.Length0 && 0 <= column < words.Length1 ==>
         !(layout.x <= 1279 - row < layout.x + layout.width && layout.y <= column < layout.y + layout.height) ==>
         words[row, column] == 0
  }

  lemma HeldIsShown(words: Words, source: Source)
    requires source.Backed() && source.Accepted() && Holds(words, source.Picture())
    ensures PanelShows(words, source)
  {
    forall x: nat, y: nat | x < source.width && y < source.height
      ensures SquareShows(words, source, x, y)
    {
      SquareIsShown(words, source, x, y);
    }
    hide SquareShows;
  }

  lemma SquareIsShown(words: Words, source: Source, x: nat, y: nat)
    requires source.Backed() && source.Accepted() && x < source.width && y < source.height
    requires Holds(words, source.Picture())
    ensures SquareShows(words, source, x, y)
  {
    var layout := ComputeScaledLayout(source.width, source.height).value;
    source.InBuffer(x, y);
    ColorShows(source.pixels, y * source.pitch + x);
    forall row, column | 0 <= row < words.Length0 && 0 <= column < words.Length1 && InBlock(layout, x, y, row, column)
      ensures ShowsPixel(words[row, column], source.pixels, y * source.pitch + x)
    {
      EachPixelShown(source.Picture(), x, y, row, column);
    }
  }

  /** What is on the panel after a series of frames: the last one that was accepted. */
  function LastShown(image: Image, sources: seq<Source>): (r: Image)
    requires image.Valid() && forall source <- sources :: source.Backed()
    ensures r.Valid()
  {
    if sources == [] then image
    else
      var last := sources[|sources| - 1];
      if last.Accepted() then last.Picture() else LastShown(image, sources[..|sources| - 1])
  }

  /** Nothing but black outside the rectangle. */
  ghost predicate MarginsClear(words: Words, layout: Layout)
    reads words
  {
    forall row, column :: 0 <= row < words.Length0 && 0 <= column < words.Length1 ==>
      !Inside(layout, row, column) ==> words[row, column] == 0
  }

  /** The source pixels in reading order before (x, y) have been drawn. */
  predicate DrawnBefore(image: Image, layout: Layout, x: int, y: int, row: int, column: int)
    requires Centred(layout, image.width, image.height)
  {
    && Inside(layout, row, column)
    && var cy := Cell(column - layout.y, layout.scale, image.height);
       var cx := Cell(PHYSICAL_HEIGHT - 1 - row - layout.x, layout.scale, image.width);
       cy < y || (cy == y && cx < x)
  }

  ghost predicate Drawn(words: Words, image: Image, layout: Layout, x: int, y: int)
    requires image.Valid() && Centred(layout, image.width, image.height)
    reads words
  {
    forall row, column :: 0 <= row < words.Length0 && 0 <= column < words.Length1 ==>
      DrawnBefore(image, layout, x, y, row, column) ==> words[row, column] == Lit(image, layout, row, column)
  }

  class DeckFramebuffer {
    const frame: Words
    const memory: Words
    var lastWidth: nat
    var lastHeight: nat
    ghost var shown: Image

    ghost predicate Open()
    {
      && frame != memory
      && frame.Length0 == memory.Length0 >= PHYSICAL_HEIGHT
      && frame.Length1 == memory.Length1 >= PHYSICAL_WIDTH
    }

    ghost predicate Valid()
      reads this, frame, memory
    {
      && Open()
      && shown.Valid() && lastWidth == shown.width && lastHeight == shown.height
      && Holds(frame, shown) && Holds(memory, shown)
    }

    /** open_device: both buffers black; `rows` rows of `stride` words are mapped. */
    constructor (rows: nat, stride: nat)
      requires rows >= PHYSICAL_HEIGHT && stride >= PHYSICAL_WIDTH
      ensures Valid() && shown == NOTHING && fresh(frame) && fresh(memory)
    {
      frame := new u16[rows, stride]((_, _) => 0);
      memory := new u16[rows, stride]((_, _) => 0);
      lastWidth, lastHeight, shown := 0, 0, NOTHING;
    }

    method Clear(words: Words)
      modifies words
      ensures forall row, column :: 0 <= row < words.Length0 && 0 <= column < words.Length1 ==>
                words[row, column] == 0
    {
      forall row, column | 0 <= row < words.Length0 && 0 <= column < words.Length1 {
        words[row, column] := 0;
      }
    }

    /** Picks the layout; a change of size blackens both buffers. */
    method BeginFrame(width: nat, height: nat) returns (layout: Option<Layout>)
      requires Valid()
      modifies this, frame, memory
      ensures layout == ComputeScaledLayout(width, height) && shown == old(shown)
      ensures layout.None? ==> Valid()
      ensures layout.Some? ==> lastWidth == width && lastHeight == height
      ensures layout.Some? ==> MarginsClear(frame, layout.value) && MarginsClear(memory, layout.value)
    {
      layout := ComputeScaledLayout(width, height);
      if layout.None? { return; }
      if width != lastWidth || height != lastHeight {
        Clear(frame);
        Clear(memory);
        lastWidth, lastHeight := width, height;
      }
    }

    method DrawScaledPixel(layout: Layout, ghost width: nat, ghost height: nat, x: nat, y: nat, color: u16)
      requires Open() && Centred(layout, width, height) && x < width && y < height
      modifies frame
      ensures forall row, column :: 0 <= row < frame.Length0 && 0 <= column < frame.Length1 ==>
                frame[row, column] == if InBlock(layout, x, y, row, column) then color else old(frame[row, column])
    {
      var left, top := layout.x + x * layout.scale, layout.y + y * layout.scale;
      BlockFits(layout, width, height, x, y);
      FillSquare(left, top, layout.scale, color);
    }

    /** The block of a source pixel is on the panel. */
    lemma BlockFits(layout: Layout, width: nat, height: nat, x: nat, y: nat)
      requires Centred(layout, width, height) && x < width && y < height
      ensures var left, top := layout.x + x * layout.scale, layout.y + y * layout.scale;
        && 0 < layout.scale && 0 <= left && left + layout.scale <= PHYSICAL_HEIGHT
        && 0 <= top && top + layout.scale <= PHYSICAL_WIDTH
    {
      AxisFits(layout.x, layout.scale, width, x, PHYSICAL_HEIGHT);
      AxisFits(layout.y, layout.scale, height, y, PHYSICAL_WIDTH);
    }

    static lemma AxisFits(offset: int, scale: int, n: nat, k: nat, limit: int)
      requires 0 <= offset && 0 <= scale && offset + n * scale <= limit && k < n
      ensures 0 <= offset + k * scale && offset + k * scale + scale <= limit
    {
      MulUp(scale, k + 1, n);
      MulUp(scale, 0, k);
    }

    method FillSquare(left: int, top: int, size: int, color: u16)
      requires Open() && 0 <= left && 0 <= size && left + size <= PHYSICAL_HEIGHT
      requires 0 <= top && top + size <= PHYSICAL_WIDTH
      modifies frame
      ensures forall row, column :: 0 <= row < frame.Length0 && 0 <= column < frame.Length1 ==>
                frame[row, column] == if left <= PHYSICAL_HEIGHT - 1 - row < left + size && top <= column < top + size
                                      then color else old(frame[row, column])
    {
      for dy := 0 to size
        invariant forall row, column :: 0 <= row < frame.Length0 && 0 <= column < frame.Length1 ==>
          frame[row, column] == if left <= PHYSICAL_HEIGHT - 1 - row < left + size && top <= column < top + dy
                                then color else old(frame[row, column])
      {
        DrawColumn(left, top + dy, size, color);
      }
    }

    method DrawColumn(left: int, column: int, size: int, color: u16)
      requires Open() && 0 <= size
      requires 0 <= left && left + size <= PHYSICAL_HEIGHT && 0 <= column < PHYSICAL_WIDTH
      modifies frame
      ensures forall r, c :: 0 <= r < frame.Length0 && 0 <= c < frame.Length1 ==>
                frame[r, c] == if c == column && left <= PHYSICAL_HEIGHT - 1 - r < left + size then color
                               else old(frame[r, c])
    {
      for dx := 0 to size
        invariant forall r, c :: 0 <= r < frame.Length0 && 0 <= c < frame.Length1 ==>
          frame[r, c] == if c == column && left <= PHYSICAL_HEIGHT - 1 - r < left + dx then color
                         else old(frame[r, c])
      {
        frame[PHYSICAL_HEIGHT - 1 - (left + dx), column] := color;
      }
    }

    /** present_xrgb8888 and present_indexed: one source pixel after another. */
    method DrawByPixels(source: Source, layout: Layout)
      requires Open() && source.Backed() && source.Accepted()
      requires layout == ComputeScaledLayout(source.width, source.height).value && MarginsClear(frame, layout)
      modifies frame
      ensures Holds(frame, source.Picture())
    {
      ghost var image := source.Picture();
      for y := 0 to source.height
        invariant MarginsClear(frame, layout) && Drawn(frame, image, layout, 0, y)
      {
        for x := 0 to source.width
          invariant MarginsClear(frame, layout) && Drawn(frame, image, layout, x, y)
        {
          source.InBuffer(x, y);
          DrawNext(source, layout, x, y);
        }
        RowDrawn(image, layout, y);
      }
    }

    lemma RowDrawn(image: Image, layout: Layout, y: int)
      requires image.Valid() && Centred(layout, image.width, image.height)
      requires Drawn(frame, image, layout, image.width, y)
      ensures Drawn(frame, image, layout, 0, y + 1)
    {
    }

    method DrawNext(source: Source, layout: Layout, x: nat, y: nat)
      requires Open() && source.Backed() && source.Accepted() && x < source.width && y < source.height
      requires layout == ComputeScaledLayout(source.width, source.height).value && MarginsClear(frame, layout)
      requires Drawn(frame, source.Picture(), layout, x, y)
      modifies frame
      ensures MarginsClear(frame, layout) && Drawn(frame, source.Picture(), layout, x + 1, y)
    {
      ghost var image := source.Picture();
      DrawScaledPixel(layout, source.width, source.height, x, y, source.At(x, y));
      forall row, column
        ensures InBlock(layout, x, y, row, column) <==> CellsAre(image, layout, x, y, row, column)
      {
        BlocksAreCells(image, layout, x, y, row, column);
      }
    }

    /** The picture's rows from `from` down are complete. */
    ghost predicate RowsBuilt(image: Image, layout: Layout, from: int)
      requires image.Valid() && Centred(layout, image.width, image.height)
      reads frame
    {
      forall row, column :: from <= row < frame.Length0 && 0 <= row && 0 <= column < frame.Length1 ==>
        Inside(layout, row, column) ==> frame[row, column] == Lit(image, layout, row, column)
    }

    /** present_rgb565: one physical row after another. */
    method DrawByRows(source: Source, layout: Layout)
      requires Open() && source.Backed() && source.Accepted()
      requires layout == ComputeScaledLayout(source.width, source.height).value && MarginsClear(frame, layout)
      modifies frame
      ensures Holds(frame, source.Picture())
    {
      var from := PHYSICAL_HEIGHT - layout.x;
      for x := 0 to source.width
        invariant from == RowsLeft(layout, x)
        invariant MarginsClear(frame, layout) && RowsBuilt(source.Picture(), layout, from)
      {
        hide MarginsClear, RowsBuilt;
        ColumnLess(layout, x);
        BuildColumn(source, layout, x, from);
        from := from - layout.scale;
      }
      AllBuilt(source.Picture(), layout);
    }

    /** The first panel row of the source columns before x. */
    function RowsLeft(layout: Layout, x: int): int { PHYSICAL_HEIGHT - layout.x - x * layout.scale }

    lemma ColumnLess(layout: Layout, x: int)
      ensures RowsLeft(layout, x + 1) == RowsLeft(layout, x) - layout.scale
    {
    }

    lemma AllBuilt(image: Image, layout: Layout)
      requires image.Valid() && Centred(layout, image.width, image.height) && MarginsClear(frame, layout)
      requires ComputeScaledLayout(image.width, image.height) == Some(layout)
      requires RowsBuilt(image, layout, RowsLeft(layout, image.width))
      ensures Holds(frame, image)
    {
    }

    /** The physical rows of one source column. */
    method BuildColumn(source: Source, layout: Layout, x: nat, from: int)
      requires Open() && source.Backed() && source.Accepted() && x < source.width
      requires layout == ComputeScaledLayout(source.width, source.height).value && MarginsClear(frame, layout)
      requires from == RowsLeft(layout, x)
      requires RowsBuilt(source.Picture(), layout, from)
      modifies frame
      ensures MarginsClear(frame, layout) && RowsBuilt(source.Picture(), layout, from - layout.scale)
    {
      for dx := 0 to layout.scale
        invariant MarginsClear(frame, layout) && RowsBuilt(source.Picture(), layout, from - dx)
      {
        CellIs(PHYSICAL_HEIGHT - from + dx - layout.x, layout.scale, source.width, x);
        BuildRow(source, layout, x, from - 1 - dx);
      }
    }

    /** One physical row: every source row's pixel of column x, repeated. */
    method BuildRow(source: Source, layout: Layout, x: nat, row: int)
      requires Open() && source.Backed() && source.Accepted() && x < source.width
      requires layout == ComputeScaledLayout(source.width, source.height).value
      requires layout.x <= PHYSICAL_HEIGHT - 1 - row < layout.x + layout.width
      requires Cell(PHYSICAL_HEIGHT - 1 - row - layout.x, layout.scale, source.width) == x
      modifies frame
      ensures BuiltTo(source.Picture(), layout, row, layout.y + layout.height)
      ensures Beside(row, layout.y, layout.height, old(Grid(frame)))
    {
      var destination := layout.y;
      for y := 0 to source.height
        invariant destination == Start(layout, y)
        invariant BuiltTo(source.Picture(), layout, row, destination)
        invariant Beside(row, layout.y, layout.height, old(Grid(frame)))
      {
        source.InBuffer(x, y);
        CellOfRow(source, layout, x, y, row, destination);
        Repeat(row, destination, layout.scale, source.At(x, y));
        destination := destination + layout.scale;
      }
    }

    /** The first panel column of source row y. */
    function Start(layout: Layout, y: int): int { layout.y + y * layout.scale }

    /** What the columns of source row y show in a physical row of column x. */
    lemma CellOfRow(source: Source, layout: Layout, x: nat, y: nat, row: int, destination: int)
      requires source.Backed() && source.Accepted() && x < source.width && y < source.height
      requires layout == ComputeScaledLayout(source.width, source.height).value
      requires layout.x <= PHYSICAL_HEIGHT - 1 - row < layout.x + layout.width
      requires Cell(PHYSICAL_HEIGHT - 1 - row - layout.x, layout.scale, source.width) == x
      requires destination == Start(layout, y)
      ensures layout.y <= destination && destination + layout.scale <= layout.y + layout.height
      ensures destination + layout.scale == Start(layout, y + 1)
      ensures forall c :: destination <= c < destination + layout.scale ==>
                Inside(layout, row, c) && Lit(source.Picture(), layout, row, c) == source.At(x, y)
    {
      MulUp(layout.scale, y + 1, source.height);
      MulUp(layout.scale, 0, y);
      forall c | destination <= c < destination + layout.scale
        ensures Inside(layout, row, c) && Lit(source.Picture(), layout, row, c) == source.At(x, y)
      {
        CellIs(c - layout.y, layout.scale, source.height, y);
      }
    }

    /** The columns of a row before `end` are complete. */
    ghost predicate BuiltTo(image: Image, layout: Layout, row: int, end: int)
      requires image.Valid() && Centred(layout, image.width, image.height)
      reads frame
    {
      0 <= row < frame.Length0
      && forall c :: 0 <= c < frame.Length1 && c < end && Inside(layout, row, c) ==>
           frame[row, c] == Lit(image, layout, row, c)
    }

    /** Only `size` columns of `row` from `from` may differ from what was. */
    ghost predicate Beside(row: int, from: int, size: int, was: seq<seq<u16>>)
      reads frame
    {
      && |was| == frame.Length0 && (forall r :: 0 <= r < |was| ==> |was[r]| == frame.Length1)
      && forall r, c :: 0 <= r < frame.Length0 && 0 <= c < frame.Length1 ==>
           r != row || !(from <= c < from + size) ==> frame[r, c] == was[r][c]
    }

    method Repeat(row: int, from: int, n: int, color: u16)
      requires 0 <= row < frame.Length0 && 0 <= from && 0 <= n && from + n <= frame.Length1
      modifies frame
      ensures forall c :: from <= c < from + n ==> frame[row, c] == color
      ensures forall r, c :: 0 <= r < frame.Length0 && 0 <= c < frame.Length1 ==>
                r != row || !(from <= c < from + n) ==> frame[r, c] == old(frame[r, c])
    {
      for k := 0 to n
        invariant forall c :: from <= c < from + k ==> frame[row, c] == color
        invariant forall r, c :: 0 <= r < frame.Length0 && 0 <= c < frame.Length1 ==>
          r != row || !(from <= c < from + k) ==> frame[r, c] == old(frame[r, c])
      {
        frame[row, from + k] := color;
      }
    }

    method CopySegment(row: int, from: int, n: int)
      requires Open() && 0 <= row < memory.Length0 && 0 <= from && 0 <= n && from + n <= memory.Length1
      modifies memory
      ensures forall r, c :: 0 <= r < memory.Length0 && 0 <= c < memory.Length1 ==>
                memory[r, c] == if r == row && from <= c < from + n then frame[r, c] else old(memory[r, c])
    {
      for k := 0 to n
        invariant forall r, c :: 0 <= r < memory.Length0 && 0 <= c < memory.Length1 ==>
          memory[r, c] == if r == row && from <= c < from + k then frame[r, c] else old(memory[r, c])
      {
        memory[row, from + k] := frame[row, from + k];
      }
    }

    /** Copies the finished rectangle to the live memory, a physical row at a time. */
    method PublishFrame(layout: Layout)
      requires Open() && layout.width >= 0 && layout.height >= 0
      requires 0 <= layout.x && layout.x + layout.width <= PHYSICAL_HEIGHT
      requires 0 <= layout.y && layout.y + layout.height <= PHYSICAL_WIDTH
      modifies memory
      ensures forall r, c :: 0 <= r < memory.Length0 && 0 <= c < memory.Length1 ==>
                memory[r, c] == if Inside(layout, r, c) then frame[r, c] else old(memory[r, c])
    {
      var firstRow := PHYSICAL_HEIGHT - layout.x - layout.width;
      for row := 0 to layout.width
        invariant forall r, c :: 0 <= r < memory.Length0 && 0 <= c < memory.Length1 ==>
          memory[r, c] == if Inside(layout, r, c) && r < firstRow + row then frame[r, c] else old(memory[r, c])
      {
        CopySegment(firstRow + row, layout.y, layout.height);
      }
    }

    /** present_rgb565, present_xrgb8888 and present_indexed. */
    method Present(source: Source) returns (ok: bool)
      requires Valid() && source.Backed()
      modifies this, frame, memory
      ensures Valid() && ok == source.Accepted()
      ensures shown == if source.Accepted() then source.Picture() else old(shown)
      ensures ok <==> 1 <= source.width <= 1248 && 1 <= source.height <= 448 && source.width <= source.pitch
                      && (source.pixels.Indexed? ==> source.pixels.palette != [])
      ensures ok ==> PanelShows(memory, source)
    {
      ok := Show(source);
      if ok {
        HeldIsShown(memory, source);
      }
    }

    method Show(source: Source) returns (ok: bool)
      requires Valid() && source.Backed()
      modifies this, frame, memory
      ensures Valid() && ok == source.Accepted()
      ensures shown == if source.Accepted() then source.Picture() else old(shown)
    {
      ok := false;
      if source.pitch < source.width || (source.pixels.Indexed? && |source.pixels.palette| == 0) { return; }
      var layout := BeginFrame(source.width, source.height);
      if layout.None? { return; }
      if source.pixels.Rgb565? {
        DrawByRows(source, layout.value);
      } else {
        DrawByPixels(source, layout.value);
      }
      PublishFrame(layout.value);
      shown := source.Picture();
      ok := true;
    }

    /** Whatever frames are presented, of whatever sizes and formats, the live memory shows
        exactly the last one accepted, scaled, turned and centred on black. */
    method PresentAll(sources: seq<Source>)
      requires Valid() && forall source <- sources :: source.Backed()
      modifies this, frame, memory
      ensures Valid() && shown == LastShown(old(shown), sources)
      ensures forall i :: LastAccepted(sources, i) ==> PanelShows(memory, sources[i])
    {
      for i := 0 to |sources|
        invariant Valid() && shown == LastShown(old(shown), sources[..i])
      {
        assert sources[..i + 1][..i] == sources[..i];
        var _ := Present(sources[i]);
      }
      assert sources[..|sources|] == sources;
      forall i | LastAccepted(sources, i)
        ensures PanelShows(memory, sources[i])
      {
        LastIsShown(old(shown), sources, i);
        HeldIsShown(memory, sources[i]);
      }
    }
  }

  /** Frame i is accepted and none after it is. */
  ghost predicate LastAccepted(sources: seq<Source>, i: int) {
    0 <= i < |sources| && sources[i].Accepted() && forall j :: i < j < |sources| ==> !sources[j].Accepted()
  }

  lemma {:induction false} LastIsShown(image: Image, sources: seq<Source>, i: int)
    requires image.Valid() && (forall source <- sources :: source.Backed()) && LastAccepted(sources, i)
    ensures LastShown(image, sources) == sources[i].Picture()
  {
    if i < |sources| - 1 {
      LastIsShown(image, sources[..|sources| - 1], i);
    }
  }
}
