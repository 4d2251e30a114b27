/**
  `ScreenHelper.GetBitmapPosition`: the first place, scanning rows from the
  start row and columns from the start column, where a small bitmap occurs
  inside a larger one, comparing the locked pixel bytes. Bitmaps are their
  locked data: a byte sequence laid out row by row, `stride` bytes a row.
 */
module Screen {
  import opened Boards

  type byte = x: int | 0 <= x < 256

  /** A bitmap as `LockBits` hands it over: size, pixel format, row stride and the copied bytes. */
  datatype Bitmap = Bitmap(width: int, height: int, format: int, stride: int, data: seq<byte>)

  /** `Image.GetPixelFormatSize`: the bits per pixel, held in the second byte of the format code. */
  function PixelFormatSize(format: int): (bits: nat)
    ensures bits < 256
  {
    (format / 256) % 256
  }

  /** The two byte arrays the search compares, and the shape of the search image. */
  datatype Scan = Scan(src: seq<byte>, srcStride: int, srch: seq<byte>, srchStride: int, pixSize: int, w: int, h: int)

  /**
    Byte c of pixel (k, j) of the search image equals the source byte under
    it when the search image sits at (x, y); both reads are in range.
   */
  predicate ByteOk(sc: Scan, x: int, y: int, j: int, k: int, c: int) {
    var a := (x + k) * sc.pixSize + (y + j) * sc.srcStride + c;
    var b := k * sc.pixSize + j * sc.srchStride + c;
    0 <= a < |sc.src| && 0 <= b < |sc.srch| && sc.src[a] == sc.srch[b]
  }

  /** Both reads of byte c of pixel (k, j) at (x, y) are in range. */
  predicate InRange(sc: Scan, x: int, y: int, j: int, k: int, c: int) {
    var a := (x + k) * sc.pixSize + (y + j) * sc.srcStride + c;
    var b := k * sc.pixSize + j * sc.srchStride + c;
    0 <= a < |sc.src| && 0 <= b < |sc.srch|
  }

  /** The search image occurs at (x, y): every byte of every pixel matches (row padding is not compared). */
  predicate Matches(sc: Scan, x: int, y: int) {
    forall j, k, c | 0 <= j < sc.h && 0 <= k < sc.w && 0 <= c < sc.pixSize :: ByteOk(sc, x, y, j, k, c)
  }

  /** A comparison loop's verdict: all equal, a difference, or a read out of range (the array access throws). */
  datatype Cmp = Same | Differs | Fault

  /** The source and search bytes at a and b, compared, unless one of them is out of range. */
  function CompareAt(sc: Scan, a: int, b: int): Cmp {
    if !(0 <= a < |sc.src|) || !(0 <= b < |sc.srch|) then Fault
    else if sc.src[a] == sc.srch[b] then Same
    else Differs
  }

  /** The innermost `for (var c = ...; c < pixSize; c++)` loop on pixel (k, j), from byte c on. */
  function PixelFrom(sc: Scan, x: int, y: int, j: int, k: int, c: int): (r: Cmp)
    decreases sc.pixSize - c
    ensures r == Same <==> forall c' | c <= c' < sc.pixSize :: ByteOk(sc, x, y, j, k, c')
    ensures r == Fault ==> exists c' | c <= c' < sc.pixSize :: !InRange(sc, x, y, j, k, c')
  {
    if c >= sc.pixSize then Same
    else
      var sourcex := (x + k) * sc.pixSize;
      var sourcey := (y + j) * sc.srcStride;
      var mx := k * sc.pixSize;
      var my := j * sc.srchStride;
      match CompareAt(sc, sourcex + sourcey + c, mx + my + c)
      case Same => PixelFrom(sc, x, y, j, k, c + 1)
      case Differs => assert !ByteOk(sc, x, y, j, k, c); Differs
      case Fault => assert !InRange(sc, x, y, j, k, c) && !ByteOk(sc, x, y, j, k, c); Fault
  }

  /** The `for (var x1 = ...; x1 < search.Width; x1++)` loop of row j, from pixel k on. */
  function RowFrom(sc: Scan, x: int, y: int, j: int, k: int): (r: Cmp)
    decreases sc.w - k
    ensures r == Same <==>
              forall k', c | k <= k' < sc.w && 0 <= c < sc.pixSize :: ByteOk(sc, x, y, j, k', c)
    ensures r == Fault ==>
              exists k', c | k <= k' < sc.w && 0 <= c < sc.pixSize :: !InRange(sc, x, y, j, k', c)
  {
    if k >= sc.w then Same
    else
      var p := PixelFrom(sc, x, y, j, k, 0);
      if p != Same then p else RowFrom(sc, x, y, j, k + 1)
  }

  /** The `for (var y1 = ...; y1 < search.Height; y1++)` loop, from row j on. */
  function RowsFrom(sc: Scan, x: int, y: int, j: int): (r: Cmp)
    decreases sc.h - j
    ensures r == Same <==>
              forall j', k, c | j <= j' < sc.h && 0 <= k < sc.w && 0 <= c < sc.pixSize :: ByteOk(sc, x, y, j', k, c)
    ensures r == Fault ==>
              exists j', k, c | j <= j' < sc.h && 0 <= k < sc.w && 0 <= c < sc.pixSize :: !InRange(sc, x, y, j', k, c)
  {
    if j >= sc.h then Same
    else
      var row := RowFrom(sc, x, y, j, 0);
      if row != Same then row else RowsFrom(sc, x, y, j + 1)
  }

  /** The full comparison at (x, y): `shouldStop` stays false iff the search image occurs there. */
  function Full(sc: Scan, x: int, y: int): (r: Cmp)
    ensures r == Same <==> Matches(sc, x, y)
    ensures r == Fault ==>
              exists j, k, c | 0 <= j < sc.h && 0 <= k < sc.w && 0 <= c < sc.pixSize :: !InRange(sc, x, y, j, k, c)
  {
    RowsFrom(sc, x, y, 0)
  }

  /**
    The pre-check on the first pixel, from byte c on: `sourceBytes[sx + sy + c]`
    against `searchBytes[c]`. It reads exactly the bytes the full comparison
    reads first.
   */
  function PreCheck(sc: Scan, x: int, y: int, c: int): (r: Cmp)
    decreases sc.pixSize - c
    ensures r == PixelFrom(sc, x, y, 0, 0, c)
  {
    if c >= sc.pixSize then Same
    else
      var sx := x * sc.pixSize;
      var sy := y * sc.srcStride;
      assert (x + 0) * sc.pixSize + (y + 0) * sc.srcStride + c == sx + sy + c;
      assert 0 * sc.pixSize + 0 * sc.srchStride + c == c;
      match CompareAt(sc, sx + sy + c, c)
      case Same => PreCheck(sc, x, y, c + 1)
      case other => other
  }

  /** One candidate position: skipped when the pre-check differs, otherwise decided by the full comparison. */
  function Candidate(sc: Scan, x: int, y: int): (r: Cmp)
    ensures r == Same ==> Matches(sc, x, y)
  {
    match PreCheck(sc, x, y, 0)
    case Same => Full(sc, x, y)
    case other => other
  }

  /**
    On a search image with at least one pixel, the pre-check changes
    nothing: it skips only candidates the full comparison also rejects, and
    faults only where the full comparison would.
   */
  lemma PreCheckRedundant(sc: Scan, x: int, y: int)
    requires sc.w >= 1 && sc.h >= 1
    ensures Candidate(sc, x, y) == Full(sc, x, y)
    ensures Candidate(sc, x, y) == Same <==> Matches(sc, x, y)
  {
  }

  /** A scan's end: a position, nothing found, or a read out of range. */
  datatype Outcome = Hit(p: Point) | Miss | Throws

  /** The `for (var x = ...; x < xEnd; x++)` loop on row y. */
  function ScanRow(sc: Scan, y: int, x: int, xEnd: int): (r: Outcome)
    decreases xEnd - x
    ensures r.Hit? ==> r.p.y == y && x <= r.p.x < xEnd && Matches(sc, r.p.x, y)
    ensures r.Hit? ==> forall x' | x <= x' < r.p.x :: Candidate(sc, x', y) == Differs
    ensures r.Miss? <==> forall x' | x <= x' < xEnd :: Candidate(sc, x', y) == Differs
    ensures r.Throws? ==> exists x' | x <= x' < xEnd :: Candidate(sc, x', y) == Fault
  {
    if x >= xEnd then Miss
    else
      match Candidate(sc, x, y)
      case Fault => Throws
      case Same => Hit(Point(x, y))
      case Differs => ScanRow(sc, y, x + 1, xEnd)
  }

  /** The `for (var y = ...; y < yEnd; y++)` loop; each row restarts at `startx`. */
  function ScanFrom(sc: Scan, y: int, yEnd: int, startx: int, xEnd: int): (r: Outcome)
    decreases yEnd - y
    ensures r.Hit? ==> y <= r.p.y < yEnd && startx <= r.p.x < xEnd && Matches(sc, r.p.x, r.p.y)
    ensures r.Hit? ==>
              forall y', x' | y <= y' <= r.p.y && startx <= x' < xEnd && (y' < r.p.y || x' < r.p.x) ::
                Candidate(sc, x', y') == Differs
    ensures r.Miss? <==>
              forall y', x' | y <= y' < yEnd && startx <= x' < xEnd :: Candidate(sc, x', y') == Differs
    ensures r.Throws? ==>
              exists y', x' | y <= y' < yEnd && startx <= x' < xEnd :: Candidate(sc, x', y') == Fault
  {
    if y >= yEnd then Miss
    else
      match ScanRow(sc, y, startx, xEnd)
      case Miss => ScanFrom(sc, y + 1, yEnd, startx, xEnd)
      case other => other
  }

  /** The result of `GetBitmapPosition`: a point, or the exception thrown. */
  datatype Located = At(p: Point) | NullArgument | IncompatibleFormats | TooLarge | OutOfRange

  /** The comparison data of a search for `search` inside `source`. */
  function ScanOf(source: Bitmap, search: Bitmap): Scan {
    Scan(source.data, source.stride, search.data, search.stride,
         PixelFormatSize(source.format) / 8, search.width, search.height)
  }

  /**
    `GetBitmapPosition(source, search, startx, starty)`; `None` is a null
    bitmap. The first match in scan order is returned; with none,
    `Point.Empty`.
   */
  function GetBitmapPosition(source: Option<Bitmap>, search: Option<Bitmap>, startx: int, starty: int): (r: Located)
    ensures r == NullArgument <==> source.None? || search.None?
    ensures r == IncompatibleFormats <==>
              source.Some? && search.Some? && source.value.format != search.value.format
    ensures r == TooLarge <==>
              && source.Some? && search.Some? && source.value.format == search.value.format
              && (source.value.width < search.value.width || source.value.height < search.value.height)
    ensures r.At? ==>
              var s, m := source.value, search.value;
              var sc := ScanOf(s, m);
              || (r.p == Origin &&
                  forall y, x | starty <= y <= s.height - m.height && startx <= x <= s.width - m.width ::
                    Candidate(sc, x, y) == Differs)
              || (&& starty <= r.p.y <= s.height - m.height && startx <= r.p.x <= s.width - m.width
                  && Matches(sc, r.p.x, r.p.y))
  {
    if source.None? || search.None? then NullArgument
    else
      var s, m := source.value, search.value;
      if s.format != m.format then IncompatibleFormats
      else if s.width < m.width || s.height < m.height then TooLarge
      else
        match ScanFrom(ScanOf(s, m), starty, s.height - m.height + 1, startx, s.width - m.width + 1)
        case Hit(p) => At(p)
        case Miss => At(Origin)
        case Throws => OutOfRange
  }

  /**
    On a search image with at least one pixel, a returned match is the first
    in scan order: no candidate before it, in an earlier row or earlier in
    its row, matches; and `Point.Empty` without a match means no candidate
    matches at all.
   */
  lemma GetBitmapPositionFirst(source: Bitmap, search: Bitmap, startx: int, starty: int)
    requires search.width >= 1 && search.height >= 1
    ensures var r := GetBitmapPosition(Some(source), Some(search), startx, starty);
            var sc := ScanOf(source, search);
            var xEnd, yEnd := source.width - search.width + 1, source.height - search.height + 1;
            r.At? ==>
              || (r.p == Origin && forall y, x | starty <= y < yEnd && startx <= x < xEnd :: !Matches(sc, x, y))
              || (&& Matches(sc, r.p.x, r.p.y)
                  && forall y, x | starty <= y <= r.p.y && startx <= x < xEnd && (y < r.p.y || x < r.p.x) ::
                       !Matches(sc, x, y))
  {
    var sc := ScanOf(source, search);
    forall x, y
      ensures Candidate(sc, x, y) == Same <==> Matches(sc, x, y)
      ensures Candidate(sc, x, y) == Differs ==> !Matches(sc, x, y)
    {
      PreCheckRedundant(sc, x, y);
    }
  }

  /** A bitmap as GDI+ locks it: non-empty, each row holding its pixels, `stride * height` bytes in all. */
  predicate WellFormed(b: Bitmap) {
    && b.width >= 1 && b.height >= 1
    && b.stride >= b.width * (PixelFormatSize(b.format) / 8)
    && |b.data| == b.stride * b.height
  }

  /** Byte c of pixel (col, row) of a row-major image lies inside its data. */
  lemma PixelByteInside(col: int, row: int, c: int, ps: int, stride: int, width: int, height: int)
    requires 0 <= col < width && 0 <= row < height && 0 <= c < ps
    requires stride >= width * ps
    ensures 0 <= col * ps + row * stride + c < stride * height
  {
    assert col * ps + c < (col + 1) * ps <= width * ps <= stride;
    assert row * stride <= (height - 1) * stride;
    assert 0 <= col * ps && 0 <= row * stride;
  }

  /** Within the scanned window of well-formed bitmaps, no comparison reads out of range. */
  lemma NoFaultInside(source: Bitmap, search: Bitmap, x: int, y: int)
    requires WellFormed(source) && WellFormed(search) && source.format == search.format
    requires 0 <= x <= source.width - search.width && 0 <= y <= source.height - search.height
    ensures Candidate(ScanOf(source, search), x, y) != Fault
  {
    var sc := ScanOf(source, search);
    forall j, k, c | 0 <= j < sc.h && 0 <= k < sc.w && 0 <= c < sc.pixSize
      ensures InRange(sc, x, y, j, k, c)
    {
      PixelByteInside(x + k, y + j, c, sc.pixSize, source.stride, source.width, source.height);
      PixelByteInside(k, j, c, sc.pixSize, search.stride, search.width, search.height);
    }
    PreCheckRedundant(sc, x, y);
  }

  /**
    With well-formed bitmaps of one format, the search fitting inside the
    source, and a start at or after the top-left corner, the search ends
    with a point and never throws.
   */
  lemma NeverThrows(source: Bitmap, search: Bitmap, startx: int, starty: int)
    requires WellFormed(source) && WellFormed(search) && source.format == search.format
    requires search.width <= source.width && search.height <= source.height
    requires startx >= 0 && starty >= 0
    ensures GetBitmapPosition(Some(source), Some(search), startx, starty).At?
  {
    var sc := ScanOf(source, search);
    forall y, x | starty <= y <= source.height - search.height && startx <= x <= source.width - search.width
      ensures Candidate(sc, x, y) != Fault
    {
      NoFaultInside(source, search, x, y);
    }
  }

  /** The one-pixel images the ambiguity is shown on: bytes [v], 8 bits a pixel. */
  function OnePixel(v: byte): (b: Bitmap)
    ensures WellFormed(b) && PixelFormatSize(b.format) / 8 == 1
  {
    Bitmap(1, 1, 0x80800, 1, [v])
  }

  /** A search of one-pixel images from (0, 0) answers (0, 0), whether or not the pixels agree. */
  lemma OnePixelAnswer(u: byte, v: byte)
    ensures GetBitmapPosition(Some(OnePixel(u)), Some(OnePixel(v)), 0, 0) == At(Origin)
    ensures Matches(ScanOf(OnePixel(u), OnePixel(v)), 0, 0) <==> u == v
  {
    NeverThrows(OnePixel(u), OnePixel(v), 0, 0);
    var sc := ScanOf(OnePixel(u), OnePixel(v));
    assert ByteOk(sc, 0, 0, 0, 0, 0) <==> u == v;
  }

  /**
    `Point.Empty` is ambiguous: a one-pixel image found at (0, 0) and one
    not found at all give the same answer.
   */
  lemma EmptyIsAmbiguous()
    ensures Matches(ScanOf(OnePixel(5), OnePixel(5)), 0, 0)
    ensures !Matches(ScanOf(OnePixel(5), OnePixel(6)), 0, 0)
    ensures GetBitmapPosition(Some(OnePixel(5)), Some(OnePixel(5)), 0, 0)
         == GetBitmapPosition(Some(OnePixel(5)), Some(OnePixel(6)), 0, 0)
         == At(Origin)
  {
    OnePixelAnswer(5, 5);
    OnePixelAnswer(5, 6);
  }
}
