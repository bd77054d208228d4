/** The frame image: how it is cut into nine rectangles, and which of its pixels a point of
    the drawn frame shows. */
module Frames {
  import opened Arithmetic

  datatype Mode = Unknown | OneByOne | ThreeByThree | FourByFour | ThreeByOne | OneByThree

  /** Left and top edges belong to a rectangle, right and bottom edges do not. */
  datatype Rect = Rect(left: int, top: int, right: int, bottom: int) {
    predicate Has(x: int, y: int) {
      left <= x < right && top <= y < bottom
    }
  }

  /** The left and right edge of a column (or top and bottom of a row) of a nine-slice. */
  function Cut(size: nat, quarters: bool, j: nat): int
    requires j <= 3
  {
    if quarters then size / 4 * Quarter(j)
    else size / 3 * j
  }

  function NineSlice(width: nat, height: nat, quarters: bool): seq<Rect> {
    seq(9, k requires 0 <= k < 9 =>
      Rect(Cut(width, quarters, k % 3), Cut(height, quarters, k / 3),
           Cut(width, quarters, k % 3 + 1), Cut(height, quarters, k / 3 + 1)))
  }

  class Frame {
    const width: nat
    const height: nat
    var mode: Mode
    var items: seq<Rect>

    constructor (width: nat, height: nat)
      ensures this.width == width && this.height == height && mode == OneByOne
    {
      this.width, this.height := width, height;
      mode, items := OneByOne, [];
    }

    /** Cuts the image as asked when its size allows it, or else leaves it whole; with the
        unknown mode the first possible way of cutting is taken. */
    method SetMode(asked: Mode)
      modifies `mode, `items
      ensures mode ==
        if (asked == ThreeByThree || asked == Unknown) && width % 3 == 0 && height % 3 == 0 then ThreeByThree
        else if (asked == FourByFour || asked == Unknown) && width % 4 == 0 && height % 4 == 0 then FourByFour
        else if (asked == ThreeByOne || asked == Unknown) && width % 3 == 0 then ThreeByOne
        else if (asked == OneByThree || asked == Unknown) && height % 3 == 0 then OneByThree
        else OneByOne
      ensures mode == ThreeByThree ==> items == NineSlice(width, height, false)
      ensures mode == FourByFour ==> items == NineSlice(width, height, true)
      ensures mode == ThreeByOne ==> |items| == 9 && forall k :: 0 <= k < 9 ==>
        items[k] == Rect(Cut(width, false, k % 3), 0, Cut(width, false, k % 3 + 1), height)
      ensures mode == OneByThree ==> |items| == 9 && forall k :: 0 <= k < 9 ==>
        items[k] == Rect(0, Cut(height, false, k / 3), width, Cut(height, false, k / 3 + 1))
      ensures mode == OneByOne ==> items == [Rect(0, 0, width, height)]
    {
      hide NineSlice;
      DivMod(width);
      DivMod(height);
      mode := OneByOne;
      var rc := new Rect[9](_ => Rect(0, 0, 0, 0));
      var w, h := width, height;
      if asked == ThreeByThree || asked == Unknown {
        if w / 3 * 3 == w && h / 3 * 3 == h {
          w := w / 3;
          h := h / 3;
          FillGrid(rc, w, h);
          GridSlices(rc[..], width, height);
          items := rc[..];
          mode := ThreeByThree;
          return;
        }
      }
      if asked == FourByFour || asked == Unknown {
        if w / 4 * 4 == w && h / 4 * 4 == h {
          w := w / 4;
          h := h / 4;
          FillQuarters(rc, w, h);
          QuarterSlices(rc[..], width, height);
          items := rc[..];
          mode := FourByFour;
          return;
        }
      }
      if asked == ThreeByOne || asked == Unknown {
        if w / 3 * 3 == w {
          w := w / 3;
          FillColumns(rc, w, h);
          items := rc[..];
          mode := ThreeByOne;
          return;
        }
      }
      if asked == OneByThree || asked == Unknown {
        if h / 3 * 3 == h {
          h := h / 3;
          FillRows(rc, w, h);
          items := rc[..];
          mode := OneByThree;
          return;
        }
      }
      rc[0] := Rect(0, 0, width, height);
      items := rc[..1];
      mode := OneByOne;
    }

    /** The image pixel that the point (x, y) of a frame drawn in that size shows. */
    method GetPixel(x: int, y: int, renderWidth: int, renderHeight: int) returns (px: int, py: int)
      requires renderWidth != 0 && renderHeight != 0
      ensures px == MapCoord(x, width, Slices(mode, true), renderWidth)
      ensures py == MapCoord(y, height, Slices(mode, false), renderHeight)
    {
      hide Quotient;
      if mode == FourByFour {
        var w := width / 4;
        if x < w {
          px := x;
        } else if x >= renderWidth - w {
          px := width + x - renderWidth;
        } else {
          px := w + Quotient((x - w) * w * 2, renderWidth - w * 2);
        }
      } else if mode == ThreeByOne || mode == ThreeByThree {
        var w := width / 3;
        if x < w {
          px := x;
        } else if x >= renderWidth - w {
          px := width + x - renderWidth;
        } else {
          px := w + Quotient((x - w) * w, renderWidth - w * 2);
        }
      } else {
        px := Quotient(x * width, renderWidth);
      }
      if mode == FourByFour {
        var h := height / 4;
        if y < h {
          py := y;
        } else if y >= renderHeight - h {
          py := height + y - renderHeight;
        } else {
          py := h + Quotient((y - h) * h * 2, renderHeight - h * 2);
        }
      } else if mode == OneByThree || mode == ThreeByThree {
        var h := height / 3;
        if y < h {
          py := y;
        } else if y >= renderHeight - h {
          py := height + y - renderHeight;
        } else {
          py := h + Quotient((y - h) * h, renderHeight - h * 2);
        }
      } else {
        py := Quotient(y * height, renderHeight);
      }
    }
  }

  method FillGrid(rc: array<Rect>, w: nat, h: nat)
    requires rc.Length == 9
    modifies rc
    ensures forall k :: 0 <= k < 9 ==>
      rc[k] == Rect(w * (k % 3), h * (k / 3), w * (k % 3) + w, h * (k / 3) + h)
  {
    for i := 0 to 3
      invariant forall k :: 0 <= k < i * 3 ==>
        rc[k] == Rect(w * (k % 3), h * (k / 3), w * (k % 3) + w, h * (k / 3) + h)
    {
      for j := 0 to 3
        invariant forall k :: 0 <= k < i * 3 + j ==>
          rc[k] == Rect(w * (k % 3), h * (k / 3), w * (k % 3) + w, h * (k / 3) + h)
      {
        rc[i * 3 + j] := Rect(w * j, h * i, w * j + w, h * i + h);
      }
    }
  }

  method FillQuarters(rc: array<Rect>, w: nat, h: nat)
    requires rc.Length == 9
    modifies rc
    ensures forall k :: 0 <= k < 9 ==>
      rc[k] == Rect(w * Quarter(k % 3), h * Quarter(k / 3), w * Quarter(k % 3 + 1), h * Quarter(k / 3 + 1))
  {
    rc[0] := Rect(w * 0, h * 0, w * 1, h * 1);
    rc[1] := Rect(w * 1, h * 0, w * 3, h * 1);
    rc[2] := Rect(w * 3, h * 0, w * 4, h * 1);
    rc[3] := Rect(w * 0, h * 1, w * 1, h * 3);
    rc[4] := Rect(w * 1, h * 1, w * 3, h * 3);
    rc[5] := Rect(w * 3, h * 1, w * 4, h * 3);
    rc[6] := Rect(w * 0, h * 3, w * 1, h * 4);
    rc[7] := Rect(w * 1, h * 3, w * 3, h * 4);
    rc[8] := Rect(w * 3, h * 3, w * 4, h * 4);
  }

  /** The edges of the columns when a size is cut in quarters and the middle two are joined. */
  function Quarter(j: nat): nat
    requires j <= 3
  {
    if j == 0 then 0 else if j == 1 then 1 else if j == 2 then 3 else 4
  }

  lemma DivMod(n: nat)
    ensures n / 3 * 3 == n <==> n % 3 == 0
    ensures n / 4 * 4 == n <==> n % 4 == 0
  {
  }

  lemma GridSlices(rc: seq<Rect>, width: nat, height: nat)
    requires |rc| == 9
    requires var w, h := width / 3, height / 3; forall k :: 0 <= k < 9 ==>
      rc[k] == Rect(w * (k % 3), h * (k / 3), w * (k % 3) + w, h * (k / 3) + h)
    ensures rc == NineSlice(width, height, false)
  {
  }

  lemma QuarterSlices(rc: seq<Rect>, width: nat, height: nat)
    requires |rc| == 9
    requires var w, h := width / 4, height / 4; forall k :: 0 <= k < 9 ==>
      rc[k] == Rect(w * Quarter(k % 3), h * Quarter(k / 3), w * Quarter(k % 3 + 1), h * Quarter(k / 3 + 1))
    ensures rc == NineSlice(width, height, true)
  {
  }

  method FillColumns(rc: array<Rect>, w: nat, h: nat)
    requires rc.Length == 9
    modifies rc
    ensures forall k :: 0 <= k < 9 ==> rc[k] == Rect(w * (k % 3), 0, w * (k % 3) + w, h)
  {
    for i := 0 to 3
      invariant forall k :: 0 <= k < i * 3 ==> rc[k] == Rect(w * (k % 3), 0, w * (k % 3) + w, h)
    {
      for j := 0 to 3
        invariant forall k :: 0 <= k < i * 3 + j ==> rc[k] == Rect(w * (k % 3), 0, w * (k % 3) + w, h)
      {
        rc[i * 3 + j] := Rect(w * j, 0, w * j + w, h);
      }
    }
  }

  method FillRows(rc: array<Rect>, w: nat, h: nat)
    requires rc.Length == 9
    modifies rc
    ensures forall k :: 0 <= k < 9 ==> rc[k] == Rect(0, h * (k / 3), w, h * (k / 3) + h)
  {
    for i := 0 to 3
      invariant forall k :: 0 <= k < i * 3 ==> rc[k] == Rect(0, h * (k / 3), w, h * (k / 3) + h)
    {
      for j := 0 to 3
        invariant forall k :: 0 <= k < i * 3 + j ==> rc[k] == Rect(0, h * (k / 3), w, h * (k / 3) + h)
      {
        rc[i * 3 + j] := Rect(0, h * i, w, h * i + h);
      }
    }
  }

  // --------------------------------------------------------------- coordinate mapping

  /** Into how many parts a direction is cut; 0 when it is stretched as a whole. */
  function Slices(mode: Mode, horizontal: bool): nat {
    match mode
    case FourByFour => 4
    case ThreeByThree => 3
    case ThreeByOne => if horizontal then 3 else 0
    case OneByThree => if horizontal then 0 else 3
    case _ => 0
  }

  function MapCoord(x: int, size: nat, slices: nat, d: int): int
    requires d != 0
  {
    if slices == 0 then Quotient(x * size, d)
    else
      var w := size / slices;
      if x < w then x
      else if x >= d - w then size + x - d
      else w + Quotient((x - w) * w * (slices - 2), d - w * 2)
  }

  /** The band of the drawn frame that a point lies in. */
  function Band(x: int, size: nat, slices: nat, d: int): (j: nat)
    requires slices != 0
    ensures j < 3
  {
    var w := size / slices;
    if x < w then 0 else if x >= d - w then 2 else 1
  }

  lemma MiddleBand(x: int, w: nat, parts: nat, d: int)
    requires 0 < w <= x < d - w && 0 < parts
    ensures w <= w + Quotient((x - w) * w * parts, d - w * 2) < w + w * parts
  {
    var c := w * parts;
    MulAssoc(x - w, w, parts);
    MulMonotone(1, w, parts);
    ScaleBelow(x - w, d - w * 2, c);
  }

  lemma SliceWidth(size: nat, slices: nat)
    requires (slices == 3 || slices == 4) && 0 < size && size % slices == 0
    ensures size == size / slices * slices && size / slices > 0
  {
  }

  /** Every slice of the drawn frame shows the matching slice of the image. */
  lemma BandsMatch(x: int, size: nat, slices: nat, d: int)
    requires slices == 3 || slices == 4
    requires 0 < size && size % slices == 0 && 0 <= x < d
    ensures var j := Band(x, size, slices, d);
      Cut(size, slices == 4, j) <= MapCoord(x, size, slices, d) < Cut(size, slices == 4, j + 1)
  {
    hide Quotient;
    var w := size / slices;
    SliceWidth(size, slices);
    if w <= x < d - w {
      MiddleBand(x, w, slices - 2, d);
    }
  }

  lemma MulAssoc(a: int, b: int, c: int)
    ensures a * b * c == a * (b * c)
  {
  }

  /** The mapping stays in the image. */
  lemma InImage(x: int, size: nat, slices: nat, d: int)
    requires slices in {0, 3, 4}
    requires 0 < size && (slices != 0 ==> size % slices == 0) && 0 <= x < d
    ensures 0 <= MapCoord(x, size, slices, d) < size
  {
    if slices == 0 {
      ScaleBelow(x, d, size);
    } else {
      BandsMatch(x, size, slices, d);
    }
  }

  /** Points further right show pixels further right, or the same ones. */
  lemma Monotone(x: int, x': int, size: nat, slices: nat, d: int)
    requires slices in {0, 3, 4}
    requires 0 < size && (slices != 0 ==> size % slices == 0) && 0 <= x <= x' < d
    ensures MapCoord(x, size, slices, d) <= MapCoord(x', size, slices, d)
  {
    if slices == 0 {
      ScaleMonotone(x, x', size, d);
    } else {
      var w := size / slices;
      BandsMatch(x, size, slices, d);
      BandsMatch(x', size, slices, d);
      if w <= x && x' < d - w {
        MulAssoc(x - w, w, slices - 2);
        MulAssoc(x' - w, w, slices - 2);
        ScaleMonotone(x - w, x' - w, w * (slices - 2), d - w * 2);
      }
    }
  }

  /** The edges of the columns: thirds, or one, two and one quarters. */
  lemma CutIs(size: nat, j: nat)
    requires j <= 3
    ensures size % 3 == 0 ==> 3 * Cut(size, false, j) == size * j
    ensures size % 4 == 0 ==> 4 * Cut(size, true, j) == size * [0, 1, 3, 4][j]
  {
    if size % 3 == 0 {
      SliceOf(size, 3, j);
    }
    if size % 4 == 0 {
      SliceOf(size, 4, Quarter(j));
    }
  }

  lemma SliceOf(size: nat, slices: nat, j: nat)
    requires slices > 0 && size % slices == 0
    ensures slices * (size / slices * j) == size * j
  {
    var w := size / slices;
    MulAssoc(slices, w, j);
    assert slices * w == size;
  }

  /** The outer bands are shown pixel by pixel, from the nearer edge; the middle band is
      stretched in proportion over the middle column. */
  lemma MapExactly(x: int, size: nat, slices: nat, d: int)
    requires slices == 3 || slices == 4
    requires 0 < size && size % slices == 0 && 0 <= x < d
    ensures var j, p := Band(x, size, slices, d), MapCoord(x, size, slices, d);
      var left, right := Cut(size, slices == 4, 1), Cut(size, slices == 4, 2);
      && (j == 0 <==> x < left) && (j == 2 <==> x >= left && d - x <= size - right)
      && (j == 0 ==> p == x) && (j == 2 ==> size - p == d - x)
      && (j == 1 ==> (p - left) * (d - left * 2) <= (x - left) * (right - left) < (p - left + 1) * (d - left * 2))
  {
    hide Quotient;
    var w := size / slices;
    SliceWidth(size, slices);
    if w <= x < d - w {
      MulAssoc(x - w, w, slices - 2);
      MulMonotone(0, x - w, w * (slices - 2));
      QuotientIs((x - w) * (w * (slices - 2)), d - w * 2);
      QuotientBounds((x - w) * (w * (slices - 2)), d - w * 2);
    }
  }

  /** A direction that is not cut is stretched in proportion as a whole, to both sides alike. */
  lemma MapWhole(x: int, size: nat, d: int)
    requires d > 0
    ensures var p := MapCoord(x, size, 0, d); x >= 0 ==> p * d <= x * size < (p + 1) * d
    ensures MapCoord(-x, size, 0, d) == -MapCoord(x, size, 0, d)
  {
    hide Quotient;
    QuotientIs(x * size, d);
    NegatedProduct(x, size);
    if x >= 0 {
      MulMonotone(0, x, size);
      QuotientBounds(x * size, d);
    }
  }

  lemma NegatedProduct(a: int, b: int)
    ensures -a * b == -(a * b)
  {
  }

  /** The rectangle of column `i` and row `j` that a mode cuts an image into. */
  function Piece(mode: Mode, width: nat, height: nat, i: nat, j: nat): Rect
    requires i < 3 && j < 3
  {
    match mode
    case FourByFour => NineSlice(width, height, true)[j * 3 + i]
    case ThreeByThree => NineSlice(width, height, false)[j * 3 + i]
    case ThreeByOne => Rect(Cut(width, false, i), 0, Cut(width, false, i + 1), height)
    case OneByThree => Rect(0, Cut(height, false, j), width, Cut(height, false, j + 1))
    case _ => Rect(0, 0, width, height)
  }

  /** The mode cuts the image into equal parts. */
  predicate Divides(mode: Mode, width: nat, height: nat) {
    match mode
    case FourByFour => width % 4 == 0 && height % 4 == 0
    case ThreeByThree => width % 3 == 0 && height % 3 == 0
    case ThreeByOne => width % 3 == 0
    case OneByThree => height % 3 == 0
    case _ => true
  }

  /** In every mode a point shows a pixel of the rectangle in its own column and row. */
  lemma PixelInSlice(x: int, y: int, width: nat, height: nat, mode: Mode, dx: int, dy: int)
    requires Divides(mode, width, height) && 0 < width && 0 < height && 0 <= x < dx && 0 <= y < dy
    ensures var n := if mode == FourByFour then 4 else 3;
      Piece(mode, width, height, Band(x, width, n, dx), Band(y, height, n, dy))
        .Has(MapCoord(x, width, Slices(mode, true), dx), MapCoord(y, height, Slices(mode, false), dy))
  {
    hide MapCoord, Band, Cut;
    if Slices(mode, true) != 0 {
      BandsMatch(x, width, Slices(mode, true), dx);
    }
    if Slices(mode, false) != 0 {
      BandsMatch(y, height, Slices(mode, false), dy);
    }
    InImage(x, width, Slices(mode, true), dx);
    InImage(y, height, Slices(mode, false), dy);
  }

  // -------------------------------------------------------------------------- tiling

  /** The column of a nine-slice that a coordinate of the image lies in. */
  function Column(x: int, size: nat, quarters: bool): nat {
    if x < Cut(size, quarters, 1) then 0 else if x < Cut(size, quarters, 2) then 1 else 2
  }

  lemma ColumnHas(x: int, size: nat, quarters: bool, j: nat)
    requires j < 3 && size % (if quarters then 4 else 3) == 0
    ensures 0 <= x < size && j == Column(x, size, quarters) <==> Cut(size, quarters, j) <= x < Cut(size, quarters, j + 1)
  {
  }

  /** The nine rectangles tile the image: each of its pixels is in exactly one of them, and
      no other point is in any. */
  lemma Tiles(width: nat, height: nat, quarters: bool, x: int, y: int, k: nat)
    requires k < 9 && width % (if quarters then 4 else 3) == 0 && height % (if quarters then 4 else 3) == 0
    ensures NineSlice(width, height, quarters)[k].Has(x, y) <==>
      0 <= x < width && 0 <= y < height && k == Column(y, height, quarters) * 3 + Column(x, width, quarters)
  {
    ColumnHas(x, width, quarters, k % 3);
    ColumnHas(y, height, quarters, k / 3);
  }
}
