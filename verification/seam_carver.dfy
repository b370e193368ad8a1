/** The grid operations of SeamCarver: pixel tests, the squared colour
    gradient, row-major numbering, seam validation, transposition and seam
    removal. A picture is a grid of RGB triples; `pixels[row][col]` is the
    pixel the Java code reads with `picture.get(col, row)`. */
module SeamCarver {
  import opened Base

  /** One colour channel of java.awt.Color. */
  type Channel = c: int | 0 <= c <= 255

  datatype Color = Color(red: Channel, green: Channel, blue: Channel)

  datatype Picture = Picture(width: nat, height: nat, pixels: seq<seq<Color>>)

  /** The grid has `height` rows of `width` pixels each. */
  predicate Valid(p: Picture) {
    && |p.pixels| == p.height
    && forall row :: 0 <= row < p.height ==> |p.pixels[row]| == p.width
  }

  predicate InRange(p: Picture, col: int, row: int) {
    0 <= col < p.width && 0 <= row < p.height
  }

  /** `picture.get(col, row)`: the library rejects indices outside the grid. */
  function Get(p: Picture, col: int, row: int): (r: Result<Color>)
    requires Valid(p)
    ensures r.Ok? <==> InRange(p, col, row)
    ensures r.Err? ==> r.failure == IndexOutOfBounds
  {
    if InRange(p, col, row) then Ok(p.pixels[row][col]) else Err(IndexOutOfBounds)
  }

  // ---------------------------------------------------------------------
  // Pixel tests

  /** `isValidPixel` as written: the four bounds are joined with `||`, and
      every integer is either at least 0 or below the width. */
  function IsValidPixel(p: Picture, x: int, y: int): (r: bool)
    ensures r
  {
    x >= 0 || x < p.width || y >= 0 || y < p.height
  }

  /** `isBorderPixel`: the first or last column, or the first or last row. */
  predicate IsBorderPixel(p: Picture, x: int, y: int) {
    x == 0 || x == p.width - 1 || y == 0 || y == p.height - 1
  }

  /** A pixel of the grid is on the border exactly when one of its four
      neighbours lies outside the grid. */
  lemma BorderIffNeighbourOutside(p: Picture, x: int, y: int)
    requires InRange(p, x, y)
    ensures IsBorderPixel(p, x, y) <==>
      (!InRange(p, x - 1, y) || !InRange(p, x + 1, y) || !InRange(p, x, y - 1) || !InRange(p, x, y + 1))
  {
  }

  // ---------------------------------------------------------------------
  // Arithmetic

  /** `gradient(a, b)`: the sum of the squared channel differences. Each
      difference is at most 255 in size, so the Java `int` products do not
      overflow. */
  function Gradient(a: Color, b: Color): (r: nat)
    ensures r == 0 <==> a == b
    ensures r <= 3 * 255 * 255
  {
    Square(a.red - b.red) + Square(a.green - b.green) + Square(a.blue - b.blue)
  }

  function Square(k: int): (r: nat)
    ensures r == 0 <==> k == 0
    ensures -255 <= k <= 255 ==> r <= 255 * 255
  {
    var m := if k < 0 then -k else k;
    SquareFacts(m);
    m * m
  }

  lemma SquareFacts(m: nat)
    ensures m * m >= 0
    ensures m * m == 0 <==> m == 0
    ensures m <= 255 ==> m * m <= 255 * 255
  {
    if m > 0 {
      MulMonotone(1, m, m);
    }
    if m <= 255 {
      MulMonotone(m, 255, m);
      MulMonotone(m, 255, 255);
    }
  }

  /** The gradient does not depend on the order of its arguments. */
  lemma GradientSymmetric(a: Color, b: Color)
    ensures Gradient(a, b) == Gradient(b, a)
  {
  }

  /** `position(col, row)`: the row-major number of a pixel. */
  function Position(p: Picture, col: int, row: int): (r: int)
  {
    p.width * row + col
  }

  /** Row-major numbering is inverted by `/` and `%` (as `verticalSeam` uses
      them) and numbers the grid's pixels 0 .. width * height - 1. */
  lemma PositionInverse(p: Picture, col: int, row: int)
    requires 0 <= col < p.width && 0 <= row
    ensures 0 <= Position(p, col, row)
    ensures Position(p, col, row) / p.width == row
    ensures Position(p, col, row) % p.width == col
    ensures row < p.height ==> Position(p, col, row) < p.width * p.height
  {
    MulMonotone(0, row, p.width);
    DivModUnique(Position(p, col, row), p.width, row, col);
    if row < p.height {
      MulMonotone(row + 1, p.height, p.width);
      assert p.width * (row + 1) == p.width * row + p.width;
    }
  }

  /** Euclidean division has a unique quotient and remainder. */
  lemma DivModUnique(x: int, w: int, q: int, r: int)
    requires 0 < w && 0 <= r < w
    requires x == w * q + r
    ensures x / w == q && x % w == r
  {
    var q', r' := x / w, x % w;
    assert x == w * q' + r';
    assert w * (q - q') == r' - r;
    if q - q' >= 1 {
      MulMonotone(1, q - q', w);
    } else if q' - q >= 1 {
      MulMonotone(1, q' - q, w);
    }
  }

  lemma MulMonotone(a: nat, b: nat, w: nat)
    requires a <= b
    ensures w * a <= w * b
  {
  }

  lemma PositionInjective(p: Picture, c1: int, r1: int, c2: int, r2: int)
    requires 0 <= c1 < p.width && 0 <= r1 && 0 <= c2 < p.width && 0 <= r2
    ensures Position(p, c1, r1) == Position(p, c2, r2) <==> c1 == c2 && r1 == r2
  {
    PositionInverse(p, c1, r1);
    PositionInverse(p, c2, r2);
  }

  // ---------------------------------------------------------------------
  // Energy (squared; `Math.sqrt` is not modelled)

  /** The energy of a pixel: the border constant 1000, or the square root of
      the summed gradients across the pixel. */
  datatype Energy = Border | Interior(squaredGradient: nat)

  /** The energy sum for an interior pixel whose four neighbours exist. */
  function InteriorEnergy(p: Picture, x: int, y: int): (r: nat)
    requires Valid(p)
    requires InRange(p, x - 1, y) && InRange(p, x + 1, y) && InRange(p, x, y - 1) && InRange(p, x, y + 1)
    ensures r == 0 <==> p.pixels[y][x - 1] == p.pixels[y][x + 1] && p.pixels[y - 1][x] == p.pixels[y + 1][x]
  {
    Gradient(p.pixels[y][x - 1], p.pixels[y][x + 1]) + Gradient(p.pixels[y - 1][x], p.pixels[y + 1][x])
  }

  /** `energy(x, y)` as written. The validity test always passes, so a
      coordinate outside the grid on a border line gets the border energy,
      and any other outside coordinate fails in `picture.get`. */
  function EnergySquared(p: Picture, x: int, y: int): (r: Result<Energy>)
    requires Valid(p)
    ensures r == Ok(Border) <==> IsBorderPixel(p, x, y)
    ensures !IsBorderPixel(p, x, y) && InRange(p, x, y) ==> r == Ok(Interior(InteriorEnergy(p, x, y)))
    ensures !IsBorderPixel(p, x, y) && !InRange(p, x, y) ==> r == Err(IndexOutOfBounds)
  {
    if !IsValidPixel(p, x, y) then Err(IndexOutOfBounds)
    else if IsBorderPixel(p, x, y) then Ok(Border)
    else
      match (Get(p, x - 1, y), Get(p, x + 1, y), Get(p, x, y - 1), Get(p, x, y + 1))
      case (Ok(left), Ok(right), Ok(up), Ok(down)) =>
        Ok(Interior(Gradient(left, right) + Gradient(up, down)))
      case _ => Err(IndexOutOfBounds)
  }

  /** Every column of row 0 counts as a border pixel, including columns
      outside the picture: `energy(-1, 0)` returns the border energy. */
  lemma EnergyOutsideOnFirstRow(p: Picture, x: int)
    requires Valid(p)
    requires x < 0 || p.width <= x
    ensures !InRange(p, x, 0)
    ensures EnergySquared(p, x, 0) == Ok(Border)
  {
  }

  /** `energy(x, y)` with the bounds joined by `&&`, as the exception it
      throws intends: every coordinate outside the grid is rejected. */
  function EnergySquaredChecked(p: Picture, x: int, y: int): (r: Result<Energy>)
    requires Valid(p)
    ensures r.Err? <==> !InRange(p, x, y)
    ensures r.Err? ==> r.failure == IndexOutOfBounds
    ensures r == Ok(Border) <==> InRange(p, x, y) && IsBorderPixel(p, x, y)
    ensures InRange(p, x, y) ==> r == EnergySquared(p, x, y)
  {
    if !InRange(p, x, y) then Err(IndexOutOfBounds)
    else if IsBorderPixel(p, x, y) then Ok(Border)
    else
      BorderIffNeighbourOutside(p, x, y);
      Ok(Interior(InteriorEnergy(p, x, y)))
  }

  // ---------------------------------------------------------------------
  // Seams

  /** The checks of `checkSeamValidity` for a seam crossing `along` lines of
      a picture `across` pixels wide: the picture is wider than one pixel,
      the seam has one entry per line, and neighbouring entries differ by at
      most one. The entries themselves are not range-checked. */
  predicate SeamFits(across: nat, along: nat, seam: seq<int>) {
    && across > 1
    && |seam| == along
    && forall i :: 0 <= i < |seam| - 1 ==> -1 <= seam[i] - seam[i + 1] <= 1
  }

  /** Every entry of the seam names a pixel of its line. */
  predicate EntriesBelow(across: nat, seam: seq<int>) {
    forall i :: 0 <= i < |seam| ==> 0 <= seam[i] < across
  }

  function Abs(k: int): (r: nat)
    ensures r == k || r == -k
  {
    if k < 0 then -k else k
  }

  /** `checkSeamValidity`: None when the seam passes, else the exception. */
  method CheckSeamValidity(p: Picture, seam: seq<int>) returns (r: Option<Failure>)
    ensures r.None? <==> SeamFits(p.width, p.height, seam)
    ensures r.Some? ==> r.value == IllegalArgument
  {
    if p.width <= 1 {
      return Some(IllegalArgument);
    }
    if |seam| != p.height {
      return Some(IllegalArgument);
    }
    var i := 0;
    while i < |seam| - 1
      invariant 0 <= i <= |seam|
      invariant i <= |seam| - 1 || |seam| == 0
      invariant forall k :: 0 <= k < i ==> -1 <= seam[k] - seam[k + 1] <= 1
    {
      if Abs(seam[i] - seam[i + 1]) > 1 {
        return Some(IllegalArgument);
      }
      i := i + 1;
    }
    return None;
  }

  /** The range of the entries is not checked: a straight seam through any
      column, inside the picture or not, passes. */
  lemma StraightSeamPasses(p: Picture, col: int)
    requires p.width > 1
    ensures SeamFits(p.width, p.height, seq(p.height, _ => col))
  {
  }

  // ---------------------------------------------------------------------
  // Transposition

  /** `transpose`: the new picture is `height` wide and `width` tall, and its
      pixel (col, row) is the old pixel (row, col). */
  function Transpose(p: Picture): (r: Picture)
    requires Valid(p)
    ensures Valid(r)
    ensures r.width == p.height && r.height == p.width
    ensures forall row, col :: 0 <= row < r.height && 0 <= col < r.width ==>
              r.pixels[row][col] == p.pixels[col][row]
  {
    Picture(p.height, p.width,
            seq(p.width, row requires 0 <= row < p.width =>
              seq(p.height, col requires 0 <= col < p.height => p.pixels[col][row])))
  }

  /** Transposing twice gives back the original picture. */
  lemma TransposeTwice(p: Picture)
    requires Valid(p)
    ensures Transpose(Transpose(p)) == p
  {
    var q := Transpose(Transpose(p));
    forall row | 0 <= row < p.height
      ensures q.pixels[row] == p.pixels[row]
    {
      assert |q.pixels[row]| == |p.pixels[row]|;
    }
  }

  // ---------------------------------------------------------------------
  // Seam removal

  /** A line with the pixel at `k` deleted and every other pixel kept in
      order. */
  function RemoveAt(s: seq<Color>, k: int): (r: seq<Color>)
    requires 0 <= k < |s|
    ensures |r| == |s| - 1
    ensures forall c :: 0 <= c < k ==> r[c] == s[c]
    ensures forall c :: k <= c < |r| ==> r[c] == s[c + 1]
  {
    s[..k] + s[k + 1..]
  }

  /** The outcome `removeVerticalSeam` is meant to have: the checks of
      `checkSeamValidity`, then a failed `result.set` for an entry outside
      the picture, else the picture one column narrower with each row's
      seam pixel deleted. */
  function VerticalRemoval(p: Picture, seam: seq<int>): (r: Result<Picture>)
    requires Valid(p)
    ensures r.Err? <==> !SeamFits(p.width, p.height, seam) || !EntriesBelow(p.width, seam)
    ensures !SeamFits(p.width, p.height, seam) ==> r == Err(IllegalArgument)
    ensures SeamFits(p.width, p.height, seam) && !EntriesBelow(p.width, seam) ==> r == Err(IndexOutOfBounds)
    ensures r.Ok? ==> Valid(r.value) && r.value.width == p.width - 1 && r.value.height == p.height
    ensures r.Ok? ==> forall row :: 0 <= row < p.height ==>
              r.value.pixels[row] == RemoveAt(p.pixels[row], seam[row])
  {
    if !SeamFits(p.width, p.height, seam) then Err(IllegalArgument)
    else if !EntriesBelow(p.width, seam) then Err(IndexOutOfBounds)
    else Ok(Picture(p.width - 1, p.height,
                    seq(p.height, row requires 0 <= row < p.height => RemoveAt(p.pixels[row], seam[row]))))
  }

  /** The inner loop of `removeVerticalSeam` for one row: copy every pixel
      but the one in column `k` into the next free column of a line one
      pixel shorter; None when a pixel would land beyond its end. */
  method CopyRowWithout(line: seq<Color>, k: int) returns (r: Option<seq<Color>>)
    requires |line| >= 1
    ensures r.Some? <==> 0 <= k < |line|
    ensures r.Some? ==> r.value == RemoveAt(line, k)
  {
    var out: seq<Color> := [];
    var col := 0;
    while col < |line|
      invariant 0 <= col <= |line|
      invariant 0 <= k < col ==> out == line[..k] + line[k + 1..col]
      invariant !(0 <= k < col) ==> out == line[..col] && col < |line|
    {
      if col != k {
        if |out| == |line| - 1 {
          return None;
        }
        out := out + [line[col]];
      }
      col := col + 1;
    }
    return Some(out);
  }

  /** `removeVerticalSeam`: the seam check, then the rows copied one at a
      time; a failing row abandons the new picture. */
  method RemoveVerticalSeam(p: Picture, seam: seq<int>) returns (r: Result<Picture>)
    requires Valid(p)
    ensures r == VerticalRemoval(p, seam)
  {
    var check := CheckSeamValidity(p, seam);
    if check.Some? {
      return Err(check.value);
    }
    var rows: seq<seq<Color>> := [];
    var row := 0;
    while row < p.height
      invariant 0 <= row <= p.height
      invariant |rows| == row
      invariant forall i :: 0 <= i < row ==> 0 <= seam[i] < p.width && rows[i] == RemoveAt(p.pixels[i], seam[i])
    {
      var cut := CopyRowWithout(p.pixels[row], seam[row]);
      if cut.None? {
        return Err(IndexOutOfBounds);
      }
      rows := rows + [cut.value];
      row := row + 1;
    }
    ghost var expected := VerticalRemoval(p, seam);
    assert expected.Ok? && expected.value.pixels == rows;
    return Ok(Picture(p.width - 1, p.height, rows));
  }

  /** The carver's picture after a call, and the exception if one escaped. */
  datatype Outcome = Outcome(picture: Picture, failure: Option<Failure>)

  /** `removeHorizontalSeam` as written: transpose, remove a vertical seam,
      transpose back. When the vertical removal throws, the second
      transpose is skipped and the carver keeps the transposed picture. */
  function RemoveHorizontalSeam(p: Picture, seam: seq<int>): (o: Outcome)
    requires Valid(p)
    ensures o.failure.None? <==> SeamFits(p.height, p.width, seam) && EntriesBelow(p.height, seam)
    ensures o.failure.Some? ==> o.picture == Transpose(p)
    ensures o.failure.None? ==> HorizontallyRemoved(p, seam, o.picture)
  {
    match VerticalRemoval(Transpose(p), seam)
    case Err(f) => Outcome(Transpose(p), Some(f))
    case Ok(q) =>
      var o := Outcome(Transpose(q), None);
      HorizontalRemovalShape(p, seam, q);
      o
  }

  /** `after` is `p` one row shorter, with the pixel in row `seam[col]` of
      each column deleted and the rest of the column kept in order. */
  predicate HorizontallyRemoved(p: Picture, seam: seq<int>, after: Picture)
    requires Valid(p) && |seam| == p.width
  {
    && Valid(after)
    && after.width == p.width && after.height == p.height - 1
    && forall row, col :: 0 <= row < after.height && 0 <= col < after.width ==>
         after.pixels[row][col] == p.pixels[if row < seam[col] then row else row + 1][col]
  }

  lemma HorizontalRemovalShape(p: Picture, seam: seq<int>, q: Picture)
    requires Valid(p)
    requires VerticalRemoval(Transpose(p), seam) == Ok(q)
    ensures |seam| == p.width
    ensures HorizontallyRemoved(p, seam, Transpose(q))
  {
    var t := Transpose(p);
    var after := Transpose(q);
    forall row, col | 0 <= row < after.height && 0 <= col < after.width
      ensures after.pixels[row][col] == p.pixels[if row < seam[col] then row else row + 1][col]
    {
      assert after.pixels[row][col] == q.pixels[col][row];
      assert q.pixels[col] == RemoveAt(t.pixels[col], seam[col]);
    }
  }

  /** When the seam is rejected and the picture is not square, the carver is
      left holding a picture of the wrong shape. */
  lemma RejectedHorizontalSeamTransposes(p: Picture, seam: seq<int>)
    requires Valid(p)
    requires p.width != p.height
    requires !SeamFits(p.height, p.width, seam)
    ensures RemoveHorizontalSeam(p, seam).failure == Some(IllegalArgument)
    ensures RemoveHorizontalSeam(p, seam).picture.width == p.height
    ensures RemoveHorizontalSeam(p, seam).picture != p
  {
  }

  /** `removeHorizontalSeam` with the picture restored on failure, as a
      failed `removeVerticalSeam` leaves its picture: the call either
      removes the seam or changes nothing. */
  function RemoveHorizontalSeamAtomic(p: Picture, seam: seq<int>): (o: Outcome)
    requires Valid(p)
    ensures o.failure.None? <==> SeamFits(p.height, p.width, seam) && EntriesBelow(p.height, seam)
    ensures !SeamFits(p.height, p.width, seam) ==> o.failure == Some(IllegalArgument)
    ensures o.failure.Some? ==> o.picture == p
    ensures o.failure.None? ==> HorizontallyRemoved(p, seam, o.picture)
    ensures o.failure.None? ==> o == RemoveHorizontalSeam(p, seam)
  {
    var o := RemoveHorizontalSeam(p, seam);
    if o.failure.Some? then Outcome(p, o.failure) else o
  }
}
