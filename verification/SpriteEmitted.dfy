/** The parameters the generator writes out, and what the generated module reads from them. The
    declared ranges are descending and name the chunk's columns first, the literal is broken after
    as many entries as the chunk has rows, and the logic indexes by row first. */
module SpriteEmitted {
  import opened Arithmetic
  import opened Lists
  import opened SpriteChunks

  // ---- An array parameter ----

  /** A parameter declared [height - 1:0][width - 1:0] with its assignment pattern in text order. */
  datatype Parameter = Parameter(height: nat, width: nat, literal: Table)

  predicate Fits(p: Parameter) {
    Sized(p.literal, p.height, p.width)
  }

  /** Pattern items go to array elements from left to right (sections 7.6 and 10.9.1 of IEEE Std
      1800-2017), and the leftmost element of a descending range is the one with the highest index. */
  function Element(p: Parameter, a: nat, b: nat): Option<int>
    requires Fits(p)
  {
    if a < p.height && b < p.width then Some(p.literal[p.height - 1 - a][p.width - 1 - b]) else None
  }

  /** A palette of n colours declared [n - 1:0]; an index out of range reads as 0, as everywhere in an
      array of two-valued bits (section 7.4 and Table 7-1 of the same standard). */
  function PaletteAt(colours: seq<int>, i: int): int {
    if 0 <= i < |colours| then colours[|colours| - 1 - i] else 0
  }

  // ---- Writing a table out ----

  predicate Rectangular(t: Table) {
    t != [] && t[0] != [] && Sized(t, |t|, |t[0]|)
  }

  /** The entries of a table row by row. */
  function Flat(t: Table): (flat: seq<int>)
    requires Rectangular(t)
    ensures |flat| == |t| * |t[0]|
  {
    seq(|t| * |t[0]|, k requires 0 <= k < |t| * |t[0]| => EntryAt(t, k))
  }

  function EntryAt(t: Table, k: nat): int
    requires Rectangular(t) && k < |t| * |t[0]|
  {
    InRow(k, |t|, |t[0]|);
    t[k / |t[0]|][k % |t[0]|]
  }

  lemma InRow(k: nat, rows: nat, cols: nat)
    requires cols > 0 && k < rows * cols
    ensures 0 <= k / cols < rows && 0 <= k % cols < cols
  {
    DivMod(k, cols);
    Gap(rows, k / cols, cols);
  }

  lemma RowFits(g: nat, height: nat, width: nat)
    requires g < height
    ensures g * width + width == (g + 1) * width <= height * width
  {
    Gap(g, height, width);
  }

  /** Row g of a literal with rows of the given width. */
  function RowOf(flat: seq<int>, height: nat, width: nat, g: nat): (row: seq<int>)
    requires |flat| == height * width && g < height
    ensures |row| == width
  {
    RowFits(g, height, width);
    flat[g * width..g * width + width]
  }

  /** construct_sprite_table: a row is opened before an entry at a multiple of the width. */
  method ConstructTable(flat: seq<int>, ghost height: nat, width: nat) returns (literal: Table)
    requires width > 0 && |flat| == height * width
    ensures |literal| == height
    ensures forall g | 0 <= g < height :: literal[g] == RowOf(flat, height, width, g)
  {
    literal := [];
    ghost var full: nat, part: nat := 0, 0;
    for i := 0 to |flat|
      invariant i == full * width + part && part < width && full <= height
      invariant |literal| == full + if part > 0 then 1 else 0
      invariant forall g | 0 <= g < full :: literal[g] == RowOf(flat, height, width, g)
      invariant part > 0 ==> literal[full] == flat[full * width..i]
    {
      UniqueQuotient(i, full, part, width);
      MoreToCome(i, full, part, height, width);
      if i % width == 0 {
        literal := literal + [[]];
      }
      var last := |literal| - 1;
      literal := literal[last := literal[last] + [flat[i]]];
      if part + 1 < width {
        part := part + 1;
      } else {
        full, part := full + 1, 0;
      }
    }
    AllDone(full, part, height, width);
  }

  lemma MoreToCome(i: nat, full: nat, part: nat, height: nat, width: nat)
    requires i == full * width + part < height * width && part < width && full <= height
    ensures full < height && (full + 1) * width == full * width + width
  {
  }

  lemma AllDone(full: nat, part: nat, height: nat, width: nat)
    requires full * width + part == height * width && part < width && full <= height
    ensures full == height && part == 0
  {
    Gap(full, height, width);
  }

  /** What the generator declares for a table: it calls the first of numpy's dimensions, the number
      of rows, the width. */
  function Emit(t: Table): (p: Parameter)
    requires Rectangular(t)
  {
    var flat, height, width := Flat(t), |t[0]|, |t|;
    Parameter(height, width, seq(height, g requires 0 <= g < height => RowOf(flat, height, width, g)))
  }

  method EmitTable(t: Table) returns (p: Parameter)
    requires Rectangular(t)
    ensures p == Emit(t)
  {
    var width, height := |t|, |t[0]|;
    var literal := ConstructTable(Flat(t), height, width);
    p := Parameter(height, width, literal);
  }

  // ---- Reading a table back ----

  /** The row and column of the entry that a read at row a, column b of a chunk meets. */
  function EntryRead(rows: nat, cols: nat, a: nat, b: nat): (e: Option<(nat, nat)>)
    ensures e.Some? ==> e.value.0 < rows && e.value.1 < cols
  {
    if a < cols && b < rows then
      LastButK(rows, cols, a, b);
      var k := LastBut(rows, cols, a, b);
      InRow(k, rows, cols);
      Some((k / cols, k % cols))
    else None
  }

  /** What the declaration, the row breaks and the order of the literal come to. */
  lemma ElementOf(t: Table, a: nat, b: nat)
    requires Rectangular(t)
    ensures Fits(Emit(t))
    ensures Element(Emit(t), a, b) ==
              match EntryRead(|t|, |t[0]|, a, b) case None => None case Some(e) => At(t, e.0, e.1)
  {
    var rows, cols := |t|, |t[0]|;
    if a < cols && b < rows {
      LastButK(rows, cols, a, b);
      var k := LastBut(rows, cols, a, b);
      InLiteral(t, cols - 1 - a, rows - 1 - b, k);
      FlatAt(t, k);
    }
  }

  /** The position, in reading order, that far from the end. */
  function LastBut(rows: nat, cols: nat, a: nat, b: nat): int {
    rows * cols - 1 - (a * rows + b)
  }

  lemma LastButK(rows: nat, cols: nat, a: nat, b: nat)
    requires a < cols && b < rows
    ensures 0 <= LastBut(rows, cols, a, b) < rows * cols
    ensures LastBut(rows, cols, a, b) == (cols - 1 - a) * rows + (rows - 1 - b)
  {
    PixelIndex(b, a, rows, cols);
    FromTheEnd(rows, cols, a, b);
  }

  lemma FlatAt(t: Table, k: nat)
    requires Rectangular(t) && k < |t| * |t[0]|
    ensures At(t, k / |t[0]|, k % |t[0]|) == Some(Flat(t)[k])
  {
    InRow(k, |t|, |t[0]|);
  }

  lemma InLiteral(t: Table, g: nat, i: nat, k: nat)
    requires Rectangular(t) && g < |t[0]| && i < |t| && k == g * |t| + i < |Flat(t)|
    ensures Emit(t).literal[g][i] == Flat(t)[k]
  {
    RowAt(Flat(t), |t[0]|, |t|, g, i);
  }

  lemma RowAt(flat: seq<int>, height: nat, width: nat, g: nat, i: nat)
    requires |flat| == height * width && g < height && i < width
    ensures 0 <= g * width + i < |flat| && RowOf(flat, height, width, g)[i] == flat[g * width + i]
  {
    RowFits(g, height, width);
  }

  lemma FromTheEnd(rows: nat, cols: nat, a: nat, b: nat)
    requires a < cols && b < rows
    ensures (cols - 1 - a) * rows + (rows - 1 - b) == rows * cols - 1 - (a * rows + b)
  {
    assert (cols - 1 - a) * rows == cols * rows - rows - a * rows;
  }

  /** In a square chunk the order of the literal alone turns the chunk by half a turn. */
  lemma HalfTurn(n: nat, a: nat, b: nat)
    requires a < n && b < n
    ensures EntryRead(n, n, a, b) == Some((n - 1 - a, n - 1 - b))
  {
    LastButK(n, n, a, b);
    UniqueQuotient(LastBut(n, n, a, b), n - 1 - a, n - 1 - b, n);
  }

  /** Every read of a chunk is in range exactly if the chunk is square. */
  lemma InRangeIff(rows: nat, cols: nat)
    requires rows > 0 && cols > 0
    ensures (forall a: nat, b: nat | a < rows && b < cols :: EntryRead(rows, cols, a, b).Some?) <==> rows == cols
  {
    if rows < cols {
      assert EntryRead(rows, cols, 0, rows) == None;
    } else if cols < rows {
      assert EntryRead(rows, cols, cols, 0) == None;
    }
  }

  /** The entry the same read would meet with ascending ranges, which take the literal in order. */
  function EntryInOrder(rows: nat, cols: nat, a: nat, b: nat): (e: Option<(nat, nat)>) {
    if a < cols && b < rows then
      PixelIndex(b, a, rows, cols);
      InRow(a * rows + b, rows, cols);
      Some(((a * rows + b) / cols, (a * rows + b) % cols))
    else None
  }

  /** The swapped dimensions on their own: every read meets the entry asked for exactly if the chunk is
      square. */
  lemma SwapAloneIff(rows: nat, cols: nat)
    requires rows > 0 && cols > 0
    ensures (forall a: nat, b: nat | a < rows && b < cols :: EntryInOrder(rows, cols, a, b) == Some((a, b)))
            <==> rows == cols
  {
    if rows == cols {
      forall a: nat, b: nat | a < rows && b < cols ensures EntryInOrder(rows, cols, a, b) == Some((a, b)) {
        UniqueQuotient(a * rows + b, a, b, cols);
      }
    } else if rows < cols {
      assert EntryInOrder(rows, cols, 0, rows) == None;
    } else {
      assert EntryInOrder(rows, cols, cols, 0) == None;
    }
  }

  // ---- Reading an image back ----

  /** In chunk (i, j), the pixel whose entry a read at row a, column b meets. */
  function PixelMet(nc: nat, nr: nat, w: nat, h: nat, i: nat, j: nat, b: nat, a: nat): Option<(nat, nat)>
    requires nc > 0 && nr > 0 && i < CeilDiv(w, nc) && j < CeilDiv(h, nr)
  {
    ExtentPositive(i, nc, w);
    ExtentPositive(j, nr, h);
    match EntryRead(Extent(j, nr, h), Extent(i, nc, w), a, b)
    case None => None
    case Some(e) => Some((i * nc + e.1, j * nr + e.0))
  }

  /** The pixel whose entry the module meets when asked for (x, y); None out of the array's range. */
  function PixelRead(nc: nat, nr: nat, w: nat, h: nat, x: nat, y: nat): Option<(nat, nat)>
    requires nc > 0 && nr > 0 && x < w && y < h
  {
    CoordinateFits(x, nc, w);
    CoordinateFits(y, nr, h);
    PixelMet(nc, nr, w, h, x / nc, y / nr, x % nc, y % nr)
  }

  lemma ReadInChunk(nc: nat, nr: nat, w: nat, h: nat, i: nat, j: nat, b: nat, a: nat)
    requires nc > 0 && nr > 0 && i < CeilDiv(w, nc) && j < CeilDiv(h, nr)
    requires b < Extent(i, nc, w) && a < Extent(j, nr, h)
    ensures 0 <= i * nc + b < w && 0 <= j * nr + a < h
    ensures PixelRead(nc, nr, w, h, i * nc + b, j * nr + a) == PixelMet(nc, nr, w, h, i, j, b, a)
  {
    InChunk(i, b, nc, w);
    InChunk(j, a, nr, h);
  }

  lemma ReadIsMet(nc: nat, nr: nat, w: nat, h: nat, x: nat, y: nat)
    requires nc > 0 && nr > 0 && x < w && y < h
    ensures 0 <= x / nc < CeilDiv(w, nc) && 0 <= y / nr < CeilDiv(h, nr)
    ensures 0 <= x % nc < Extent(x / nc, nc, w) && 0 <= y % nr < Extent(y / nr, nr, h)
    ensures PixelRead(nc, nr, w, h, x, y) == PixelMet(nc, nr, w, h, x / nc, y / nr, x % nc, y % nr)
  {
    DivMod(x, nc);
    DivMod(y, nr);
    CoordinateFits(x, nc, w);
    CoordinateFits(y, nr, h);
  }

  /** What is met is a pixel of the image. */
  lemma MetInside(nc: nat, nr: nat, w: nat, h: nat, x: nat, y: nat)
    requires nc > 0 && nr > 0 && x < w && y < h
    ensures var p := PixelRead(nc, nr, w, h, x, y); p.Some? ==> p.value.0 < w && p.value.1 < h
  {
    ReadIsMet(nc, nr, w, h, x, y);
    MetInChunk(nc, nr, w, h, x / nc, y / nr, x % nc, y % nr);
  }

  lemma MetInChunk(nc: nat, nr: nat, w: nat, h: nat, i: nat, j: nat, b: nat, a: nat)
    requires nc > 0 && nr > 0 && i < CeilDiv(w, nc) && j < CeilDiv(h, nr)
    ensures var p := PixelMet(nc, nr, w, h, i, j, b, a); p.Some? ==> p.value.0 < w && p.value.1 < h
  {
    ExtentPositive(i, nc, w);
    ExtentPositive(j, nr, h);
    var e := EntryRead(Extent(j, nr, h), Extent(i, nc, w), a, b);
    if e.Some? {
      InChunk(i, e.value.1, nc, w);
      InChunk(j, e.value.0, nr, h);
    }
  }

  /** A place inside a chunk is a coordinate of the side. */
  lemma InChunk(i: nat, c: nat, n: nat, w: nat)
    requires n > 0 && i < CeilDiv(w, n) && c < Extent(i, n, w)
    ensures 0 <= i * n + c < w && (i * n + c) / n == i && (i * n + c) % n == c
  {
    DivMod(w, n);
    Gap(i, w / n, n);
    UniqueQuotient(i * n + c, i, c, n);
  }

  function Min(a: nat, b: nat): nat {
    if a < b then a else b
  }

  /** Every chunk is a square: equal sides, and no ragged edge. */
  predicate SquareChunks(nc: nat, nr: nat, w: nat, h: nat)
    requires nc > 0 && nr > 0
  {
    && Min(nc, w) == Min(nr, h)
    && (w <= nc || w % nc == 0)
    && (h <= nr || h % nr == 0)
  }

  lemma EvenExtent(i: nat, n: nat, w: nat)
    requires n > 0 && i < CeilDiv(w, n) && (w <= n || w % n == 0)
    ensures Extent(i, n, w) == Min(n, w)
  {
    DivMod(w, n);
    if w < n {
      UniqueQuotient(w, 0, w, n);
    }
  }

  lemma FirstExtent(n: nat, w: nat)
    requires n > 0 && w > 0
    ensures 0 < CeilDiv(w, n) && Extent(0, n, w) == Min(n, w)
  {
    DivMod(w, n);
    if w < n {
      UniqueQuotient(w, 0, w, n);
    } else {
      Gap(0, w / n, n);
    }
  }

  /** A ragged edge is a chunk smaller than the first. */
  lemma LastExtent(n: nat, w: nat)
    requires n > 0 && w > n && w % n != 0
    ensures w / n < CeilDiv(w, n) && Extent(w / n, n, w) < n
  {
    DivMod(w, n);
  }

  /** The dimension swap: every pixel's read is in range if and only if every chunk is square. */
  lemma AllInRangeIff(nc: nat, nr: nat, w: nat, h: nat)
    requires nc > 0 && nr > 0 && w > 0 && h > 0
    ensures (forall x: nat, y: nat | x < w && y < h :: PixelRead(nc, nr, w, h, x, y).Some?)
            <==> SquareChunks(nc, nr, w, h)
  {
    if SquareChunks(nc, nr, w, h) {
      forall x: nat, y: nat | x < w && y < h ensures PixelRead(nc, nr, w, h, x, y).Some? {
        SquareInRange(nc, nr, w, h, x, y);
      }
    } else if forall x: nat, y: nat | x < w && y < h :: PixelRead(nc, nr, w, h, x, y).Some? {
      FirstExtent(nc, w);
      FirstExtent(nr, h);
      ChunkSquare(nc, nr, w, h, 0, 0);
      if w > nc && w % nc != 0 {
        LastExtent(nc, w);
        ChunkSquare(nc, nr, w, h, w / nc, 0);
      } else {
        LastExtent(nr, h);
        ChunkSquare(nc, nr, w, h, 0, h / nr);
      }
    }
  }

  lemma ChunkSquare(nc: nat, nr: nat, w: nat, h: nat, i: nat, j: nat)
    requires nc > 0 && nr > 0 && i < CeilDiv(w, nc) && j < CeilDiv(h, nr)
    requires forall x: nat, y: nat | x < w && y < h :: PixelRead(nc, nr, w, h, x, y).Some?
    ensures Extent(i, nc, w) == Extent(j, nr, h)
  {
    ExtentPositive(i, nc, w);
    ExtentPositive(j, nr, h);
    var rows, cols := Extent(j, nr, h), Extent(i, nc, w);
    forall a: nat, b: nat | a < rows && b < cols ensures EntryRead(rows, cols, a, b).Some? {
      ReadInChunk(nc, nr, w, h, i, j, b, a);
      assert PixelRead(nc, nr, w, h, i * nc + b, j * nr + a).Some?;
    }
    InRangeIff(rows, cols);
  }

  lemma SquareMet(nc: nat, nr: nat, w: nat, h: nat, i: nat, j: nat, b: nat, a: nat)
    requires nc > 0 && nr > 0 && i < CeilDiv(w, nc) && j < CeilDiv(h, nr) && SquareChunks(nc, nr, w, h)
    requires b < Extent(i, nc, w) && a < Extent(j, nr, h)
    ensures var n := Min(nc, w);
            && b < n && a < n
            && PixelMet(nc, nr, w, h, i, j, b, a) == Some((i * nc + (n - 1 - b), j * nr + (n - 1 - a)))
  {
    EvenExtent(i, nc, w);
    EvenExtent(j, nr, h);
    HalfTurn(Min(nc, w), a, b);
  }

  lemma SquareInRange(nc: nat, nr: nat, w: nat, h: nat, x: nat, y: nat)
    requires nc > 0 && nr > 0 && x < w && y < h && SquareChunks(nc, nr, w, h)
    ensures PixelRead(nc, nr, w, h, x, y).Some?
  {
    ReadIsMet(nc, nr, w, h, x, y);
    SquareMet(nc, nr, w, h, x / nc, y / nr, x % nc, y % nr);
  }

  /** The order of the literal: with square chunks of side n the module asked for column b, row a of
      chunk (i, j) meets the entry opposite, so each chunk is turned by half a turn where it stands. */
  lemma SquareRead(nc: nat, nr: nat, w: nat, h: nat, i: nat, j: nat, b: nat, a: nat)
    requires nc > 0 && nr > 0 && SquareChunks(nc, nr, w, h) && i < CeilDiv(w, nc) && j < CeilDiv(h, nr)
    requires b < Min(nc, w) && a < Min(nr, h)
    ensures 0 <= i * nc + b < w && 0 <= j * nr + a < h
    ensures var n := Min(nc, w);
            PixelRead(nc, nr, w, h, i * nc + b, j * nr + a)
            == Some((i * nc + (n - 1 - b), j * nr + (n - 1 - a)))
  {
    EvenExtent(i, nc, w);
    EvenExtent(j, nr, h);
    ReadInChunk(nc, nr, w, h, i, j, b, a);
    SquareMet(nc, nr, w, h, i, j, b, a);
  }

  /** The corner of the image, if the chunks are square. */
  lemma CornerRead(nc: nat, nr: nat, w: nat, h: nat)
    requires nc > 0 && nr > 0 && w > 0 && h > 0 && SquareChunks(nc, nr, w, h)
    ensures var n := Min(nc, w); PixelRead(nc, nr, w, h, 0, 0) == Some((n - 1, n - 1))
  {
    FirstExtent(nc, w);
    FirstExtent(nr, h);
    SquareRead(nc, nr, w, h, 0, 0, 0, 0);
  }

  /** The module asked for each pixel by its own coordinates meets that pixel's entry, for the whole
      image, if and only if every chunk is a single pixel. */
  lemma OwnEntryIff(nc: nat, nr: nat, w: nat, h: nat)
    requires nc > 0 && nr > 0 && w > 0 && h > 0
    ensures (forall x: nat, y: nat | x < w && y < h :: PixelRead(nc, nr, w, h, x, y) == Some((x, y)))
            <==> Min(nc, w) == 1 && Min(nr, h) == 1
  {
    if Min(nc, w) == 1 && Min(nr, h) == 1 {
      forall x: nat, y: nat | x < w && y < h ensures PixelRead(nc, nr, w, h, x, y) == Some((x, y)) {
        SinglePixelRead(nc, nr, w, h, x, y);
      }
    }
    if forall x: nat, y: nat | x < w && y < h :: PixelRead(nc, nr, w, h, x, y) == Some((x, y)) {
      OwnEntryOnlyIf(nc, nr, w, h);
    }
  }

  lemma OwnEntryOnlyIf(nc: nat, nr: nat, w: nat, h: nat)
    requires nc > 0 && nr > 0 && w > 0 && h > 0
    requires forall x: nat, y: nat | x < w && y < h :: PixelRead(nc, nr, w, h, x, y) == Some((x, y))
    ensures Min(nc, w) == 1 && Min(nr, h) == 1
  {
    AllInRangeIff(nc, nr, w, h);
    CornerRead(nc, nr, w, h);
    assert PixelRead(nc, nr, w, h, 0, 0) == Some((0, 0));
  }

  lemma SinglePixelRead(nc: nat, nr: nat, w: nat, h: nat, x: nat, y: nat)
    requires nc > 0 && nr > 0 && x < w && y < h && Min(nc, w) == 1 && Min(nr, h) == 1
    ensures PixelRead(nc, nr, w, h, x, y) == Some((x, y))
  {
    SinglePixels(nc, nr, w, h, x, y);
    SquareRead(nc, nr, w, h, x, y, 0, 0);
  }

  lemma SinglePixels(nc: nat, nr: nat, w: nat, h: nat, x: nat, y: nat)
    requires nc > 0 && nr > 0 && x < w && y < h && Min(nc, w) == 1 && Min(nr, h) == 1
    ensures SquareChunks(nc, nr, w, h) && x < CeilDiv(w, nc) && y < CeilDiv(h, nr)
    ensures x * nc == x && y * nr == y
  {
    SinglePixel(x, nc, w);
    SinglePixel(y, nr, h);
  }

  lemma SinglePixel(x: nat, n: nat, w: nat)
    requires n > 0 && x < w && Min(n, w) == 1
    ensures (w <= n || w % n == 0) && x < CeilDiv(w, n) && x * n == x
  {
    if n > 1 {
      FirstExtent(n, w);
    }
  }

  /** Asked for each pixel by the coordinates counted from the far corner, it does so for the whole
      image if and only if the image is one square chunk. */
  lemma MirroredEntryIff(nc: nat, nr: nat, w: nat, h: nat)
    requires nc > 0 && nr > 0 && w > 0 && h > 0
    ensures (forall x: nat, y: nat | x < w && y < h :: MirroredEntry(nc, nr, w, h, x, y))
            <==> w == h && w <= nc && h <= nr
  {
    if w == h && w <= nc && h <= nr {
      forall x: nat, y: nat | x < w && y < h ensures MirroredEntry(nc, nr, w, h, x, y) {
        FirstExtent(nc, w);
        FirstExtent(nr, h);
        SquareRead(nc, nr, w, h, 0, 0, w - 1 - x, h - 1 - y);
      }
    }
    if forall x: nat, y: nat | x < w && y < h :: MirroredEntry(nc, nr, w, h, x, y) {
      MirroredOnlyIf(nc, nr, w, h);
    }
  }

  lemma MirroredOnlyIf(nc: nat, nr: nat, w: nat, h: nat)
    requires nc > 0 && nr > 0 && w > 0 && h > 0
    requires forall x: nat, y: nat | x < w && y < h :: MirroredEntry(nc, nr, w, h, x, y)
    ensures w == h && w <= nc && h <= nr
  {
    forall x: nat, y: nat | x < w && y < h ensures PixelRead(nc, nr, w, h, x, y).Some? {
      assert MirroredEntry(nc, nr, w, h, w - 1 - x, h - 1 - y);
    }
    AllInRangeIff(nc, nr, w, h);
    CornerRead(nc, nr, w, h);
    assert MirroredEntry(nc, nr, w, h, w - 1, h - 1);
  }

  predicate MirroredEntry(nc: nat, nr: nat, w: nat, h: nat, x: nat, y: nat)
    requires nc > 0 && nr > 0 && x < w && y < h
  {
    PixelRead(nc, nr, w, h, w - 1 - x, h - 1 - y) == Some((x, y))
  }

  /** A ragged edge is enough: of a 12 by 8 image in chunks of 8 by 8, the right-hand chunk, 4 columns
      wide, is declared [3:0][7:0] and read at rows up to 7. */
  lemma RaggedExample()
    ensures !SquareChunks(8, 8, 12, 8)
    ensures PixelRead(8, 8, 12, 8, 8, 3).Some? && PixelRead(8, 8, 12, 8, 8, 4) == None
  {
  }

  // ---- The palette ----

  /** An index shows its own colour exactly if it is the middle one: the palette is upside down. */
  lemma OwnColourIff(colours: seq<int>, i: nat)
    requires Distinct(colours) && i < |colours|
    ensures PaletteAt(colours, i) == colours[i] <==> 2 * i == |colours| - 1
  {
  }

  // ---- The module ----

  /** The emitted parameters, one for each table. */
  ghost predicate Emitted(params: map<(nat, nat), Parameter>, tables: Tables) {
    && params.Keys == tables.Keys
    && forall k | k in tables :: Rectangular(tables[k]) && params[k] == Emit(tables[k])
  }

  method EmitTables(tables: Tables, keys: seq<(nat, nat)>) returns (params: map<(nat, nat), Parameter>)
    requires KeysOf(keys, tables) && forall k | k in tables :: Rectangular(tables[k])
    ensures Emitted(params, tables)
  {
    params := map[];
    for n := 0 to |keys|
      invariant forall k :: k in params <==> k in keys[..n]
      invariant forall k | k in params :: k in tables && params[k] == Emit(tables[k])
    {
      var p := EmitTable(tables[keys[n]]);
      params := params[keys[n] := p];
      assert keys[..n + 1] == keys[..n] + [keys[n]];
    }
    assert keys[..|keys|] == keys;
  }

  /** The palette index the module works out for (x, y): the element of the selected parameter at
      [Y_Index][X_Index]; 0, the default, if no condition holds, and 0 if that element is out of range. */
  ghost function SpriteIndexAt(params: map<(nat, nat), Parameter>, keys: seq<(nat, nat)>,
                               nc: nat, nr: nat, w: nat, h: nat, x: nat, y: nat): int
    requires 0 < nc < 1024 && 0 < nr < 1024
  {
    match Select(keys, nc, nr, w, h, x, y)
    case None => 0
    case Some(k) =>
      if k in params && Fits(params[k]) then
        match Element(params[k], y % Lit10(nr), x % Lit10(nc)) case None => 0 case Some(i) => i
      else 0
  }

  /** What the module puts out for (x, y). */
  ghost function Output(params: map<(nat, nat), Parameter>, colours: seq<int>, keys: seq<(nat, nat)>,
                        nc: nat, nr: nat, w: nat, h: nat, x: nat, y: nat): int
    requires 0 < nc < 1024 && 0 < nr < 1024
  {
    PaletteAt(colours, SpriteIndexAt(params, keys, nc, nr, w, h, x, y))
  }

  /** The cell of the pixel met, or 0 where the read is out of range. */
  function IndexMet(tables: Tables, nc: nat, nr: nat, w: nat, h: nat, x: nat, y: nat): int
    requires nc > 0 && nr > 0 && Shaped(tables, nc, nr, w, h) && x < w && y < h
  {
    match PixelRead(nc, nr, w, h, x, y)
    case None => 0
    case Some(p) => CellMet(tables, nc, nr, w, h, p)
  }

  /** For every image with sides below 1024, whatever the chunk size: the module puts out the colour
      that the upside-down palette has for the cell of the pixel met, and where the read is out of
      range the last colour. */
  lemma OutputIs(tables: Tables, params: map<(nat, nat), Parameter>, colours: seq<int>, keys: seq<(nat, nat)>,
                 nc: nat, nr: nat, w: nat, h: nat, x: nat, y: nat)
    requires 0 < nc < 1024 && 0 < nr < 1024 && x < w < 1024 && y < h < 1024
    requires Shaped(tables, nc, nr, w, h) && KeysOf(keys, tables) && Emitted(params, tables)
    ensures var p := PixelRead(nc, nr, w, h, x, y); p.Some? ==> p.value.0 < w && p.value.1 < h
    ensures Output(params, colours, keys, nc, nr, w, h, x, y)
            == PaletteAt(colours, IndexMet(tables, nc, nr, w, h, x, y))
    ensures PixelRead(nc, nr, w, h, x, y) == None && colours != [] ==>
              Output(params, colours, keys, nc, nr, w, h, x, y) == colours[|colours| - 1]
  {
    DivMod(x, nc);
    DivMod(y, nr);
    CoordinateFits(x, nc, w);
    CoordinateFits(y, nr, h);
    KeysExist(tables, keys, nc, nr, w, h);
    SelectsChunk(keys, nc, nr, w, h, x, y);
    Lit10Id(nr);
    Lit10Id(nc);
    MetInside(nc, nr, w, h, x, y);
    ElementIs(tables, params, nc, nr, w, h, x / nc, y / nr, x % nc, y % nr);
  }

  lemma ElementIs(tables: Tables, params: map<(nat, nat), Parameter>,
                  nc: nat, nr: nat, w: nat, h: nat, i: nat, j: nat, b: nat, a: nat)
    requires nc > 0 && nr > 0 && i < CeilDiv(w, nc) && j < CeilDiv(h, nr)
    requires Shaped(tables, nc, nr, w, h) && Emitted(params, tables)
    ensures (i, j) in tables && Fits(params[(i, j)])
    ensures Element(params[(i, j)], a, b) ==
              match PixelMet(nc, nr, w, h, i, j, b, a)
              case None => None
              case Some(p) => Some(CellMet(tables, nc, nr, w, h, p))
  {
    assert (i, j) in tables;
    ElementOf(tables[(i, j)], a, b);
    EntryIsCell(tables, nc, nr, w, h, i, j, b, a);
  }

  function CellMet(tables: Tables, nc: nat, nr: nat, w: nat, h: nat, p: (nat, nat)): int
    requires nc > 0 && nr > 0 && Shaped(tables, nc, nr, w, h)
  {
    if p.0 < w && p.1 < h then Cell(tables, nc, nr, w, h, p.0, p.1) else 0
  }

  /** The entry met is the cell of the pixel met. */
  lemma EntryIsCell(tables: Tables, nc: nat, nr: nat, w: nat, h: nat, i: nat, j: nat, b: nat, a: nat)
    requires nc > 0 && nr > 0 && Shaped(tables, nc, nr, w, h) && i < CeilDiv(w, nc) && j < CeilDiv(h, nr)
    requires (i, j) in tables && Rectangular(tables[(i, j)])
    ensures var t := tables[(i, j)];
            match EntryRead(|t|, |t[0]|, a, b)
            case None => PixelMet(nc, nr, w, h, i, j, b, a) == None
            case Some(e) =>
              && PixelMet(nc, nr, w, h, i, j, b, a).Some?
              && At(t, e.0, e.1) == Some(CellMet(tables, nc, nr, w, h, PixelMet(nc, nr, w, h, i, j, b, a).value))
  {
    var rows, cols := Extent(j, nr, h), Extent(i, nc, w);
    TableSides(tables, nc, nr, w, h, i, j);
    match EntryRead(rows, cols, a, b)
    case None =>
    case Some(e) => CellIn(tables, nc, nr, w, h, i, j, e.1, e.0);
  }

  lemma TableSides(tables: Tables, nc: nat, nr: nat, w: nat, h: nat, i: nat, j: nat)
    requires nc > 0 && nr > 0 && Shaped(tables, nc, nr, w, h)
    requires (i, j) in tables && Rectangular(tables[(i, j)])
    ensures |tables[(i, j)]| == Extent(j, nr, h) && |tables[(i, j)][0]| == Extent(i, nc, w)
  {
  }

  lemma CellIn(tables: Tables, nc: nat, nr: nat, w: nat, h: nat, i: nat, j: nat, c: nat, r: nat)
    requires nc > 0 && nr > 0 && Shaped(tables, nc, nr, w, h) && i < CeilDiv(w, nc) && j < CeilDiv(h, nr)
    requires c < Extent(i, nc, w) && r < Extent(j, nr, h)
    ensures (i, j) in tables && 0 <= i * nc + c && 0 <= j * nr + r
    ensures At(tables[(i, j)], r, c) == Some(CellMet(tables, nc, nr, w, h, (i * nc + c, j * nr + r)))
  {
    InChunk(i, c, nc, w);
    InChunk(j, r, nr, h);
    CellAt(tables, nc, nr, w, h, i * nc + c, j * nr + r);
  }

  /** Exactly when a pixel of an image is shown in its own colour: what is met, or the 0 of a read out
      of range, is the mirror image of its rank in the palette. */
  lemma ShownRightIff(tables: Tables, params: map<(nat, nat), Parameter>, colours: seq<int>, keys: seq<(nat, nat)>,
                      nc: nat, nr: nat, w: nat, h: nat, x: nat, y: nat)
    requires 0 < nc < 1024 && 0 < nr < 1024 && x < w < 1024 && y < h < 1024
    requires Shaped(tables, nc, nr, w, h) && KeysOf(keys, tables) && Emitted(params, tables)
    ensures var rank, met := Cell(tables, nc, nr, w, h, x, y), IndexMet(tables, nc, nr, w, h, x, y);
            Distinct(colours) && 0 <= rank < |colours| && 0 <= met < |colours| ==>
              (Output(params, colours, keys, nc, nr, w, h, x, y) == colours[rank] <==> met == |colours| - 1 - rank)
  {
    OutputIs(tables, params, colours, keys, nc, nr, w, h, x, y);
  }

  /** Outside the image no condition holds and the module shows the last colour. */
  lemma BeyondImage(params: map<(nat, nat), Parameter>, colours: seq<int>, keys: seq<(nat, nat)>,
                    nc: nat, nr: nat, w: nat, h: nat, x: nat, y: nat)
    requires 0 < nc < 1024 && 0 < nr < 1024 && w < 1024 && h < 1024 && (x >= w || y >= h) && colours != []
    ensures Output(params, colours, keys, nc, nr, w, h, x, y) == colours[|colours| - 1]
  {
    NoneBeyond(keys, nc, nr, w, h, x, y);
  }

  /** The wiring the generated header recommends, the object's size less the distance from its
      corner: even for one square chunk it meets every pixel one place further on, and no condition
      holds in the first column and row, which therefore show the last colour. */
  lemma RecommendedWiring(params: map<(nat, nat), Parameter>, colours: seq<int>, keys: seq<(nat, nat)>,
                          nc: nat, nr: nat, w: nat, h: nat, dx: nat, dy: nat)
    requires 0 < nc && 0 < nr && 0 < w == h < 1024 && w <= nc && h <= nr && dx < w && dy < h
    ensures dx == 0 || dy == 0 ==> Select(keys, nc, nr, w, h, w - dx, h - dy) == None
    ensures (dx == 0 || dy == 0) && nc < 1024 && nr < 1024 && colours != [] ==>
              Output(params, colours, keys, nc, nr, w, h, w - dx, h - dy) == colours[|colours| - 1]
    ensures dx > 0 && dy > 0 ==> PixelRead(nc, nr, w, h, w - dx, h - dy) == Some((dx - 1, dy - 1))
  {
    if dx == 0 || dy == 0 {
      NoneBeyond(keys, nc, nr, w, h, w - dx, h - dy);
    } else {
      MirroredEntryIff(nc, nr, w, h);
      assert MirroredEntry(nc, nr, w, h, dx - 1, dy - 1);
    }
  }

  lemma {:induction false} NoneBeyond(keys: seq<(nat, nat)>, nc: nat, nr: nat, w: nat, h: nat, x: nat, y: nat)
    requires 0 < nc && 0 < nr && w < 1024 && h < 1024 && (x >= w || y >= h)
    ensures Select(keys, nc, nr, w, h, x, y) == None
  {
    if keys != [] {
      Lit10Id(UpperPixel(keys[0].0, nc, w));
      Lit10Id(UpperPixel(keys[0].1, nr, h));
      NoneBeyond(keys[1..], nc, nr, w, h, x, y);
    }
  }
}
