/** Cutting an indexed image into chunk tables, and the generated logic that reads it back. */
module SpriteChunks {
  import opened Arithmetic

  type Table = seq<seq<int>>

  type Tables = map<(nat, nat), Table>

  function CeilDiv(w: nat, n: nat): nat
    requires n > 0
  {
    w / n + if w % n != 0 then 1 else 0
  }

  /** The extent of chunk i along a side of length w. */
  function Extent(i: nat, n: nat, w: nat): int
    requires n > 0
  {
    if i == w / n then w - i * n else n
  }

  function Zeros(rows: nat, cols: nat): Table {
    seq(rows, _ => seq(cols, _ => 0))
  }

  /** A coordinate inside the image falls in an existing chunk, inside its extent. */
  lemma CoordinateFits(x: nat, n: nat, w: nat)
    requires n > 0 && x < w
    ensures x / n < CeilDiv(w, n)
    ensures x % n < Extent(x / n, n, w)
  {
    DivMod(x, n);
    DivMod(w, n);
    Gap(w / n, x / n, n);
  }

  lemma ExtentPositive(i: nat, n: nat, w: nat)
    requires n > 0 && i < CeilDiv(w, n)
    ensures Extent(i, n, w) > 0
  {
  }

  // ---- Building the tables ----

  /** The tables a W by H image is cut into, all of the right size. */
  ghost predicate Shaped(tables: Tables, nc: nat, nr: nat, w: nat, h: nat)
    requires nc > 0 && nr > 0
  {
    && (forall i: nat, j: nat :: (i, j) in tables <==> i < CeilDiv(w, nc) && j < CeilDiv(h, nr))
    && forall i: nat, j: nat | (i, j) in tables :: Sized(tables[(i, j)], Extent(j, nr, h), Extent(i, nc, w))
  }

  ghost predicate KeysOf(keys: seq<(nat, nat)>, tables: Tables) {
    forall k :: k in keys <==> k in tables
  }

  predicate Sized(t: Table, rows: int, cols: int) {
    |t| == rows && forall n | 0 <= n < rows :: |t[n]| == cols
  }

  /** `keys` is the order in which the tables are made, that of the dictionary. */
  method AllocateTables(nc: nat, nr: nat, w: nat, h: nat) returns (tables: Tables, keys: seq<(nat, nat)>)
    requires nc > 0 && nr > 0
    ensures Shaped(tables, nc, nr, w, h) && KeysOf(keys, tables)
  {
    tables, keys := map[], [];
    for i := 0 to CeilDiv(w, nc)
      invariant KeysOf(keys, tables)
      invariant forall a: nat, b: nat :: (a, b) in tables <==> a < i && b < CeilDiv(h, nr)
      invariant forall a: nat, b: nat | (a, b) in tables :: Sized(tables[(a, b)], Extent(b, nr, h), Extent(a, nc, w))
    {
      for j := 0 to CeilDiv(h, nr)
        invariant KeysOf(keys, tables)
        invariant forall a: nat, b: nat :: (a, b) in tables <==> (a < i && b < CeilDiv(h, nr)) || (a == i && b < j)
        invariant forall a: nat, b: nat | (a, b) in tables :: Sized(tables[(a, b)], Extent(b, nr, h), Extent(a, nc, w))
      {
        ExtentPositive(i, nc, w);
        ExtentPositive(j, nr, h);
        tables := tables[(i, j) := Zeros(Extent(j, nr, h), Extent(i, nc, w))];
        keys := keys + [(i, j)];
      }
    }
  }

  /** The cell that stands for pixel (x, y). */
  function Cell(tables: Tables, nc: nat, nr: nat, w: nat, h: nat, x: nat, y: nat): int
    requires nc > 0 && nr > 0 && Shaped(tables, nc, nr, w, h) && x < w && y < h
  {
    CoordinateFits(x, nc, w);
    CoordinateFits(y, nr, h);
    tables[(x / nc, y / nr)][y % nr][x % nc]
  }

  function Put(tables: Tables, nc: nat, nr: nat, w: nat, h: nat, x: nat, y: nat, v: int): (t: Tables)
    requires nc > 0 && nr > 0 && Shaped(tables, nc, nr, w, h) && x < w && y < h
    ensures Shaped(t, nc, nr, w, h) && t.Keys == tables.Keys
  {
    CoordinateFits(x, nc, w);
    CoordinateFits(y, nr, h);
    var k := (x / nc, y / nr);
    var row := tables[k][y % nr];
    tables[k := tables[k][y % nr := row[x % nc := v]]]
  }

  /** Distinct pixels have distinct cells. */
  lemma PutKeeps(tables: Tables, nc: nat, nr: nat, w: nat, h: nat, x: nat, y: nat, v: int, x': nat, y': nat)
    requires nc > 0 && nr > 0 && Shaped(tables, nc, nr, w, h) && x < w && y < h && x' < w && y' < h
    ensures Cell(Put(tables, nc, nr, w, h, x, y, v), nc, nr, w, h, x', y')
              == if x' == x && y' == y then v else Cell(tables, nc, nr, w, h, x', y')
  {
    CoordinateFits(x, nc, w);
    CoordinateFits(y, nr, h);
    CoordinateFits(x', nc, w);
    CoordinateFits(y', nr, h);
    DivMod(x, nc);
    DivMod(x', nc);
    DivMod(y, nr);
    DivMod(y', nr);
  }

  lemma PixelIndex(x: nat, y: nat, w: nat, h: nat)
    requires x < w && y < h
    ensures 0 <= y * w + x < w * h
  {
    Gap(y, h, w);
  }

  /** The pixel of a row-major image. */
  function Pixel(lst: seq<int>, w: nat, h: nat, x: nat, y: nat): int
    requires |lst| == w * h && x < w && y < h
  {
    PixelIndex(x, y, w, h);
    lst[y * w + x]
  }

  /** An image given row by row, as one list. */
  function Listed(rows: seq<seq<int>>): seq<int> {
    if rows == [] then [] else Listed(rows[..|rows| - 1]) + rows[|rows| - 1]
  }

  /** The pixel (x, y) is the x-th of the y-th row. */
  lemma {:induction false} PixelOfRows(rows: seq<seq<int>>, w: nat, x: nat, y: nat)
    requires (forall i | 0 <= i < |rows| :: |rows[i]| == w) && x < w && y < |rows|
    ensures |Listed(rows)| == w * |rows| && Pixel(Listed(rows), w, |rows|, x, y) == rows[y][x]
    decreases |rows|
  {
    var n := |rows| - 1;
    ListedLength(rows, w);
    ListedLength(rows[..n], w);
    PixelIndex(x, y, w, |rows|);
    if y < n {
      PixelOfRows(rows[..n], w, x, y);
      PixelIndex(x, y, w, n);
    }
  }

  lemma {:induction false} ListedLength(rows: seq<seq<int>>, w: nat)
    requires forall i | 0 <= i < |rows| :: |rows[i]| == w
    ensures |Listed(rows)| == w * |rows|
    decreases |rows|
  {
    if rows != [] {
      ListedLength(rows[..|rows| - 1], w);
    }
  }

  /** split_sprite_table's tables: every cell holds its pixel. */
  method SplitTables(lst: seq<int>, nc: nat, nr: nat, w: nat, h: nat) returns (tables: Tables, keys: seq<(nat, nat)>)
    requires nc > 0 && nr > 0 && |lst| == w * h
    ensures Shaped(tables, nc, nr, w, h) && KeysOf(keys, tables)
    ensures forall x: nat, y: nat | x < w && y < h :: Cell(tables, nc, nr, w, h, x, y) == Pixel(lst, w, h, x, y)
  {
    tables, keys := AllocateTables(nc, nr, w, h);
    for y := 0 to h
      invariant Shaped(tables, nc, nr, w, h) && KeysOf(keys, tables)
      invariant forall a: nat, b: nat | a < w && b < y ::
                  Cell(tables, nc, nr, w, h, a, b) == Pixel(lst, w, h, a, b)
    {
      for x := 0 to w
        invariant Shaped(tables, nc, nr, w, h) && KeysOf(keys, tables)
        invariant forall a: nat, b: nat | a < w && (b < y || (b == y && a < x)) ::
                    Cell(tables, nc, nr, w, h, a, b) == Pixel(lst, w, h, a, b)
      {
        tables := PutPixel(tables, lst, nc, nr, w, h, x, y);
      }
    }
  }

  method PutPixel(tables: Tables, lst: seq<int>, nc: nat, nr: nat, w: nat, h: nat, x: nat, y: nat)
    returns (t: Tables)
    requires nc > 0 && nr > 0 && |lst| == w * h && Shaped(tables, nc, nr, w, h) && x < w && y < h
    ensures Shaped(t, nc, nr, w, h) && t.Keys == tables.Keys
    ensures forall a: nat, b: nat | a < w && b < h ::
              Cell(t, nc, nr, w, h, a, b)
                == if a == x && b == y then Pixel(lst, w, h, x, y) else Cell(tables, nc, nr, w, h, a, b)
  {
    PixelIndex(x, y, w, h);
    var v := lst[y * w + x];
    t := Put(tables, nc, nr, w, h, x, y, v);
    forall a: nat, b: nat | a < w && b < h
      ensures Cell(t, nc, nr, w, h, a, b)
                == if a == x && b == y then v else Cell(tables, nc, nr, w, h, a, b)
    {
      PutKeeps(tables, nc, nr, w, h, x, y, v, a, b);
    }
  }

  // ---- Reading back through the generated conditions ----

  /** A ten-bit literal of the generated text. */
  function Lit10(n: nat): nat {
    n % 1024
  }

  function UpperPixel(idx: nat, n: nat, w: nat): nat {
    if (idx + 1) * n < w then (idx + 1) * n else w
  }

  /** One side of a chunk's generated condition. */
  predicate SideGuard(i: nat, n: nat, w: nat, x: nat) {
    Lit10(i * n) <= x < Lit10(UpperPixel(i, n, w))
  }

  lemma Lit10Id(n: nat)
    requires n < 1024
    ensures Lit10(n) == n
  {
  }

  /** Along a side that fits ten bits exactly one chunk's condition holds, the right one. */
  lemma OneGuard(i: nat, n: nat, w: nat, x: nat)
    requires n > 0 && x < w < 1024 && i < CeilDiv(w, n)
    ensures SideGuard(i, n, w, x) <==> i == x / n
  {
    ChunkStarts(i, n, w);
    var start := i * n;
    assert (i + 1) * n == start + n;
    Lit10Id(start);
    Lit10Id(UpperPixel(i, n, w));
    assert SideGuard(i, n, w, x) <==> start <= x < start + n;
    if start <= x < start + n {
      UniqueQuotient(x, i, x - start, n);
    }
    DivMod(x, n);
  }

  lemma ChunkStarts(i: nat, n: nat, w: nat)
    requires n > 0 && i < CeilDiv(w, n)
    ensures i * n < w
  {
    DivMod(w, n);
    Gap(i, w / n, n);
  }

  /** Some chunk's condition holds at coordinate x of a side. */
  ghost predicate Served(n: nat, w: nat, x: nat)
    requires n > 0
  {
    exists i: nat :: i < CeilDiv(w, n) && SideGuard(i, n, w, x)
  }

  /** Every addressable pixel of a side is served exactly when the side is shorter than 1024:
      otherwise the bound above coordinate 1023 does not fit a ten-bit literal. */
  lemma AllServedIff(n: nat, w: nat)
    requires n > 0
    ensures (forall x: nat | x < w && x < 1024 :: Served(n, w, x)) <==> w < 1024
  {
    if w < 1024 {
      forall x: nat | x < w ensures Served(n, w, x) {
        CoordinateFits(x, n, w);
        OneGuard(x / n, n, w, x);
      }
    } else {
      assert !Served(n, w, 1023);
    }
  }

  datatype Option<T> = None | Some(value: T)

  /** The chain of conditions, tried in the order the tables were made. */
  function Select(keys: seq<(nat, nat)>, nc: nat, nr: nat, w: nat, h: nat, x: nat, y: nat): Option<(nat, nat)> {
    if keys == [] then None
    else if SideGuard(keys[0].0, nc, w, x) && SideGuard(keys[0].1, nr, h, y) then Some(keys[0])
    else Select(keys[1..], nc, nr, w, h, x, y)
  }

  lemma {:induction false} SelectsChunk(keys: seq<(nat, nat)>, nc: nat, nr: nat, w: nat, h: nat, x: nat, y: nat)
    requires nc > 0 && nr > 0 && x < w < 1024 && y < h < 1024
    requires forall k | k in keys :: k.0 < CeilDiv(w, nc) && k.1 < CeilDiv(h, nr)
    ensures Select(keys, nc, nr, w, h, x, y) ==
              if (x / nc, y / nr) in keys then Some((x / nc, y / nr)) else None
  {
    if keys != [] {
      assert keys[0] in keys && keys == [keys[0]] + keys[1..];
      OneGuard(keys[0].0, nc, w, x);
      OneGuard(keys[0].1, nr, h, y);
      SelectsChunk(keys[1..], nc, nr, w, h, x, y);
    }
  }

  function At(t: Table, row: nat, col: nat): Option<int> {
    if row < |t| && col < |t[row]| then Some(t[row][col]) else None
  }

  /** The cell that the conditions and X_Index, Y_Index address, in the tables as the generator holds
      them; the parameters it writes out for them are another matter. */
  function Addressed(
    tables: Tables, keys: seq<(nat, nat)>, nc: nat, nr: nat, w: nat, h: nat, x: nat, y: nat): Option<int>
    requires 0 < nc < 1024 && 0 < nr < 1024
  {
    match Select(keys, nc, nr, w, h, x, y)
    case None => None
    case Some(k) => if k in tables then At(tables[k], y % Lit10(nr), x % Lit10(nc)) else None
  }

  lemma CellAt(tables: Tables, nc: nat, nr: nat, w: nat, h: nat, x: nat, y: nat)
    requires nc > 0 && nr > 0 && Shaped(tables, nc, nr, w, h) && x < w && y < h
    ensures (x / nc, y / nr) in tables
    ensures At(tables[(x / nc, y / nr)], y % nr, x % nc) == Some(Cell(tables, nc, nr, w, h, x, y))
  {
    CoordinateFits(x, nc, w);
    CoordinateFits(y, nr, h);
    var i, j, col, row := x / nc, y / nr, x % nc, y % nr;
    CellAtChunk(tables, nc, nr, w, h, i, j, col, row);
    assert Cell(tables, nc, nr, w, h, x, y) == tables[(i, j)][row][col];
  }

  lemma CellAtChunk(tables: Tables, nc: nat, nr: nat, w: nat, h: nat, i: nat, j: nat, col: nat, row: nat)
    requires nc > 0 && nr > 0 && Shaped(tables, nc, nr, w, h)
    requires i < CeilDiv(w, nc) && j < CeilDiv(h, nr) && col < Extent(i, nc, w) && row < Extent(j, nr, h)
    ensures (i, j) in tables && row < |tables[(i, j)]| && col < |tables[(i, j)][row]|
    ensures At(tables[(i, j)], row, col) == Some(tables[(i, j)][row][col])
  {
  }

  /** For every image with sides below 1024 and every chunk size, ragged edges included, conditions
      and indices address, in bounds, exactly the pixel's own cell. */
  lemma AddressesOwnCell(
    tables: Tables, keys: seq<(nat, nat)>, nc: nat, nr: nat, w: nat, h: nat, x: nat, y: nat)
    requires 0 < nc < 1024 && 0 < nr < 1024 && x < w < 1024 && y < h < 1024
    requires Shaped(tables, nc, nr, w, h) && KeysOf(keys, tables)
    ensures Addressed(tables, keys, nc, nr, w, h, x, y) == Some(Cell(tables, nc, nr, w, h, x, y))
  {
    CellAt(tables, nc, nr, w, h, x, y);
    KeysExist(tables, keys, nc, nr, w, h);
    SelectsChunk(keys, nc, nr, w, h, x, y);
    Lit10Id(nr);
    Lit10Id(nc);
  }

  lemma KeysExist(tables: Tables, keys: seq<(nat, nat)>, nc: nat, nr: nat, w: nat, h: nat)
    requires nc > 0 && nr > 0
    requires Shaped(tables, nc, nr, w, h) && KeysOf(keys, tables)
    ensures forall k | k in keys :: k.0 < CeilDiv(w, nc) && k.1 < CeilDiv(h, nr)
  {
  }
}
