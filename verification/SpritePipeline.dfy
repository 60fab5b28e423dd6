/** One channel from raw pixels to generated tables: merge, index, cut into chunks. */
module SpritePipeline {
  import opened Lists
  import opened Palette
  import opened PaletteOptimal
  import opened PaletteImage
  import opened SpriteIndex
  import opened SpriteChunks
  import opened SpriteEmitted

  /** The palette is usable: no colour's rank is the value of a later colour. */
  predicate ClashFree(colours: seq<int>) {
    forall r | 0 <= r < |colours| :: NoLaterClash(colours, r)
  }

  /** A single colour of the image is within dist of every pixel, or there are no pixels. */
  ghost predicate OneWillDo(pixels: seq<int>, dist: int) {
    pixels == [] || exists i | 0 <= i < |pixels| :: NearAll(pixels, pixels[i], dist)
  }

  predicate NearAll(pixels: seq<int>, c: int, dist: int) {
    forall j | 0 <= j < |pixels| :: c - dist <= pixels[j] <= c + dist
  }

  /** The merged image has fewer than two colours exactly when one colour could have done. */
  lemma OneColourIff(pixels: seq<int>, items: seq<Entry>, groups: seq<Group>, dist: int)
    requires dist >= 0 && Census(pixels, items) && Greedy(items, groups, dist)
    ensures |FirstSeen(Recoloured(pixels, groups))| < 2 <==> OneWillDo(pixels, dist)
  {
    FirstSeenDistinct(Recoloured(pixels, groups));
    if pixels != [] {
      if |FirstSeen(Recoloured(pixels, groups))| < 2 {
        OneColourDoes(pixels, items, groups, dist);
      }
      if i :| 0 <= i < |pixels| && NearAll(pixels, pixels[i], dist) {
        OneGroup(pixels, items, groups, dist, pixels[i]);
      }
    }
  }

  lemma OneColourDoes(pixels: seq<int>, items: seq<Entry>, groups: seq<Group>, dist: int)
    requires dist >= 0 && Census(pixels, items) && Greedy(items, groups, dist)
    requires pixels != [] && |FirstSeen(Recoloured(pixels, groups))| < 2
    ensures OneWillDo(pixels, dist)
  {
    var merged := Recoloured(pixels, groups);
    FirstSeenDistinct(merged);
    var k := merged[0];
    forall j | 0 <= j < |pixels| ensures k - dist <= pixels[j] <= k + dist {
      assert merged[j] in merged && k in merged;
      PixelsMoveLittle(pixels, items, groups, dist, j);
    }
    PixelsMoveLittle(pixels, items, groups, dist, 0);
    KeysCover(items, groups, dist);
    assert HasChannel(items, k);
    var i :| 0 <= i < |pixels| && pixels[i] == k;
    assert NearAll(pixels, pixels[i], dist);
  }

  lemma OneGroup(pixels: seq<int>, items: seq<Entry>, groups: seq<Group>, dist: int, c: int)
    requires dist >= 0 && Census(pixels, items) && Greedy(items, groups, dist)
    requires c in pixels && NearAll(pixels, c, dist)
    ensures |FirstSeen(Recoloured(pixels, groups))| < 2
  {
    assert HasChannel(items, c);
    forall d | HasChannel(items, d) ensures Near({c}, d, dist) {
      assert d in pixels && c in {c};
    }
    PaletteIsOptimal(items, groups, dist, {c});
    var merged := Recoloured(pixels, groups);
    FirstSeenDistinct(merged);
    var seen := FirstSeen(merged);
    if |seen| >= 2 {
      SameKey(pixels, items, groups, dist, seen[0]);
      SameKey(pixels, items, groups, dist, seen[1]);
      assert false;
    }
  }

  lemma SameKey(pixels: seq<int>, items: seq<Entry>, groups: seq<Group>, dist: int, k: int)
    requires dist >= 0 && Census(pixels, items) && Greedy(items, groups, dist)
    requires |groups| <= 1 && k in FirstSeen(Recoloured(pixels, groups))
    ensures |groups| == 1 && k == groups[0].key
  {
    var merged := Recoloured(pixels, groups);
    FirstSeenDistinct(merged);
    var p :| 0 <= p < |merged| && merged[p] == k;
    PixelsMoveLittle(pixels, items, groups, dist, p);
  }

  /** A palette of the image's own colours with one within dist of every pixel. */
  ghost predicate CoversPixels(palette: set<int>, pixels: seq<int>, dist: int) {
    && (forall p | p in palette :: p in pixels)
    && forall c {:trigger Near(palette, c, dist)} | c in pixels :: Near(palette, c, dist)
  }

  lemma SameCover(palette: set<int>, pixels: seq<int>, items: seq<Entry>, dist: int)
    requires Census(pixels, items)
    ensures CoversPixels(palette, pixels, dist) <==> Covers(palette, items, dist) && FromImage(palette, items)
  {
    if CoversPixels(palette, pixels, dist) {
      forall c | HasChannel(items, c) ensures Near(palette, c, dist) {
        assert c in pixels;
      }
    }
    if FromImage(palette, items) {
      forall p | p in palette ensures p in pixels {
        assert HasChannel(items, p);
      }
    }
    if Covers(palette, items, dist) {
      forall c | c in pixels ensures Near(palette, c, dist) {
        assert HasChannel(items, c);
      }
    }
  }

  /** The colours left in the merged image are exactly the keys. */
  lemma ColoursAreKeys(pixels: seq<int>, items: seq<Entry>, groups: seq<Group>, dist: int)
    requires dist >= 0 && Census(pixels, items) && Greedy(items, groups, dist)
    ensures Elements(FirstSeen(Recoloured(pixels, groups))) == Keys(groups)
  {
    var merged := Recoloured(pixels, groups);
    FirstSeenDistinct(merged);
    forall c | c in merged ensures c in Keys(groups) {
      var p :| 0 <= p < |merged| && merged[p] == c;
      PixelsMoveLittle(pixels, items, groups, dist, p);
    }
    forall i | 0 <= i < |groups| ensures groups[i].key in merged {
      KeyIsUsed(pixels, items, groups, dist, i);
    }
  }

  lemma KeyIsUsed(pixels: seq<int>, items: seq<Entry>, groups: seq<Group>, dist: int, i: nat)
    requires dist >= 0 && Census(pixels, items) && Greedy(items, groups, dist) && i < |groups|
    ensures groups[i].key in Recoloured(pixels, groups)
  {
    var k := groups[i].key;
    KeysIncrease(groups, dist);
    KeysCover(items, groups, dist);
    assert KeyFits(k, groups[i].members, dist) && k in Keys(groups);
    assert HasChannel(items, k) && HasChannel(groups[i].members, k);
    var p :| 0 <= p < |pixels| && pixels[p] == k;
    SameGroup(items, groups, dist, i, k);
    assert Recoloured(pixels, groups)[p] == k;
  }

  /** The emitted palette is a smallest covering one. */
  lemma ColoursAreFewest(pixels: seq<int>, items: seq<Entry>, groups: seq<Group>, dist: int, palette: set<int>)
    requires dist >= 0 && Census(pixels, items) && Greedy(items, groups, dist)
    ensures var colours := FirstSeen(Recoloured(pixels, groups));
            && CoversPixels(Elements(colours), pixels, dist)
            && (CoversPixels(palette, pixels, dist) ==> |colours| <= |palette|)
  {
    ColoursAreKeys(pixels, items, groups, dist);
    FirstSeenDistinct(Recoloured(pixels, groups));
    ElementCount(FirstSeen(Recoloured(pixels, groups)));
    PaletteIsOptimal(items, groups, dist, palette);
    SameCover(palette, pixels, items, dist);
    SameCover(Keys(groups), pixels, items, dist);
  }

  /** Index i stands for a palette colour, near c if the palette is usable. */
  predicate Faithful(colours: seq<int>, i: int, c: int, dist: int) {
    && 0 <= i < |colours|
    && (ClashFree(colours) ==> c - dist <= colours[i] <= c + dist)
  }

  /** generate_palette: `lst` is the channel of a w by h image, overwritten step by step. The palette
      is a smallest covering one. The generator gets as far as tables exactly if no single colour
      would do. Each cell then is a palette index that fits the entry, and its colour is at most
      `dist` from the original pixel whenever the palette is usable. For images and chunks with sides
      below 1024 the conditions and indices address the pixel's own cell, but what is written out
      makes the module show the mirror rank of the cell of the pixel met, if any, or the last colour. */
  method GeneratePalette(lst: array<int>, dist: int, nc: nat, nr: nat, w: nat, h: nat)
    returns (colours: seq<int>, bits: nat, tables: Tables, keys: seq<(nat, nat)>,
             params: map<(nat, nat), Parameter>, built: bool)
    requires dist >= 0 && nc > 0 && nr > 0 && lst.Length == w * h
    modifies lst
    ensures built <==> !OneWillDo(old(lst[..]), dist)
    ensures CoversPixels(Elements(colours), old(lst[..]), dist) && Distinct(colours)
    ensures forall palette :: CoversPixels(palette, old(lst[..]), dist) ==> |colours| <= |palette|
    ensures built ==> Shaped(tables, nc, nr, w, h) && |colours| <= Pow2(bits) && Emitted(params, tables)
    ensures built ==> forall x: nat, y: nat | x < w && y < h ::
              Faithful(colours, Cell(tables, nc, nr, w, h, x, y), Pixel(old(lst[..]), w, h, x, y), dist)
    ensures built && nc < 1024 && nr < 1024 ==> forall x: nat, y: nat | x < w < 1024 && y < h < 1024 ::
              Addressed(tables, keys, nc, nr, w, h, x, y) == Some(Cell(tables, nc, nr, w, h, x, y))
    ensures built && nc < 1024 && nr < 1024 ==> forall x: nat, y: nat | x < w < 1024 && y < h < 1024 ::
              Output(params, colours, keys, nc, nr, w, h, x, y)
              == PaletteAt(colours, IndexMet(tables, nc, nr, w, h, x, y))
  {
    ghost var raw := lst[..];
    ghost var items, groups := CombineChannels(lst, dist);
    OneColourIff(raw, items, groups, dist);
    SmallestPalette(raw, items, groups, dist);
    colours, bits, built := IndexColours(lst);
    if !built {
      return colours, bits, map[], [], map[], false;
    }
    BitsSuffice(|colours|);
    tables, keys, params := WriteTables(lst[..], colours, nc, nr, w, h);
    AllFaithful(raw, items, groups, dist, lst[..], tables, nc, nr, w, h);
  }

  lemma SmallestPalette(raw: seq<int>, items: seq<Entry>, groups: seq<Group>, dist: int)
    requires dist >= 0 && Census(raw, items) && Greedy(items, groups, dist)
    ensures var colours := FirstSeen(Recoloured(raw, groups));
            && Distinct(colours) && CoversPixels(Elements(colours), raw, dist)
            && forall palette :: CoversPixels(palette, raw, dist) ==> |colours| <= |palette|
  {
    FirstSeenDistinct(Recoloured(raw, groups));
    ColoursAreFewest(raw, items, groups, dist, {});
    forall palette ensures CoversPixels(palette, raw, dist) ==> |FirstSeen(Recoloured(raw, groups))| <= |palette| {
      ColoursAreFewest(raw, items, groups, dist, palette);
    }
  }

  lemma AllFaithful(raw: seq<int>, items: seq<Entry>, groups: seq<Group>, dist: int,
                    indexed: seq<int>, tables: Tables, nc: nat, nr: nat, w: nat, h: nat)
    requires dist >= 0 && nc > 0 && nr > 0 && |raw| == |indexed| == w * h
    requires Census(raw, items) && Greedy(items, groups, dist) && Shaped(tables, nc, nr, w, h)
    requires var merged := Recoloured(raw, groups);
             forall p | 0 <= p < |raw| :: indexed[p] == Settle(FirstSeen(merged), 0, merged[p])
    requires forall x: nat, y: nat | x < w && y < h ::
               Cell(tables, nc, nr, w, h, x, y) == Pixel(indexed, w, h, x, y)
    ensures forall x: nat, y: nat | x < w && y < h ::
              Faithful(FirstSeen(Recoloured(raw, groups)), Cell(tables, nc, nr, w, h, x, y),
                       Pixel(raw, w, h, x, y), dist)
  {
    var merged := Recoloured(raw, groups);
    forall x: nat, y: nat | x < w && y < h
      ensures Faithful(FirstSeen(merged), Cell(tables, nc, nr, w, h, x, y), Pixel(raw, w, h, x, y), dist)
    {
      PixelIndex(x, y, w, h);
      PixelsMoveLittle(raw, items, groups, dist, y * w + x);
      var r := PaletteReturnsColourIff(merged, y * w + x);
    }
  }

  /** The chunk tables and what is written out for them. */
  method WriteTables(lst: seq<int>, ghost colours: seq<int>, nc: nat, nr: nat, w: nat, h: nat)
    returns (tables: Tables, keys: seq<(nat, nat)>, params: map<(nat, nat), Parameter>)
    requires nc > 0 && nr > 0 && |lst| == w * h
    ensures Shaped(tables, nc, nr, w, h) && KeysOf(keys, tables) && Emitted(params, tables)
    ensures forall x: nat, y: nat | x < w && y < h :: Cell(tables, nc, nr, w, h, x, y) == Pixel(lst, w, h, x, y)
    ensures nc < 1024 && nr < 1024 ==> forall x: nat, y: nat | x < w < 1024 && y < h < 1024 ::
              Addressed(tables, keys, nc, nr, w, h, x, y) == Some(Cell(tables, nc, nr, w, h, x, y))
    ensures nc < 1024 && nr < 1024 ==> forall x: nat, y: nat | x < w < 1024 && y < h < 1024 ::
              Output(params, colours, keys, nc, nr, w, h, x, y)
              == PaletteAt(colours, IndexMet(tables, nc, nr, w, h, x, y))
  {
    tables, keys := SplitTables(lst, nc, nr, w, h);
    AllRectangular(tables, nc, nr, w, h);
    params := EmitTables(tables, keys);
    if nc < 1024 && nr < 1024 {
      forall x: nat, y: nat | x < w < 1024 && y < h < 1024
        ensures Addressed(tables, keys, nc, nr, w, h, x, y) == Some(Cell(tables, nc, nr, w, h, x, y))
      {
        AddressesOwnCell(tables, keys, nc, nr, w, h, x, y);
      }
      forall x: nat, y: nat | x < w < 1024 && y < h < 1024
        ensures Output(params, colours, keys, nc, nr, w, h, x, y)
                == PaletteAt(colours, IndexMet(tables, nc, nr, w, h, x, y))
      {
        OutputIs(tables, params, colours, keys, nc, nr, w, h, x, y);
      }
    }
  }

  lemma AllRectangular(tables: Tables, nc: nat, nr: nat, w: nat, h: nat)
    requires nc > 0 && nr > 0 && Shaped(tables, nc, nr, w, h)
    ensures forall k | k in tables :: Rectangular(tables[k])
  {
    forall k | k in tables ensures Rectangular(tables[k]) {
      assert k == (k.0, k.1);
      ExtentPositive(k.0, nc, w);
      ExtentPositive(k.1, nr, h);
    }
  }
}
