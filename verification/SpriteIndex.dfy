/** Replacing the colours of an image by palette indices, in place, one colour after another.
    The loop rereads cells it has already rewritten, so an index can be taken for a colour. */
module SpriteIndex {
  import opened Lists
  import opened PaletteImage

  /** What becomes of a cell holding v in the rounds from `from` on. */
  function Settle(colors: seq<int>, from: nat, v: int): int
    decreases |colors| - from
  {
    if from >= |colors| then v
    else Settle(colors, from + 1, if v == colors[from] then from else v)
  }

  // ---- Entry widths ----

  function Pow2(k: nat): nat {
    if k == 0 then 1 else 2 * Pow2(k - 1)
  }

  /** Bits of a table entry: the logarithm of the number of colours, rounded up. */
  function BitsFor(n: nat): nat {
    if n <= 1 then 0 else 1 + BitsFor((n + 1) / 2)
  }

  /** That many bits tell n indices apart, and one bit less does not. */
  lemma {:induction false} BitsSuffice(n: nat)
    requires n > 0
    ensures n <= Pow2(BitsFor(n))
    ensures n > 1 ==> BitsFor(n) > 0 && Pow2(BitsFor(n) - 1) < n
  {
    if n > 1 {
      BitsSuffice((n + 1) / 2);
    }
  }

  // ---- The pass ----

  /** Below two colours the width comes out as zero, and taking the logarithm of the largest
      entry, 2 to the power of the width less one, stops the generator before it indexes anything. */
  method IndexColours(lst: array<int>) returns (colors: seq<int>, bits: nat, sized: bool)
    modifies lst
    ensures colors == FirstSeen(old(lst[..])) && bits == BitsFor(|colors|)
    ensures sized <==> |colors| >= 2
    ensures sized ==> forall p | 0 <= p < lst.Length :: lst[p] == Settle(colors, 0, old(lst[p]))
    ensures !sized ==> lst[..] == old(lst[..])
  {
    var counts;
    counts, colors := CountColours(lst);
    bits := BitsFor(|colors|);
    if |colors| > 0 { BitsSuffice(|colors|); }
    if bits == 0 {
      return colors, bits, false;
    }
    sized := true;
    for i := 0 to |colors|
      invariant forall p | 0 <= p < lst.Length :: Settle(colors, i, lst[p]) == Settle(colors, 0, old(lst[p]))
    {
      for idx := 0 to lst.Length
        invariant forall p | 0 <= p < idx :: Settle(colors, i + 1, lst[p]) == Settle(colors, 0, old(lst[p]))
        invariant forall p | idx <= p < lst.Length :: Settle(colors, i, lst[p]) == Settle(colors, 0, old(lst[p]))
      {
        if lst[idx] == colors[i] {
          lst[idx] := i;
        }
      }
    }
  }

  /** The caller's check: no colour ranked after r has the value r. */
  predicate NoLaterClash(colors: seq<int>, r: nat) {
    forall j | r < j < |colors| :: colors[j] != r
  }

  lemma {:induction false} WaitsForItsRound(colors: seq<int>, from: nat, r: nat)
    requires Distinct(colors) && from <= r < |colors|
    ensures Settle(colors, from, colors[r]) == Settle(colors, r + 1, r)
    decreases r - from
  {
    if from < r {
      assert colors[from] != colors[r];
      WaitsForItsRound(colors, from + 1, r);
    }
  }

  /** After its round a cell keeps its index, or moves on to a higher one and never returns. */
  lemma {:induction false} StaysOrClimbs(colors: seq<int>, from: nat, v: nat)
    requires v < from <= |colors|
    ensures Settle(colors, from, v) == v <==> forall j | from <= j < |colors| :: colors[j] != v
    ensures Settle(colors, from, v) == v || from <= Settle(colors, from, v) < |colors|
    decreases |colors| - from
  {
    if from < |colors| {
      StaysOrClimbs(colors, from + 1, if v == colors[from] then from else v);
    }
  }

  /** A pixel of the colour ranked r ends with index r exactly when no later colour is r. */
  lemma IndexIsRankIff(colors: seq<int>, r: nat)
    requires Distinct(colors) && r < |colors|
    ensures Settle(colors, 0, colors[r]) == r <==> NoLaterClash(colors, r)
    ensures 0 <= Settle(colors, 0, colors[r]) < |colors|
  {
    WaitsForItsRound(colors, 0, r);
    StaysOrClimbs(colors, r + 1, r);
  }

  /** For every image: the palette returns a pixel's own colour exactly when the colour's rank is
      not the value of a later colour. */
  lemma PaletteReturnsColourIff(pixels: seq<int>, p: nat) returns (r: nat)
    requires p < |pixels|
    ensures var colors := FirstSeen(pixels);
            && r < |colors| && colors[r] == pixels[p]
            && 0 <= Settle(colors, 0, pixels[p]) < |colors|
            && (colors[Settle(colors, 0, pixels[p])] == pixels[p] <==> NoLaterClash(colors, r))
  {
    var colors := FirstSeen(pixels);
    FirstSeenDistinct(pixels);
    var c := pixels[p];
    assert c in pixels;
    assert c in colors;
    r :| 0 <= r < |colors| && colors[r] == c;
    IndexIsRankIff(colors, r);
  }

  /** The failure is real: in the two-pixel image 5, 0 the first pixel reads back as 0. */
  lemma ClashExample()
    ensures FirstSeen([5, 0]) == [5, 0] && !NoLaterClash([5, 0], 0)
    ensures [5, 0][Settle([5, 0], 0, 5)] == 0
  {
  }
}
