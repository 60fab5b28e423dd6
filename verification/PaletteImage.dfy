/** Recolouring an image in place with the merged palette: every pixel moves to its group's
    key, at most `dist` away; occurrences are conserved; doing it again changes nothing. */
module PaletteImage {
  import opened Lists
  import opened Palette
  import opened PaletteOptimal

  /** The entries are the ascending colours of the pixels with their numbers of occurrences. */
  ghost predicate Census(pixels: seq<int>, items: seq<Entry>) {
    && Ascending(items)
    && (forall c {:trigger HasChannel(items, c)} :: c in pixels <==> HasChannel(items, c))
    && (forall j | 0 <= j < |items| :: items[j].count == multiset(pixels)[items[j].channel])
  }

  /** The colour that replaces c: the key of its group. */
  function KeyOf(groups: seq<Group>, c: int): int {
    if groups == [] then c
    else if HasChannel(groups[|groups| - 1].members, c) then groups[|groups| - 1].key
    else KeyOf(groups[..|groups| - 1], c)
  }

  function Recoloured(pixels: seq<int>, groups: seq<Group>): (r: seq<int>)
    ensures |r| == |pixels|
  {
    seq(|pixels|, i requires 0 <= i < |pixels| => KeyOf(groups, pixels[i]))
  }

  // ---- Counting and sorting the colours ----

  predicate Increasing(keys: seq<int>) {
    forall i, j | 0 <= i < j < |keys| :: keys[i] < keys[j]
  }

  function Insert(keys: seq<int>, c: int): seq<int> {
    if keys == [] || c < keys[0] then [c] + keys else [keys[0]] + Insert(keys[1..], c)
  }

  lemma {:induction false} InsertKeeps(keys: seq<int>, c: int)
    requires Increasing(keys) && c !in keys
    ensures Increasing(Insert(keys, c))
    ensures forall d :: d in Insert(keys, c) <==> d in keys || d == c
  {
    if keys != [] && c >= keys[0] {
      InsertKeeps(keys[1..], c);
      var rest := Insert(keys[1..], c);
      assert keys == [keys[0]] + keys[1..];
      forall j | 0 <= j < |rest| ensures keys[0] < rest[j] {
        assert rest[j] in rest && keys[0] in keys;
      }
    }
  }

  /** How often each colour occurs; `order` is the dictionary's order, that of first sight. */
  method CountColours(lst: array<int>) returns (counts: map<int, nat>, order: seq<int>)
    ensures forall c :: c in counts <==> c in lst[..]
    ensures forall c | c in counts :: counts[c] == multiset(lst[..])[c]
    ensures order == FirstSeen(lst[..])
    ensures forall c :: c in order <==> c in counts
  {
    counts, order := map[], [];
    for i := 0 to lst.Length
      invariant forall c :: c in counts <==> c in lst[..i]
      invariant forall c | c in counts :: counts[c] == multiset(lst[..i])[c]
      invariant order == FirstSeen(lst[..i])
      invariant forall c :: c in order <==> c in counts
    {
      var el := lst[i];
      assert lst[..i + 1] == lst[..i] + [el];
      assert el !in lst[..i] ==> multiset(lst[..i])[el] == 0;
      if el !in counts {
        order := order + [el];
      }
      counts := counts[el := (if el in counts then counts[el] else 0) + 1];
    }
    assert lst[..lst.Length] == lst[..];
  }

  /** The distinct values of a list in order of first appearance. */
  function FirstSeen(s: seq<int>): seq<int> {
    if s == [] then []
    else
      var before := s[..|s| - 1];
      var x := s[|s| - 1];
      if x in before then FirstSeen(before) else FirstSeen(before) + [x]
  }

  lemma {:induction false} FirstSeenDistinct(s: seq<int>)
    ensures forall c :: c in FirstSeen(s) <==> c in s
    ensures Distinct(FirstSeen(s))
    decreases |s|
  {
    if s != [] {
      FirstSeenDistinct(s[..|s| - 1]);
      assert s == s[..|s| - 1] + [s[|s| - 1]];
    }
  }

  /** The counts in ascending order of colour. */
  method SortedItems(counts: map<int, nat>, order: seq<int>) returns (items: seq<Entry>)
    requires forall c :: c in order <==> c in counts
    requires Distinct(order)
    ensures Ascending(items)
    ensures forall c {:trigger HasChannel(items, c)} :: c in counts <==> HasChannel(items, c)
    ensures forall j | 0 <= j < |items| :: items[j].channel in counts && items[j].count == counts[items[j].channel]
  {
    var keys: seq<int> := [];
    for n := 0 to |order|
      invariant Increasing(keys)
      invariant forall c :: c in keys <==> c in order[..n]
    {
      InsertKeeps(keys, order[n]);
      keys := Insert(keys, order[n]);
      assert order[..n + 1] == order[..n] + [order[n]];
    }
    assert order[..|order|] == order;
    assert forall i | 0 <= i < |keys| :: keys[i] in keys;
    items := seq(|keys|, i requires 0 <= i < |keys| => Entry(keys[i], counts[keys[i]]));
    forall c | c in counts ensures HasChannel(items, c) {
      var i :| 0 <= i < |keys| && keys[i] == c;
      assert items[i].channel == c;
    }
  }

  // ---- The in-place pass ----

  lemma {:induction false} InOthers(key: int, members: seq<Entry>, c: int)
    ensures c in Others(key, members) <==> c != key && HasChannel(members, c)
  {
    if members != [] {
      InOthers(key, members[1..], c);
      if HasChannel(members[1..], c) {
        var j :| 0 <= j < |members[1..]| && members[1..][j].channel == c;
        assert members[j + 1].channel == c;
      }
      if HasChannel(members, c) && members[0].channel != c {
        var j :| 0 <= j < |members| && members[j].channel == c;
        assert members[1..][j - 1].channel == c;
      }
    }
  }

  /** A colour that is its group's key is in no earlier group. */
  lemma {:induction false} KeyStays(groups: seq<Group>, dist: int, g: nat)
    requires Linked(groups, dist) && dist >= 0 && g < |groups|
    ensures KeyOf(groups[..g], groups[g].key) == groups[g].key
  {
    KeysIncrease(groups, dist);
    forall i | 0 <= i < g ensures !HasChannel(groups[i].members, groups[g].key) {
      assert KeyFits(groups[i].key, groups[i].members, dist);
      assert KeyFits(groups[g].key, groups[g].members, dist);
    }
    Unmatched(groups[..g], groups[g].key);
  }

  lemma {:induction false} Unmatched(groups: seq<Group>, c: int)
    requires forall i | 0 <= i < |groups| :: !HasChannel(groups[i].members, c)
    ensures KeyOf(groups, c) == c
    decreases |groups|
  {
    if groups != [] {
      Unmatched(groups[..|groups| - 1], c);
    }
  }

  /** What one more group does to a colour. */
  lemma SwapStep(groups: seq<Group>, dist: int, g: nat, c: int)
    requires Linked(groups, dist) && dist >= 0 && g < |groups|
    ensures KeyOf(groups[..g + 1], c) ==
              if c in SwapOf(groups[g]).others then groups[g].key else KeyOf(groups[..g], c)
  {
    InOthers(groups[g].key, groups[g].members, c);
    KeyStays(groups, dist, g);
    assert groups[..g + 1][..g] == groups[..g];
  }

  /** combine_channels: merge the colours, then replace each pixel by its group's key. */
  method CombineChannels(lst: array<int>, dist: int) returns (ghost items: seq<Entry>, ghost groups: seq<Group>)
    requires dist >= 0
    modifies lst
    ensures Census(old(lst[..]), items) && Greedy(items, groups, dist)
    ensures lst[..] == Recoloured(old(lst[..]), groups)
  {
    var counts, order := CountColours(lst);
    FirstSeenDistinct(lst[..]);
    var sorted := SortedItems(counts, order);
    items := sorted;
    var result, swaps;
    result, swaps, groups := CombineChannelsCore(sorted, dist);
    for i := 0 to lst.Length
      invariant forall p | 0 <= p < i :: lst[p] == KeyOf(groups, old(lst[p]))
      invariant forall p | i <= p < lst.Length :: lst[p] == old(lst[p])
    {
      var el := lst[i];
      for g := 0 to |swaps|
        invariant lst[i] == KeyOf(groups[..g], el)
        invariant forall p | 0 <= p < lst.Length && p != i ::
                    lst[p] == if p < i then KeyOf(groups, old(lst[p])) else old(lst[p])
      {
        SwapStep(groups, dist, g, el);
        if el in swaps[g].others {
          lst[i] := swaps[g].key;
        }
      }
      assert groups[..|swaps|] == groups;
    }
  }

  // ---- What recolouring does to the image ----

  /** The group a pixel belongs to, and that it decides the pixel's new colour. */
  lemma {:induction false} KeyOfMember(items: seq<Entry>, groups: seq<Group>, dist: int, c: int) returns (k: nat)
    requires Greedy(items, groups, dist) && dist >= 0 && HasChannel(items, c)
    ensures k < |groups| && HasChannel(groups[k].members, c) && KeyOf(groups, c) == groups[k].key
    decreases |groups|
  {
    var n := |groups| - 1;
    var init := Flatten(groups[..n]);
    var j :| 0 <= j < |items| && items[j].channel == c;
    if j >= |init| {
      assert groups[n].members[j - |init|].channel == c;
      return n;
    }
    if HasChannel(groups[n].members, c) {
      return n;
    }
    assert init[j].channel == c;
    assert forall i | 0 <= i < |init| :: init[i] == items[i];
    k := KeyOfMember(init, groups[..n], dist, c);
  }

  /** Every pixel ends up on a colour of the palette, at most dist from where it was. */
  lemma PixelsMoveLittle(pixels: seq<int>, items: seq<Entry>, groups: seq<Group>, dist: int, p: nat)
    requires Census(pixels, items) && Greedy(items, groups, dist) && dist >= 0 && p < |pixels|
    ensures Recoloured(pixels, groups)[p] in Keys(groups)
    ensures pixels[p] - dist <= Recoloured(pixels, groups)[p] <= pixels[p] + dist
  {
    assert pixels[p] in pixels && HasChannel(items, pixels[p]);
    var k := KeyOfMember(items, groups, dist, pixels[p]);
    KeyIsNear(items, groups, k, dist, pixels[p]);
    assert groups[k].key in Keys(groups);
  }

  /** A group of colours that are pairwise more than dist apart is a single colour. */
  lemma SparseGroup(items: seq<Entry>, groups: seq<Group>, dist: int, k: nat, c: int)
    requires Greedy(items, groups, dist) && dist >= 0 && k < |groups| && HasChannel(groups[k].members, c)
    requires forall i, j | 0 <= i < j < |items| :: items[i].channel + dist < items[j].channel
    ensures c == groups[k].key
  {
    var members := groups[k].members;
    KeysIncrease(groups, dist);
    assert KeyFits(groups[k].key, members, dist);
    var a :| 0 <= a < |members| && members[a].channel == c;
    var b :| 0 <= b < |members| && members[b].channel == groups[k].key;
    MemberInItems(items, groups, k, a);
    MemberInItems(items, groups, k, b);
    MemberInItems(items, groups, k, 0);
    FirstIsLeast(items, groups, k, c);
  }

  /** Merging is a projection: whatever groups the merged image is given next, it stays as it is. */
  lemma MergingTwiceIsMergingOnce(
    pixels: seq<int>, items: seq<Entry>, groups: seq<Group>, items': seq<Entry>, groups': seq<Group>, dist: int)
    requires dist >= 0 && Census(pixels, items) && Greedy(items, groups, dist)
    requires Census(Recoloured(pixels, groups), items') && Greedy(items', groups', dist)
    ensures Recoloured(Recoloured(pixels, groups), groups') == Recoloured(pixels, groups)
  {
    var merged := Recoloured(pixels, groups);
    forall i, j | 0 <= i < j < |items'| ensures items'[i].channel + dist < items'[j].channel {
      var a := KeyIndex(pixels, items, groups, items', dist, i);
      var b := KeyIndex(pixels, items, groups, items', dist, j);
      KeysIncrease(groups, dist);
    }
    forall p | 0 <= p < |merged| ensures Recoloured(merged, groups')[p] == merged[p] {
      assert merged[p] in merged && HasChannel(items', merged[p]);
      var k := KeyOfMember(items', groups', dist, merged[p]);
      SparseGroup(items', groups', dist, k, merged[p]);
    }
  }

  lemma KeyIndex(
    pixels: seq<int>, items: seq<Entry>, groups: seq<Group>, items': seq<Entry>, dist: int, i: nat) returns (k: nat)
    requires dist >= 0 && Census(pixels, items) && Greedy(items, groups, dist)
    requires Census(Recoloured(pixels, groups), items') && i < |items'|
    ensures k < |groups| && groups[k].key == items'[i].channel
  {
    var merged := Recoloured(pixels, groups);
    assert HasChannel(items', items'[i].channel);
    var p :| 0 <= p < |merged| && merged[p] == items'[i].channel;
    PixelsMoveLittle(pixels, items, groups, dist, p);
    k :| 0 <= k < |groups| && groups[k].key == merged[p];
  }

  // ---- Conservation ----

  /** Occurrences of the members' colours among the pixels. */
  function Occurrences(pixels: seq<int>, members: seq<Entry>): nat {
    if members == [] then 0
    else multiset(pixels)[members[0].channel] + Occurrences(pixels, members[1..])
  }

  lemma {:induction false} OneMorePixel(pixels: seq<int>, c: int, members: seq<Entry>)
    requires Ascending(members)
    ensures Occurrences(pixels + [c], members)
            == Occurrences(pixels, members) + (if HasChannel(members, c) then 1 else 0)
  {
    if members != [] {
      OneMorePixel(pixels, c, members[1..]);
      assert HasChannel(members, c) <==> members[0].channel == c || HasChannel(members[1..], c) by {
        if HasChannel(members[1..], c) {
          var j :| 0 <= j < |members[1..]| && members[1..][j].channel == c;
          assert members[j + 1].channel == c;
        }
        if HasChannel(members, c) && members[0].channel != c {
          var j :| 0 <= j < |members| && members[j].channel == c;
          assert members[1..][j - 1].channel == c;
        }
      }
    }
  }

  lemma {:induction false} NoPixels(members: seq<Entry>)
    ensures Occurrences([], members) == 0
  {
    if members != [] { NoPixels(members[1..]); }
  }

  /** Merging any prefix of the image conserves each group's pixels. */
  lemma {:induction false} PrefixConserved(
    pixels: seq<int>, items: seq<Entry>, groups: seq<Group>, dist: int, k: nat, n: nat)
    requires Greedy(items, groups, dist) && dist >= 0 && k < |groups| && n <= |pixels|
    requires forall p | 0 <= p < |pixels| :: HasChannel(items, pixels[p])
    ensures multiset(Recoloured(pixels[..n], groups))[groups[k].key] == Occurrences(pixels[..n], groups[k].members)
    decreases n
  {
    if n == 0 {
      NoPixels(groups[k].members);
    } else {
      PrefixConserved(pixels, items, groups, dist, k, n - 1);
      var c := pixels[n - 1];
      assert pixels[..n] == pixels[..n - 1] + [c];
      assert Recoloured(pixels[..n], groups) == Recoloured(pixels[..n - 1], groups) + [KeyOf(groups, c)];
      AscendingInGroup(items, groups, k);
      OneMorePixel(pixels[..n - 1], c, groups[k].members);
      SameGroup(items, groups, dist, k, c);
    }
  }

  /** A colour takes the key of group k exactly if it is a member of group k. */
  lemma SameGroup(items: seq<Entry>, groups: seq<Group>, dist: int, k: nat, c: int)
    requires Greedy(items, groups, dist) && dist >= 0 && k < |groups| && HasChannel(items, c)
    ensures KeyOf(groups, c) == groups[k].key <==> HasChannel(groups[k].members, c)
  {
    KeysIncrease(groups, dist);
    var g := KeyOfMember(items, groups, dist, c);
    if HasChannel(groups[k].members, c) {
      OnlyGroup(items, groups, dist, g, k, c);
    }
  }

  /** Groups share no colour. */
  lemma {:induction false} OnlyGroup(items: seq<Entry>, groups: seq<Group>, dist: int, a: nat, b: nat, c: int)
    requires Greedy(items, groups, dist) && dist >= 0 && a < |groups| && b < |groups|
    requires HasChannel(groups[a].members, c) && HasChannel(groups[b].members, c)
    ensures a == b
  {
    KeysIncrease(groups, dist);
    assert KeyFits(groups[a].key, groups[a].members, dist) && KeyFits(groups[b].key, groups[b].members, dist);
    FirstIsLeast(items, groups, a, c);
    FirstIsLeast(items, groups, b, c);
  }

  lemma {:induction false} TotalIsOccurrences(pixels: seq<int>, members: seq<Entry>)
    requires forall j | 0 <= j < |members| :: members[j].count == multiset(pixels)[members[j].channel]
    ensures Total(members) == Occurrences(pixels, members)
  {
    if members != [] { TotalIsOccurrences(pixels, members[1..]); }
  }

  /** The merged table's count for a key is the number of pixels that have it afterwards. */
  lemma CountsConserved(pixels: seq<int>, items: seq<Entry>, groups: seq<Group>, dist: int,
                        result: map<int, nat>, swaps: seq<Swap>, k: nat)
    requires Census(pixels, items) && Greedy(items, groups, dist) && dist >= 0 && Tables(groups, result, swaps)
    requires k < |groups|
    ensures groups[k].key in result
    ensures result[groups[k].key] == multiset(Recoloured(pixels, groups))[groups[k].key]
  {
    forall p | 0 <= p < |pixels| ensures HasChannel(items, pixels[p]) {
      assert pixels[p] in pixels;
    }
    PrefixConserved(pixels, items, groups, dist, k, |pixels|);
    assert pixels[..|pixels|] == pixels;
    forall j | 0 <= j < |groups[k].members|
      ensures groups[k].members[j].count == multiset(pixels)[groups[k].members[j].channel]
    {
      MemberIsItem(items, groups, k, j);
    }
    TotalIsOccurrences(pixels, groups[k].members);
  }

  lemma {:induction false} MemberIsItem(items: seq<Entry>, groups: seq<Group>, k: nat, j: nat)
    requires Flatten(groups) == items && k < |groups| && j < |groups[k].members|
    ensures groups[k].members[j] in items
    decreases |groups|
  {
    var n := |groups| - 1;
    var init := Flatten(groups[..n]);
    if k == n {
      assert items[|init| + j] == groups[n].members[j];
    } else {
      MemberIsItem(init, groups[..n], k, j);
    }
  }
}
