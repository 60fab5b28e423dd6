/** What the greedy merge guarantees: a smallest palette, small errors, and a projection. */
module PaletteOptimal {
  import opened Palette

  predicate HasChannel(members: seq<Entry>, c: int) {
    exists j | 0 <= j < |members| :: members[j].channel == c
  }

  ghost predicate Near(palette: set<int>, c: int, dist: int) {
    exists p | p in palette :: c - dist <= p <= c + dist
  }

  /** Every colour of the channel has a palette colour within dist. */
  ghost predicate Covers(palette: set<int>, items: seq<Entry>, dist: int) {
    forall c {:trigger Near(palette, c, dist)} | HasChannel(items, c) :: Near(palette, c, dist)
  }

  /** The palette uses only colours of the channel. */
  ghost predicate FromImage(palette: set<int>, items: seq<Entry>) {
    forall p {:trigger HasChannel(items, p)} | p in palette :: HasChannel(items, p)
  }

  // ---- Optimality ----

  lemma {:induction false} MemberInItems(items: seq<Entry>, groups: seq<Group>, i: nat, j: nat)
    requires Flatten(groups) == items && i < |groups| && j < |groups[i].members|
    ensures HasChannel(items, groups[i].members[j].channel)
    decreases |groups|
  {
    var n := |groups| - 1;
    var init := Flatten(groups[..n]);
    if i == n {
      assert items[|init| + j] == groups[n].members[j];
    } else {
      MemberInItems(init, groups[..n], i, j);
      var k :| 0 <= k < |init| && init[k].channel == groups[i].members[j].channel;
      assert items[k] == init[k];
    }
  }

  /** A colour of the image within dist of a group's first member is not above its key. */
  lemma InReach(items: seq<Entry>, groups: seq<Group>, i: nat, dist: int, p: int)
    requires Greedy(items, groups, dist) && dist >= 0 && i < |groups| && HasChannel(items, p)
    requires groups[i].members != [] && p <= groups[i].members[0].channel + dist
    ensures p <= groups[i].key
  {
    KeysIncrease(groups, dist);
    var k := OwnGroup(items, groups, p);
    FirstIsLeast(items, groups, k, p);
    var j :| 0 <= j < |groups[k].members| && groups[k].members[j].channel == p;
    assert KeyFits(groups[k].key, groups[k].members, dist);
  }

  /** A member of the palette that covers the first member of group i. */
  lemma PickOne(items: seq<Entry>, groups: seq<Group>, dist: int, palette: set<int>, i: nat) returns (p: int)
    requires Greedy(items, groups, dist) && dist >= 0 && i < |groups|
    requires Covers(palette, items, dist) && FromImage(palette, items)
    ensures p in palette && p <= groups[i].key
    ensures groups[i].members != [] && groups[i].members[0].channel - dist <= p
  {
    KeysIncrease(groups, dist);
    MemberInItems(items, groups, i, 0);
    var c := groups[i].members[0].channel;
    assert Near(palette, c, dist);
    p :| p in palette && c - dist <= p <= c + dist;
    InReach(items, groups, i, dist, p);
  }

  /** In any covering palette, the colours covering the groups' first members are distinct:
      each lies at or below its group's key, and the next group starts beyond its reach. */
  lemma {:induction false} DistinctCovers(items: seq<Entry>, groups: seq<Group>, dist: int, palette: set<int>, n: nat)
    returns (chosen: set<int>)
    requires Greedy(items, groups, dist) && dist >= 0 && n <= |groups|
    requires Covers(palette, items, dist) && FromImage(palette, items)
    ensures chosen <= palette && |chosen| == n
    ensures n > 0 ==> forall p | p in chosen :: p <= groups[n - 1].key
  {
    if n == 0 {
      return {};
    }
    chosen := DistinctCovers(items, groups, dist, palette, n - 1);
    var p := PickOne(items, groups, dist, palette, n - 1);
    if n > 1 {
      KeysIncrease(groups, dist);
      assert groups[n - 2].key + dist < groups[n - 1].members[0].channel;
    }
    chosen := chosen + {p};
  }

  lemma {:induction false} OwnGroup(items: seq<Entry>, groups: seq<Group>, c: int) returns (k: nat)
    requires Flatten(groups) == items && HasChannel(items, c)
    ensures k < |groups| && HasChannel(groups[k].members, c)
    decreases |groups|
  {
    var n := |groups| - 1;
    var init := Flatten(groups[..n]);
    var j :| 0 <= j < |items| && items[j].channel == c;
    if j < |init| {
      assert init[j].channel == c;
      k := OwnGroup(init, groups[..n], c);
    } else {
      assert groups[n].members[j - |init|].channel == c;
      k := n;
    }
  }

  lemma {:induction false} AscendingInGroup(items: seq<Entry>, groups: seq<Group>, k: nat)
    requires Flatten(groups) == items && Ascending(items) && k < |groups|
    ensures Ascending(groups[k].members)
    decreases |groups|
  {
    var n := |groups| - 1;
    var init := Flatten(groups[..n]);
    if k == n {
      assert forall j | 0 <= j < |groups[n].members| :: items[|init| + j] == groups[n].members[j];
    } else {
      assert forall j | 0 <= j < |init| :: items[j] == init[j];
      AscendingInGroup(init, groups[..n], k);
    }
  }

  lemma {:induction false} FirstIsLeast(items: seq<Entry>, groups: seq<Group>, k: nat, c: int)
    requires Flatten(groups) == items && Ascending(items) && k < |groups| && HasChannel(groups[k].members, c)
    ensures groups[k].members != [] && groups[k].members[0].channel <= c
  {
    AscendingInGroup(items, groups, k);
  }

  /** The keys themselves. */
  function Keys(groups: seq<Group>): set<int> {
    set i | 0 <= i < |groups| :: groups[i].key
  }

  /** The keys form a covering palette taken from the image, and no covering palette taken from
      the image is smaller. */
  lemma PaletteIsOptimal(items: seq<Entry>, groups: seq<Group>, dist: int, palette: set<int>)
    requires Greedy(items, groups, dist) && dist >= 0
    ensures Covers(Keys(groups), items, dist) && FromImage(Keys(groups), items)
    ensures |Keys(groups)| == |groups|
    ensures Covers(palette, items, dist) && FromImage(palette, items) ==> |Keys(groups)| <= |palette|
  {
    KeysIncrease(groups, dist);
    KeysCover(items, groups, dist);
    KeyCount(groups);
    if Covers(palette, items, dist) && FromImage(palette, items) {
      var chosen := DistinctCovers(items, groups, dist, palette, |groups|);
      Smaller(chosen, palette);
    }
  }

  lemma KeysCover(items: seq<Entry>, groups: seq<Group>, dist: int)
    requires Greedy(items, groups, dist) && dist >= 0
    ensures Covers(Keys(groups), items, dist) && FromImage(Keys(groups), items)
  {
    forall c | HasChannel(items, c) ensures Near(Keys(groups), c, dist) {
      var k := OwnGroup(items, groups, c);
      KeyIsNear(items, groups, k, dist, c);
      assert groups[k].key in Keys(groups);
    }
    forall i | 0 <= i < |groups| ensures HasChannel(items, groups[i].key) {
      KeysIncrease(groups, dist);
      assert KeyFits(groups[i].key, groups[i].members, dist);
      var j :| 0 <= j < |groups[i].members| && groups[i].members[j].channel == groups[i].key;
      MemberInItems(items, groups, i, j);
    }
  }

  lemma KeyIsNear(items: seq<Entry>, groups: seq<Group>, k: nat, dist: int, c: int)
    requires Greedy(items, groups, dist) && dist >= 0 && k < |groups| && HasChannel(groups[k].members, c)
    ensures groups[k].key - dist <= c <= groups[k].key + dist
  {
    KeysIncrease(groups, dist);
    AscendingInGroup(items, groups, k);
    assert KeyFits(groups[k].key, groups[k].members, dist);
  }

  lemma {:induction false} KeyCount(groups: seq<Group>)
    requires forall i, j | 0 <= i < j < |groups| :: groups[i].key < groups[j].key
    ensures |Keys(groups)| == |groups|
    decreases |groups|
  {
    if groups != [] {
      var n := |groups| - 1;
      KeyCount(groups[..n]);
      assert forall i | 0 <= i < n :: groups[..n][i] == groups[i];
      assert Keys(groups) == Keys(groups[..n]) + {groups[n].key};
    }
  }

  lemma Smaller<T>(a: set<T>, b: set<T>)
    requires a <= b
    ensures |a| <= |b|
  {
    if a != {} {
      var x :| x in a;
      Smaller(a - {x}, b - {x});
    }
  }
}
