/** Merging similar colours of one channel: a single greedy pass over the sorted colours. */
module Palette {

  /** One colour of a channel and the number of pixels that have it. */
  datatype Entry = Entry(channel: int, count: nat)

  /** Colours replaced together, ascending, and the member that replaces them. */
  datatype Group = Group(key: int, members: seq<Entry>)

  /** An entry of the replacement table: the other colours that become `key`. */
  datatype Swap = Swap(key: int, others: seq<int>)

  // ---- What the pass must produce ----

  predicate Ascending(items: seq<Entry>) {
    forall i, j | 0 <= i < j < |items| :: items[i].channel < items[j].channel
  }

  function Flatten(groups: seq<Group>): seq<Entry> {
    if groups == [] then [] else Flatten(groups[..|groups| - 1]) + groups[|groups| - 1].members
  }

  /** `key` is the largest member within `dist` of the first, and no member is more than `dist`
      above it. */
  ghost predicate KeyFits(key: int, members: seq<Entry>, dist: int) {
    && members != []
    && members[0].channel <= key <= members[0].channel + dist
    && (exists j | 0 <= j < |members| :: members[j].channel == key)
    && forall j | 0 <= j < |members| ::
         && members[j].channel <= key + dist
         && (members[j].channel <= key || members[j].channel > members[0].channel + dist)
  }

  /** A group starts where the one before could not reach. */
  ghost predicate Apart(groups: seq<Group>, first: int, dist: int) {
    groups != [] ==> first > groups[|groups| - 1].key + dist
  }

  ghost predicate Linked(groups: seq<Group>, dist: int) {
    groups != [] ==>
      var last := groups[|groups| - 1];
      && Linked(groups[..|groups| - 1], dist)
      && KeyFits(last.key, last.members, dist)
      && Apart(groups[..|groups| - 1], last.members[0].channel, dist)
  }

  /** The groups cut the ascending colours into runs, each as long as the rule allows. */
  ghost predicate Greedy(items: seq<Entry>, groups: seq<Group>, dist: int) {
    Ascending(items) && Flatten(groups) == items && Linked(groups, dist)
  }

  function Total(members: seq<Entry>): nat {
    if members == [] then 0 else members[0].count + Total(members[1..])
  }

  function Others(key: int, members: seq<Entry>): seq<int> {
    if members == [] then []
    else (if members[0].channel != key then [members[0].channel] else []) + Others(key, members[1..])
  }

  /** The two tables made from the groups. */
  ghost predicate Tables(groups: seq<Group>, result: map<int, nat>, swaps: seq<Swap>) {
    && |swaps| == |groups|
    && (forall i | 0 <= i < |groups| :: swaps[i] == SwapOf(groups[i]))
    && (forall i | 0 <= i < |groups| :: groups[i].key in result)
    && (forall i | 0 <= i < |groups| :: result[groups[i].key] == Total(groups[i].members))
    && (forall k | k in result :: exists i | 0 <= i < |groups| :: groups[i].key == k)
  }

  function SwapOf(g: Group): Swap {
    Swap(g.key, Others(g.key, g.members))
  }

  // ---- The pass ----

  method CombineChannelsCore(items: seq<Entry>, dist: int)
    returns (result: map<int, nat>, swaps: seq<Swap>, groups: seq<Group>)
    requires Ascending(items) && dist >= 0
    ensures Greedy(items, groups, dist) && Tables(groups, result, swaps)
  {
    groups := GroupChannels(items, dist);
    KeysIncrease(groups, dist);
    result, swaps := map[], [];
    for i := 0 to |groups|
      invariant Tables(groups[..i], result, swaps)
    {
      ghost var before := result;
      result := result[groups[i].key := Total(groups[i].members)];
      swaps := swaps + [SwapOf(groups[i])];
      TablesGrow(groups, i, before, swaps[..i]);
    }
    assert groups[..|groups|] == groups;
  }

  lemma TablesGrow(groups: seq<Group>, i: nat, result: map<int, nat>, swaps: seq<Swap>)
    requires i < |groups| && Tables(groups[..i], result, swaps)
    requires forall j, k | 0 <= j < k < |groups| :: groups[j].key < groups[k].key
    ensures Tables(groups[..i + 1], result[groups[i].key := Total(groups[i].members)], swaps + [SwapOf(groups[i])])
  {
  }

  method GroupChannels(items: seq<Entry>, dist: int) returns (groups: seq<Group>)
    requires Ascending(items) && dist >= 0
    ensures Greedy(items, groups, dist)
  {
    groups := [];
    var group: seq<Entry> := [];
    var key := 0;
    for i := 0 to |items|
      invariant Flatten(groups) + group == items[..i] && Linked(groups, dist)
      invariant group != [] ==> KeyFits(key, group, dist) && Apart(groups, group[0].channel, dist)
      invariant group == [] ==> groups == []
    {
      var channel := items[i].channel;
      if group != [] && channel - key > dist {
        CloseGroup(groups, key, group, dist);
        groups := groups + [Group(key, group)];
        group := [];
      }
      var first := group == [];
      InOrder(items, i, groups, group);
      GrowGroup(key, group, items[i], dist);
      group := group + [items[i]];
      if first || channel - group[0].channel <= dist {
        key := channel;
      }
    }
    if group != [] {
      CloseGroup(groups, key, group, dist);
      groups := groups + [Group(key, group)];
    }
    assert items[..|items|] == items;
  }

  lemma CloseGroup(groups: seq<Group>, key: int, group: seq<Entry>, dist: int)
    requires Linked(groups, dist) && KeyFits(key, group, dist) && Apart(groups, group[0].channel, dist)
    ensures var g := groups + [Group(key, group)];
            Flatten(g) == Flatten(groups) + group && Linked(g, dist) && g[|g| - 1].key == key
  {
  }

  /** The entry at i is above everything grouped so far. */
  lemma InOrder(items: seq<Entry>, i: nat, groups: seq<Group>, group: seq<Entry>)
    requires i < |items| && Ascending(items) && Flatten(groups) + group == items[..i]
    ensures forall j | 0 <= j < |group| :: group[j].channel < items[i].channel
    ensures Flatten(groups) + (group + [items[i]]) == items[..i + 1]
  {
    forall j | 0 <= j < |group| ensures group[j].channel < items[i].channel {
      assert group[j] == (Flatten(groups) + group)[|Flatten(groups)| + j];
    }
    assert items[..i + 1] == items[..i] + [items[i]];
  }

  lemma GrowGroup(key: int, group: seq<Entry>, e: Entry, dist: int)
    requires dist >= 0
    requires forall j | 0 <= j < |group| :: group[j].channel < e.channel
    requires group != [] ==> KeyFits(key, group, dist) && e.channel - key <= dist
    ensures KeyFits(if group == [] || e.channel - group[0].channel <= dist then e.channel else key,
                    group + [e], dist)
  {
    assert (group + [e])[|group|] == e;
    if group != [] {
      var j :| 0 <= j < |group| && group[j].channel == key;
      assert (group + [e])[j].channel == key;
    }
  }

  /** Every group starts, and so has its key, more than dist above all earlier keys. */
  lemma {:induction false} KeysIncrease(groups: seq<Group>, dist: int)
    requires Linked(groups, dist) && dist >= 0
    ensures forall i | 0 <= i < |groups| :: KeyFits(groups[i].key, groups[i].members, dist)
    ensures forall i, j | 0 <= i < j < |groups| ::
              groups[j].members != [] && groups[i].key + dist < groups[j].members[0].channel <= groups[j].key
    decreases |groups|
  {
    if groups != [] {
      var init := groups[..|groups| - 1];
      KeysIncrease(init, dist);
      assert forall i | 0 <= i < |init| :: init[i] == groups[i];
    }
  }
}
