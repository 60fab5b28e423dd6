/** The registered alarms: an intrusive circular doubly linked list around a head, walked by
    the tick routine while callbacks insert and remove entries. */
module AlarmList {
  import opened Arithmetic
  import opened AlarmClock
  import opened Lists

  class Alarm {
    var next: Alarm
    var previous: Alarm
    var time: u32
    var rollover: bool
    ghost var due: nat

    /** An unregistered alarm points at itself, as removal leaves it. */
    constructor ()
      ensures next == this && previous == this
    {
      next := this;
      previous := this;
      time, rollover := 0, false;
    }

    function Timer(): Timer
      reads this`time, this`rollover
    {
      AlarmClock.Timer(time, rollover)
    }
  }

  /** Position i on the circle of the head and the entries. */
  function At(head: Alarm, ring: seq<Alarm>, i: nat): Alarm
    requires i <= |ring| + 1
  {
    if i == 0 || i == |ring| + 1 then head else ring[i - 1]
  }

  /** Each entry's links name its neighbours on the circle. */
  ghost predicate Circular(head: Alarm, ring: seq<Alarm>)
    reads head`next, head`previous, (set a | a in ring)`next, (set a | a in ring)`previous
  {
    && head !in ring && Distinct(ring)
    && forall i: nat {:trigger LinkedAt(head, ring, i)} | i <= |ring| :: LinkedAt(head, ring, i)
  }

  predicate LinkedAt(head: Alarm, ring: seq<Alarm>, i: nat)
    reads head`next, head`previous, (set a | a in ring)`next, (set a | a in ring)`previous
    requires i <= |ring|
  {
    && At(head, ring, i).next == At(head, ring, i + 1)
    && At(head, ring, i + 1).previous == At(head, ring, i)
  }

  // ---- Following the links ----

  /** Each alarm of the list links to the one after it. */
  ghost predicate Chain(s: seq<Alarm>)
    reads (set a | a in s)`next
  {
    forall i | 0 <= i < |s| - 1 :: s[i].next == s[i + 1]
  }

  /** Links from these alarms lead to these alarms only, so never back to the head. */
  ghost predicate Trap(head: Alarm, trap: set<Alarm>)
    reads trap`next
  {
    head !in trap && forall a | a in trap :: a.next in trap
  }

  lemma {:induction false} NoWayOut(head: Alarm, trap: set<Alarm>, s: seq<Alarm>)
    requires Trap(head, trap) && Chain(s) && s != [] && s[0] in trap
    ensures forall a | a in s :: a in trap
    decreases |s|
  {
    if |s| > 1 {
      NoWayOut(head, trap, s[1..]);
      assert s == [s[0]] + s[1..];
    }
  }

  /** Following the links from an alarm leads back to the head if and only if it is registered: a
      stopped alarm, which points at itself, leads nowhere. */
  lemma WalkEndsIff(head: Alarm, ring: seq<Alarm>, alarm: Alarm)
    requires Circular(head, ring) && alarm != head && (alarm in ring || alarm.next == alarm)
    ensures (exists s :: Chain(s) && s != [] && s[0] == alarm && head in s) <==> alarm in ring
  {
    if alarm in ring {
      var k :| 0 <= k < |ring| && ring[k] == alarm;
      var s := ring[k..] + [head];
      forall i | 0 <= i < |s| - 1 ensures s[i].next == s[i + 1] {
        assert LinkedAt(head, ring, k + i + 1);
      }
      assert Chain(s) && s[|s| - 1] == head;
    } else {
      forall s | Chain(s) && s != [] && s[0] == alarm ensures head !in s {
        NoWayOut(head, {alarm}, s);
      }
    }
  }

  /** The alarms up to a listed one; all but that one lead to each other. */
  lemma UpTo(head: Alarm, entry: Alarm, ring: seq<Alarm>) returns (upTo: set<Alarm>)
    requires Circular(head, ring) && entry in ring
    ensures entry in upTo && head !in upTo && head.next in upTo
    ensures forall a | a in upTo && a != entry :: a.next in upTo
  {
    var k :| 0 <= k < |ring| && ring[k] == entry;
    upTo := set m | 0 <= m <= k :: ring[m];
    assert LinkedAt(head, ring, 0) && head.next == ring[0];
    forall a | a in upTo && a != entry ensures a.next in upTo {
      var m :| 0 <= m <= k && ring[m] == a;
      assert LinkedAt(head, ring, m + 1) && a.next == ring[m + 1];
    }
  }

  /** alt_llist_insert: the entry becomes the first one. An entry that is in the list already is
      caught, with all that were before it, in a circle that the head is no part of. */
  method Insert(head: Alarm, entry: Alarm, ghost ring: seq<Alarm>) returns (ghost trap: set<Alarm>)
    requires Circular(head, ring) && entry != head
    modifies head`next, entry`next, entry`previous, head.next`previous
    ensures entry !in ring ==> Circular(head, [entry] + ring)
    ensures entry in ring ==> head.next == entry && entry in trap && Trap(head, trap)
  {
    trap := {};
    if entry in ring {
      trap := UpTo(head, entry, ring);
    }
    assert LinkedAt(head, ring, 0);
    entry.previous := head;
    entry.next := head.next;
    head.next.previous := entry;
    head.next := entry;
    if entry !in ring {
      ghost var r := [entry] + ring;
      forall i: nat | i <= |r| ensures LinkedAt(head, r, i) {
        if i >= 2 {
          assert old(LinkedAt(head, ring, i - 1));
        }
      }
    }
  }

  // ---- The alarms left of a list when some have been stopped ----

  function Without(s: seq<Alarm>, gone: set<Alarm>): seq<Alarm> {
    if s == [] then []
    else (if s[0] in gone then [] else [s[0]]) + Without(s[1..], gone)
  }

  lemma {:induction false} WithoutConcat(s: seq<Alarm>, t: seq<Alarm>, gone: set<Alarm>)
    ensures Without(s + t, gone) == Without(s, gone) + Without(t, gone)
  {
    if s == [] {
      assert s + t == t;
    } else {
      assert (s + t)[1..] == s[1..] + t;
      WithoutConcat(s[1..], t, gone);
    }
  }

  lemma {:induction false} WithoutMember(s: seq<Alarm>, gone: set<Alarm>, a: Alarm)
    ensures a in Without(s, gone) <==> a in s && a !in gone
  {
    if s != [] {
      WithoutMember(s[1..], gone, a);
      assert s == [s[0]] + s[1..];
    }
  }

  lemma WithoutMembers(s: seq<Alarm>, gone: set<Alarm>)
    ensures forall a :: a in Without(s, gone) <==> a in s && a !in gone
  {
    forall a ensures a in Without(s, gone) <==> a in s && a !in gone {
      WithoutMember(s, gone, a);
    }
  }

  lemma {:induction false} WithoutDistinct(s: seq<Alarm>, gone: set<Alarm>)
    requires Distinct(s)
    ensures Distinct(Without(s, gone))
  {
    if s != [] {
      WithoutDistinct(s[1..], gone);
      WithoutMembers(s[1..], gone);
      var rest := Without(s[1..], gone);
      forall j | 0 <= j < |rest| ensures rest[j] != s[0] {
        assert rest[j] in rest;
      }
    }
  }

  /** Only the entries of the list matter. */
  lemma {:induction false} WithoutSame(s: seq<Alarm>, gone: set<Alarm>, gone': set<Alarm>)
    requires forall a | a in s :: a in gone <==> a in gone'
    ensures Without(s, gone) == Without(s, gone')
  {
    if s != [] {
      assert s[0] in s && forall a | a in s[1..] :: a in s;
      WithoutSame(s[1..], gone, gone');
    }
  }

  /** Bookkeeping of a walk: entries seen, then the rest after some more have been stopped. */
  lemma WalkOn(entry: seq<Alarm>, lost: set<Alarm>, seen: seq<Alarm>, rest: seq<Alarm>, gone: set<Alarm>)
    returns (lost': set<Alarm>)
    requires Distinct(entry) && rest != [] && seen + rest == Without(entry, lost)
    ensures (seen + [rest[0]]) + Without(rest[1..], gone) == Without(entry, lost')
    ensures gone <= {rest[0]} ==> lost' == lost
    ensures lost' <= lost + gone
    ensures |Without(rest[1..], gone)| < |rest|
  {
    WithoutShorter(rest[1..], gone);
    var tail := rest[1..];
    var more := set a | a in tail && a in gone;
    lost' := lost + more;
    WithoutDistinct(entry, lost);
    WithoutTwice(entry, lost, more);
    assert seen + rest == (seen + [rest[0]]) + tail;
    WithoutConcat(seen + [rest[0]], tail, more);
    SplitDistinct(seen + [rest[0]], tail);
    WithoutNone(seen + [rest[0]], more);
    WithoutSame(tail, more, gone);
    if gone <= {rest[0]} {
      assert more == {};
    }
  }

  lemma {:induction false} WithoutShorter(s: seq<Alarm>, gone: set<Alarm>)
    ensures |Without(s, gone)| <= |s|
  {
    if s != [] { WithoutShorter(s[1..], gone); }
  }

  lemma SplitDistinct(a: seq<Alarm>, b: seq<Alarm>)
    requires Distinct(a + b)
    ensures forall x | x in a :: x !in b
  {
    forall x | x in a ensures x !in b {
      var i :| 0 <= i < |a| && a[i] == x;
      assert (a + b)[i] == x;
      assert forall j | 0 <= j < |b| :: (a + b)[|a| + j] == b[j];
    }
  }

  lemma {:induction false} WithoutNone(s: seq<Alarm>, gone: set<Alarm>)
    requires forall a | a in s :: a !in gone
    ensures Without(s, gone) == s
  {
    if s != [] {
      WithoutNone(s[1..], gone);
    }
  }

  lemma {:induction false} WithoutTwice(s: seq<Alarm>, gone: set<Alarm>, more: set<Alarm>)
    ensures Without(Without(s, gone), more) == Without(s, gone + more)
  {
    if s != [] {
      WithoutTwice(s[1..], gone, more);
      var rest := Without(s[1..], gone);
      if s[0] in gone {
        assert Without(s, gone) == rest;
      } else {
        assert Without(s, gone) == [s[0]] + rest && ([s[0]] + rest)[1..] == rest;
      }
    }
  }

  /** What is left of a list that grew at the front when more of its entries go. */
  lemma WithoutMore(front: seq<Alarm>, s: seq<Alarm>, gone: set<Alarm>, more: set<Alarm>)
    ensures Without(front + Without(s, gone), more) == Without(front, more) + Without(s, gone + more)
  {
    WithoutConcat(front, Without(s, gone), more);
    WithoutTwice(s, gone, more);
  }

  /** Removing one entry of a list without repeats. */
  lemma {:induction false} WithoutOne(s: seq<Alarm>, k: nat)
    requires k < |s| && Distinct(s)
    ensures Without(s, {s[k]}) == s[..k] + s[k + 1..]
  {
    var rest := s[1..];
    if k == 0 {
      forall y | y in rest ensures y != s[0] {
        var i :| 0 <= i < |rest| && rest[i] == y;
        assert s[i + 1] == y;
      }
      WithoutNone(rest, {s[0]});
    } else {
      WithoutOne(rest, k - 1);
      assert rest[k - 1] == s[k] != s[0];
      assert s[..k] == [s[0]] + rest[..k - 1];
      assert s[k + 1..] == rest[k..];
    }
  }

  // ---- Removal ----

  /** alt_llist_remove: a listed entry leaves the circle, an unlisted one points at itself and
      stays as it is; either way it points at itself afterwards. */
  method Remove(ghost head: Alarm, entry: Alarm, ghost ring: seq<Alarm>) returns (ghost r: seq<Alarm>)
    requires Circular(head, ring) && entry != head
    requires entry in ring || (entry.next == entry && entry.previous == entry)
    modifies entry`next, entry`previous, entry.next`previous, entry.previous`next
    ensures r == Without(ring, {entry}) && Circular(head, r) && entry !in r
    ensures entry.next == entry && entry.previous == entry
  {
    ghost var k := |ring|;
    if entry in ring {
      k := FindLinks(head, entry, ring);
    }
    entry.next.previous := entry.previous;
    entry.previous.next := entry.next;
    entry.previous := entry;
    entry.next := entry;
    if k < |ring| {
      r := ring[..k] + ring[k + 1..];
      forall i: nat | i <= |r| ensures LinkedAt(head, r, i) {
        if i != k {
          assert old(LinkedAt(head, ring, if i < k then i else i + 1));
        }
      }
    } else {
      r := ring;
      forall i: nat | i <= |ring| ensures LinkedAt(head, ring, i) {
        assert old(LinkedAt(head, ring, i));
      }
    }
    Removed(ring, k, entry);
  }

  lemma Removed(ring: seq<Alarm>, k: nat, entry: Alarm)
    requires Distinct(ring) && k <= |ring|
    requires if k < |ring| then ring[k] == entry else entry !in ring
    ensures Without(ring, {entry}) == if k < |ring| then ring[..k] + ring[k + 1..] else ring
    ensures entry !in Without(ring, {entry})
  {
    WithoutMember(ring, {entry}, entry);
    if k < |ring| {
      WithoutOne(ring, k);
    } else {
      WithoutNone(ring, {entry});
    }
  }

  lemma FindLinks(head: Alarm, entry: Alarm, ring: seq<Alarm>) returns (k: nat)
    requires Circular(head, ring) && entry in ring
    ensures k < |ring| && ring[k] == entry == At(head, ring, k + 1)
    ensures entry.next == At(head, ring, k + 2) && entry.previous == At(head, ring, k)
  {
    k :| 0 <= k < |ring| && ring[k] == entry;
    assert LinkedAt(head, ring, k) && LinkedAt(head, ring, k + 1);
  }
}
