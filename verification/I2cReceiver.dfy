/** A device on the bus that knows nothing of the configurator: it assembles bytes, most significant bit
    first, from what its monitor reports, and it gets exactly the numbers the tables hold. */
module I2cReceiver {
  import opened I2cConfig
  import opened I2cBus

  // ---- The receiver ----

  /** The messages so far, the value of the bits of the byte being received, how many they are,
      whether the bus is busy, and whether anything has gone against the protocol. */
  datatype Receiver = Receiver(messages: seq<seq<nat>>, value: nat, count: nat, busy: bool, fault: bool)

  const LISTENING := Receiver([], 0, 0, false, false)

  /** A start begins a message; eight bits, most significant first, make a byte, which belongs to the
      message if the line is then let go for the acknowledge; a stop, between bytes, ends it all. */
  function Listen(r: Receiver, e: Event): Receiver {
    match e
    case StartCondition =>
      if r.count != 0 then r.(fault := true) else r.(messages := r.messages + [[]], busy := true)
    case StopCondition => if r.count != 0 || !r.busy then r.(fault := true) else r.(busy := false)
    case Bit(v) =>
      if !r.busy || r.messages == [] || (r.count == 8 <==> v != Z) then r.(fault := true)
      else if r.count != 8 then
        r.(value := 2 * r.value + if v == High then 1 else 0, count := r.count + 1)
      else
        var n := |r.messages| - 1;
        r.(messages := r.messages[n := r.messages[n] + [r.value]], value := 0, count := 0)
    case Glitch => r.(fault := true)
  }

  function Hear(r: Receiver, events: seq<Event>): Receiver {
    if events == [] then r
    else
      var n := |events| - 1;
      Listen(Hear(r, events[..n]), events[n])
  }

  /** The number eight bits stand for, the one with index i being worth two to the i. */
  function Number(v: Vector): nat {
    Worth(v[0]) + 2 * Worth(v[1]) + 4 * Worth(v[2]) + 8 * Worth(v[3])
    + 16 * Worth(v[4]) + 32 * Worth(v[5]) + 64 * Worth(v[6]) + 128 * Worth(v[7])
  }

  function Worth(b: bool): nat { if b then 1 else 0 }

  // ---- Byte by byte ----

  lemma HearSnoc(r: Receiver, events: seq<Event>, e: Event)
    ensures Hear(r, events + [e]) == Listen(Hear(r, events), e)
  {
    assert (events + [e])[..|events|] == events;
  }

  lemma {:induction false} HearOn(r: Receiver, first: seq<Event>, later: seq<Event>)
    ensures Hear(r, first + later) == Hear(Hear(r, first), later)
    decreases |later|
  {
    if later == [] {
      assert first + later == first;
    } else {
      var n := |later| - 1;
      HearOn(r, first, later[..n]);
      assert first + later == (first + later[..n]) + [later[n]];
      HearSnoc(r, first + later[..n], later[n]);
    }
  }

  /** The top i bits, read as a number. */
  function Top(v: Vector, i: nat): nat
    requires i <= 8
  {
    if i == 0 then 0 else 2 * Top(v, i - 1) + Worth(v[8 - i])
  }

  lemma TopAll(v: Vector)
    ensures Top(v, 8) == Number(v)
  {
    assert Top(v, 1) == Worth(v[7]);
    assert Top(v, 3) == 4 * Top(v, 1) + 2 * Worth(v[6]) + Worth(v[5]) by {
      assert Top(v, 2) == 2 * Top(v, 1) + Worth(v[6]);
    }
    assert Top(v, 5) == 4 * Top(v, 3) + 2 * Worth(v[4]) + Worth(v[3]) by {
      assert Top(v, 4) == 2 * Top(v, 3) + Worth(v[4]);
    }
    assert Top(v, 7) == 4 * Top(v, 5) + 2 * Worth(v[2]) + Worth(v[1]) by {
      assert Top(v, 6) == 2 * Top(v, 5) + Worth(v[2]);
    }
  }

  /** The first n events of a byte on the bus. */
  function Sent(v: Vector, n: nat): (e: seq<Event>)
    requires n <= 9
    ensures |e| == n
  {
    seq(n, i requires 0 <= i < n => Bit(if i == 8 then Z else ToLevel(v[7 - i])))
  }

  /** Ready for the next byte of a message. */
  predicate Ready(r: Receiver) {
    r.busy && !r.fault && r.messages != [] && r.count == 0 && r.value == 0
  }

  lemma {:induction false} BitsHeard(r: Receiver, v: Vector, n: nat)
    requires Ready(r) && n <= 8
    ensures Hear(r, Sent(v, n)) == r.(value := Top(v, n), count := n)
  {
    if n > 0 {
      BitsHeard(r, v, n - 1);
      assert Sent(v, n) == Sent(v, n - 1) + [Bit(ToLevel(v[8 - n]))];
      HearSnoc(r, Sent(v, n - 1), Bit(ToLevel(v[8 - n])));
    }
  }

  /** The present message, from here on. */
  function Ending(r: Receiver, message: seq<nat>): Receiver
    requires r.messages != []
  {
    r.(messages := r.messages[|r.messages| - 1 := message])
  }

  lemma {:induction false} ByteHeard(r: Receiver, message: seq<nat>, v: Vector)
    requires Ready(r)
    ensures Hear(Ending(r, message), Sent(v, 9)) == Ending(r, message + [Number(v)])
  {
    var now := Ending(r, message);
    BitsHeard(now, v, 8);
    TopAll(v);
    assert Sent(v, 9) == Sent(v, 8) + [Bit(Z)];
    HearSnoc(now, Sent(v, 8), Bit(Z));
  }

  // ---- Message by message ----

  lemma FrameIsThreeBytes(s: Setup, k: nat)
    requires s.Ok() && k < |s.reg|
    ensures FrameBits(s, k, SLOTS) == Sent(s.address, 9) + Sent(s.reg[k], 9) + Sent(s.dat[k], 9)
  {
  }

  /** What the tables say for word k. */
  function Message(s: Setup, k: nat): seq<nat>
    requires s.Ok() && k < |s.reg|
  {
    [Number(s.address), Number(s.reg[k]), Number(s.dat[k])]
  }

  function Messages(s: Setup, n: nat): seq<seq<nat>>
    requires s.Ok() && n <= |s.reg|
  {
    seq(n, k requires 0 <= k < n => Message(s, k))
  }

  lemma {:induction false} FrameHeard(r: Receiver, s: Setup, k: nat)
    requires s.Ok() && k < |s.reg| && !r.fault && r.count == 0 && r.value == 0
    ensures Hear(r, [StartCondition] + FrameBits(s, k, SLOTS))
            == r.(messages := r.messages + [Message(s, k)], busy := true)
  {
    FrameIsThreeBytes(s, k);
    var started := Listen(r, StartCondition);
    var bytes := Sent(s.address, 9) + Sent(s.reg[k], 9) + Sent(s.dat[k], 9);
    HearOn(r, [StartCondition], bytes);
    assert Hear(r, [StartCondition]) == started by {
      HearSnoc(r, [], StartCondition);
      assert [] + [StartCondition] == [StartCondition];
    }
    BytesHeard(started, s.address, s.reg[k], s.dat[k]);
    assert started.messages == r.messages + [[]];
    assert started.messages[|r.messages| := Message(s, k)] == r.messages + [Message(s, k)];
  }

  lemma {:induction false} BytesHeard(r: Receiver, a: Vector, b: Vector, c: Vector)
    requires Ready(r) && r.messages[|r.messages| - 1] == []
    ensures Hear(r, Sent(a, 9) + Sent(b, 9) + Sent(c, 9)) == Ending(r, [Number(a), Number(b), Number(c)])
  {
    assert r == Ending(r, []);
    TwoHeard(r, a, b);
    HearOn(r, Sent(a, 9) + Sent(b, 9), Sent(c, 9));
    ByteHeard(r, [Number(a), Number(b)], c);
    assert [Number(a), Number(b)] + [Number(c)] == [Number(a), Number(b), Number(c)];
  }

  lemma {:induction false} TwoHeard(r: Receiver, a: Vector, b: Vector)
    requires Ready(r) && r == Ending(r, [])
    ensures Hear(r, Sent(a, 9) + Sent(b, 9)) == Ending(r, [Number(a), Number(b)])
  {
    ByteHeard(r, [], a);
    assert [] + [Number(a)] == [Number(a)];
    HearOn(r, Sent(a, 9), Sent(b, 9));
    ByteHeard(r, [Number(a)], b);
    assert [Number(a)] + [Number(b)] == [Number(a), Number(b)];
  }

  lemma {:induction false} FrameOn(s: Setup, k: nat)
    requires s.Ok() && k < |s.reg|
    requires Hear(LISTENING, Frames(s, k)) == Receiver(Messages(s, k), 0, 0, k > 0, false)
    ensures Hear(LISTENING, Frames(s, k + 1)) == Receiver(Messages(s, k + 1), 0, 0, true, false)
  {
    var frame := [StartCondition] + FrameBits(s, k, SLOTS);
    assert Frames(s, k + 1) == Frames(s, k) + frame;
    HearOn(LISTENING, Frames(s, k), frame);
    FrameHeard(Receiver(Messages(s, k), 0, 0, k > 0, false), s, k);
    assert Messages(s, k + 1) == Messages(s, k) + [Message(s, k)];
  }

  lemma {:induction false} FramesHeard(s: Setup, k: nat)
    requires s.Ok() && k <= |s.reg|
    ensures Hear(LISTENING, Frames(s, k)) == Receiver(Messages(s, k), 0, 0, k > 0, false)
  {
    if k > 0 {
      FramesHeard(s, k - 1);
      FrameOn(s, k - 1);
    }
  }

  // ---- Promises ----

  /** From a known instant on the receiver has been sent, for every entry of the tables in order, the
      device address, the register and the data as numbers, nothing else, and the bus is free again. */
  lemma {:induction false} TablesReceived(s: Setup, t: nat)
    requires s.Ok() && t >= Finish(s)
    ensures var r := Hear(LISTENING, Run(s, t).1.events);
            && !r.fault && !r.busy && r.count == 0 && |r.messages| == |s.reg|
            && forall k | 0 <= k < |s.reg| ::
                 r.messages[k] == [Number(s.address), Number(s.reg[k]), Number(s.dat[k])]
  {
    WholeConversation(s, t);
    FramesHeard(s, |s.reg|);
    HearSnoc(LISTENING, Frames(s, |s.reg|), StopCondition);
  }

  lemma {:induction false} FaultStays(r: Receiver, events: seq<Event>)
    requires r.fault
    ensures Hear(r, events).fault
    decreases |events|
  {
    if events != [] {
      FaultStays(r, events[..|events| - 1]);
    }
  }

  /** At no instant has it seen anything against the protocol. */
  lemma {:induction false} NeverAtFault(s: Setup, t: nat)
    requires s.Ok()
    ensures !Hear(LISTENING, Run(s, t).1.events).fault
  {
    var seen, all := Run(s, t).1.events, Conversation(s);
    OnlyTheConversation(s, t);
    TablesReceived(s, Finish(s));
    WholeConversation(s, Finish(s));
    assert all == seen + all[|seen|..];
    HearOn(LISTENING, seen, all[|seen|..]);
    if Hear(LISTENING, seen).fault {
      FaultStays(Hear(LISTENING, seen), all[|seen|..]);
    }
  }

  /** The address of the source's codec, given as the string 00110100, is the number 0x34. */
  lemma CodecAddress(s: Setup, t: nat)
    requires s.Ok() && t >= Finish(s)
    requires s.address == [false, false, true, false, true, true, false, false]
    ensures var r := Hear(LISTENING, Run(s, t).1.events);
            |r.messages| == |s.reg| && forall k | 0 <= k < |s.reg| :: r.messages[k] != [] && r.messages[k][0] == 0x34
  {
    TablesReceived(s, t);
  }
}
