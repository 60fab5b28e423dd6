/** The VGA controller as a clocked machine, and the closed form of its scan. */
module VgaScan {

  const H_TOTAL := 800
  const V_TOTAL := 525
  const FRAME := 420_000

  datatype Vga = Vga(hs: bool, vs: bool, blankN: bool, h: nat, v: nat)

  function Reset(): Vga {
    Vga(false, false, false, 0, 0)
  }

  /** One rising edge of VGA_CLK; the counters are ten bits wide. */
  function Clock(s: Vga): Vga {
    var last := (s.h + 1) % 1024 == H_TOTAL;
    var h := if last then 0 else (s.h + 1) % 1024;
    var v := if !last then s.v else if (s.v + 1) % 1024 == V_TOTAL then 0 else (s.v + 1) % 1024;
    Vga(!(656 <= h < 752), !(490 <= v < 492), h < 640 && v < 480, h, v)
  }

  /** n clocks after reset. */
  function Run(n: nat): Vga {
    if n == 0 then Reset() else Clock(Run(n - 1))
  }

  /** The scan position is the clock count in mixed radix, and the registered outputs belong to
      the position shown with them. */
  lemma {:induction false} ClosedForm(n: nat)
    ensures Run(n).h == n % H_TOTAL && Run(n).v == n / H_TOTAL % V_TOTAL
    ensures n >= 1 ==>
              && (Run(n).hs <==> !(656 <= Run(n).h < 752))
              && (Run(n).vs <==> !(490 <= Run(n).v < 492))
              && (Run(n).blankN <==> Run(n).h < 640 && Run(n).v < 480)
  {
    if n > 0 {
      ClosedForm(n - 1);
      NextPosition(n - 1);
      Advance(Run(n - 1));
    }
  }

  /** Inside the scan the ten-bit counters never overflow. */
  lemma Advance(s: Vga)
    requires s.h < H_TOTAL && s.v < V_TOTAL
    ensures Clock(s).h == if s.h == H_TOTAL - 1 then 0 else s.h + 1
    ensures Clock(s).v == if s.h < H_TOTAL - 1 then s.v else if s.v == V_TOTAL - 1 then 0 else s.v + 1
  {
  }

  lemma NextPosition(n: nat)
    ensures (n + 1) % H_TOTAL == if n % H_TOTAL == H_TOTAL - 1 then 0 else n % H_TOTAL + 1
    ensures (n + 1) / H_TOTAL == if n % H_TOTAL == H_TOTAL - 1 then n / H_TOTAL + 1 else n / H_TOTAL
    ensures (n / H_TOTAL + 1) % V_TOTAL ==
              if n / H_TOTAL % V_TOTAL == V_TOTAL - 1 then 0 else n / H_TOTAL % V_TOTAL + 1
  {
  }

  /** The clock within the frame starting at `from` at which position (x, y) is shown. */
  function When(from: nat, x: nat, y: nat): nat {
    from + (y * H_TOTAL + x + FRAME - from % FRAME) % FRAME
  }

  /** In any frame's worth of consecutive clocks every position is held exactly once, and displayed
      then exactly if it is visible, but for the origin at the reset clock itself. */
  lemma ShownExactlyOnce(from: nat, x: nat, y: nat)
    requires x < H_TOTAL && y < V_TOTAL
    ensures from <= When(from, x, y) < from + FRAME
    ensures forall n: nat {:trigger Run(n)} | from <= n < from + FRAME ::
              Run(n).h == x && Run(n).v == y <==> n == When(from, x, y)
    ensures Run(When(from, x, y)).blankN <==> x < 640 && y < 480 && When(from, x, y) > 0
  {
    forall n: nat | from <= n < from + FRAME
      ensures Run(n).h == x && Run(n).v == y <==> n == When(from, x, y)
    {
      ClosedForm(n);
      PositionInFrame(n, x, y);
      OnceAround(from, n, y * H_TOTAL + x);
    }
    ClosedForm(When(from, x, y));
  }

  lemma PositionInFrame(n: nat, x: nat, y: nat)
    requires x < H_TOTAL && y < V_TOTAL
    ensures n % H_TOTAL == x && n / H_TOTAL % V_TOTAL == y <==> n % FRAME == y * H_TOTAL + x
  {
    var lines := n / H_TOTAL;
    assert n == lines * H_TOTAL + n % H_TOTAL;
    var frames := lines / V_TOTAL;
    assert lines == frames * V_TOTAL + lines % V_TOTAL;
    assert n == frames * FRAME + (lines % V_TOTAL * H_TOTAL + n % H_TOTAL);
  }

  lemma OnceAround(from: nat, n: nat, p: nat)
    requires p < FRAME && from <= n < from + FRAME
    ensures n % FRAME == p <==> n == from + (p + FRAME - from % FRAME) % FRAME
  {
  }
}
