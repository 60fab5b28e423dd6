/** The format strings of the logging printf: a grammar of literal runs and directives, and the
    character-by-character state machine that implements it. */
module LogFormat {
  import opened Arithmetic
  import opened Numerals
  import opened LogNumber

  /** A variadic argument. */
  datatype Arg = Word(v: u32) | Str(s: string)

  // ---- The grammar ----

  /** Modifier characters of a directive. */
  predicate IsModifier(c: char) {
    c == '.' || '0' <= c <= '9' || c == 'l'
  }

  /** Length of the leading run of modifiers. */
  function ModifierRun(f: string): (n: nat)
    ensures n <= |f| && (n < |f| ==> !IsModifier(f[n]))
    ensures forall i | 0 <= i < n :: IsModifier(f[i])
  {
    if f != "" && IsModifier(f[0]) then 1 + ModifierRun(f[1..]) else 0
  }

  /** The digits before the first point. */
  function WidthDigits(mods: string): (ds: seq<nat>)
    ensures forall i | 0 <= i < |ds| :: ds[i] < 10
  {
    if mods == "" || mods[0] == '.' then []
    else (if '0' <= mods[0] <= '9' then [(mods[0] - '0') as nat] else []) + WidthDigits(mods[1..])
  }

  /** The field width: the decimal number those digits make, or -1 without any. */
  function Width(mods: string): int {
    if WidthDigits(mods) == [] then -1 else Value(WidthDigits(mods), 10)
  }

  /** What a conversion letter asks for. */
  datatype Conversion = Integer(signed: bool, base: Base, upper: bool) | Character | Text | Nothing

  function ConversionOf(c: char): Conversion {
    match c
    case 'd' => Integer(true, 10, false)
    case 'i' => Integer(true, 10, false)
    case 'u' => Integer(false, 10, false)
    case 'o' => Integer(false, 8, false)
    case 'x' => Integer(false, 16, false)
    case 'X' => Integer(false, 16, true)
    case 'c' => Character
    case 's' => Text
    case _ => Nothing
  }

  /** The arguments begin with what the conversion takes. */
  predicate Supplied(c: Conversion, args: seq<Arg>) {
    match c
    case Integer(_, _, _) => args != [] && args[0].Word?
    case Character => args != [] && args[0].Word?
    case Text => args != [] && args[0].Str?
    case Nothing => true
  }

  function Convert(c: Conversion, zero: bool, width: int, args: seq<Arg>): string
    requires Supplied(c, args)
  {
    match c
    case Integer(signed, base, upper) => IntegerText(args[0].v, signed, base, width, zero, upper)
    case Character => Repeat(' ', width - 1) + [(args[0].v % 256) as char]
    case Text => Repeat(' ', width - |args[0].s|) + args[0].s
    case Nothing => ""
  }

  function Taken(c: Conversion): nat {
    if c.Nothing? then 0 else 1
  }

  /** A format: literal characters, doubled percent signs, directives; an unfinished directive at
      the end prints nothing. None if the arguments do not match. */
  function Render(f: string, args: seq<Arg>): Result
    decreases |f|, 2
  {
    if f == "" then Printed("")
    else if f[0] != '%' then Render(f[1..], args).Prepend([f[0]])
    else AfterPercent(f[1..], args)
  }

  function AfterPercent(f: string, args: seq<Arg>): Result
    decreases |f|, 3
  {
    if f == "" then Printed("")
    else if f[0] == '%' then Render(f[1..], args).Prepend("%")
    else if f[0] == '0' then Directive(true, "", f[1..], args)
    else Directive(false, "", f, args)
  }

  function Directive(zero: bool, seen: string, f: string, args: seq<Arg>): Result
    decreases |f|, 1
  {
    var n := ModifierRun(f);
    if n == |f| then Printed("")
    else
      var c := ConversionOf(f[n]);
      if !Supplied(c, args) then Mismatch
      else Render(f[n + 1..], args[Taken(c)..]).Prepend(Convert(c, zero, Width(seen + f[..n]), args))
  }

  datatype Result = Printed(out: string) | Mismatch {
    function Prepend(s: string): Result {
      match this
      case Printed(out) => Printed(s + out)
      case Mismatch => Mismatch
    }
  }

  // ---- The state machine ----

  datatype PfState = ReadingChars | FirstFmtChar | OtherFmtChar

  /** What the rest of the format will print, from the middle of a directive or outside one. */
  function Pending(state: PfState, zero: bool, seen: string, f: string, args: seq<Arg>): Result {
    match state
    case ReadingChars => Render(f, args)
    case FirstFmtChar => AfterPercent(f, args)
    case OtherFmtChar => Directive(zero, seen, f, args)
  }

  /** A modifier may be counted as already seen or as part of the run to come. */
  lemma ShiftModifier(zero: bool, seen: string, f: string, args: seq<Arg>)
    requires f != "" && IsModifier(f[0])
    ensures Directive(zero, seen, f, args) == Directive(zero, seen + [f[0]], f[1..], args)
  {
    var n := ModifierRun(f[1..]);
    assert ModifierRun(f) == n + 1;
    assert seen + f[..n + 1] == (seen + [f[0]]) + f[1..][..n];
    if n + 1 < |f| {
      assert f[n + 1] == f[1..][n] && f[n + 2..] == f[1..][n + 1..];
    }
  }

  /** At a conversion letter the directive prints and the rest of the format follows. */
  lemma AtLetter(zero: bool, seen: string, f: string, args: seq<Arg>)
    requires f != "" && !IsModifier(f[0])
    ensures var c := ConversionOf(f[0]);
            Directive(zero, seen, f, args) ==
              if !Supplied(c, args) then Mismatch
              else Render(f[1..], args[Taken(c)..]).Prepend(Convert(c, zero, Width(seen), args))
  {
    assert seen + f[..0] == seen;
  }

  lemma PrependTwice(r: Result, a: string, b: string)
    ensures r.Prepend(b).Prepend(a) == r.Prepend(a + b)
  {
  }

  lemma PrependNothing(r: Result)
    ensures r.Prepend("") == r
  {
    if r.Printed? {
      assert "" + r.out == r.out;
    }
  }

  /** The width grows by one digit at a time, and only before the point. */
  lemma {:induction false} WidthSnoc(seen: string, c: char)
    ensures WidthDigits(seen + [c]) == WidthDigits(seen) +
              (if '.' !in seen && '0' <= c <= '9' then [(c - '0') as nat] else [])
  {
    if seen == "" {
      assert (seen + [c])[1..] == "";
    } else {
      assert (seen + [c])[1..] == seen[1..] + [c];
      assert seen == [seen[0]] + seen[1..];
      WidthSnoc(seen[1..], c);
    }
  }

  lemma WidthGrows(seen: string, c: char)
    ensures Width(seen + [c]) ==
              if '.' !in seen && '0' <= c <= '9'
              then (if Width(seen) < 0 then 0 else Width(seen) * 10) + (c - '0') as nat
              else Width(seen)
  {
    WidthSnoc(seen, c);
    var ds := WidthDigits(seen);
    if '.' !in seen && '0' <= c <= '9' {
      var d := (c - '0') as nat;
      ValueSnoc(ds, d, 10);
      assert WidthDigits(seen + [c]) == ds + [d] != [];
    } else {
      assert WidthDigits(seen + [c]) == ds;
    }
  }

  /** The state machine's variables within a directive agree with the modifiers seen. */
  ghost predicate Tracks(before: int, after: int, seen: string) {
    before == Width(seen) && (after < 0 <==> '.' !in seen)
  }

  /** One modifier character of a directive. */
  method TakeModifier(c: char, before: int, after: int, ghost seen: string) returns (before': int, after': int)
    requires IsModifier(c) && Tracks(before, after, seen)
    ensures Tracks(before', after', seen + [c])
  {
    before', after' := before, after;
    WidthGrows(seen, c);
    if c == '.' {
      after' := 0;
    } else if '0' <= c <= '9' {
      var d := (c - '0') as nat;
      if after < 0 {
        if before < 0 {
          before' := 0;
        } else {
          before' := before * 10;
        }
        before' := before' + d;
      } else {
        after' := after * 10 + d;
      }
    }
  }

  /** The letter that ends a directive: prints what it asks for. */
  method TakeLetter(c: char, zero: bool, width: int, args: seq<Arg>, next: nat)
    returns (out: string, next': nat)
    requires next <= |args| && Supplied(ConversionOf(c), args[next..])
    ensures out == Convert(ConversionOf(c), zero, width, args[next..])
    ensures next' == next + Taken(ConversionOf(c)) && next' <= |args|
  {
    out, next' := "", next;
    var signed, base: Base, upper := true, 10, false;
    if c == 'u' || c == 'o' || c == 'x' || c == 'X' {
      signed := false;
    }
    if c == 'o' {
      base := 8;
    } else if c == 'x' || c == 'X' {
      base := 16;
      upper := c == 'X';
    }
    if c == 'd' || c == 'i' || c == 'u' || c == 'o' || c == 'x' || c == 'X' {
      out := PrintInteger(args[next].v, signed, base, width, zero, upper);
      next' := next + 1;
    } else if c == 'c' {
      out := RepeatChar(' ', width - 1);
      out := out + [(args[next].v % 256) as char];
      next' := next + 1;
    } else if c == 's' {
      out := RepeatChar(' ', width - |args[next].s|);
      out := out + args[next].s;
      next' := next + 1;
    }
  }

  /** alt_log_private_printf: for every format and matching arguments it prints what the grammar
      says. */
  method LogPrintf(fmt: string, args: seq<Arg>) returns (out: string)
    requires Render(fmt, args).Printed?
    ensures Render(fmt, args) == Printed(out)
  {
    out := "";
    var state, zero, before, after, next: nat := ReadingChars, false, -1, -1, 0;
    ghost var seen := "";
    assert fmt[0..] == fmt && args[0..] == args;
    for i := 0 to |fmt|
      invariant next <= |args|
      invariant Render(fmt, args) == Pending(state, zero, seen, fmt[i..], args[next..]).Prepend(out)
      invariant InDirective(state, zero, before, after, seen)
    {
      ghost var f := fmt[i..];
      assert f[0] == fmt[i] && f[1..] == fmt[i + 1..];
      var text;
      state, zero, before, after, next, text, seen := OneChar(fmt[i], state, zero, before, after, args, next, seen, f);
      PrependTwice(Pending(state, zero, seen, f[1..], args[next..]), out, text);
      out := out + text;
    }
    assert fmt[|fmt|..] == "";
  }

  ghost predicate InDirective(state: PfState, zero: bool, before: int, after: int, seen: string) {
    && (state == FirstFmtChar ==> !zero && seen == "")
    && (state != ReadingChars ==> Tracks(before, after, seen))
  }

  /** One pass of the loop over the format. */
  method OneChar(c: char, state: PfState, zero: bool, before: int, after: int, args: seq<Arg>, next: nat,
                 ghost seen: string, ghost f: string)
    returns (state': PfState, zero': bool, before': int, after': int, next': nat, text: string, ghost seen': string)
    requires next <= |args| && f != "" && f[0] == c
    requires InDirective(state, zero, before, after, seen)
    requires Pending(state, zero, seen, f, args[next..]).Printed?
    ensures next' <= |args| && InDirective(state', zero', before', after', seen')
    ensures Pending(state, zero, seen, f, args[next..])
            == Pending(state', zero', seen', f[1..], args[next'..]).Prepend(text)
  {
    state', zero', before', after', next', text, seen' := state, zero, before, after, next, "", seen;
    if state == ReadingChars {
      if c == '%' {
        zero', before', after', seen' := false, -1, -1, "";
        state' := FirstFmtChar;
      } else {
        text := [c];
      }
    } else if state == FirstFmtChar && c == '0' {
      zero' := true;
      state' := OtherFmtChar;
    } else if state == FirstFmtChar && c == '%' {
      text := [c];
      state' := ReadingChars;
    } else {
      state' := OtherFmtChar;
      if IsModifier(c) {
        ShiftModifier(zero, seen, f, args[next..]);
        before', after' := TakeModifier(c, before, after, seen);
        seen' := seen + [c];
      } else {
        AtLetter(zero, seen, f, args[next..]);
        text, next' := TakeLetter(c, zero, before, args, next);
        assert args[next..][Taken(ConversionOf(c))..] == args[next'..];
        state' := ReadingChars;
      }
    }
  }
}
