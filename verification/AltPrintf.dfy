/** The minimal printf: its scanner and its shift-and-mask hexadecimal loop. */
module AltPrintf {
  import opened Arithmetic
  import opened Numerals
  import opened LogNumber
  import opened LogFormat

  /** The nibble at bit position 4 * k, as the mask and shift extract it. */
  function Nibble(v: u32, k: nat): nat {
    v / Pow(16, k) % 16
  }

  /** Going down one nibble appends one hexadecimal digit to the prefix above it. */
  lemma NibbleStep(v: u32, k: nat)
    ensures v / Pow(16, k) == v / Pow(16, k + 1) * 16 + Nibble(v, k)
    ensures 0 <= Nibble(v, k) < 16 && v / Pow(16, k + 1) >= 0
  {
    DivDiv(v, Pow(16, k), 16);
    DivMod(v / Pow(16, k), 16);
  }

  lemma NibblesEnd(v: u32)
    ensures v / Pow(16, 8) == 0 && v / Pow(16, 0) == v
  {
  }

  /** The %x branch: finds the first nonzero nibble from the top, then prints every nibble. */
  method PrintHex(v: u32) returns (out: string)
    ensures out == Numeral(v, 16, false)
  {
    NibblesEnd(v);
    if v == 0 {
      return "0";
    }
    var shift := 28;
    while Nibble(v, shift / 4) == 0
      invariant 0 <= shift <= 28 && shift % 4 == 0
      invariant v / Pow(16, shift / 4 + 1) == 0
      decreases shift
    {
      NibbleStep(v, shift / 4);
      shift := shift - 4;
    }
    out := PrintNibbles(v, shift);
  }

  /** The digits so far denote the part of v above what is still to be printed. */
  ghost predicate Above(ds: seq<nat>, v: u32, left: nat) {
    Value(ds, 16) == v / Pow(16, left) && forall i | 0 <= i < |ds| :: ds[i] < 16
  }

  lemma AppendNibble(ds: seq<nat>, v: u32, k: nat)
    requires Above(ds, v, k + 1)
    ensures 0 <= Nibble(v, k) < 16 && Above(ds + [Nibble(v, k)], v, k)
  {
    NibbleStep(v, k);
    ValueSnoc(ds, Nibble(v, k), 16);
  }

  method PrintNibbles(v: u32, top: nat) returns (out: string)
    requires top <= 28 && top % 4 == 0 && v / Pow(16, top / 4 + 1) == 0 && Nibble(v, top / 4) > 0
    ensures out == Numeral(v, 16, false)
  {
    out := "";
    ghost var ds: seq<nat> := [];
    var shift: int := top;
    while shift >= 0
      invariant -4 <= shift <= top && shift % 4 == 0
      invariant Above(ds, v, shift / 4 + 1) && out == Chars(ds, false)
      invariant if shift == top then ds == [] else ds != [] && ds[0] > 0
    {
      AppendNibble(ds, v, shift / 4);
      var d := Nibble(v, shift / 4);
      CharsSnoc(ds, d, false);
      ds := ds + [d];
      out := out + [DigitChar(d, false)];
      shift := shift - 4;
    }
    NibblesEnd(v);
    CanonicalIsDigits(ds, 16);
  }

  // ---- The scanner ----

  datatype Spec = HexSpec | CharSpec | TextSpec | PercentSpec | UnknownSpec

  function SpecOf(c: char): Spec {
    match c
    case '%' => PercentSpec
    case 'c' => CharSpec
    case 'x' => HexSpec
    case 's' => TextSpec
    case _ => UnknownSpec
  }

  predicate Matches(d: Spec, args: seq<Arg>) {
    match d
    case HexSpec | CharSpec => args != [] && args[0].Word?
    case TextSpec => args != [] && args[0].Str?
    case PercentSpec | UnknownSpec => true
  }

  function Shown(d: Spec, args: seq<Arg>): string
    requires Matches(d, args)
  {
    match d
    case HexSpec => Numeral(args[0].v, 16, false)
    case CharSpec => [(args[0].v % 256) as char]
    case TextSpec => args[0].s
    case PercentSpec => "%"
    case UnknownSpec => ""
  }

  function Used(d: Spec): nat {
    if d.PercentSpec? || d.UnknownSpec? then 0 else 1
  }

  /** Literal characters and two-character directives; a percent sign at the end ends it all. */
  function AltRender(f: string, args: seq<Arg>): Result {
    if f == "" then Printed("")
    else if f[0] != '%' then AltRender(f[1..], args).Prepend([f[0]])
    else if |f| == 1 then Printed("")
    else
      var d := SpecOf(f[1]);
      if !Matches(d, args) then Mismatch
      else AltRender(f[2..], args[Used(d)..]).Prepend(Shown(d, args))
  }

  /** alt_printf. */
  method AltPrintf(fmt: string, args: seq<Arg>) returns (out: string)
    requires AltRender(fmt, args).Printed?
    ensures AltRender(fmt, args) == Printed(out)
  {
    out := "";
    var w: nat, next: nat := 0, 0;
    assert fmt[0..] == fmt && args[0..] == args;
    while w < |fmt|
      invariant w <= |fmt| && next <= |args|
      invariant AltRender(fmt, args) == AltRender(fmt[w..], args[next..]).Prepend(out)
    {
      ghost var f, a := fmt[w..], args[next..];
      var c := fmt[w];
      w := w + 1;
      assert f[1..] == fmt[w..];
      if c != '%' {
        PrependTwice(AltRender(fmt[w..], a), out, [c]);
        out := out + [c];
      } else if w < |fmt| {
        c := fmt[w];
        w := w + 1;
        assert f[2..] == fmt[w..];
        var text;
        text, next := PrintSpec(c, args, next);
        assert args[next..] == a[Used(SpecOf(c))..];
        PrependTwice(AltRender(fmt[w..], args[next..]), out, text);
        out := out + text;
      } else {
        break;
      }
    }
  }

  method PrintSpec(c: char, args: seq<Arg>, next: nat) returns (text: string, next': nat)
    requires next <= |args| && Matches(SpecOf(c), args[next..])
    ensures text == Shown(SpecOf(c), args[next..])
    ensures next' == next + Used(SpecOf(c)) && next' <= |args|
  {
    text, next' := "", next;
    if c == '%' {
      text := [c];
    } else if c == 'c' {
      text := [(args[next].v % 256) as char];
      next' := next + 1;
    } else if c == 'x' {
      text := PrintHex(args[next].v);
      next' := next + 1;
    } else if c == 's' {
      text := args[next].s;
      next' := next + 1;
    }
  }

  /** The minimal printf knows four directives: any other character after a percent sign, a modifier or a
      letter of the logging one too, is dropped with it, prints nothing and takes no argument. So is a
      percent sign at the end. */
  lemma OthersDropped(c: char, rest: string, args: seq<Arg>)
    requires c !in {'%', 'c', 'x', 's'}
    ensures AltRender("%" + [c] + rest, args) == AltRender(rest, args)
    ensures AltRender("%", args) == Printed("")
  {
    var f := "%" + [c] + rest;
    assert f[2..] == rest && args[0..] == args;
    PrependNothing(AltRender(rest, args));
  }

  /** Formats both implementations give the same meaning: no modifiers, and none of the letters that
      only the logging one knows. */
  predicate Common(f: string) {
    f == "" ||
    if f[0] != '%' then Common(f[1..])
    else |f| == 1 || (!IsModifier(f[1]) && f[1] !in "diuoX" && Common(f[2..]))
  }

  /** A directive of a common format, in the grammar of the logging printf. */
  lemma CommonDirective(f: string, args: seq<Arg>)
    requires |f| > 1 && f[0] == '%' && !IsModifier(f[1]) && f[1] != '%'
    ensures var c := ConversionOf(f[1]);
            Render(f, args) == if !Supplied(c, args) then Mismatch
                               else Render(f[2..], args[Taken(c)..]).Prepend(Convert(c, false, -1, args))
  {
    assert f[1..][0] == f[1] && f[1..][1..] == f[2..];
    AtLetter(false, "", f[1..], args);
  }

  /** Both print such a directive alike and take the same arguments for it. */
  lemma CommonLetter(c: char, args: seq<Arg>)
    requires !IsModifier(c) && c !in "diuoX" && c != '%'
    ensures Supplied(ConversionOf(c), args) <==> Matches(SpecOf(c), args)
    ensures Taken(ConversionOf(c)) == Used(SpecOf(c))
    ensures Supplied(ConversionOf(c), args) ==> Convert(ConversionOf(c), false, -1, args) == Shown(SpecOf(c), args)
  {
    if c == 'x' && Supplied(ConversionOf(c), args) {
      assert IntegerText(args[0].v, false, 16, -1, false, false) == Numeral(args[0].v, 16, false);
    }
    if c == 's' && Supplied(ConversionOf(c), args) {
      assert Repeat(' ', -1 - |args[0].s|) + args[0].s == args[0].s;
    }
    if c == 'c' && Supplied(ConversionOf(c), args) {
      assert Repeat(' ', -2) == "";
    }
  }

  /** The two implementations print every common format alike, whatever the arguments, and reject the
      same ones. */
  lemma {:induction false} SameOutput(f: string, args: seq<Arg>)
    requires Common(f)
    ensures Render(f, args) == AltRender(f, args)
    decreases |f|
  {
    if f == "" || f == "%" {
      assert f == "" || f[1..] == "";
    } else if f[0] != '%' {
      SameOutput(f[1..], args);
    } else if f[1] == '%' {
      SameOutput(f[2..], args);
      assert f[1..][1..] == f[2..] && args[0..] == args;
    } else {
      var c := ConversionOf(f[1]);
      CommonDirective(f, args);
      CommonLetter(f[1], args);
      if Supplied(c, args) {
        SameOutput(f[2..], args[Taken(c)..]);
      }
    }
  }

  /** The two implementations print %x alike, for every 32-bit word. */
  lemma SameHex(v: u32)
    ensures Render("%x", [Word(v)]) == AltRender("%x", [Word(v)]) == Printed(Numeral(v, 16, false))
  {
    assert "%x"[2..] == "";
    SameOutput("%x", [Word(v)]);
  }
}
