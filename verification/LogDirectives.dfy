/** What each directive of the logging printf prints, read off the output alone: the number it stands for,
    the base and case of its digits, its length and its padding. */
module LogDirectives {
  import opened Arithmetic
  import opened Numerals
  import opened LogNumber
  import opened LogFormat

  /** The zero flag, if any, then modifiers that do not begin with it. */
  predicate Modifiers(zero: bool, mods: string) {
    (forall i | 0 <= i < |mods| :: IsModifier(mods[i])) && (zero || mods == "" || mods[0] != '0')
  }

  /** A format that begins with one directive. */
  function Format(zero: bool, mods: string, c: char, rest: string): string {
    "%" + (if zero then "0" else "") + mods + [c] + rest
  }

  // ---- How a directive is taken apart ----

  lemma {:induction false} RunOf(mods: string, c: char, rest: string)
    requires (forall i | 0 <= i < |mods| :: IsModifier(mods[i])) && !IsModifier(c)
    ensures ModifierRun(mods + [c] + rest) == |mods|
  {
    if mods != "" {
      assert (mods + [c] + rest)[1..] == mods[1..] + [c] + rest;
      RunOf(mods[1..], c, rest);
    }
  }

  lemma TakenApart(zero: bool, mods: string, c: char, rest: string, args: seq<Arg>)
    requires Modifiers(zero, mods) && !IsModifier(c) && (c != '%' || zero || mods != "")
    ensures Render(Format(zero, mods, c, rest), args) ==
              var conversion := ConversionOf(c);
              if !Supplied(conversion, args) then Mismatch
              else Render(rest, args[Taken(conversion)..]).Prepend(Convert(conversion, zero, Width(mods), args))
  {
    var f, tail := Format(zero, mods, c, rest), mods + [c] + rest;
    assert f[1..] == (if zero then "0" else "") + tail;
    DirectiveOf(zero, mods, c, rest, args);
    assert Render(f, args) == AfterPercent(f[1..], args);
    if zero {
      assert f[1..][1..] == tail;
    } else {
      assert f[1..] == tail;
      assert tail[0] == if mods == "" then c else mods[0];
    }
  }

  lemma DirectiveOf(zero: bool, mods: string, c: char, rest: string, args: seq<Arg>)
    requires Modifiers(zero, mods) && !IsModifier(c)
    ensures Directive(zero, "", mods + [c] + rest, args) ==
              var conversion := ConversionOf(c);
              if !Supplied(conversion, args) then Mismatch
              else Render(rest, args[Taken(conversion)..]).Prepend(Convert(conversion, zero, Width(mods), args))
  {
    var tail := mods + [c] + rest;
    RunOf(mods, c, rest);
    assert tail[..|mods|] == mods && tail[|mods|] == c && tail[|mods| + 1..] == rest;
    assert "" + mods == mods;
  }

  // ---- Numbers ----

  predicate DigitOf(c: char, base: Base, upper: bool) {
    || ('0' <= c <= '9' && (c - '0') as int < base)
    || (base == 16 && if upper then 'A' <= c <= 'F' else 'a' <= c <= 'f')
  }

  /** The text is spaces, a minus sign if the number is negative, and digits of the base that make its
      magnitude. */
  ghost predicate Reads(text: string, spaces: nat, numeral: string, number: int, base: Base, upper: bool) {
    && text == Repeat(' ', spaces) + (if number < 0 then "-" else "") + numeral
    && numeral != "" && (forall i | 0 <= i < |numeral| :: DigitOf(numeral[i], base, upper))
    && ParseNat(numeral, base) == if number < 0 then -number else number
  }

  /** It is at least as long as the width, and padded only up to it: with zeros if the zero flag is given,
      otherwise with spaces. */
  predicate Fits(text: string, spaces: nat, numeral: string, zero: bool, width: int) {
    && (if zero then spaces == 0 else Lean(numeral))
    && |text| >= width && (|text| > width ==> spaces == 0 && Lean(numeral))
  }

  ghost predicate Shows(text: string, number: int, base: Base, upper: bool, zero: bool, width: int) {
    exists spaces: nat, numeral: string ::
      Reads(text, spaces, numeral, number, base, upper) && Fits(text, spaces, numeral, zero, width)
  }

  /** Without a zero in front that could be left out. */
  predicate Lean(numeral: string) {
    |numeral| == 1 || (numeral != "" && numeral[0] != '0')
  }

  lemma Shown(text: string, spaces: nat, numeral: string, number: int, base: Base, upper: bool, zero: bool, width: int)
    requires Reads(text, spaces, numeral, number, base, upper) && Fits(text, spaces, numeral, zero, width)
    ensures Shows(text, number, base, upper, zero, width)
  {
  }

  lemma NumeralDigits(v: nat, base: Base, upper: bool)
    ensures var s := Numeral(v, base, upper);
            && (forall i | 0 <= i < |s| :: DigitOf(s[i], base, upper)) && ParseNat(s, base) == v && Lean(s)
  {
    DigitsDenote(v, base);
    var s := Numeral(v, base, upper);
    assert Repeat('0', 0) + s == s;
    ParseDigits(0, Digits(v, base), base, upper);
  }

  /** Zeros in front of a numeral. */
  lemma ZerosDigits(pad: int, v: nat, base: Base, upper: bool)
    ensures var s := Repeat('0', pad) + Numeral(v, base, upper);
            && (forall i | 0 <= i < |s| :: DigitOf(s[i], base, upper)) && ParseNat(s, base) == v
  {
    DigitsDenote(v, base);
    NumeralDigits(v, base, upper);
    ParseDigits(pad, Digits(v, base), base, upper);
  }

  lemma TextShows(v: u32, signed: bool, base: Base, width: int, zero: bool, upper: bool)
    ensures Shows(IntegerText(v, signed, base, width, zero, upper), Meaning(v, signed), base, upper, zero, width)
  {
    var number, magnitude := Meaning(v, signed), Magnitude(v, signed);
    if zero {
      ZerosShow(number, magnitude, width, base, upper);
    } else {
      SpacesShow(number, magnitude, width, base, upper);
    }
  }

  lemma ZerosShow(number: int, magnitude: nat, width: int, base: Base, upper: bool)
    requires magnitude == if number < 0 then -number else number
    ensures Shows(Padded(number < 0, width, true, Numeral(magnitude, base, upper)), number, base, upper, true, width)
  {
    var digits, sign := Numeral(magnitude, base, upper), if number < 0 then "-" else "";
    var pad := width - |digits| - |sign|;
    var numeral := Repeat('0', pad) + digits;
    NumeralDigits(magnitude, base, upper);
    ZerosDigits(pad, magnitude, base, upper);
    var text := Padded(number < 0, width, true, digits);
    assert text == Repeat(' ', 0) + sign + numeral by {
      assert Repeat(' ', 0) == "" && "" + sign == sign;
      assert text == sign + Repeat('0', pad) + digits;
      assert sign + Repeat('0', pad) + digits == sign + (Repeat('0', pad) + digits);
    }
    assert Fits(text, 0, numeral, true, width) by {
      assert pad <= 0 ==> Repeat('0', pad) == "" && "" + digits == digits;
    }
    Shown(text, 0, numeral, number, base, upper, true, width);
  }

  lemma SpacesShow(number: int, magnitude: nat, width: int, base: Base, upper: bool)
    requires magnitude == if number < 0 then -number else number
    ensures Shows(Padded(number < 0, width, false, Numeral(magnitude, base, upper)), number, base, upper, false, width)
  {
    var digits, sign := Numeral(magnitude, base, upper), if number < 0 then "-" else "";
    var pad := width - |digits| - |sign|;
    NumeralDigits(magnitude, base, upper);
    assert Repeat(' ', |Repeat(' ', pad)|) == Repeat(' ', pad);
    Shown(Padded(number < 0, width, false, digits), |Repeat(' ', pad)|, digits, number, base, upper, false, width);
  }

  lemma IntegerDirective(c: char, signed: bool, base: Base, upper: bool, zero: bool, mods: string, rest: string,
                         v: u32, args: seq<Arg>)
    returns (out: string)
    requires ConversionOf(c) == Integer(signed, base, upper) && Modifiers(zero, mods) && !IsModifier(c) && c != '%'
    ensures Render(Format(zero, mods, c, rest), [Word(v)] + args) == Render(rest, args).Prepend(out)
    ensures Parse(out, base) == Meaning(v, signed)
    ensures Shows(out, Meaning(v, signed), base, upper, zero, Width(mods))
  {
    TakenApart(zero, mods, c, rest, [Word(v)] + args);
    out := IntegerText(v, signed, base, Width(mods), zero, upper);
    ParsesBack(v, signed, base, Width(mods), zero, upper);
    TextShows(v, signed, base, Width(mods), zero, upper);
  }

  // ---- Promises ----

  /** %d and %i print the word as a two's complement number in base 10. */
  lemma SignedDirective(c: char, zero: bool, mods: string, rest: string, v: u32, args: seq<Arg>)
    returns (out: string)
    requires c in {'d', 'i'} && Modifiers(zero, mods)
    ensures Render(Format(zero, mods, c, rest), [Word(v)] + args) == Render(rest, args).Prepend(out)
    ensures var number := if v >= 0x8000_0000 then v - 0x1_0000_0000 else v;
            Parse(out, 10) == number && Shows(out, number, 10, false, zero, Width(mods))
  {
    out := IntegerDirective(c, true, 10, false, zero, mods, rest, v, args);
  }

  /** %u, %o, %x and %X print it as a number without sign in base 10, 8 and 16, with capitals for %X only. */
  lemma UnsignedDirective(c: char, zero: bool, mods: string, rest: string, v: u32, args: seq<Arg>)
    returns (out: string)
    requires c in {'u', 'o', 'x', 'X'} && Modifiers(zero, mods)
    ensures Render(Format(zero, mods, c, rest), [Word(v)] + args) == Render(rest, args).Prepend(out)
    ensures var base := if c == 'u' then 10 else if c == 'o' then 8 else 16;
            Parse(out, base) == v && Shows(out, v, base, c == 'X', zero, Width(mods))
  {
    var base := if c == 'u' then 10 else if c == 'o' then 8 else 16;
    out := IntegerDirective(c, false, base, c == 'X', zero, mods, rest, v, args);
  }

  /** The text stands at the end of a field of spaces at least that wide. */
  predicate RightAligned(out: string, text: string, width: int) {
    && |out| == (if width > |text| then width else |text|)
    && out[|out| - |text|..] == text && forall i | 0 <= i < |out| - |text| :: out[i] == ' '
  }

  /** %c prints the low byte of a word, %s a string, at the end of the field, with spaces in front. */
  lemma CharacterDirective(zero: bool, mods: string, rest: string, v: u32, args: seq<Arg>) returns (out: string)
    requires Modifiers(zero, mods)
    ensures Render(Format(zero, mods, 'c', rest), [Word(v)] + args) == Render(rest, args).Prepend(out)
    ensures RightAligned(out, [(v % 256) as char], Width(mods))
  {
    TakenApart(zero, mods, 'c', rest, [Word(v)] + args);
    out := Repeat(' ', Width(mods) - 1) + [(v % 256) as char];
  }

  lemma TextDirective(zero: bool, mods: string, rest: string, s: string, args: seq<Arg>) returns (out: string)
    requires Modifiers(zero, mods)
    ensures Render(Format(zero, mods, 's', rest), [Str(s)] + args) == Render(rest, args).Prepend(out)
    ensures RightAligned(out, s, Width(mods))
  {
    TakenApart(zero, mods, 's', rest, [Str(s)] + args);
    out := Repeat(' ', Width(mods) - |s|) + s;
  }

  /** Any other character ends its directive, takes no argument and prints nothing; a percent sign too, if
      it does not follow the first at once. */
  lemma OtherLetters(c: char, zero: bool, mods: string, rest: string, args: seq<Arg>)
    requires Modifiers(zero, mods) && !IsModifier(c) && c !in {'d', 'i', 'u', 'o', 'x', 'X', 'c', 's'}
    requires c == '%' ==> zero || mods != ""
    ensures Render(Format(zero, mods, c, rest), args) == Render(rest, args)
  {
    TakenApart(zero, mods, c, rest, args);
    assert args[0..] == args;
  }

  /** Everything before a percent sign is printed as it stands, and a doubled percent sign as one. */
  lemma {:induction false} Literally(text: string, rest: string, args: seq<Arg>)
    requires '%' !in text
    ensures Render(text + rest, args) == Render(rest, args).Prepend(text)
    ensures Render("%%" + rest, args) == Render(rest, args).Prepend("%")
  {
    assert ("%%" + rest)[1..][1..] == rest;
    if text == "" {
      assert "" + rest == rest;
      PrependNothing(Render(rest, args));
    } else {
      assert (text + rest)[1..] == text[1..] + rest;
      Literally(text[1..], rest, args);
      PrependTwice(Render(rest, args), [text[0]], text[1..]);
      assert [text[0]] + text[1..] == text;
    }
  }

  /** Modifiers that add nothing to the width: letters l, then perhaps a point and anything. */
  predicate Weightless(tail: string) {
    tail == "" || tail[0] == '.' || (tail[0] == 'l' && Weightless(tail[1..]))
  }

  lemma {:induction false} NoWidthDigits(tail: string)
    requires Weightless(tail)
    ensures WidthDigits(tail) == []
  {
    if tail != "" && tail[0] != '.' {
      NoWidthDigits(tail[1..]);
    }
  }

  lemma {:induction false} WidthDigitsOf(digits: string, tail: string)
    requires (forall i | 0 <= i < |digits| :: '0' <= digits[i] <= '9') && Weightless(tail)
    ensures WidthDigits(digits + tail) == seq(|digits|, i requires 0 <= i < |digits| => DigitValue(digits[i]))
  {
    if digits == "" {
      assert digits + tail == tail;
      NoWidthDigits(tail);
    } else {
      assert (digits + tail)[1..] == digits[1..] + tail;
      WidthDigitsOf(digits[1..], tail);
    }
  }

  /** The width is the decimal number written before the point, and there is none without digits there. */
  lemma WidthMeans(digits: string, tail: string)
    requires (forall i | 0 <= i < |digits| :: '0' <= digits[i] <= '9') && Weightless(tail)
    ensures Width(digits + tail) == if digits == "" then -1 else ParseNat(digits, 10)
  {
    WidthDigitsOf(digits, tail);
  }
}
