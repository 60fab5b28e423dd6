/** Number printing of alt_log_printf: sign stripping, digit counting, padding, digits. */
module LogNumber {
  import opened Arithmetic
  import opened Numerals

  /** The character of one digit. */
  function DigitChar(d: nat, upper: bool): char
    requires d < 16
  {
    if d < 10 then '0' + d as char
    else if upper then 'A' + (d - 10) as char
    else 'a' + (d - 10) as char
  }

  function Chars(ds: seq<nat>, upper: bool): (s: string)
    requires forall i | 0 <= i < |ds| :: ds[i] < 16
    ensures |s| == |ds|
  {
    seq(|ds|, i requires 0 <= i < |ds| => DigitChar(ds[i], upper))
  }

  function Repeat(c: char, n: int): (s: string)
    ensures |s| == if n > 0 then n else 0
  {
    seq(if n > 0 then n else 0, _ => c)
  }

  /** Sign and magnitude of a 32-bit word read as a two's complement number. */
  function Negative(v: u32, signed: bool): bool {
    signed && v >= 0x8000_0000
  }

  function Magnitude(v: u32, signed: bool): u32 {
    if Negative(v, signed) then WORD - v else v
  }

  /** The number a 32-bit word stands for. */
  function Meaning(v: u32, signed: bool): int {
    if Negative(v, signed) then v - WORD else v
  }

  function Numeral(v: nat, base: Base, upper: bool): (s: string)
    ensures |s| > 0
  {
    DigitsDenote(v, base);
    Chars(Digits(v, base), upper)
  }

  /** The text of an integer directive; a width of -1 means none was given. */
  function IntegerText(v: u32, signed: bool, base: Base, width: int, zero: bool, upper: bool): string {
    Padded(Negative(v, signed), width, zero, Numeral(Magnitude(v, signed), base, upper))
  }

  /** Sign and padding around the digits: zeros go after the sign, spaces before it. */
  function Padded(negative: bool, width: int, zero: bool, digits: string): string {
    var sign := if negative then "-" else "";
    var pad := width - |digits| - |sign|;
    if zero then sign + Repeat('0', pad) + digits else Repeat(' ', pad) + sign + digits
  }

  // ---- The loops ----

  /** Counts digits and finds the largest place value, which never exceeds the number. */
  method CountDigits(v: u32, base: Base) returns (count: nat, p: u32)
    ensures count > 0 && p == Pow(base, count - 1)
    ensures v < p * base && (p <= v || p == 1)
  {
    var shrink := v / base;
    count, p := 1, 1;
    DivMod(v, base);
    while shrink > 0
      invariant count > 0 && p == Pow(base, count - 1)
      invariant shrink == v / (p * base)
      invariant p <= v || p == 1
      decreases shrink
    {
      DivMod(v, p * base);
      AtLeastOne(v, p * base);
      DivDiv(v, p * base, base);
      count := count + 1;
      p := p * base;
      Shrinks(shrink, base);
      shrink := shrink / base;
    }
    DivMod(v, p * base);
  }

  lemma AtLeastOne(v: nat, n: nat)
    requires n > 0 && v / n > 0
    ensures n <= v
  {
  }

  lemma Shrinks(v: nat, base: Base)
    requires v > 0
    ensures 0 <= v / base < v
  {
  }

  /** Prints v from the place value p down: the digits printed are its canonical numeral. */
  method PrintDigits(v: u32, p0: u32, ghost k0: nat, base: Base, upper: bool) returns (out: string)
    requires p0 == Pow(base, k0) && v < p0 * base && (p0 <= v || p0 == 1)
    ensures out == Numeral(v, base, upper)
  {
    var rest: nat, p: nat := v, p0;
    ghost var ds: seq<nat>, left: nat := [], k0 + 1;
    out := "";
    PrintStart(v, p0, k0, base);
    while p > 0
      invariant p == if left > 0 then Pow(base, left - 1) else 0
      invariant |ds| + left == k0 + 1
      invariant Printed(ds, base, v, rest, p) && out == Chars(ds, upper)
      invariant ds == [] ==> k0 > 0 ==> p <= rest
      invariant ds != [] ==> k0 > 0 ==> ds[0] > 0
      decreases left
    {
      var d: nat;
      d, rest, p := NextDigit(ds, base, v, rest, p, left - 1);
      CharsSnoc(ds, d, upper);
      out := out + [DigitChar(d, upper)];
      ds := ds + [d];
      left := left - 1;
    }
    PrintEnd(ds, v, rest, k0, base, upper);
  }

  lemma PrintStart(v: nat, p0: nat, k0: nat, base: Base)
    requires p0 == Pow(base, k0) && v < p0 * base && (p0 <= v || p0 == 1)
    ensures Printed([], base, v, v, p0) && (k0 > 0 ==> p0 <= v)
  {
  }

  lemma CharsSnoc(ds: seq<nat>, d: nat, upper: bool)
    requires d < 16 && forall i | 0 <= i < |ds| :: ds[i] < 16
    ensures Chars(ds + [d], upper) == Chars(ds, upper) + [DigitChar(d, upper)]
  {
  }

  lemma PrintEnd(ds: seq<nat>, v: nat, rest: nat, k0: nat, base: Base, upper: bool)
    requires Printed(ds, base, v, rest, 0) && |ds| == k0 + 1 && (k0 > 0 ==> ds[0] > 0)
    ensures Chars(ds, upper) == Numeral(v, base, upper)
  {
    CanonicalIsDigits(ds, base);
  }

  /** One pass of the printing loop: the digit at place p, what remains, the next place. */
  method NextDigit(ghost ds: seq<nat>, base: Base, ghost v: nat, rest: nat, p: nat, ghost k: nat)
    returns (d: nat, rest': nat, p': nat)
    requires p == Pow(base, k) && Printed(ds, base, v, rest, p)
    ensures d < base && Printed(ds + [d], base, v, rest', p')
    ensures p' == if k > 0 then Pow(base, k - 1) else 0
    ensures p <= rest ==> d > 0
  {
    PrintOne(ds, base, v, rest, k);
    FirstDigit(rest, p, rest / p);
    d := rest / p;
    rest' := rest % p;
    p' := p / base;
  }

  /** The printed digits, weighted by what is still to come, and the rest make up the number. */
  ghost predicate Printed(ds: seq<nat>, base: Base, v: nat, rest: nat, p: nat) {
    && (forall i | 0 <= i < |ds| :: ds[i] < base)
    && Shifted(Value(ds, base), p, base) + rest == v
    && rest < Place(p, base)
  }

  function Shifted(sum: nat, p: nat, base: Base): nat {
    if p > 0 then sum * (p * base) else sum
  }

  /** The weight just above everything still to be printed. */
  function Place(p: nat, base: Base): nat {
    if p > 0 then p * base else 1
  }

  lemma PrintOne(ds: seq<nat>, base: Base, v: nat, rest: nat, k: nat)
    requires Printed(ds, base, v, rest, Pow(base, k))
    ensures var p := Pow(base, k);
            && 0 <= rest / p < base && 0 <= rest % p && 0 <= p / base
            && Printed(ds + [rest / p], base, v, rest % p, p / base)
            && p / base == if k > 0 then Pow(base, k - 1) else 0
  {
    var p := Pow(base, k);
    StepDown(Value(ds, base), rest, p, base, v);
    ValueSnoc(ds, rest / p, base);
    PowDown(base, k);
  }

  lemma PowGrows(base: Base, k: nat)
    ensures k > 0 ==> Pow(base, k) > 1
  {
  }

  lemma PowDown(base: Base, k: nat)
    ensures Pow(base, k) / base == if k > 0 then Pow(base, k - 1) else 0
    ensures forall sum: nat :: Shifted(sum, Pow(base, k) / base, base) == sum * Pow(base, k)
    ensures Place(Pow(base, k) / base, base) == Pow(base, k)
  {
  }

  lemma FirstDigit(v: nat, p: nat, d: nat)
    requires p > 0 && d == v / p
    ensures p <= v ==> d > 0
  {
  }

  lemma StepDown(sum: nat, rest: nat, p: nat, base: Base, v: nat)
    requires p > 0 && sum * (p * base) + rest == v && rest < p * base
    ensures 0 <= rest / p < base && 0 <= rest % p < p
    ensures (sum * base + rest / p) * p + rest % p == v
  {
  }

  // ---- The whole directive ----

  /** alt_log_repchar. */
  method RepeatChar(c: char, r: int) returns (out: string)
    ensures out == Repeat(c, r)
  {
    out := "";
    var n := r;
    while n > 0
      invariant out == Repeat(c, r - if n > 0 then n else (if r > 0 then 0 else r))
    {
      n := n - 1;
      out := out + [c];
    }
  }

  /** The integer part of alt_log_private_printf. */
  method PrintInteger(word: u32, signed: bool, base: Base, width: int, zero: bool, upper: bool) returns (out: string)
    ensures out == IntegerText(word, signed, base, width, zero, upper)
  {
    var v, sign := StripSign(word, signed);
    var count, p := CountDigits(v, base);
    CountIsLength(v, p, count, base, upper);
    out := PrintLead(sign, width - count, zero);
    var digits := PrintDigits(v, p, count - 1, base, upper);
    out := out + digits;
  }

  method StripSign(word: u32, signed: bool) returns (v: u32, sign: bool)
    ensures v == Magnitude(word, signed) && sign == Negative(word, signed)
  {
    v, sign := word, false;
    if signed && word >= 0x8000_0000 {
      v := (0xFFFF_FFFF - word + 1) % WORD;
      sign := true;
    }
  }

  /** The sign and the padding before the digits. */
  method PrintLead(sign: bool, room: int, zero: bool) returns (out: string)
    ensures var s := if sign then "-" else "";
            out == if zero then s + Repeat('0', room - |s|) else Repeat(' ', room - |s|) + s
  {
    var before := room;
    if zero {
      out := "";
      if sign {
        out := "-";
        before := before - 1;
      }
      var zeros := RepeatChar('0', before);
      out := out + zeros;
    } else {
      if sign {
        before := before - 1;
      }
      out := RepeatChar(' ', before);
      if sign {
        out := out + "-";
      }
    }
  }

  /** The digits counted are the digits printed. */
  lemma CountIsLength(v: nat, p: nat, count: nat, base: Base, upper: bool)
    requires count > 0 && p == Pow(base, count - 1) && v < p * base && (p <= v || p == 1)
    ensures |Numeral(v, base, upper)| == count
  {
    PowGrows(base, count - 1);
    DigitsLength(v, base, count);
  }

  lemma {:induction false} DigitsLength(v: nat, base: Base, count: nat)
    requires count > 0 && v < Pow(base, count - 1) * base
    requires count > 1 ==> Pow(base, count - 1) <= v
    ensures |Digits(v, base)| == count
    decreases count
  {
    if count > 1 {
      var p := Pow(base, count - 2);
      assert Pow(base, count - 1) == p * base;
      Quotients(v, p, base);
      DigitsLength(v / base, base, count - 1);
    }
  }

  lemma Quotients(v: nat, p: nat, base: Base)
    requires p > 0 && p * base <= v < p * base * base
    ensures p <= v / base < p * base && v >= base
  {
  }

  // ---- What the text is for ----

  /** The text is as wide as asked, or as wide as the number needs, whatever the padding. */
  lemma TextLength(v: u32, signed: bool, base: Base, width: int, zero: bool, upper: bool)
    ensures var need := |Digits(Magnitude(v, signed), base)| + if Negative(v, signed) then 1 else 0;
            |IntegerText(v, signed, base, width, zero, upper)| == if width > need then width else need
  {
  }

  function DigitValue(c: char): nat {
    if '0' <= c <= '9' then (c - '0') as nat
    else if 'a' <= c <= 'f' then (c - 'a') as nat + 10
    else if 'A' <= c <= 'F' then (c - 'A') as nat + 10
    else 0
  }

  function ParseNat(s: string, base: Base): int {
    Value(seq(|s|, i requires 0 <= i < |s| => DigitValue(s[i])), base)
  }

  /** Reading a number: leading spaces, an optional minus sign, digits. */
  function Parse(s: string, base: Base): int {
    if s != "" && s[0] == ' ' then Parse(s[1..], base)
    else if s != "" && s[0] == '-' then -ParseNat(s[1..], base)
    else ParseNat(s, base)
  }

  lemma {:induction false} ParseDigits(zeros: int, ds: seq<nat>, base: Base, upper: bool)
    requires forall i | 0 <= i < |ds| :: ds[i] < base
    ensures ParseNat(Repeat('0', zeros) + Chars(ds, upper), base) == Value(ds, base)
  {
    var s := Repeat('0', zeros) + Chars(ds, upper);
    var vs := seq(|s|, i requires 0 <= i < |s| => DigitValue(s[i]));
    var z: nat := if zeros > 0 then zeros else 0;
    assert vs == seq(z, _ => 0) + ds;
    ZerosFirst(z, ds, base);
  }

  lemma {:induction false} ZerosFirst(z: nat, ds: seq<nat>, base: Base)
    ensures Value(seq(z, _ => 0) + ds, base) == Value(ds, base)
    decreases |ds|, z
  {
    if ds != [] {
      var n := |ds| - 1;
      ZerosFirst(z, ds[..n], base);
      assert (seq(z, _ => 0) + ds)[..z + n] == seq(z, _ => 0) + ds[..n];
    } else if z > 0 {
      ZerosFirst(z - 1, [], base);
      assert (seq(z, _ => 0) + ds)[..z - 1] == seq(z - 1, _ => 0) + [];
    }
  }

  lemma {:induction false} ParseSpaces(n: int, s: string, base: Base)
    ensures Parse(Repeat(' ', n) + s, base) == Parse(s, base)
    decreases if n > 0 then n else 0
  {
    if n > 0 {
      ParseSpaces(n - 1, s, base);
      assert (Repeat(' ', n) + s)[1..] == Repeat(' ', n - 1) + s;
    } else {
      assert Repeat(' ', n) + s == s;
    }
  }

  /** Printing then reading gives the number back: every 32-bit word, signed or not, in every
      base, width, padding and case; the most negative number included. */
  lemma ParsesBack(v: u32, signed: bool, base: Base, width: int, zero: bool, upper: bool)
    ensures Parse(IntegerText(v, signed, base, width, zero, upper), base) == Meaning(v, signed)
  {
    var ds := Digits(Magnitude(v, signed), base);
    DigitsDenote(Magnitude(v, signed), base);
    PaddedBack(Negative(v, signed), width, zero, ds, base, upper);
  }

  lemma PaddedBack(negative: bool, width: int, zero: bool, ds: seq<nat>, base: Base, upper: bool)
    requires ds != [] && forall i | 0 <= i < |ds| :: ds[i] < base
    ensures Parse(Padded(negative, width, zero, Chars(ds, upper)), base)
            == if negative then -(Value(ds, base) as int) else Value(ds, base)
  {
    var pad := width - |ds| - if negative then 1 else 0;
    if zero {
      ZeroPaddedBack(negative, pad, ds, base, upper);
    } else {
      SpacePaddedBack(negative, pad, ds, base, upper);
    }
  }

  lemma ZeroPaddedBack(negative: bool, pad: int, ds: seq<nat>, base: Base, upper: bool)
    requires ds != [] && forall i | 0 <= i < |ds| :: ds[i] < base
    ensures Parse((if negative then "-" else "") + Repeat('0', pad) + Chars(ds, upper), base)
            == if negative then -(Value(ds, base) as int) else Value(ds, base)
  {
    var body := Repeat('0', pad) + Chars(ds, upper);
    var sign := if negative then "-" else "";
    ParseDigits(pad, ds, base, upper);
    DigitStart(pad, ds, upper);
    ParseSigned(negative, body, base);
    assert sign + Repeat('0', pad) + Chars(ds, upper) == sign + body;
  }

  lemma SpacePaddedBack(negative: bool, pad: int, ds: seq<nat>, base: Base, upper: bool)
    requires ds != [] && forall i | 0 <= i < |ds| :: ds[i] < base
    ensures Parse(Repeat(' ', pad) + (if negative then "-" else "") + Chars(ds, upper), base)
            == if negative then -(Value(ds, base) as int) else Value(ds, base)
  {
    var digits := Chars(ds, upper);
    var sign := if negative then "-" else "";
    UnpaddedBack(negative, ds, base, upper);
    ParseSpaces(pad, sign + digits, base);
    assert Repeat(' ', pad) + sign + digits == Repeat(' ', pad) + (sign + digits);
  }

  lemma UnpaddedBack(negative: bool, ds: seq<nat>, base: Base, upper: bool)
    requires ds != [] && forall i | 0 <= i < |ds| :: ds[i] < base
    ensures Parse((if negative then "-" else "") + Chars(ds, upper), base)
            == if negative then -(Value(ds, base) as int) else Value(ds, base)
  {
    ParseDigits(0, ds, base, upper);
    DigitStart(0, ds, upper);
    assert Repeat('0', 0) + Chars(ds, upper) == Chars(ds, upper);
    ParseSigned(negative, Chars(ds, upper), base);
  }

  lemma DigitStart(pad: int, ds: seq<nat>, upper: bool)
    requires ds != [] && forall i | 0 <= i < |ds| :: ds[i] < 16
    ensures Plain(Repeat('0', pad) + Chars(ds, upper))
  {
  }

  predicate Plain(s: string) {
    s != "" && s[0] != ' ' && s[0] != '-'
  }

  lemma ParseSigned(negative: bool, s: string, base: Base)
    requires Plain(s)
    ensures Parse((if negative then "-" else "") + s, base)
            == if negative then -ParseNat(s, base) else ParseNat(s, base)
  {
    if negative {
      assert ("-" + s)[1..] == s;
    } else {
      assert "" + s == s;
    }
  }
}
