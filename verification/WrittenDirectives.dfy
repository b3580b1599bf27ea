/** What a directive of printf puts out, from its characters on, against section 7.19.6.1 of ISO C99
    (src/stdlib/printf.c:597-860). */
module WrittenDirectives {
  import opened Arithmetic
  import opened DigitStrings
  import opened Bytes
  import opened Numerals
  import opened Printf
  import opened Directives
  import opened StandardTexts

  /** A directive with its '%' stands at place `i`, and the arguments of its stars are there. */
  ghost predicate Stands(d: Written, fmt: seq<nat>, args: seq<Arg>, i: nat, a: nat) {
    WellWritten(d) && StandsAt(['%' as nat] + Characters(d), fmt, i) && HasStars(d, args, a)
  }

  /** The output from the directive on is its own output and the output from its end on. */
  lemma DirectiveExpands(d: Written, fmt: seq<nat>, args: seq<Arg>, i: nat, a: nat)
    requires Stands(d, fmt, args, i, a)
    ensures i + 1 + |Characters(d)| <= |fmt|
    ensures var r := Parse(fmt, args, i + 1, a);
            && r.Some? && Flagged(d.flags, Given(d.width, args, a) < 0, d.prec.Some?, d.length, r.value.f)
            && r.value.width == WidthOf(d, args, a) && r.value.prec == PrecisionOf(d, args, a) && r.value.a == Next(d, a)
            && Expand(fmt, args, i, a) ==
                 var piece := Convert(d.c, r.value, args);
                 if piece.None? then None
                 else Before(piece.value.0, Expand(fmt, args, i + 1 + |Characters(d)|, Next(d, a) + piece.value.1))
  {
    hide Parse, Convert, StandsAt, WellWritten, HasStars, Flagged, Characters, Given, WidthOf, PrecisionOf, Next;
    StandsApart(['%' as nat], Characters(d), fmt, i);
    WrittenIsParsed(d, fmt, args, i + 1, a);
  }

  // ---------------------------------------------------------------------------------------------
  // Integers
  // ---------------------------------------------------------------------------------------------

  predicate TakesInteger(c: nat) {
    || c == 'd' as nat || c == 'i' as nat || c == 'u' as nat || c == 'x' as nat || c == 'X' as nat || c == 'o' as nat || c == 'b' as nat
  }

  /** The argument as its length modifier and specifier have it: cut to its type, with a sign for d and i. */
  function ValueOf(w: nat, length: seq<nat>, c: nat): int {
    var size := if length == [] then 0x1_0000_0000 else if length[0] != 'h' as nat then 0x1_0000_0000_0000_0000
                else if |length| == 1 then 0x1_0000 else 0x100;
    if (c == 'd' as nat || c == 'i' as nat) && size <= 2 * (w % size) then w % size - size else w % size
  }

  function RadixOf(c: nat): (b: nat)
    ensures 2 <= b <= 16
  {
    if c == 'x' as nat || c == 'X' as nat then 16 else if c == 'o' as nat then 8 else if c == 'b' as nat then 2 else 10
  }

  /** The digits of a value; none for a zero with a precision. */
  function DigitsOf(v: int, precision: bool, c: nat): seq<nat> {
    if precision && v == 0 then [] else Numeral(Magnitude(v), RadixOf(c), c == 'X' as nat)
  }

  /** The sign of a value; only d and i have other signs than none. */
  function SignFor(v: int, flags: seq<nat>, c: nat): seq<nat> {
    if c != 'd' as nat && c != 'i' as nat then []
    else if v < 0 then ['-' as nat] else if '+' as nat in flags then ['+' as nat] else if ' ' as nat in flags then [' ' as nat] else []
  }

  /** '#' asks for nothing in decimal. */
  predicate Alternative(flags: seq<nat>, c: nat) {
    '#' as nat in flags && RadixOf(c) != 10
  }

  /** The text of an integer directive for the value `v`. */
  function IntegerText(d: Written, args: seq<Arg>, a: nat, v: int): seq<nat> {
    var digits, hash := DigitsOf(v, d.prec.Some?, d.c), Alternative(d.flags, d.c);
    StandardNumber(digits, SignFor(v, d.flags, d.c), MarkOf(Magnitude(v), hash, RadixOf(d.c), d.c == 'X' as nat),
                   LeastPrecision(digits, PrecisionOf(d, args, a), hash, RadixOf(d.c)), WidthOf(d, args, a),
                   '-' as nat in d.flags || Given(d.width, args, a) < 0, '0' as nat in d.flags && d.prec.None?)
  }

  predicate IntegerFits(d: Written, args: seq<Arg>, a: nat, v: int) {
    AllFits(Magnitude(v), |DigitsOf(v, d.prec.Some?, d.c)|, SignFor(v, d.flags, d.c), Alternative(d.flags, d.c), RadixOf(d.c), d.prec.Some?,
            PrecisionOf(d, args, a), WidthOf(d, args, a), '-' as nat in d.flags || Given(d.width, args, a) < 0, '0' as nat in d.flags && d.prec.None?)
  }

  lemma ValueIs(w: nat, d: Written, f: Flags)
    requires IsLength(d.length) && d.length != ['l' as nat, 'l' as nat] && LengthSet(d.length, f) && TakesInteger(d.c)
    ensures IntegerValue(w, f, IsSigned(d.c)) == ValueOf(w, d.length, d.c)
    ensures IsInteger(d.c) && !f.isLongLong && BaseOf(d.c) == RadixOf(d.c)
    ensures ValueOf(w, d.length, d.c) < 0 ==> d.c == 'd' as nat || d.c == 'i' as nat
  {
  }

  lemma IntegerFlagsAre(f: Flags, q: seq<nat>, reversed: bool, precision: bool, length: seq<nat>, c: nat)
    requires Flagged(q, reversed, precision, length, f) && TakesInteger(c)
    ensures IntegerFlags(f, c).hash <==> Alternative(q, c)
    ensures IntegerFlags(f, c).precision == precision
    ensures IntegerFlags(f, c).left <==> '-' as nat in q || reversed
    ensures IntegerFlags(f, c).zeropad <==> '0' as nat in q && !precision
    ensures IntegerFlags(f, c).uppercase <==> c == 'X' as nat
  {
  }

  lemma SignIsFor(f: Flags, q: seq<nat>, reversed: bool, precision: bool, length: seq<nat>, c: nat, v: int)
    requires Flagged(q, reversed, precision, length, f) && TakesInteger(c) && (v < 0 ==> c == 'd' as nat || c == 'i' as nat)
    ensures SignOf(v < 0, IntegerFlags(f, c).plus, IntegerFlags(f, c).space) == SignFor(v, q, c)
  {
  }

  lemma AlternativeHasNoSign(f: Flags, q: seq<nat>, c: nat, v: int)
    requires TakesInteger(c) && (v < 0 ==> c == 'd' as nat || c == 'i' as nat) && Alternative(q, c)
    ensures RadixOf(c) in {2, 8, 16} && 0 <= v && !IntegerFlags(f, c).plus && !IntegerFlags(f, c).space
  {
  }

  /** An integer directive puts out the standard's text exactly when it fits; `ll` is compiled out. */
  lemma IntegerDirective(d: Written, fmt: seq<nat>, args: seq<Arg>, i: nat, a: nat)
    requires Stands(d, fmt, args, i, a) && TakesInteger(d.c)
    requires d.length != ['l' as nat, 'l' as nat] && HasWord(args, Next(d, a))
    ensures i + 1 + |Characters(d)| <= |fmt|
    ensures var v := ValueOf(args[Next(d, a)].w, d.length, d.c);
            var rest := Expand(fmt, args, i + 1 + |Characters(d)|, Next(d, a) + 1);
            Expand(fmt, args, i, a) == Before(IntegerText(d, args, a, v), rest) <==> IntegerFits(d, args, a, v) || rest.None?
  {
    hide Expand, Parse, NumberText, Numeral, StandardNumber, AllFits, MarkOf, LeastPrecision, Alternative, IntegerValue, IntegerFlags, ValueOf, RadixOf, BaseOf, StandsAt, HasStars,
         Flagged, LengthSet, Characters, WidthOf, Given, Next, SignFor, SignOf, TakesInteger, IsInteger, IsSigned;
    DirectiveExpands(d, fmt, args, i, a);
    var r := Parse(fmt, args, i + 1, a).value;
    var v := ValueOf(args[Next(d, a)].w, d.length, d.c);
    assert LengthSet(d.length, r.f) by { LengthIsSet(d.flags, Given(d.width, args, a) < 0, d.prec.Some?, d.length, r.f); }
    ValueIs(args[Next(d, a)].w, d, r.f);
    IntegerFlagsAre(r.f, d.flags, Given(d.width, args, a) < 0, d.prec.Some?, d.length, d.c);
    SignIsFor(r.f, d.flags, Given(d.width, args, a) < 0, d.prec.Some?, d.length, d.c, v);
    if Alternative(d.flags, d.c) {
      AlternativeHasNoSign(r.f, d.flags, d.c, v);
    }
    NumberIsStandard(Magnitude(v), v < 0, RadixOf(d.c), r.prec, r.width, IntegerFlags(r.f, d.c));
    BeforeSame(NumberText(Magnitude(v), v < 0, RadixOf(d.c), r.prec, r.width, IntegerFlags(r.f, d.c)), IntegerText(d, args, a, v),
               Expand(fmt, args, i + 1 + |Characters(d)|, Next(d, a) + 1));
  }

  lemma LengthIsSet(q: seq<nat>, reversed: bool, precision: bool, length: seq<nat>, f: Flags)
    requires Flagged(q, reversed, precision, length, f)
    ensures LengthSet(length, f)
  {
  }

  lemma BeforeSame(s: seq<nat>, t: seq<nat>, rest: Option<seq<nat>>)
    ensures Before(s, rest) == Before(t, rest) <==> s == t || rest.None?
  {
    if rest.Some? && s + rest.value == t + rest.value {
      assert |s| == |t|;
      assert s == (s + rest.value)[..|s|] == (t + rest.value)[..|s|] == t;
    }
  }

  // ---------------------------------------------------------------------------------------------
  // Strings, characters and '%'
  // ---------------------------------------------------------------------------------------------

  /** A text in its field. */
  function Justify(s: seq<nat>, width: nat, left: bool): seq<nat> {
    if left then s + Spaces(width - |s|) else Spaces(width - |s|) + s
  }

  /** `%s` puts out a string, or as many of its characters as a precision says, on the right of its field or, with
      '-' or a width below zero, on the left; `%c` a character likewise; `%%` a '%'. */
  lemma OtherDirective(d: Written, fmt: seq<nat>, args: seq<Arg>, i: nat, a: nat)
    requires Stands(d, fmt, args, i, a) && (d.c == 's' as nat || d.c == 'c' as nat || d.c == '%' as nat)
    requires d.c == 's' as nat ==> Next(d, a) < |args| && args[Next(d, a)].Str?
    requires d.c == 'c' as nat ==> HasWord(args, Next(d, a))
    ensures i + 1 + |Characters(d)| <= |fmt|
    ensures var left := '-' as nat in d.flags || Given(d.width, args, a) < 0;
            var rest := Expand(fmt, args, i + 1 + |Characters(d)|, if d.c == '%' as nat then Next(d, a) else Next(d, a) + 1);
            Expand(fmt, args, i, a) ==
              if d.c == '%' as nat then Before(['%' as nat], rest)
              else if d.c == 'c' as nat then Before(Justify([args[Next(d, a)].w % 256], WidthOf(d, args, a), left), rest)
              else
                var s := args[Next(d, a)].s;
                Before(Justify(if d.prec.Some? then s[..Min(PrecisionOf(d, args, a), |s|)] else s, WidthOf(d, args, a), left), rest)
  {
    hide Expand, Parse, StandsAt, HasStars, Characters, WidthOf, PrecisionOf, Given, Next, LengthSet, Justified, StringPart, Spaces;
    DirectiveExpands(d, fmt, args, i, a);
    var r := Parse(fmt, args, i + 1, a).value;
    if d.c == 's' as nat {
      PartIs(args[Next(d, a)].s, r.prec, r.f);
      JustifiedIs(StringPart(args[Next(d, a)].s, r.prec, r.f), r.width, r.f);
    } else if d.c == 'c' as nat {
      JustifiedIs([args[Next(d, a)].w % 256], r.width, r.f);
    }
  }

  lemma PartIs(s: seq<nat>, prec: nat, f: Flags)
    ensures StringPart(s, prec, f) == if f.precision then s[..Min(prec, |s|)] else s
  {
  }

  lemma JustifiedIs(s: seq<nat>, width: nat, f: Flags)
    ensures Justified(s, width, f) == Justify(s, width, f.left)
  {
  }

  // ---------------------------------------------------------------------------------------------
  // Zero padding
  // ---------------------------------------------------------------------------------------------

  /** `%0wX` puts out a 32-bit number in upper-case hexadecimal with zeros in front of it up to the width, as far as
      32 characters. */
  lemma ZeroPaddedHexadecimal(q: seq<nat>, v: Long)
    requires IsDecimal(q) && q[0] != '0' as nat
    ensures var digits, width := Numeral(v % 0x1_0000_0000, 16, true), Read(q, 10) % 0x1_0000_0000;
            Expand(['%' as nat, '0' as nat] + q + ['X' as nat], [Word(v)], 0, 0) == Some(Zeros(Min(width, 32) - |digits|) + digits)
  {
    hide Expand, Parse, NumberText, Numeral, Read, Kept, Put, IsDecimal, Flagged, StandsAt, Characters;
    var fmt, args := ['%' as nat, '0' as nat] + q + ['X' as nat], [Word(v)];
    var d := Written(['0' as nat], Decimal(q), None, [], 'X' as nat);
    assert ['%' as nat] + Characters(d) == fmt by { HexadecimalCharacters(q); }
    assert StandsAt(['%' as nat] + Characters(d), fmt, 0) by { StandsWhole(fmt); }
    DirectiveExpands(d, fmt, args, 0, 0);
    var r := Parse(fmt, args, 1, 0).value;
    assert |fmt| == 1 + |Characters(d)|;
    assert r.width == Read(q, 10) % 0x1_0000_0000 && r.prec == 0;
    LengthIsSet(['0' as nat], false, false, [], r.f);
    ValueIs(v, d, r.f);
    IntegerFlagsAre(r.f, ['0' as nat], false, false, [], 'X' as nat);
    SignIsFor(r.f, ['0' as nat], false, false, [], 'X' as nat, v);
    EightDigits(v % 0x1_0000_0000);
    ZeroPadded(v % 0x1_0000_0000, r.width, IntegerFlags(r.f, 'X' as nat));
    AtEnd(fmt, args, NumberText(v % 0x1_0000_0000, false, 16, 0, Read(q, 10) % 0x1_0000_0000, IntegerFlags(r.f, 'X' as nat)));
  }

  lemma AtEnd(fmt: seq<nat>, args: seq<Arg>, s: seq<nat>)
    ensures Before(s, Expand(fmt, args, |fmt|, 1)) == Some(s)
  {
    ExpandEnd(fmt, args, 1);
    assert s + [] == s;
  }

  /** Zeros in front of a number, as far as 32 characters. */
  lemma ZeroPadded(value: nat, width: nat, f: Flags)
    requires f.zeropad && f.uppercase && !f.left && !f.hash && !f.precision && !f.plus && !f.space
    requires DigitCount(value, 16) <= 32
    ensures var digits := Numeral(value, 16, true);
            NumberText(value, false, 16, 0, width, f) == Zeros(Min(width, 32) - |digits|) + digits
  {
    hide NumberText, Numeral, Kept, DigitCount;
    NumberIsPut(value, false, 16, 0, width, f);
    KeptIsPadded(value, false, 16, 0, width, f);
    NumeralLength(value, 16, true);
  }

  lemma EightDigits(value: nat)
    requires value < 0x1_0000_0000
    ensures DigitCount(value, 16) <= 8
  {
    DigitCountIs(value, 16, 8);
    PowerSum(16, 4, 4);
    SixteenToFour();
  }

  lemma HexadecimalCharacters(q: seq<nat>)
    ensures ['%' as nat] + Characters(Written(['0' as nat], Decimal(q), None, [], 'X' as nat)) == ['%' as nat, '0' as nat] + q + ['X' as nat]
  {
  }

  lemma StandsWhole(fmt: seq<nat>)
    ensures StandsAt(fmt, fmt, 0)
  {
  }

  /** `%p` puts out sixteen upper-case hexadecimal digits. */
  lemma PointerDirective(fmt: seq<nat>, args: seq<Arg>, i: nat, a: nat)
    requires StandsAt(['%' as nat, 'p' as nat], fmt, i) && HasWord(args, a)
    ensures i + 2 <= |fmt|
    ensures var digits := Numeral(args[a].w, 16, true);
            |digits| <= 16 && Expand(fmt, args, i, a) == Before(Zeros(16 - |digits|) + digits, Expand(fmt, args, i + 2, a + 1))
  {
    hide Expand, Parse, NumberText, Numeral, StandsAt, DigitCount;
    var d := Written([], Absent, None, [], 'p' as nat);
    assert Characters(d) == ['p' as nat];
    assert ['%' as nat] + Characters(d) == ['%' as nat, 'p' as nat];
    DirectiveExpands(d, fmt, args, i, a);
    SixteenDigits(args[a].w);
    NumeralLength(args[a].w, 16, true);
    ZeroPadded(args[a].w, 16, Parse(fmt, args, i + 1, a).value.f.(zeropad := true, uppercase := true));
  }

  lemma SixteenDigits(value: nat)
    requires value < 0x1_0000_0000_0000_0000
    ensures DigitCount(value, 16) <= 16
  {
    hide Power, DigitCount;
    DigitCountIs(value, 16, 16);
    PowerSum(16, 8, 8);
    PowerSum(16, 4, 4);
    assert Power(16, 4) == 0x1_0000 by { SixteenToFour(); }
  }

  lemma SixteenToFour()
    ensures Power(16, 4) == 0x1_0000
  {
  }
}
