/** The numbers of printf against section 7.19.6.1 of ISO C99, and the exact condition under which they are put out
    as the standard has it (src/stdlib/printf.c:207-310). */
module StandardTexts {
  import opened Arithmetic
  import opened DigitStrings
  import opened Bytes
  import opened Numerals
  import opened Printf
  import opened Directives

  // ---------------------------------------------------------------------------------------------
  // Numbers
  // ---------------------------------------------------------------------------------------------

  /** The numeral of a number, most significant digit first. */
  function Numeral(value: nat, base: nat, uppercase: bool): (s: seq<nat>)
    requires 2 <= base <= 16
    ensures s != []
  {
    var digit := (if uppercase then "0123456789ABCDEF" else "0123456789abcdef")[value % base] as nat;
    (if value < base then [] else QuotientIsLess(value, base); Numeral(value / base, base, uppercase)) + [digit]
  }

  function Spaces(n: int): seq<nat> {
    seq(Max(n, 0), _ => ' ' as nat)
  }

  function Zeros(n: int): seq<nat> {
    seq(Max(n, 0), _ => '0' as nat)
  }

  /** The digits with the zeros that a precision, or a width that is filled with zeros, asks for; `taken` places of
      the width go to a sign and a prefix. */
  function Body(digits: seq<nat>, taken: nat, prec: nat, width: nat, left: bool, zeros: bool): seq<nat> {
    Zeros(Max(prec, if zeros && !left then width - taken else 0) - |digits|) + digits
  }

  /** A number in its field: a sign, a prefix, zeros, digits, and spaces on one side. */
  function StandardNumber(digits: seq<nat>, sign: seq<nat>, mark: seq<nat>, prec: nat, width: nat, left: bool, zeros: bool): seq<nat> {
    var core := sign + mark + Body(digits, |sign| + |mark|, prec, width, left, zeros);
    if left then core + Spaces(width - |core|) else Spaces(width - |core|) + core
  }

  /** The prefix that '#' asks for; none for zero. */
  function MarkOf(value: nat, hash: bool, base: nat, uppercase: bool): seq<nat> {
    if !hash || value == 0 then []
    else if base == 16 then ['0' as nat, if uppercase then 'X' as nat else 'x' as nat]
    else if base == 2 then ['0' as nat, 'b' as nat]
    else []
  }

  /** The precision that '#' asks for in base 8: as much as makes the first digit a zero. */
  function LeastPrecision(digits: seq<nat>, prec: nat, hash: bool, base: nat): nat {
    if hash && base == 8 && digits != ['0' as nat] then Max(prec, |digits| + 1) else prec
  }

  /** The digits and zeros fit a buffer of 32 characters with the sign, or the sign is a space that is put out
      anyway; and a field that is justified left needs no zeros. */
  predicate Fits(n: nat, sign: seq<nat>, prec: nat, width: nat, left: bool, zeros: bool) {
    var body := Max(n, Max(prec, if zeros && !left then width - |sign| else 0));
    && body <= 32 && (left ==> prec <= n)
    && (sign != [] && body == 32 ==> sign == [' ' as nat] && !left && !zeros && 32 < width)
  }

  /** The prefix fits with the digits and the zeros of a number that is not zero, and none of them gives way to it. */
  predicate MarkFits(n: nat, base: nat, precision: bool, prec: nat, width: nat, left: bool, zeros: bool) {
    if base == 8 then
      && n <= 31
      && (if precision then (if left then prec <= n + 1 else prec <= n || prec == 32)
          else n != width && (zeros && !left ==> width <= 32))
    else if precision then Max(n, prec) <= 30 && (left ==> prec <= n)
    else if !zeros || left then n <= 30 && n != width
    else if base == 16 then (n <= 30 && width < n) || n + 2 <= width <= 32
    else n <= 30 && (width < n || width == n + 1)
  }

  /** With '#' or without. */
  predicate AllFits(value: nat, n: nat, sign: seq<nat>, hash: bool, base: nat, precision: bool, prec: nat, width: nat, left: bool, zeros: bool) {
    if !hash then Fits(n, sign, prec, width, left, zeros)
    else if value == 0 then Fits(n, sign, prec, width, left, zeros) && !(base == 8 && precision && prec == 0)
    else MarkFits(n, base, precision, prec, width, left, zeros)
  }

  lemma DigitIs(d: nat, uppercase: bool)
    requires d < 16
    ensures Digit(d, uppercase) == (if uppercase then "0123456789ABCDEF" else "0123456789abcdef")[d] as nat
  {
  }

  /** The digits of the buffer, in reverse, are the numeral if there is room for all of them. */
  lemma {:induction false} NumeralIs(value: nat, base: nat, uppercase: bool, room: nat)
    requires 2 <= base <= 16 && 0 < room && DigitCount(value, base) <= room
    ensures Reversed(LowDigits(value, base, uppercase, room)) == Numeral(value, base, uppercase)
    decreases room
  {
    hide Reversed, LowDigits, Digit;
    LowDigitsNext(value, base, uppercase, room);
    QuotientIsZero(value, base);
    DigitIs(value % base, uppercase);
    ReversedOnto(OtherDigits(value, base, uppercase, room), Digit(value % base, uppercase));
    if value >= base {
      NumeralIs(value / base, base, uppercase, room - 1);
    }
  }

  lemma {:induction false} NumeralLength(value: nat, base: nat, uppercase: bool)
    requires 2 <= base <= 16
    ensures |Numeral(value, base, uppercase)| == DigitCount(value, base)
    ensures forall c :: c in Numeral(value, base, uppercase) ==> IsFigure(c)
  {
    if value >= base {
      QuotientIsLess(value, base);
      NumeralLength(value / base, base, uppercase);
    }
  }

  // ---------------------------------------------------------------------------------------------
  // When a number is put out as the standard has it
  // ---------------------------------------------------------------------------------------------

  predicate IsFigure(c: nat) {
    c != ' ' as nat && c != '-' as nat && c != '+' as nat
  }

  ghost predicate Figures(s: seq<nat>) {
    forall c :: c in s ==> IsFigure(c)
  }

  /** How many characters of a field belong to the number itself. */
  function Count(s: seq<nat>): nat {
    if s == [] then 0 else Count(s[..|s| - 1]) + if IsFigure(s[|s| - 1]) then 1 else 0
  }

  lemma {:induction false} CountJoin(s: seq<nat>, t: seq<nat>)
    ensures Count(s + t) == Count(s) + Count(t)
  {
    if t == [] {
      assert s + t == s;
    } else {
      CountJoin(s, t[..|t| - 1]);
      assert (s + t)[..|s + t| - 1] == s + t[..|t| - 1];
    }
  }

  lemma {:induction false} CountAll(s: seq<nat>)
    ensures Figures(s) ==> Count(s) == |s|
    ensures (forall c :: c in s ==> !IsFigure(c)) ==> Count(s) == 0
  {
    if s != [] {
      CountAll(s[..|s| - 1]);
    }
  }

  /** Spaces, a sign, figures and spaces. */
  lemma FieldCount(a: seq<nat>, sign: seq<nat>, body: seq<nat>, b: seq<nat>)
    requires Figures(body) && forall c :: c in a + sign + b ==> !IsFigure(c)
    ensures Count(a + (sign + body) + b) == |body|
  {
    hide Count;
    CountJoin(a + (sign + body), b);
    CountJoin(a, sign + body);
    CountJoin(sign, body);
    assert forall c :: c in a || c in sign || c in b ==> c in a + sign + b;
    CountAll(a);
    CountAll(sign);
    CountAll(body);
    CountAll(b);
  }

  function SignOf(negative: bool, plus: bool, space: bool): seq<nat> {
    if negative then ['-' as nat] else if plus then ['+' as nat] else if space then [' ' as nat] else []
  }

  /** The lengths of what is put out and of the standard body agree exactly when it fits. */
  lemma LengthsAgree(n: nat, negative: bool, prec: nat, width: nat, f: Flags)
    ensures var sign := SignOf(negative, f.plus, f.space);
            var body := Max(n, Max(prec, if f.zeropad && !f.left then width - |sign| else 0));
            PaddedLength(Min(n, 32), prec, Narrowed(negative, width, f), f) == body <==> body <= 32 && (f.left ==> prec <= n)
  {
  }

  /** The standard's text, with the body instead of the numbers it is made of. */
  function Placed(body: seq<nat>, sign: seq<nat>, width: nat, left: bool): seq<nat> {
    var core := sign + body;
    if left then core + Spaces(width - |core|) else Spaces(width - |core|) + core
  }

  /** What is put out: the sign only if there is room, and no spaces where zeros were asked for. */
  function Put(kept: seq<nat>, sign: seq<nat>, width: nat, left: bool, zeros: bool): seq<nat> {
    var core := (if |kept| < 32 then sign else []) + kept;
    if left then core + Spaces(width - |core|) else if zeros then core else Spaces(width - |core|) + core
  }

  lemma ShapeIsPut(kept: seq<nat>, negative: bool, base: nat, width: nat, f: Flags)
    requires !f.hash
    ensures Shape(kept, negative, base, Narrowed(negative, width, f), f) ==
              Put(kept, SignOf(negative, f.plus, f.space), width, f.left, f.zeropad)
  {
    var sign := if |kept| < 32 then SignOf(negative, f.plus, f.space) else [];
    assert sign + Prefix(|kept|, base, f) + kept == sign + kept;
  }

  lemma PlacedCount(body: seq<nat>, sign: seq<nat>, width: nat, left: bool)
    requires Figures(body) && forall c :: c in sign ==> !IsFigure(c)
    ensures Count(Placed(body, sign, width, left)) == |body|
  {
    hide Count;
    var n := width - |sign + body|;
    FieldCount(if left then [] else Spaces(n), sign, body, if left then Spaces(n) else []);
    assert Placed(body, sign, width, left) == (if left then [] else Spaces(n)) + (sign + body) + (if left then Spaces(n) else []);
  }

  lemma PutCount(kept: seq<nat>, sign: seq<nat>, width: nat, left: bool, zeros: bool)
    requires Figures(kept) && forall c :: c in sign ==> !IsFigure(c)
    ensures Count(Put(kept, sign, width, left, zeros)) == |kept|
  {
    hide Count;
    PlacedCount(kept, if |kept| < 32 then sign else [], width, left);
    FieldCount([], if |kept| < 32 then sign else [], kept, []);
    var core := (if |kept| < 32 then sign else []) + kept;
    assert [] + core + [] == core;
  }

  /** With the right body, the sign decides. */
  lemma SignDecides(body: seq<nat>, sign: seq<nat>, width: nat, left: bool, zeros: bool)
    requires Figures(body) && |body| <= 32 && sign in {[], ['-' as nat], ['+' as nat], [' ' as nat]}
    requires zeros && !left ==> width <= |sign| + |body|
    ensures Put(body, sign, width, left, zeros) == Placed(body, sign, width, left) <==>
              (sign != [] && |body| == 32 ==> sign == [' ' as nat] && !left && !zeros && 32 < width)
  {
    var put, placed := Put(body, sign, width, left, zeros), Placed(body, sign, width, left);
    if sign != [] && |body| == 32 {
      var n := width - 33;
      if left || zeros {
        assert put[0] == body[0] && body[0] in body;
        assert left ==> placed[0] == sign[0];
      } else if sign == [' ' as nat] && 32 < width {
        assert Spaces(n) + sign == Spaces(n + 1);
        assert placed == Spaces(n) + sign + body;
      } else if width <= 32 {
      } else {
        assert placed[n] == sign[0] && put[n] == ' ' as nat;
      }
    }
  }

  /** What is put out of the digits: how much, and, when none of them is lost, which. */
  lemma KeptIsPadded(value: nat, negative: bool, base: nat, prec: nat, width: nat, f: Flags)
    requires 2 <= base <= 16
    ensures var digits := if f.precision && value == 0 then [] else Numeral(value, base, f.uppercase);
            var w := Narrowed(negative, width, f);
            var kept := Kept(value, base, prec, w, f);
            && |kept| == KeptLength(PaddedLength(Min(|digits|, 32), prec, w, f), base, prec, w, f) && Figures(kept)
            && (|digits| <= 32 && |digits| <= |kept| ==> kept == Zeros(|kept| - |digits|) + digits)
  {
    hide LowDigits, Numeral, DigitCount, Narrowed, PaddedLength, KeptLength, Reversed;
    var w := Narrowed(negative, width, f);
    var d := if f.precision && value == 0 then [] else LowDigits(value, base, f.uppercase, 32);
    var p := PaddedLength(|d|, prec, w, f);
    var k := KeptLength(p, base, prec, w, f);
    PaddedIs(d, prec, w, f);
    LowDigitsCount(value, base, f.uppercase, 32);
    NumeralLength(value, base, f.uppercase);
    LowDigitsAreDigits(value, base, f.uppercase, 32);
    AreFigures(d, base, p - |d|, k);
    if DigitCount(value, base) <= 32 {
      NumeralIs(value, base, f.uppercase, 32);
    }
    if |d| <= k {
      assert (d + Repeat(ZERO, p - |d|))[..k] == d + Repeat(ZERO, k - |d|);
      ReversedPadding(d, k - |d|);
    }
  }

  lemma ReversedPadding(d: seq<nat>, zeros: nat)
    ensures Reversed(d + Repeat(ZERO, zeros)) == Zeros(zeros) + Reversed(d)
    ensures Reversed([]) == []
  {
  }

  lemma AreFigures(d: seq<nat>, base: nat, zeros: nat, k: nat)
    requires AllDigits(d, base) && k <= |d| + zeros
    ensures |Reversed((d + Repeat(ZERO, zeros))[..k])| == k && Figures(Reversed((d + Repeat(ZERO, zeros))[..k]))
  {
    hide DigitValue;
    assert forall c :: IsDigitOf(c, base) ==> IsFigure(c);
  }

  lemma NumberIsPut(value: nat, negative: bool, base: nat, prec: nat, width: nat, f: Flags)
    requires 2 <= base <= 16 && !f.hash
    ensures NumberText(value, negative, base, prec, width, f) ==
              Put(Kept(value, base, prec, Narrowed(negative, width, f), f), SignOf(negative, f.plus, f.space), width, f.left, f.zeropad)
  {
    hide NumberText, Kept, Shape, Narrowed, Put;
    NumberShape(value, negative, base, prec, width, f);
    assert f.(hash := false) == f;
    ShapeIsPut(Kept(value, base, prec, Narrowed(negative, width, f), f), negative, base, width, f);
  }

  lemma PutIsStandard(kept: seq<nat>, digits: seq<nat>, sign: seq<nat>, prec: nat, width: nat, left: bool, zeros: bool)
    requires Figures(kept) && Figures(digits) && sign in {[], ['-' as nat], ['+' as nat], [' ' as nat]}
    requires |digits| <= 32 ==> kept == Zeros(|kept| - |digits|) + digits
    requires var body := Max(|digits|, Max(prec, if zeros && !left then width - |sign| else 0));
             |kept| == body <==> body <= 32 && (left ==> prec <= |digits|)
    ensures Put(kept, sign, width, left, zeros) == StandardNumber(digits, sign, [], prec, width, left, zeros) <==>
              Fits(|digits|, sign, prec, width, left, zeros)
  {
    hide Count, Put, Placed, StandardNumber;
    var body := Body(digits, |sign|, prec, width, left, zeros);
    BodyFigures(digits, |sign|, prec, width, left, zeros);
    StandardIsPlaced(digits, sign, [], prec, width, left, zeros);
    assert [] + body == body;
    if |kept| == |body| {
      assert kept == body;
      SignDecides(body, sign, width, left, zeros);
    } else {
      PlacedCount(body, sign, width, left);
      PutCount(kept, sign, width, left, zeros);
    }
  }

  /** Without a '#', what _ntoa_long puts out is the text of the standard exactly when it fits. */
  lemma PlainIsStandard(value: nat, negative: bool, base: nat, prec: nat, width: nat, f: Flags)
    requires 2 <= base <= 16 && !f.hash
    ensures var digits := if f.precision && value == 0 then [] else Numeral(value, base, f.uppercase);
            var sign := SignOf(negative, f.plus, f.space);
            NumberText(value, negative, base, prec, width, f) == StandardNumber(digits, sign, [], prec, width, f.left, f.zeropad) <==>
              Fits(|digits|, sign, prec, width, f.left, f.zeropad)
  {
    hide NumberText, Numeral, Kept, Narrowed, PaddedLength, Put, StandardNumber, Fits;
    var digits := if f.precision && value == 0 then [] else Numeral(value, base, f.uppercase);
    var w := Narrowed(negative, width, f);
    NumeralLength(value, base, f.uppercase);
    NumberIsPut(value, negative, base, prec, width, f);
    KeptIsPadded(value, negative, base, prec, width, f);
    LengthsFit(Min(|digits|, 32), base, prec, w, f);
    LengthsAgree(|digits|, negative, prec, width, f);
    PutIsStandard(Kept(value, base, prec, w, f), digits, SignOf(negative, f.plus, f.space), prec, width, f.left, f.zeropad);
  }

  // ---------------------------------------------------------------------------------------------
  // Prefixes
  // ---------------------------------------------------------------------------------------------

  /** Texts without a sign agree exactly when what stands between the spaces does. */
  lemma PutsAgree(core: seq<nat>, body: seq<nat>, width: nat, left: bool, zeros: bool)
    requires Figures(core) && Figures(body) && (zeros && !left ==> width <= |body|)
    ensures Put(core, [], width, left, zeros) == Placed(body, [], width, left) <==> core == body
  {
    var put, placed := Put(core, [], width, left, zeros), Placed(body, [], width, left);
    assert [] + core == core && [] + body == body;
    if put == placed {
      PlacedCount(body, [], width, left);
      PutCount(core, [], width, left, zeros);
      if left {
        assert put[..|core|] == core && placed[..|core|] == body;
      } else {
        assert put[|put| - |core|..] == core && placed[|put| - |core|..] == body;
      }
    }
  }

  /** How many characters are put out of `n` digits with their prefix, and how many the standard asks for. */
  lemma MarkedLengths(n: nat, base: nat, prec: nat, width: nat, f: Flags)
    requires f.hash && base in {2, 8, 16} && 0 < n && (f.precision ==> !f.zeropad) && (!f.precision ==> prec == 0)
    ensures var k := KeptLength(PaddedLength(Min(n, 32), prec, width, f), base, prec, width, f);
            var whole := if base == 8 then 0 else 2;
            var asked := Max(n, Max(if base == 8 then Max(prec, n + 1) else prec, if f.zeropad && !f.left then width - whole else 0)) + whole;
            && (MarkFits(n, base, f.precision, prec, width, f.left, f.zeropad) <==>
                  k + |Prefix(k, base, f)| == asked && (base == 8 || k <= 30))
            && (k + |Prefix(k, base, f)| == asked ==> k != 32 || base == 8)
            && (MarkFits(n, base, f.precision, prec, width, f.left, f.zeropad) ==> n <= 32 && n <= k)
  {
  }

  lemma MarkedIsPut(value: nat, base: nat, prec: nat, width: nat, f: Flags)
    requires 2 <= base <= 16 && f.hash && 0 < value && !f.plus && !f.space
    ensures var kept := Kept(value, base, prec, width, f);
            NumberText(value, false, base, prec, width, f) == Put(Prefix(|kept|, base, f) + kept, [], width, f.left, f.zeropad)
  {
    hide NumberText, Kept, Prefix, PrefixLength;
    NumberShape(value, false, base, prec, width, f);
    var kept := Kept(value, base, prec, width, f);
    assert Sign(false, f) == [] && Narrowed(false, width, f) == width;
    assert [] + Prefix(|kept|, base, f) + kept == [] + (Prefix(|kept|, base, f) + kept);
  }

  lemma NumeralOfZero(value: nat, base: nat, uppercase: bool)
    requires 2 <= base <= 16
    ensures Numeral(value, base, uppercase) == ['0' as nat] <==> value == 0
  {
    if value >= base {
      QuotientIsLess(value, base);
      assert 2 <= |Numeral(value, base, uppercase)|;
    } else {
      DigitIs(value, uppercase);
      assert Numeral(value, base, uppercase) == [Digit(value, uppercase)];
      assert Digit(value, uppercase) == '0' as nat <==> value == 0;
    }
  }

  lemma PrefixIsMark(k: nat, base: nat, f: Flags)
    requires f.hash && base in {2, 8, 16}
    ensures Figures(Prefix(k, base, f))
    ensures base != 8 && k <= 30 ==> Prefix(k, base, f) == MarkOf(1, true, base, f.uppercase)
    ensures base != 8 && k == 31 ==> |Prefix(k, base, f)| == 1 && Prefix(k, base, f)[0] != '0' as nat
    ensures base == 8 ==> Prefix(k, base, f) == if k < 32 then ['0' as nat] else []
    ensures Figures(MarkOf(1, true, base, f.uppercase)) && |MarkOf(1, true, base, f.uppercase)| == if base == 8 then 0 else 2
  {
  }

  /** The same characters exactly when the prefix fits. */
  lemma CoresAgree(kept: seq<nat>, digits: seq<nat>, base: nat, prec: nat, width: nat, f: Flags)
    requires f.hash && base in {2, 8, 16} && 0 < |digits| && (f.precision ==> !f.zeropad) && (!f.precision ==> prec == 0)
    requires |kept| == KeptLength(PaddedLength(Min(|digits|, 32), prec, width, f), base, prec, width, f)
    requires |digits| <= 32 && |digits| <= |kept| ==> kept == Zeros(|kept| - |digits|) + digits
    ensures var mark := MarkOf(1, true, base, f.uppercase);
            var least := if base == 8 then Max(prec, |digits| + 1) else prec;
            Prefix(|kept|, base, f) + kept == mark + Body(digits, |mark|, least, width, f.left, f.zeropad) <==>
              MarkFits(|digits|, base, f.precision, prec, width, f.left, f.zeropad)
  {
    hide PaddedLength, Prefix, MarkOf, MarkFits;
    var mark, k, n := MarkOf(1, true, base, f.uppercase), |kept|, |digits|;
    var least := if base == 8 then Max(prec, n + 1) else prec;
    var core, body := Prefix(k, base, f) + kept, mark + Body(digits, |mark|, least, width, f.left, f.zeropad);
    MarkedLengths(n, base, prec, width, f);
    PrefixIsMark(k, base, f);
    if MarkFits(n, base, f.precision, prec, width, f.left, f.zeropad) {
      assert core == body;
    } else if base != 8 && |core| == |body| {
      LengthsFit(Min(n, 32), base, prec, width, f);
      assert k == 31 && core[0] != '0' as nat;
      MarkStartsWithZero(base, f.uppercase);
      assert body[0] == mark[0];
    }
  }

  lemma MarkStartsWithZero(base: nat, uppercase: bool)
    requires base in {2, 16}
    ensures MarkOf(1, true, base, uppercase)[0] == '0' as nat
  {
  }

  lemma MarkedIsStandard(value: nat, base: nat, prec: nat, width: nat, f: Flags)
    requires f.hash && base in {2, 8, 16} && 0 < value && !f.plus && !f.space
    requires (f.precision ==> !f.zeropad) && (!f.precision ==> prec == 0)
    ensures var digits := Numeral(value, base, f.uppercase);
            NumberText(value, false, base, prec, width, f) ==
              StandardNumber(digits, [], MarkOf(value, true, base, f.uppercase), LeastPrecision(digits, prec, true, base), width, f.left, f.zeropad)
            <==> MarkFits(|digits|, base, f.precision, prec, width, f.left, f.zeropad)
  {
    hide NumberText, Numeral, Kept, KeptLength, PaddedLength, Put, Placed, StandardNumber, MarkFits, Prefix, MarkOf, Body;
    var digits, mark := Numeral(value, base, f.uppercase), MarkOf(1, true, base, f.uppercase);
    var kept, least := Kept(value, base, prec, width, f), LeastPrecision(digits, prec, true, base);
    var core, body := Prefix(|kept|, base, f) + kept, mark + Body(digits, |mark|, least, width, f.left, f.zeropad);
    assert MarkOf(value, true, base, f.uppercase) == mark by { AnyMark(value, base, f.uppercase); }
    assert Narrowed(false, width, f) == width;
    NumeralOfZero(value, base, f.uppercase);
    NumeralLength(value, base, f.uppercase);
    MarkedIsPut(value, base, prec, width, f);
    KeptIsPadded(value, false, base, prec, width, f);
    StandardIsPlaced(digits, [], mark, least, width, f.left, f.zeropad);
    BodyFigures(digits, |mark|, least, width, f.left, f.zeropad);
    PrefixIsMark(|kept|, base, f);
    CoresAgree(kept, digits, base, prec, width, f);
    PutsAgree(core, body, width, f.left, f.zeropad);
  }

  lemma AnyMark(value: nat, base: nat, uppercase: bool)
    requires 0 < value
    ensures MarkOf(value, true, base, uppercase) == MarkOf(1, true, base, uppercase)
  {
  }

  /** The precision of a zero with '#' in base 8. */
  lemma ZeroIsStandard(base: nat, prec: nat, width: nat, f: Flags)
    requires f.hash && base in {2, 8, 16} && !f.plus && !f.space
    requires (f.precision ==> !f.zeropad) && (!f.precision ==> prec == 0)
    ensures var digits := if f.precision then [] else Numeral(0, base, f.uppercase);
            NumberText(0, false, base, prec, width, f) ==
              StandardNumber(digits, [], [], LeastPrecision(digits, prec, true, base), width, f.left, f.zeropad)
            <==> Fits(|digits|, [], prec, width, f.left, f.zeropad) && !(base == 8 && f.precision && prec == 0)
  {
    hide Numeral, StandardNumber, Fits, Formatted, LowDigits;
    var digits := if f.precision then [] else Numeral(0, base, f.uppercase);
    var g := f.(hash := false);
    NumeralOfZero(0, base, f.uppercase);
    assert NumberText(0, false, base, prec, width, f) == NumberText(0, false, base, prec, width, g);
    PlainIsStandard(0, false, base, prec, width, g);
    if base == 8 && f.precision && prec == 0 {
      NothingIsNoZero(width, f.left);
    }
  }

  /** A field without a digit is not one with a zero. */
  lemma NothingIsNoZero(width: nat, left: bool)
    ensures StandardNumber([], [], [], 0, width, left, false) != StandardNumber([], [], [], 1, width, left, false)
    ensures Fits(0, [], 0, width, left, false)
  {
    hide Count, Placed;
    StandardIsPlaced([], [], [], 0, width, left, false);
    StandardIsPlaced([], [], [], 1, width, left, false);
    BodyFigures([], 0, 0, width, left, false);
    BodyFigures([], 0, 1, width, left, false);
    var none, zero := Body([], 0, 0, width, left, false), Body([], 0, 1, width, left, false);
    assert [] + none == none && [] + zero == zero;
    PlacedCount(none, [], width, left);
    PlacedCount(zero, [], width, left);
  }

  /** What _ntoa_long puts out is the text of the standard exactly when it fits.  The conversions give '#' to bases 2, 8
      and 16 only, which have no sign, and take '0' away from a precision. */
  lemma NumberIsStandard(value: nat, negative: bool, base: nat, prec: nat, width: nat, f: Flags)
    requires 2 <= base <= 16
    requires f.hash ==> base in {2, 8, 16} && !negative && !f.plus && !f.space
    requires f.hash ==> if f.precision then !f.zeropad else prec == 0
    ensures var digits := if f.precision && value == 0 then [] else Numeral(value, base, f.uppercase);
            var sign := SignOf(negative, f.plus, f.space);
            NumberText(value, negative, base, prec, width, f) ==
              StandardNumber(digits, sign, MarkOf(value, f.hash, base, f.uppercase), LeastPrecision(digits, prec, f.hash, base), width, f.left, f.zeropad)
            <==> AllFits(value, |digits|, sign, f.hash, base, f.precision, prec, width, f.left, f.zeropad)
  {
    hide NumberText, Numeral, StandardNumber, Fits, MarkFits;
    if !f.hash {
      PlainIsStandard(value, negative, base, prec, width, f);
    } else if value == 0 {
      ZeroIsStandard(base, prec, width, f);
    } else {
      MarkedIsStandard(value, base, prec, width, f);
    }
  }

  lemma StandardIsPlaced(digits: seq<nat>, sign: seq<nat>, mark: seq<nat>, prec: nat, width: nat, left: bool, zeros: bool)
    ensures StandardNumber(digits, sign, mark, prec, width, left, zeros) ==
              Placed(mark + Body(digits, |sign| + |mark|, prec, width, left, zeros), sign, width, left)
  {
    hide Body;
    var body := Body(digits, |sign| + |mark|, prec, width, left, zeros);
    assert sign + mark + body == sign + (mark + body);
  }

  lemma BodyFigures(digits: seq<nat>, taken: nat, prec: nat, width: nat, left: bool, zeros: bool)
    requires Figures(digits)
    ensures Figures(Body(digits, taken, prec, width, left, zeros))
    ensures |Body(digits, taken, prec, width, left, zeros)| == Max(|digits|, Max(prec, if zeros && !left then width - taken else 0))
  {
  }
}
