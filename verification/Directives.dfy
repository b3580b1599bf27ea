/** What a written directive of printf puts out, against section 7.19.6.1 of ISO C99
    (src/stdlib/printf.c:221-310, 607-865). */
module Directives {
  import opened Arithmetic
  import opened DigitStrings
  import opened Bytes
  import opened Numerals
  import opened Printf

  // ---------------------------------------------------------------------------------------------
  // What is read of a directive
  // ---------------------------------------------------------------------------------------------

  /** A width or a precision as it is written: not at all, in decimal, or as an argument. */
  datatype Number = Absent | Decimal(digits: seq<nat>) | Star

  datatype Written = Written(flags: seq<nat>, width: Number, prec: Option<Number>, length: seq<nat>, c: nat)

  function Spelled(n: Number): seq<nat> {
    match n
    case Absent => []
    case Decimal(q) => q
    case Star => ['*' as nat]
  }

  function Tail(d: Written): seq<nat> {
    d.length + [d.c]
  }

  function Point(n: Option<Number>): seq<nat> {
    if n.Some? then ['.' as nat] + Spelled(n.value) else []
  }

  /** The directive up to its specifier, without the '%'. */
  function Characters(d: Written): seq<nat> {
    d.flags + (Spelled(d.width) + (Point(d.prec) + Tail(d)))
  }

  ghost predicate IsDecimal(q: seq<nat>) {
    q != [] && forall c :: c in q ==> '0' as nat <= c <= '9' as nat
  }

  predicate IsFlagCharacter(c: nat) {
    c == '-' as nat || c == '0' as nat || c == '+' as nat || c == ' ' as nat || c == '#' as nat
  }

  predicate IsLength(q: seq<nat>) {
    || q == [] || q == ['h' as nat] || q == ['h' as nat, 'h' as nat] || q == ['l' as nat] || q == ['l' as nat, 'l' as nat]
    || q == ['t' as nat] || q == ['j' as nat] || q == ['z' as nat]
  }

  predicate IsSpecifier(c: nat) {
    || c == 'd' as nat || c == 'i' as nat || c == 'u' as nat || c == 'x' as nat || c == 'X' as nat || c == 'o' as nat || c == 'b' as nat
    || c == 'c' as nat || c == 's' as nat || c == 'p' as nat || c == '%' as nat
  }

  /** A directive of the grammar of the standard, and `%b`. */
  ghost predicate WellWritten(d: Written) {
    && (forall c :: c in d.flags ==> IsFlagCharacter(c))
    && (d.width.Decimal? ==> IsDecimal(d.width.digits) && d.width.digits[0] != '0' as nat)
    && (d.prec.Some? && d.prec.value.Decimal? ==> IsDecimal(d.prec.value.digits))
    && IsLength(d.length) && IsSpecifier(d.c)
  }

  /** This stands at place `i` of the format. */
  ghost predicate StandsAt(q: seq<nat>, fmt: seq<nat>, i: nat) {
    i + |q| <= |fmt| && fmt[i..i + |q|] == q
  }

  lemma StandsApart(q: seq<nat>, r: seq<nat>, fmt: seq<nat>, i: nat)
    requires StandsAt(q + r, fmt, i)
    ensures StandsAt(q, fmt, i) && StandsAt(r, fmt, i + |q|)
    ensures q != [] ==> At(fmt, i) == q[0]
    ensures r != [] ==> At(fmt, i + |q|) == r[0]
  {
    var all := fmt[i..i + |q + r|];
    assert all[..|q|] == fmt[i..i + |q|] && all[|q|..] == fmt[i + |q|..i + |q| + |r|];
    assert forall j :: 0 <= j < |q + r| ==> (q + r)[j] == fmt[i + j];
  }

  predicate SameRest(f: Flags, g: Flags) {
    && g.uppercase == f.uppercase && g.isChar == f.isChar && g.isShort == f.isShort && g.isLong == f.isLong
    && g.isLongLong == f.isLongLong && g.precision == f.precision
  }

  /** The flags `f` and those whose characters are in `q`. */
  ghost predicate Marked(f: Flags, q: seq<nat>, g: Flags) {
    && (g.left <==> f.left || '-' as nat in q)
    && (g.zeropad <==> f.zeropad || '0' as nat in q)
    && (g.plus <==> f.plus || '+' as nat in q)
    && (g.space <==> f.space || ' ' as nat in q)
    && (g.hash <==> f.hash || '#' as nat in q)
    && SameRest(f, g)
  }

  /** Which flags are set after the flags from `i` on: those whose characters are there. */
  lemma {:induction false} FlagsFieldMeans(fmt: seq<nat>, i: nat, f: Flags)
    requires i <= |fmt|
    ensures var (g, j) := FlagsField(fmt, i, f); Marked(f, fmt[i..j], g)
    decreases |fmt| - i
  {
    hide Marked, SetFlag;
    var (g, j) := FlagsField(fmt, i, f);
    if i < |fmt| && IsFlag(fmt[i]) {
      FlagsFieldMeans(fmt, i + 1, SetFlag(f, fmt[i]));
      FlagMeans(f, fmt[i], fmt[i + 1..j], g);
      assert fmt[i..j] == [fmt[i]] + fmt[i + 1..j];
    } else {
      assert fmt[i..j] == [];
      NoFlags(f);
    }
  }

  lemma FlagMeans(f: Flags, c: nat, q: seq<nat>, g: Flags)
    requires IsFlag(c) && Marked(SetFlag(f, c), q, g)
    ensures Marked(f, [c] + q, g)
  {
    hide SetFlag;
    SetMeans(f, c);
    SetKeeps(f, c);
    Onto(c, q);
  }

  lemma SetOne(f: Flags)
    ensures SetFlag(f, '-' as nat) == f.(left := true)
    ensures SetFlag(f, '0' as nat) == f.(zeropad := true)
    ensures SetFlag(f, '+' as nat) == f.(plus := true)
    ensures SetFlag(f, ' ' as nat) == f.(space := true)
    ensures SetFlag(f, '#' as nat) == f.(hash := true)
  {
  }

  lemma SetMeans(f: Flags, c: nat)
    requires IsFlag(c)
    ensures SetFlag(f, c).left <==> f.left || c == '-' as nat
    ensures SetFlag(f, c).zeropad <==> f.zeropad || c == '0' as nat
    ensures SetFlag(f, c).plus <==> f.plus || c == '+' as nat
    ensures SetFlag(f, c).space <==> f.space || c == ' ' as nat
    ensures SetFlag(f, c).hash <==> f.hash || c == '#' as nat
  {
    hide SetFlag;
    SetOne(f);
    if c == '-' as nat {
    } else if c == '0' as nat {
    } else if c == '+' as nat {
    } else if c == ' ' as nat {
    } else {
    }
  }

  lemma SetKeeps(f: Flags, c: nat)
    requires IsFlag(c)
    ensures SameRest(f, SetFlag(f, c))
  {
    hide SetFlag;
    SetOne(f);
  }

  lemma Onto(c: nat, q: seq<nat>)
    ensures forall x: nat :: x in [c] + q <==> x == c || x in q
  {
  }

  lemma NoFlags(f: Flags)
    ensures Marked(f, [], f)
  {
  }

  lemma {:induction false} FlagsEnd(fmt: seq<nat>, i: nat, q: seq<nat>, f: Flags)
    requires StandsAt(q, fmt, i) && (forall c :: c in q ==> IsFlagCharacter(c)) && !IsFlagCharacter(At(fmt, i + |q|))
    ensures FlagsField(fmt, i, f).1 == i + |q|
    decreases |q|
  {
    hide SetFlag;
    if q == [] {
    } else {
      assert q == [q[0]] + q[1..];
      StandsApart([q[0]], q[1..], fmt, i);
      assert q[0] in q;
      FlagsEnd(fmt, i + 1, q[1..], SetFlag(f, q[0]));
    }
  }

  lemma NumberRead(fmt: seq<nat>, i: nat, q: seq<nat>)
    requires StandsAt(q, fmt, i) && IsDecimal(q) && !('0' as nat <= At(fmt, i + |q|) <= '9' as nat)
    ensures IsDigit(At(fmt, i)) && NumberAt(fmt, i) == (Read(q, 10) % U32, i + |q|)
  {
    hide Read, DigitsEnd;
    assert forall k :: i <= k < i + |q| ==> fmt[k] == fmt[i..i + |q|][k - i] && q[k - i] in q;
    EndIs(fmt, i, i + |q|);
  }

  lemma {:induction false} EndIs(s: seq<nat>, i: nat, e: nat)
    requires i <= e <= |s| && (forall k :: i <= k < e ==> IsDigit(s[k])) && !IsDigit(At(s, e))
    ensures DigitsEnd(s, i) == e
    decreases e - i
  {
    if i < e {
      EndIs(s, i + 1, e);
    }
  }

  /** The number of a width or a precision, at argument `a`, and the next argument. */
  function Given(n: Number, args: seq<Arg>, a: nat): int {
    match n
    case Absent => 0
    case Decimal(q) => Read(q, 10) % U32
    case Star => if HasWord(args, a) then Signed(args[a].w, U32) else 0
  }

  function After(n: Number, a: nat): nat {
    if n.Star? then a + 1 else a
  }

  lemma WidthRead(fmt: seq<nat>, args: seq<Arg>, d: Directive, n: Number)
    requires StandsAt(Spelled(n), fmt, d.i) && (n.Decimal? ==> IsDecimal(n.digits)) && (n.Star? ==> HasWord(args, d.a))
    requires var c := At(fmt, d.i + |Spelled(n)|); !('0' as nat <= c <= '9' as nat) && c != '*' as nat
    requires d.width == 0
    ensures var v := Given(n, args, d.a);
            var r := WidthField(fmt, args, d);
            && r.Some? && r.value.f == (if v < 0 then d.f.(left := true) else d.f) && r.value.width == (if v < 0 then -v else v)
            && r.value.prec == d.prec && r.value.i == d.i + |Spelled(n)| && r.value.a == After(n, d.a)
  {
    hide Read;
    if n.Decimal? {
      NumberRead(fmt, d.i, n.digits);
    } else if n.Star? {
      StandsApart(['*' as nat], [], fmt, d.i);
    }
  }

  lemma PrecisionRead(fmt: seq<nat>, args: seq<Arg>, d: Directive, n: Option<Number>)
    requires StandsAt(Point(n), fmt, d.i)
    requires n.Some? && n.value.Decimal? ==> IsDecimal(n.value.digits)
    requires n.Some? && n.value.Star? ==> HasWord(args, d.a)
    requires var c := At(fmt, d.i + |Point(n)|);
             !('0' as nat <= c <= '9' as nat) && c != '*' as nat && c != '.' as nat
    requires d.prec == 0 && !d.f.precision
    ensures var r := PrecisionField(fmt, args, d);
            && r.Some? && r.value.f == (if n.Some? then d.f.(precision := true) else d.f) && r.value.width == d.width
            && r.value.prec == (if n.Some? then Max(Given(n.value, args, d.a), 0) else 0)
            && r.value.i == d.i + |Point(n)| && r.value.a == if n.Some? then After(n.value, d.a) else d.a
  {
    hide StandsAt, Given, Spelled;
    if n.Some? {
      hide PrecisionField;
      StandsApart(['.' as nat], Spelled(n.value), fmt, d.i);
      AfterPoint(fmt, args, d, n.value);
    }
  }

  lemma AfterPoint(fmt: seq<nat>, args: seq<Arg>, d: Directive, n: Number)
    requires At(fmt, d.i) == '.' as nat && StandsAt(Spelled(n), fmt, d.i + 1) && (n.Decimal? ==> IsDecimal(n.digits)) && (n.Star? ==> HasWord(args, d.a))
    requires var c := At(fmt, d.i + 1 + |Spelled(n)|); !('0' as nat <= c <= '9' as nat) && c != '*' as nat
    requires d.prec == 0 && !d.f.precision
    ensures var r := PrecisionField(fmt, args, d);
            && r.Some? && r.value.f == d.f.(precision := true) && r.value.width == d.width
            && r.value.prec == Max(Given(n, args, d.a), 0) && r.value.i == d.i + 1 + |Spelled(n)| && r.value.a == After(n, d.a)
  {
    hide Read, StandsAt, NumberAt, At, Signed;
    if n.Decimal? {
      NumberRead(fmt, d.i + 1, n.digits);
    } else if n.Star? {
      assert ['*' as nat] + [] == ['*' as nat];
      StandsApart(['*' as nat], [], fmt, d.i + 1);
    }
  }

  /** The flags that length modifiers set. */
  predicate LengthSet(length: seq<nat>, g: Flags) {
    && (g.isLong <==> length != [] && length[0] != 'h' as nat) && (g.isLongLong <==> length == ['l' as nat, 'l' as nat])
    && (g.isShort <==> length != [] && length[0] == 'h' as nat) && (g.isChar <==> length == ['h' as nat, 'h' as nat])
  }

  predicate SameFlags(f: Flags, g: Flags) {
    && g.left == f.left && g.zeropad == f.zeropad && g.plus == f.plus && g.space == f.space && g.hash == f.hash
    && g.precision == f.precision && g.uppercase == f.uppercase
  }

  lemma LengthRead(fmt: seq<nat>, d: Directive, length: seq<nat>, c: nat)
    requires StandsAt(length + [c], fmt, d.i) && IsLength(length) && IsSpecifier(c)
    requires !d.f.isLong && !d.f.isLongLong && !d.f.isShort && !d.f.isChar
    ensures LengthSet(length, LengthField(fmt, d).f)
    ensures d.i + |length| < |fmt| && fmt[d.i + |length|] == c && LengthField(fmt, d).i == d.i + |length|
  {
    hide LengthField, LengthSet;
    var q := length + [c];
    assert forall j :: 0 <= j < |q| ==> q[j] == fmt[d.i..d.i + |q|][j] == At(fmt, d.i + j);
    assert q[|length|] == c && (length != [] ==> q[0] == length[0]) && (|length| == 2 ==> q[1] == length[1]);
    if length != [] && length[0] == 'l' as nat {
      LongRead(fmt, d, length);
    } else if length != [] && length[0] == 'h' as nat {
      ShortRead(fmt, d, length);
    } else {
      OtherRead(fmt, d, length);
    }
  }

  lemma LongRead(fmt: seq<nat>, d: Directive, length: seq<nat>)
    requires d.i + |length| < |fmt| && (length == ['l' as nat] || length == ['l' as nat, 'l' as nat])
    requires fmt[d.i] == 'l' as nat && (fmt[d.i + 1] == 'l' as nat <==> |length| == 2)
    requires !d.f.isLongLong && !d.f.isShort && !d.f.isChar
    ensures LengthSet(length, LengthField(fmt, d).f) && LengthField(fmt, d).i == d.i + |length|
  {
  }

  lemma ShortRead(fmt: seq<nat>, d: Directive, length: seq<nat>)
    requires d.i + |length| < |fmt| && (length == ['h' as nat] || length == ['h' as nat, 'h' as nat])
    requires fmt[d.i] == 'h' as nat && (fmt[d.i + 1] == 'h' as nat <==> |length| == 2)
    requires !d.f.isLong && !d.f.isLongLong && !d.f.isChar
    ensures LengthSet(length, LengthField(fmt, d).f) && LengthField(fmt, d).i == d.i + |length|
  {
  }

  lemma OtherRead(fmt: seq<nat>, d: Directive, length: seq<nat>)
    requires d.i + |length| < |fmt| && (length == [] || length == ['t' as nat] || length == ['j' as nat] || length == ['z' as nat])
    requires if length == [] then IsSpecifier(fmt[d.i]) else fmt[d.i] == length[0]
    requires !d.f.isLong && !d.f.isLongLong && !d.f.isShort && !d.f.isChar
    ensures LengthSet(length, LengthField(fmt, d).f) && LengthField(fmt, d).i == d.i + |length|
  {
  }

  lemma LengthCases(fmt: seq<nat>, d: Directive)
    requires d.i <= |fmt|
    ensures var f := LengthField(fmt, d).f;
            || f == d.f || f == d.f.(isLong := true, isLongLong := true) || f == d.f.(isLong := true)
            || f == d.f.(isShort := true, isChar := true) || f == d.f.(isShort := true)
    ensures LengthField(fmt, d).(f := d.f, i := d.i) == d
  {
  }

  lemma LengthKeeps(fmt: seq<nat>, d: Directive)
    requires d.i <= |fmt|
    ensures SameFlags(d.f, LengthField(fmt, d).f)
    ensures LengthField(fmt, d).width == d.width && LengthField(fmt, d).prec == d.prec && LengthField(fmt, d).a == d.a
  {
    var r := LengthField(fmt, d);
    hide LengthField;
    LengthCases(fmt, d);
    if r.f == d.f {
    } else if r.f == d.f.(isLong := true, isLongLong := true) {
    } else if r.f == d.f.(isLong := true) {
    } else if r.f == d.f.(isShort := true, isChar := true) {
    } else {
      assert r.f == d.f.(isShort := true);
    }
  }

  /** The arguments of the stars are there. */
  predicate HasStars(d: Written, args: seq<Arg>, a: nat) {
    && (d.width.Star? ==> HasWord(args, a))
    && (d.prec.Some? && d.prec.value.Star? ==> HasWord(args, After(d.width, a)))
  }

  /** The next argument after the stars. */
  function Next(d: Written, a: nat): nat {
    if d.prec.Some? then After(d.prec.value, After(d.width, a)) else After(d.width, a)
  }

  function WidthOf(d: Written, args: seq<Arg>, a: nat): nat {
    var w := Given(d.width, args, a);
    if w < 0 then -w else w
  }

  function PrecisionOf(d: Written, args: seq<Arg>, a: nat): nat {
    if d.prec.None? then 0 else Max(Given(d.prec.value, args, After(d.width, a)), 0)
  }

  /** The flags that are set by flag characters `q`, a width below zero, a precision and length modifiers. */
  ghost predicate Flagged(q: seq<nat>, reversed: bool, precision: bool, length: seq<nat>, g: Flags) {
    && (g.left <==> '-' as nat in q || reversed)
    && (g.zeropad <==> '0' as nat in q)
    && (g.plus <==> '+' as nat in q)
    && (g.space <==> ' ' as nat in q)
    && (g.hash <==> '#' as nat in q)
    && (g.precision <==> precision) && !g.uppercase && LengthSet(length, g)
  }

  lemma FlagsTogether(q: seq<nat>, reversed: bool, precision: bool, length: seq<nat>, f: Flags, w: Flags, p: Flags, g: Flags)
    requires Marked(NO_FLAGS, q, f) && LengthSet(length, g)
    requires w == (if reversed then f.(left := true) else f) && p == (if precision then w.(precision := true) else w)
    requires SameFlags(p, g)
    ensures Flagged(q, reversed, precision, length, g)
  {
    hide LengthSet;
  }

  lemma FlagsBefore(q: seq<nat>, reversed: bool, precision: bool, f: Flags, w: Flags, p: Flags)
    requires Marked(NO_FLAGS, q, f)
    requires w == (if reversed then f.(left := true) else f) && p == (if precision then w.(precision := true) else w)
    ensures !p.isLong && !p.isLongLong && !p.isShort && !p.isChar
  {
  }

  /** Width and precision have been read. */
  lemma NumbersRead(d: Written, fmt: seq<nat>, args: seq<Arg>, f: Flags, j: nat, a: nat)
    requires WellWritten(d) && StandsAt(Spelled(d.width) + (Point(d.prec) + Tail(d)), fmt, j) && HasStars(d, args, a) && !f.precision
    ensures var w := WidthField(fmt, args, Directive(f, 0, 0, j, a));
            && w.Some? && w.value.f == (if Given(d.width, args, a) < 0 then f.(left := true) else f)
            && var p := PrecisionField(fmt, args, w.value);
               && p.Some? && p.value.f == (if d.prec.Some? then w.value.f.(precision := true) else w.value.f)
               && p.value.width == WidthOf(d, args, a) && p.value.prec == PrecisionOf(d, args, a) && p.value.a == Next(d, a)
               && p.value.i == j + |Spelled(d.width)| + |Point(d.prec)| && StandsAt(Tail(d), fmt, p.value.i)
  {
    hide Read, StandsAt, WidthField, PrecisionField, Given, Spelled, Point, Tail;
    var e := Directive(f, 0, 0, j, a);
    Starts(d);
    StandsApart(Spelled(d.width), Point(d.prec) + Tail(d), fmt, j);
    StandsApart(Point(d.prec), Tail(d), fmt, j + |Spelled(d.width)|);
    WidthRead(fmt, args, e, d.width);
    PrecisionRead(fmt, args, WidthField(fmt, args, e).value, d.prec);
  }

  /** The flags have been read. */
  lemma FlagsRead(d: Written, fmt: seq<nat>, i: nat)
    requires WellWritten(d) && StandsAt(Characters(d), fmt, i)
    ensures var (f, j) := FlagsField(fmt, i, NO_FLAGS);
            j == i + |d.flags| && Marked(NO_FLAGS, d.flags, f) && StandsAt(Spelled(d.width) + (Point(d.prec) + Tail(d)), fmt, j)
  {
    hide StandsAt, FlagsField, Spelled, Point, Tail, Marked;
    Starts(d);
    StandsApart(d.flags, Spelled(d.width) + (Point(d.prec) + Tail(d)), fmt, i);
    FlagsEnd(fmt, i, d.flags, NO_FLAGS);
    FlagsFieldMeans(fmt, i, NO_FLAGS);
    assert fmt[i..i + |d.flags|] == d.flags by { Unfold(d.flags, fmt, i); }
  }

  /** The length modifiers have been read. */
  lemma LengthRun(d: Written, fmt: seq<nat>, reversed: bool, f: Flags, w: Flags, p: Directive)
    requires WellWritten(d) && StandsAt(Tail(d), fmt, p.i) && Marked(NO_FLAGS, d.flags, f)
    requires w == (if reversed then f.(left := true) else f) && p.f == (if d.prec.Some? then w.(precision := true) else w)
    ensures var r := LengthField(fmt, p);
            && Flagged(d.flags, reversed, d.prec.Some?, d.length, r.f)
            && r.width == p.width && r.prec == p.prec && r.a == p.a && r.i == p.i + |d.length| < |fmt| && fmt[r.i] == d.c
  {
    hide StandsAt, LengthField, SameFlags, LengthSet, Flagged, Marked, IsLength, IsSpecifier;
    FlagsBefore(d.flags, reversed, d.prec.Some?, f, w, p.f);
    LengthRead(fmt, p, d.length, d.c);
    LengthKeeps(fmt, p);
    FlagsTogether(d.flags, reversed, d.prec.Some?, d.length, f, w, p.f, LengthField(fmt, p).f);
  }

  /** A written directive is read as what it says. */
  lemma WrittenIsParsed(d: Written, fmt: seq<nat>, args: seq<Arg>, i: nat, a: nat)
    requires WellWritten(d) && StandsAt(Characters(d), fmt, i) && HasStars(d, args, a)
    ensures var r := Parse(fmt, args, i, a);
            && r.Some? && Flagged(d.flags, Given(d.width, args, a) < 0, d.prec.Some?, d.length, r.value.f)
            && r.value.width == WidthOf(d, args, a) && r.value.prec == PrecisionOf(d, args, a) && r.value.a == Next(d, a)
            && r.value.i == i + |Characters(d)| - 1 < |fmt| && fmt[r.value.i] == d.c
  {
    hide StandsAt, FlagsField, WidthField, PrecisionField, LengthField, Given, Spelled, Point, Flagged, Marked, WellWritten, HasStars, WidthOf, PrecisionOf, Next;
    assert i <= |fmt| by { Unfold(Characters(d), fmt, i); }
    var (f, j) := FlagsField(fmt, i, NO_FLAGS);
    FlagsRead(d, fmt, i);
    assert !f.precision by { NoPrecision(d.flags, f); }
    NumbersRead(d, fmt, args, f, j, a);
    var w := WidthField(fmt, args, Directive(f, 0, 0, j, a)).value;
    LengthRun(d, fmt, Given(d.width, args, a) < 0, f, w.f, PrecisionField(fmt, args, w).value);
  }

  lemma NoPrecision(q: seq<nat>, f: Flags)
    requires Marked(NO_FLAGS, q, f)
    ensures !f.precision
  {
  }

  lemma Unfold(q: seq<nat>, fmt: seq<nat>, i: nat)
    requires StandsAt(q, fmt, i)
    ensures i + |q| <= |fmt| && fmt[i..i + |q|] == q
  {
  }

  /** No part of a directive starts like the part before it goes on. */
  lemma Starts(d: Written)
    requires WellWritten(d)
    ensures var r := Tail(d); r != [] && !('0' as nat <= r[0] <= '9' as nat) && !IsFlagCharacter(r[0]) && r[0] != '*' as nat && r[0] != '.' as nat
    ensures var r := Point(d.prec) + Tail(d); r != [] && !('0' as nat <= r[0] <= '9' as nat) && !IsFlagCharacter(r[0]) && r[0] != '*' as nat
    ensures var r := Spelled(d.width) + (Point(d.prec) + Tail(d)); r != [] && !IsFlagCharacter(r[0])
  {
    assert d.width.Decimal? ==> d.width.digits[0] in d.width.digits;
  }
}
