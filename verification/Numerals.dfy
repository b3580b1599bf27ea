/** The numbers of printf: digits, padding, sign and prefix, built least significant first in a small buffer
    and put out in reverse (src/stdlib/printf.c:135-310). */
module Numerals {
  import opened Arithmetic
  import opened DigitStrings

  /** PRINTF_NTOA_BUFFER_SIZE. */
  const NTOA_BUFFER_SIZE: nat := 32

  datatype Flags = Flags(
    zeropad: bool, left: bool, plus: bool, space: bool, hash: bool, uppercase: bool,
    isChar: bool, isShort: bool, isLong: bool, isLongLong: bool, precision: bool)

  const NO_FLAGS: Flags := Flags(false, false, false, false, false, false, false, false, false, false, false)

  const SPACE: nat := ' ' as nat

  // ---------------------------------------------------------------------------------------------
  // Output
  // ---------------------------------------------------------------------------------------------

  /** A buffer of capacity `n` after this text was put out into it. */
  function Filled(orig: seq<nat>, text: seq<nat>, n: nat): (b: seq<nat>)
    ensures |b| == |orig|
  {
    seq(|orig|, i requires 0 <= i < |orig| => if i < n && i < |text| then text[i] else orig[i])
  }

  lemma FilledNext(orig: seq<nat>, text: seq<nat>, n: nat, c: nat)
    requires n <= |orig|
    ensures Filled(orig, text + [c], n) == if |text| < n then Filled(orig, text, n)[|text| := c] else Filled(orig, text, n)
  {
  }

  /** The buffer holds, up to its capacity, what was put out so far: `idx` characters. */
  ghost predicate Holds(buffer: array<nat>, idx: nat, n: nat, orig: seq<nat>, text: seq<nat>)
    reads buffer
  {
    n <= buffer.Length == |orig| && idx == |text| && buffer[..] == Filled(orig, text, n)
  }

  /** _out_buffer. */
  method OutBuffer(c: nat, buffer: array<nat>, idx: nat, maxlen: nat, ghost orig: seq<nat>, ghost text: seq<nat>)
    requires Holds(buffer, idx, maxlen, orig, text)
    modifies buffer
    ensures Holds(buffer, idx + 1, maxlen, orig, text + [c])
  {
    hide Filled;
    FilledNext(orig, text, maxlen, c);
    if idx < maxlen {
      buffer[idx] := c;
    }
  }

  function Repeat(c: nat, n: int): (s: seq<nat>)
    ensures |s| == if n < 0 then 0 else n
    ensures forall i :: 0 <= i < |s| ==> s[i] == c
  {
    if n < 0 then [] else seq(n, i => c)
  }

  /** A loop that puts out the same character up to `n` times. */
  method OutPadding(c: nat, n: int, buffer: array<nat>, idx: nat, maxlen: nat, ghost orig: seq<nat>, ghost text: seq<nat>)
    returns (r: nat)
    requires Holds(buffer, idx, maxlen, orig, text)
    modifies buffer
    ensures Holds(buffer, r, maxlen, orig, text + Repeat(c, n))
  {
    hide Filled;
    r := idx;
    var i := 0;
    assert text + Repeat(c, 0) == text;
    while i < n
      invariant 0 <= i && (i <= n || i == 0) && Holds(buffer, r, maxlen, orig, text + Repeat(c, i))
    {
      OutBuffer(c, buffer, r, maxlen, orig, text + Repeat(c, i));
      assert text + Repeat(c, i) + [c] == text + Repeat(c, i + 1);
      r := r + 1;
      i := i + 1;
    }
    assert n < 0 ==> text + Repeat(c, n) == text;
  }

  function Reversed(s: seq<nat>): (r: seq<nat>)
    ensures |r| == |s|
    ensures forall i :: 0 <= i < |s| ==> r[i] == s[|s| - 1 - i]
  {
    seq(|s|, i requires 0 <= i < |s| => s[|s| - 1 - i])
  }

  /** A number in its field: justified right with spaces, unless it is padded with zeros, or left. */
  function Field(b: seq<nat>, width: nat, f: Flags): seq<nat> {
    Repeat(SPACE, if !f.left && !f.zeropad then width - |b| else 0) + Reversed(b) + Repeat(SPACE, if f.left then width - |b| else 0)
  }

  /** Without zero padding a field is as long as its number or its width, whichever is more, on either side
      of justification; and it consists of the number and of spaces on one side of it. */
  lemma FieldLength(b: seq<nat>, width: nat, f: Flags)
    requires f.left || !f.zeropad
    ensures |Field(b, width, f)| == if |b| < width then width else |b|
    ensures f.left ==> Field(b, width, f)[..|b|] == Reversed(b)
    ensures !f.left ==> Field(b, width, f)[|Field(b, width, f)| - |b|..] == Reversed(b)
  {
  }

  /** _out_rev. */
  method OutRev(buffer: array<nat>, idx: nat, maxlen: nat, buf: array<nat>, len: nat, width: nat, f: Flags,
                ghost orig: seq<nat>, ghost text: seq<nat>)
    returns (r: nat)
    requires Holds(buffer, idx, maxlen, orig, text) && buf != buffer && len <= buf.Length
    modifies buffer
    ensures Holds(buffer, r, maxlen, orig, text + Field(buf[..len], width, f))
  {
    hide Filled;
    r := idx;
    ghost var b, t := buf[..len], text;
    if !f.left && !f.zeropad {
      r := OutPadding(SPACE, width - len, buffer, r, maxlen, orig, t);
      t := t + Repeat(SPACE, width - len);
    }
    assert text + Repeat(SPACE, if !f.left && !f.zeropad then width - len else 0) == t;
    r := OutReversed(buffer, r, maxlen, buf, len, orig, t);
    t := t + Reversed(b);
    if f.left {
      // `idx - start_idx` is the length of the number here, as nothing was put before it
      r := OutPadding(SPACE, width - len, buffer, r, maxlen, orig, t);
      t := t + Repeat(SPACE, width - len);
    }
    assert text + Field(b, width, f) == t;
  }

  method OutReversed(buffer: array<nat>, idx: nat, maxlen: nat, buf: array<nat>, len: nat, ghost orig: seq<nat>, ghost text: seq<nat>)
    returns (r: nat)
    requires Holds(buffer, idx, maxlen, orig, text) && buf != buffer && len <= buf.Length
    modifies buffer
    ensures Holds(buffer, r, maxlen, orig, text + Reversed(buf[..len]))
  {
    hide Filled;
    r := idx;
    var n: nat := len;
    ghost var b := Reversed(buf[..len]);
    assert text + b[..0] == text;
    while n > 0
      invariant n <= len == |b| && b == Reversed(buf[..len])
      invariant Holds(buffer, r, maxlen, orig, text + b[..len - n])
    {
      n := n - 1;
      OutBuffer(buf[n], buffer, r, maxlen, orig, text + b[..len - n - 1]);
      assert text + b[..len - n - 1] + [buf[n]] == text + b[..len - n];
      r := r + 1;
    }
    assert b[..len] == b;
  }

  // ---------------------------------------------------------------------------------------------
  // Padding, prefix and sign
  // ---------------------------------------------------------------------------------------------

  function PadTo(b: seq<nat>, n: nat): (r: seq<nat>)
    requires |b| <= NTOA_BUFFER_SIZE
    ensures |r| <= NTOA_BUFFER_SIZE && b <= r
    ensures |r| == if |b| < Min(n, NTOA_BUFFER_SIZE) then Min(n, NTOA_BUFFER_SIZE) else |b|
  {
    b + Repeat(ZERO, Min(n, NTOA_BUFFER_SIZE) - |b|)
  }

  /** A sign takes one place of a zero-padded field. */
  function Narrowed(negative: bool, width: nat, f: Flags): nat {
    if !f.left && width != 0 && f.zeropad && (negative || f.plus || f.space) then width - 1 else width
  }

  function Padded(b: seq<nat>, prec: nat, width: nat, f: Flags): (r: seq<nat>)
    requires |b| <= NTOA_BUFFER_SIZE
    ensures |r| <= NTOA_BUFFER_SIZE
  {
    if f.left then b else if f.zeropad then PadTo(PadTo(b, prec), width) else PadTo(b, prec)
  }

  /** The prefix is meant to take the place of zeros that filled the precision or the width; but a number that is
      just as long by itself loses its leading digits. */
  function Unpadded(b: seq<nat>, base: nat, prec: nat, width: nat, f: Flags): (r: seq<nat>)
    ensures |r| <= |b|
  {
    if !f.precision && b != [] && (|b| == prec || |b| == width) then
      if |b| > 1 && base == 16 then b[..|b| - 2] else b[..|b| - 1]
    else b
  }

  function Hashed(b: seq<nat>, base: nat, prec: nat, width: nat, f: Flags): (r: seq<nat>)
    requires |b| <= NTOA_BUFFER_SIZE
    ensures |r| <= NTOA_BUFFER_SIZE
  {
    if !f.hash then b
    else
      var p := Prefixed(Unpadded(b, base, prec, width, f), base, f);
      if |p| < NTOA_BUFFER_SIZE then p + [ZERO] else p
  }

  function Prefixed(b: seq<nat>, base: nat, f: Flags): (r: seq<nat>)
    requires |b| <= NTOA_BUFFER_SIZE
    ensures |r| <= NTOA_BUFFER_SIZE
  {
    if |b| == NTOA_BUFFER_SIZE then b
    else if base == 16 then b + [if f.uppercase then 'X' as nat else 'x' as nat]
    else if base == 2 then b + ['b' as nat]
    else b
  }

  function Sign(negative: bool, f: Flags): (r: seq<nat>)
    ensures |r| <= 1
  {
    if negative then ['-' as nat] else if f.plus then ['+' as nat] else if f.space then [SPACE] else []
  }

  function WithSign(b: seq<nat>, negative: bool, f: Flags): (r: seq<nat>)
    requires |b| <= NTOA_BUFFER_SIZE
    ensures |r| <= NTOA_BUFFER_SIZE
  {
    if |b| < NTOA_BUFFER_SIZE then b + Sign(negative, f) else b
  }

  /** What _ntoa_format makes of the digits `b`. */
  function Formatted(b: seq<nat>, negative: bool, base: nat, prec: nat, width: nat, f: Flags): seq<nat>
    requires |b| <= NTOA_BUFFER_SIZE
  {
    var w := Narrowed(negative, width, f);
    Field(WithSign(Hashed(Padded(b, prec, w, f), base, prec, w, f), negative, f), w, f)
  }

  /** Zeros appended to the digits, as far as the buffer reaches. */
  method PadBuffer(buf: array<nat>, len: nat, n: nat) returns (r: nat)
    requires buf.Length == NTOA_BUFFER_SIZE && len <= NTOA_BUFFER_SIZE
    modifies buf
    ensures r <= NTOA_BUFFER_SIZE && buf[..r] == PadTo(old(buf[..len]), n)
  {
    r := len;
    while r < n && r < NTOA_BUFFER_SIZE
      invariant len <= r <= NTOA_BUFFER_SIZE && (r <= n || r == len)
      invariant buf[..r] == old(buf[..len]) + Repeat(ZERO, r - len)
    {
      buf[r] := ZERO;
      r := r + 1;
    }
  }

  method PrefixBuffer(buf: array<nat>, len: nat, base: nat, f: Flags) returns (r: nat)
    requires buf.Length == NTOA_BUFFER_SIZE && len <= NTOA_BUFFER_SIZE
    modifies buf
    ensures r <= NTOA_BUFFER_SIZE && buf[..r] == Prefixed(old(buf[..len]), base, f)
  {
    r := len;
    if base == 16 && !f.uppercase && r < NTOA_BUFFER_SIZE {
      buf[r] := 'x' as nat;
      r := r + 1;
    } else if base == 16 && f.uppercase && r < NTOA_BUFFER_SIZE {
      buf[r] := 'X' as nat;
      r := r + 1;
    } else if base == 2 && r < NTOA_BUFFER_SIZE {
      buf[r] := 'b' as nat;
      r := r + 1;
    }
  }

  /** The part of _ntoa_format that handles FLAGS_HASH. */
  method HashBuffer(buf: array<nat>, len: nat, base: nat, prec: nat, width: nat, f: Flags) returns (r: nat)
    requires buf.Length == NTOA_BUFFER_SIZE && len <= NTOA_BUFFER_SIZE
    modifies buf
    ensures r <= NTOA_BUFFER_SIZE && buf[..r] == Hashed(old(buf[..len]), base, prec, width, f)
  {
    hide Prefixed;
    r := len;
    if f.hash {
      if !f.precision && r != 0 && (r == prec || r == width) {
        r := r - 1;
        if r != 0 && base == 16 {
          r := r - 1;
        }
      }
      assert buf[..r] == Unpadded(old(buf[..len]), base, prec, width, f);
      r := PrefixBuffer(buf, r, base, f);
      if r < NTOA_BUFFER_SIZE {
        ghost var p := buf[..r];
        buf[r] := ZERO;
        r := r + 1;
        assert buf[..r] == p + [ZERO];
      }
    }
  }

  /** And the part that handles the sign. */
  method SignBuffer(buf: array<nat>, len: nat, negative: bool, f: Flags) returns (r: nat)
    requires buf.Length == NTOA_BUFFER_SIZE && len <= NTOA_BUFFER_SIZE
    modifies buf
    ensures r <= NTOA_BUFFER_SIZE && buf[..r] == WithSign(old(buf[..len]), negative, f)
  {
    r := len;
    if r < NTOA_BUFFER_SIZE {
      if negative {
        buf[r] := '-' as nat;
        r := r + 1;
      } else if f.plus {
        buf[r] := '+' as nat;
        r := r + 1;
      } else if f.space {
        buf[r] := SPACE;
        r := r + 1;
      }
    }
  }

  /** _ntoa_format. */
  method NtoaFormat(buffer: array<nat>, idx: nat, maxlen: nat, buf: array<nat>, len: nat, negative: bool, base: nat, prec: nat, width: nat,
                    f: Flags, ghost orig: seq<nat>, ghost text: seq<nat>)
    returns (r: nat)
    requires Holds(buffer, idx, maxlen, orig, text) && buf != buffer
    requires buf.Length == NTOA_BUFFER_SIZE && len <= NTOA_BUFFER_SIZE
    modifies buffer, buf
    ensures Holds(buffer, r, maxlen, orig, text + Formatted(old(buf[..len]), negative, base, prec, width, f))
  {
    hide Filled, Field, Hashed, PadTo, WithSign;
    var n, w := len, width;
    if !f.left {
      if w != 0 && f.zeropad && (negative || f.plus || f.space) {
        w := w - 1;
      }
      n := PadBuffer(buf, n, prec);
      if f.zeropad {
        n := PadBuffer(buf, n, w);
      }
    }
    n := HashBuffer(buf, n, base, prec, w, f);
    n := SignBuffer(buf, n, negative, f);
    r := OutRev(buffer, idx, maxlen, buf, n, w, f, orig, text);
  }

  // ---------------------------------------------------------------------------------------------
  // Digits
  // ---------------------------------------------------------------------------------------------

  function Digit(d: nat, uppercase: bool): nat {
    if d < 10 then ZERO + d else (if uppercase then 'A' as nat else 'a' as nat) + d - 10
  }

  /** The digits of a number, least significant first, as many as fit. */
  function LowDigits(value: nat, base: nat, uppercase: bool, room: nat): (s: seq<nat>)
    requires 2 <= base && 0 < room
    ensures 1 <= |s| <= room
    decreases room
  {
    [Digit(value % base, uppercase)] + (if value / base == 0 || room == 1 then [] else LowDigits(value / base, base, uppercase, room - 1))
  }

  /** What _ntoa_long puts out. */
  function NumberText(value: nat, negative: bool, base: nat, prec: nat, width: nat, f: Flags): seq<nat>
    requires 2 <= base
  {
    Formatted(if f.precision && value == 0 then [] else LowDigits(value, base, f.uppercase, NTOA_BUFFER_SIZE),
              negative, base, prec, width, if value == 0 then f.(hash := false) else f)
  }

  /** The do-while loop of _ntoa_long. */
  method FillDigits(buf: array<nat>, value: nat, base: nat, uppercase: bool) returns (len: nat)
    requires buf.Length == NTOA_BUFFER_SIZE && 2 <= base
    modifies buf
    ensures len <= NTOA_BUFFER_SIZE && buf[..len] == LowDigits(value, base, uppercase, NTOA_BUFFER_SIZE)
  {
    hide LowDigits, Digit;
    ghost var all := LowDigits(value, base, uppercase, NTOA_BUFFER_SIZE);
    var v: nat := value;
    len := 0;
    assert all == buf[..0] + all;
    while true
      invariant len < NTOA_BUFFER_SIZE && all == buf[..len] + LowDigits(v, base, uppercase, NTOA_BUFFER_SIZE - len)
      decreases NTOA_BUFFER_SIZE - len
    {
      LowDigitsNext(v, base, uppercase, NTOA_BUFFER_SIZE - len);
      ghost var done, digit, rest := buf[..len], Digit(v % base, uppercase), OtherDigits(v, base, uppercase, NTOA_BUFFER_SIZE - len);
      buf[len] := Digit(v % base, uppercase);
      len := len + 1;
      assert buf[..len] == done + [digit];
      assert done + ([digit] + rest) == done + [digit] + rest;
      v := v / base;
      if v == 0 || len == NTOA_BUFFER_SIZE {
        break;
      }
    }
    assert buf[..len] + [] == buf[..len];
  }

  function OtherDigits(value: nat, base: nat, uppercase: bool, room: nat): seq<nat>
    requires 2 <= base && 0 < room
  {
    if value / base == 0 || room == 1 then [] else LowDigits(value / base, base, uppercase, room - 1)
  }

  lemma LowDigitsNext(value: nat, base: nat, uppercase: bool, room: nat)
    requires 2 <= base && 0 < room
    ensures LowDigits(value, base, uppercase, room) == [Digit(value % base, uppercase)] + OtherDigits(value, base, uppercase, room)
  {
  }

  /** _ntoa_long. */
  method NtoaLong(buffer: array<nat>, idx: nat, maxlen: nat, value: nat, negative: bool, base: nat, prec: nat, width: nat, flags: Flags,
                  ghost orig: seq<nat>, ghost text: seq<nat>)
    returns (r: nat)
    requires Holds(buffer, idx, maxlen, orig, text) && 2 <= base
    modifies buffer
    ensures Holds(buffer, r, maxlen, orig, text + NumberText(value, negative, base, prec, width, flags))
  {
    hide Filled, Formatted, LowDigits;
    var f, len := flags, 0;
    var buf := new nat[NTOA_BUFFER_SIZE];
    if value == 0 {
      f := f.(hash := false);
    }
    if !f.precision || value != 0 {
      len := FillDigits(buf, value, base, f.uppercase);
    }
    assert buf[..0] == [];
    r := NtoaFormat(buffer, idx, maxlen, buf, len, negative, base, prec, width, f, orig, text);
  }

  // ---------------------------------------------------------------------------------------------
  // What the digits mean
  // ---------------------------------------------------------------------------------------------

  function Power(base: nat, n: nat): nat {
    if n == 0 then 1 else base * Power(base, n - 1)
  }

  lemma {:induction false} LowDigitsRead(value: nat, base: nat, uppercase: bool, room: nat)
    requires 2 <= base <= 16 && 0 < room && value < Power(base, room)
    ensures Read(Reversed(LowDigits(value, base, uppercase, room)), base) == value
    decreases room
  {
    hide Read, Digit, Reversed, DigitValue, LowDigits, Power;
    var low, high := Digit(value % base, uppercase), OtherDigits(value, base, uppercase, room);
    LowDigitsNext(value, base, uppercase, room);
    DigitReads(value % base, uppercase);
    QuotientFits(value, base, room);
    ReadLast(Reversed(high), low, base);
    ReversedOnto(high, low);
    if value / base == 0 || room == 1 {
    } else {
      LowDigitsRead(value / base, base, uppercase, room - 1);
    }
  }

  lemma QuotientFits(value: nat, base: nat, room: nat)
    requires 2 <= base && 0 < room && value < Power(base, room)
    ensures value / base < Power(base, room - 1) && (room == 1 ==> value / base == 0)
    ensures value == value / base * base + value % base
  {
    QuotientBelow(value, base, Power(base, room - 1));
  }

  lemma DigitReads(d: nat, uppercase: bool)
    requires d < 16
    ensures DigitValue(Digit(d, uppercase)) == d
  {
  }

  lemma ReversedOnto(s: seq<nat>, c: nat)
    ensures Reversed([c] + s) == Reversed(s) + [c] && Reversed([]) == []
  {
  }

  lemma QuotientBelow(value: nat, base: nat, bound: nat)
    requires 0 < base && value < base * bound
    ensures value / base < bound
  {
    assert base * (value / base) <= value;
    if value / base >= bound {
      MulLe(bound, value / base, base);
    }
  }

  lemma {:induction false} PowerGrows(a: nat, b: nat, m: nat, n: nat)
    requires 1 <= a <= b && m <= n
    ensures 1 <= Power(a, m) <= Power(b, n)
    decreases n
  {
    if n == 0 {
    } else {
      if m == 0 {
        PowerGrows(a, b, 0, n - 1);
        MulLe(1, Power(b, n - 1), 1);
        MulLeBoth(1, b, 1, Power(b, n - 1));
      } else {
        PowerGrows(a, b, m - 1, n - 1);
        MulLeBoth(a, b, Power(a, m - 1), Power(b, n - 1));
        MulLeBoth(1, a, 1, Power(a, m - 1));
      }
    }
  }

  /** 64-bit numbers fit the buffer in base 8, and so in every greater base. */
  lemma SixtyFourBitsFit(value: nat, base: nat)
    requires value < U64 && 8 <= base
    ensures value < Power(base, NTOA_BUFFER_SIZE)
  {
    PowerGrows(8, base, 22, NTOA_BUFFER_SIZE);
    assert Power(8, 11) == 0x2_0000_0000 by { PowerOfEight(); }
    PowerSum(8, 11, 11);
  }

  lemma PowerOfEight()
    ensures Power(8, 11) == 0x2_0000_0000
  {
    assert Power(8, 5) == 0x8000;
    PowerSum(8, 5, 5);
    assert Power(8, 10) == 0x4000_0000;
  }

  lemma {:induction false} PowerSum(base: nat, m: nat, n: nat)
    ensures Power(base, m + n) == Power(base, m) * Power(base, n)
  {
    if m == 0 {
    } else {
      PowerSum(base, m - 1, n);
      var a, b := Power(base, m - 1), Power(base, n);
      assert base * (a * b) == (base * a) * b;
    }
  }

  /** Any 64-bit value put out in base 8, 10 or 16 reads back, whatever zeros stand before it. */
  lemma NumeralReads(value: nat, base: nat, uppercase: bool, zeros: nat)
    requires value < U64 && (base == 8 || base == 10 || base == 16)
    ensures Read(Repeat(ZERO, zeros) + Reversed(LowDigits(value, base, uppercase, NTOA_BUFFER_SIZE)), base) == value
  {
    SixtyFourBitsFit(value, base);
    LowDigitsRead(value, base, uppercase, NTOA_BUFFER_SIZE);
    LeadingZeros(zeros, Reversed(LowDigits(value, base, uppercase, NTOA_BUFFER_SIZE)), base);
  }

  lemma {:induction false} LeadingZeros(zeros: nat, s: seq<nat>, base: nat)
    ensures Read(Repeat(ZERO, zeros) + s, base) == Read(s, base)
    decreases zeros + |s|
  {
    var t := Repeat(ZERO, zeros) + s;
    if s != [] {
      LeadingZeros(zeros, s[..|s| - 1], base);
      assert t[..|t| - 1] == Repeat(ZERO, zeros) + s[..|s| - 1];
    } else if zeros != 0 {
      LeadingZeros(zeros - 1, [], base);
      assert t[..|t| - 1] == Repeat(ZERO, zeros - 1) + [];
      assert t == Repeat(ZERO, zeros);
    } else {
      assert t == [];
    }
  }

  lemma {:induction false} LowDigitsAreDigits(value: nat, base: nat, uppercase: bool, room: nat)
    requires 2 <= base <= 16 && 0 < room
    ensures AllDigits(LowDigits(value, base, uppercase, room), base)
    decreases room
  {
    if value / base == 0 || room == 1 {
    } else {
      LowDigitsAreDigits(value / base, base, uppercase, room - 1);
    }
  }

  /** How many digits a number has. */
  function DigitCount(value: nat, base: nat): (n: nat)
    requires 2 <= base
    ensures 0 < n
  {
    if value < base then 1 else QuotientIsLess(value, base); 1 + DigitCount(value / base, base)
  }

  lemma QuotientIsLess(value: nat, base: nat)
    requires 2 <= base <= value
    ensures value / base < value
  {
    var q := value / base;
    assert value == q * base + value % base;
    MulLe(2, base, q);
    assert base * q == q * base;
  }

  lemma {:induction false} LowDigitsCount(value: nat, base: nat, uppercase: bool, room: nat)
    requires 2 <= base && 0 < room
    ensures |LowDigits(value, base, uppercase, room)| == Min(DigitCount(value, base), room)
    decreases room
  {
    QuotientIsZero(value, base);
    if value < base || room == 1 {
    } else {
      LowDigitsCount(value / base, base, uppercase, room - 1);
    }
  }

  lemma QuotientIsZero(value: nat, base: nat)
    requires 0 < base
    ensures value / base == 0 <==> value < base
  {
  }

  /** A number has at most `n` digits exactly when it is below base^n. */
  lemma {:induction false} DigitCountIs(value: nat, base: nat, n: nat)
    requires 2 <= base && 0 < n
    ensures DigitCount(value, base) <= n <==> value < Power(base, n)
    decreases n
  {
    PowerGrows(1, base, 0, n - 1);
    if value < base {
      MulLe(1, Power(base, n - 1), base);
      assert base * Power(base, n - 1) == Power(base, n - 1) * base;
    } else if n == 1 {
      assert Power(base, 1) == base * Power(base, 0) == base;
    } else {
      DigitCountIs(value / base, base, n - 1);
      if value < base * Power(base, n - 1) {
        QuotientBelow(value, base, Power(base, n - 1));
      } else {
        QuotientAbove(value, base, Power(base, n - 1));
      }
    }
  }

  lemma QuotientAbove(value: nat, base: nat, bound: nat)
    requires 0 < base && base * bound <= value
    ensures bound <= value / base
  {
    var q := value / base;
    assert value == q * base + value % base;
    assert base * bound == bound * base;
    assert (q + 1) * base == q * base + base;
    if q < bound {
      MulLe(q + 1, bound, base);
    }
  }

  lemma {:induction false} ReadIsBelow(s: seq<nat>, base: nat)
    requires 2 <= base && AllDigits(s, base)
    ensures Read(s, base) < Power(base, |s|)
    decreases |s|
  {
    hide DigitValue, IsDigitOf;
    if s == [] {
    } else {
      ReadIsBelow(s[..|s| - 1], base);
      LastDigitBelow(Read(s[..|s| - 1], base), Power(base, |s| - 1), base, s[|s| - 1]);
    }
  }

  lemma LastDigitBelow(high: nat, bound: nat, base: nat, c: nat)
    requires high < bound && IsDigitOf(c, base)
    ensures high * base + DigitValue(c) < base * bound
  {
    hide DigitValue;
    MulLe(high + 1, bound, base);
    assert (high + 1) * base == high * base + base;
    assert bound * base == base * bound;
  }

  // ---------------------------------------------------------------------------------------------
  // A reader for printed numbers
  // ---------------------------------------------------------------------------------------------

  predicate IsDigitOf(c: nat, base: nat) {
    (IsDigit(c) || 'a' as nat <= c <= 'f' as nat || 'A' as nat <= c <= 'F' as nat) && DigitValue(c) < base
  }

  ghost predicate AllDigits(s: seq<nat>, base: nat) {
    forall c :: c in s ==> IsDigitOf(c, base)
  }

  predicate IsMark(c: nat, base: nat) {
    (base == 16 && (c == 'x' as nat || c == 'X' as nat)) || (base == 2 && c == 'b' as nat)
  }

  function SkipSpaces(s: seq<nat>): seq<nat> {
    if s != [] && s[0] == SPACE then SkipSpaces(s[1..]) else s
  }

  /** Whether there is a minus sign, and what follows a sign. */
  function SkipSign(s: seq<nat>): (bool, seq<nat>) {
    if s != [] && (s[0] == '-' as nat || s[0] == '+' as nat) then (s[0] == '-' as nat, s[1..]) else (false, s)
  }

  function SkipPrefix(s: seq<nat>, base: nat): seq<nat> {
    if 2 <= |s| && s[0] == ZERO && IsMark(s[1], base) then s[2..] else s
  }

  function LeadingDigits(s: seq<nat>, base: nat): seq<nat> {
    if s != [] && IsDigitOf(s[0], base) then [s[0]] + LeadingDigits(s[1..], base) else []
  }

  /** What strtol makes of a text in a given base, as sign and magnitude: spaces, a sign, a prefix, digits. */
  function ReadNumber(s: seq<nat>, base: nat): (bool, nat) {
    var (negative, rest) := SkipSign(SkipSpaces(s));
    (negative, Read(LeadingDigits(SkipPrefix(rest, base), base), base))
  }

  lemma {:induction false} SkipsSpaces(n: nat, s: seq<nat>)
    requires s == [] || s[0] != SPACE
    ensures SkipSpaces(Repeat(SPACE, n) + s) == s
  {
    var t := Repeat(SPACE, n) + s;
    if n == 0 {
      assert t == s;
    } else {
      assert t[1..] == Repeat(SPACE, n - 1) + s;
      SkipsSpaces(n - 1, s);
    }
  }

  lemma {:induction false} DigitsLead(d: seq<nat>, base: nat, s: seq<nat>)
    requires AllDigits(d, base) && (s == [] || !IsDigitOf(s[0], base))
    ensures LeadingDigits(d + s, base) == d
  {
    if d == [] {
      assert d + s == s;
    } else {
      assert (d + s)[1..] == d[1..] + s;
      DigitsLead(d[1..], base, s);
    }
  }

  /** What may stand before the digits, whole or in part. */
  predicate IsPrefix(prefix: seq<nat>, base: nat) {
    || prefix == [] || (prefix == [ZERO] && base in {8, 10})
    || (|prefix| == 2 && prefix[0] == ZERO && IsMark(prefix[1], base)) || IsBroken(prefix, base)
  }

  predicate IsBroken(prefix: seq<nat>, base: nat) {
    |prefix| == 1 && IsMark(prefix[0], base)
  }

  /** The text between the spaces: a sign, what of the prefix fits, and digits. */
  lemma CoreReads(base: nat, a: nat, sign: seq<nat>, prefix: seq<nat>, d: seq<nat>, b: nat)
    requires base in {2, 8, 10, 16} && AllDigits(d, base) && IsPrefix(prefix, base)
    requires sign in {[], ['-' as nat], ['+' as nat], [SPACE]}
    ensures ReadNumber(Repeat(SPACE, a) + (sign + prefix + d) + Repeat(SPACE, b), base) ==
              (sign == ['-' as nat], if IsBroken(prefix, base) then 0 else Read(d, base))
  {
    hide Read, SkipSpaces, SkipSign, SkipPrefix, LeadingDigits, Repeat, IsPrefix, AllDigits;
    var tail := Repeat(SPACE, b);
    SpacesOnly(b);
    CoreStart(base, prefix, d);
    CoreSkips(a, sign, prefix + d, b);
    PrefixReads(base, prefix, d, tail);
    NoDigits(base);
    assert Repeat(SPACE, a) + (sign + prefix + d) + tail == Repeat(SPACE, a) + (sign + (prefix + d)) + tail;
    assert prefix + d == [] ==> prefix == [] && d == [] && prefix + d + tail == tail;
  }

  lemma CoreStart(base: nat, prefix: seq<nat>, d: seq<nat>)
    requires AllDigits(d, base) && IsPrefix(prefix, base)
    ensures prefix + d == [] || (prefix + d)[0] !in {SPACE, '-' as nat, '+' as nat}
  {
    assert prefix + d != [] ==> (prefix + d)[0] == if prefix != [] then prefix[0] else d[0];
    assert d != [] ==> IsDigitOf(d[0], base);
  }

  lemma NoDigits(base: nat)
    ensures LeadingDigits(SkipPrefix([], base), base) == [] && Read([], base) == 0
  {
  }

  lemma SpacesOnly(n: nat)
    ensures Repeat(SPACE, n) == [] || Repeat(SPACE, n)[0] == SPACE
  {
  }

  /** Spaces and the sign are skipped, and all of it if there is nothing else. */
  lemma CoreSkips(a: nat, sign: seq<nat>, core: seq<nat>, b: nat)
    requires sign in {[], ['-' as nat], ['+' as nat], [SPACE]}
    requires core == [] || core[0] !in {SPACE, '-' as nat, '+' as nat}
    ensures var r := SkipSign(SkipSpaces(Repeat(SPACE, a) + (sign + core) + Repeat(SPACE, b)));
            && r.0 == (sign == ['-' as nat])
            && (r.1 == core + Repeat(SPACE, b) || (core == [] && r.1 == []))
  {
    hide SkipSpaces;
    var tail := Repeat(SPACE, b);
    var s := Repeat(SPACE, a) + (sign + core) + tail;
    if sign == ['-' as nat] || sign == ['+' as nat] {
      SkipsSpaces(a, sign + core + tail);
      assert s == Repeat(SPACE, a) + (sign + core + tail);
    } else {
      var n := a + |sign|;
      if core == [] {
        SkipsSpaces(n + b, []);
        assert s == Repeat(SPACE, n + b) + [];
      } else {
        SkipsSpaces(n, core + tail);
        assert s == Repeat(SPACE, n) + (core + tail);
      }
    }
  }

  lemma PrefixReads(base: nat, prefix: seq<nat>, d: seq<nat>, tail: seq<nat>)
    requires base in {2, 8, 10, 16} && AllDigits(d, base) && (tail == [] || tail[0] == SPACE) && IsPrefix(prefix, base)
    ensures Read(LeadingDigits(SkipPrefix(prefix + d + tail, base), base), base) == if IsBroken(prefix, base) then 0 else Read(d, base)
  {
    hide Read, LeadingDigits;
    var s := prefix + d + tail;
    if prefix == [] {
      assert s == d + tail;
      assert 2 <= |s| ==> s[1] == SPACE || s[0] == SPACE || s[1] in d;
      DigitsLead(d, base, tail);
    } else if prefix == [ZERO] {
      assert s == ([ZERO] + d) + tail;
      DigitsLead([ZERO] + d, base, tail);
      LeadingZeros(1, d, base);
      assert Repeat(ZERO, 1) == [ZERO];
    } else if |prefix| == 2 {
      assert s[2..] == d + tail;
      DigitsLead(d, base, tail);
    } else {
      assert s == [] + s;
      DigitsLead([], base, s);
      ReadLast([], ZERO, base);
    }
  }

  // ---------------------------------------------------------------------------------------------
  // When a printed number reads back
  // ---------------------------------------------------------------------------------------------

  /** How long the digits are with their padding. */
  function PaddedLength(n: nat, prec: nat, width: nat, f: Flags): nat {
    if f.left then n else Max(n, Min(Max(prec, if f.zeropad then width else 0), NTOA_BUFFER_SIZE))
  }

  /** And without what a prefix has taken the place of. */
  function KeptLength(p: nat, base: nat, prec: nat, width: nat, f: Flags): (k: nat)
    ensures k <= p
  {
    if f.hash && !f.precision && p != 0 && (p == prec || p == width) then if p > 1 && base == 16 then p - 2 else p - 1 else p
  }

  /** The length that the prefix adds. */
  function PrefixLength(base: nat, f: Flags): nat {
    if !f.hash then 0 else if base == 16 || base == 2 then 2 else 1
  }

  /** The buffer holds all digits, the prefix replaces none of them and fits as a whole if at all, and there is
      room for a minus. */
  predicate Faithful(value: nat, negative: bool, base: nat, prec: nat, width: nat, flags: Flags)
    requires 2 <= base
  {
    var f, w := if value == 0 then flags.(hash := false) else flags, Narrowed(negative, width, flags);
    var n := if f.precision && value == 0 then 0 else DigitCount(value, base);
    var p := PaddedLength(n, prec, w, f);
    var k := KeptLength(p, base, prec, w, f);
    && n <= NTOA_BUFFER_SIZE && n <= k
    && !(PrefixLength(base, f) == 2 && k == NTOA_BUFFER_SIZE - 1)
    && (negative ==> k + PrefixLength(base, f) < NTOA_BUFFER_SIZE)
  }

  lemma PaddedIs(b: seq<nat>, prec: nat, width: nat, f: Flags)
    requires |b| <= NTOA_BUFFER_SIZE
    ensures var p := Padded(b, prec, width, f);
            && |b| <= |p| == PaddedLength(|b|, prec, width, f) && p == b + Repeat(ZERO, |p| - |b|)
  {
  }

  /** What HASH puts in front of `k` digits. */
  function Prefix(k: nat, base: nat, f: Flags): seq<nat> {
    var mark := if base == 2 then 'b' as nat else if f.uppercase then 'X' as nat else 'x' as nat;
    if !f.hash || k >= NTOA_BUFFER_SIZE then []
    else if base == 16 || base == 2 then if k == NTOA_BUFFER_SIZE - 1 then [mark] else [ZERO, mark]
    else [ZERO]
  }

  lemma HashedIs(b: seq<nat>, base: nat, prec: nat, width: nat, f: Flags)
    requires |b| <= NTOA_BUFFER_SIZE
    ensures var k := KeptLength(|b|, base, prec, width, f);
            && Hashed(b, base, prec, width, f) == b[..k] + Reversed(Prefix(k, base, f))
            && (k + PrefixLength(base, f) < NTOA_BUFFER_SIZE <==> |Hashed(b, base, prec, width, f)| < NTOA_BUFFER_SIZE)
  {
  }

  lemma CoreIs(b: seq<nat>, negative: bool, base: nat, prec: nat, width: nat, f: Flags)
    requires |b| <= NTOA_BUFFER_SIZE
    ensures var k := KeptLength(|b|, base, prec, width, f);
            var sign := if k + PrefixLength(base, f) < NTOA_BUFFER_SIZE then Sign(negative, f) else [];
            Reversed(WithSign(Hashed(b, base, prec, width, f), negative, f)) == sign + Prefix(k, base, f) + Reversed(b[..k])
  {
    hide Hashed, Prefix, KeptLength, PrefixLength;
    HashedIs(b, base, prec, width, f);
  }

  /** The digits that are put out of `d`: what is left of them, and filling zeros. */
  function KeptOf(d: seq<nat>, base: nat, prec: nat, width: nat, f: Flags): (s: seq<nat>)
    requires |d| <= NTOA_BUFFER_SIZE
  {
    PaddedIs(d, prec, width, f);
    var p := PaddedLength(|d|, prec, width, f);
    Reversed((d + Repeat(ZERO, p - |d|))[..KeptLength(p, base, prec, width, f)])
  }

  function Kept(value: nat, base: nat, prec: nat, width: nat, f: Flags): (s: seq<nat>)
    requires 2 <= base
  {
    KeptOf(if f.precision && value == 0 then [] else LowDigits(value, base, f.uppercase, NTOA_BUFFER_SIZE), base, prec, width, f)
  }

  /** Sign, prefix and digits in their field. */
  function Shape(kept: seq<nat>, negative: bool, base: nat, width: nat, f: Flags): seq<nat> {
    var sign := if |kept| + PrefixLength(base, f) < NTOA_BUFFER_SIZE then Sign(negative, f) else [];
    var core := sign + Prefix(|kept|, base, f) + kept;
    Repeat(SPACE, if !f.left && !f.zeropad then width - |core| else 0) + core + Repeat(SPACE, if f.left then width - |core| else 0)
  }

  /** What padding, prefix, sign and justification make of any number. */
  lemma NumberShape(value: nat, negative: bool, base: nat, prec: nat, width: nat, flags: Flags)
    requires 2 <= base
    ensures var f, w := if value == 0 then flags.(hash := false) else flags, Narrowed(negative, width, flags);
            NumberText(value, negative, base, prec, width, flags) == Shape(Kept(value, base, prec, w, f), negative, base, w, f)
  {
    hide LowDigits, Formatted, KeptOf, Shape;
    var f := if value == 0 then flags.(hash := false) else flags;
    FormattedShape(if f.precision && value == 0 then [] else LowDigits(value, base, f.uppercase, NTOA_BUFFER_SIZE), negative, base, prec, width, f);
  }

  lemma FormattedShape(d: seq<nat>, negative: bool, base: nat, prec: nat, width: nat, f: Flags)
    requires |d| <= NTOA_BUFFER_SIZE
    ensures var w := Narrowed(negative, width, f);
            Formatted(d, negative, base, prec, width, f) == Shape(KeptOf(d, base, prec, w, f), negative, base, w, f)
  {
    hide Narrowed, Hashed, Padded, PaddedLength, KeptLength, PrefixLength, Prefix, Sign, WithSign, Repeat, Reversed;
    var w := Narrowed(negative, width, f);
    PaddedIs(d, prec, w, f);
    CoreIs(Padded(d, prec, w, f), negative, base, prec, w, f);
  }

  /** What is left of the digits denotes the number exactly when none of them is missing. */
  lemma KeptReads(value: nat, base: nat, uppercase: bool, zeros: nat, k: nat)
    requires base in {2, 8, 10, 16} && 0 < value
    requires var d := LowDigits(value, base, uppercase, NTOA_BUFFER_SIZE); k <= |d| + zeros <= NTOA_BUFFER_SIZE
    ensures var d := LowDigits(value, base, uppercase, NTOA_BUFFER_SIZE);
            && AllDigits(Reversed((d + Repeat(ZERO, zeros))[..k]), base)
            && (Read(Reversed((d + Repeat(ZERO, zeros))[..k]), base) == value <==> DigitCount(value, base) <= NTOA_BUFFER_SIZE && DigitCount(value, base) <= k)
  {
    hide LowDigits, Read, DigitCount, Power;
    var n, d := NTOA_BUFFER_SIZE, LowDigits(value, base, uppercase, NTOA_BUFFER_SIZE);
    var kept := Reversed((d + Repeat(ZERO, zeros))[..k]);
    LowDigitsAreDigits(value, base, uppercase, n);
    LowDigitsCount(value, base, uppercase, n);
    KeptDigits(d, base, zeros, k);
    if DigitCount(value, base) <= n && DigitCount(value, base) <= k {
      DigitCountIs(value, base, n);
      LowDigitsRead(value, base, uppercase, n);
      LeadingZeros(k - |d|, Reversed(d), base);
      assert kept == Repeat(ZERO, k - |d|) + Reversed(d);
    } else {
      ReadIsBelow(kept, base);
      TooLong(value, base, k);
    }
  }

  lemma TooLong(value: nat, base: nat, k: nat)
    requires 2 <= base && 0 < value && k < DigitCount(value, base)
    ensures Power(base, k) <= value
  {
    if k != 0 {
      DigitCountIs(value, base, k);
    }
  }

  lemma KeptDigits(d: seq<nat>, base: nat, zeros: nat, k: nat)
    requires AllDigits(d, base) && k <= |d| + zeros && 0 < base
    ensures AllDigits(Reversed((d + Repeat(ZERO, zeros))[..k]), base)
  {
  }

  /** What _ntoa_long puts out reads back as the number exactly when no digit, no part of the prefix and no
      minus is missing. */
  lemma PrintedNumberReads(value: nat, negative: bool, base: nat, prec: nat, width: nat, flags: Flags)
    requires base in {2, 8, 10, 16}
    ensures ReadNumber(NumberText(value, negative, base, prec, width, flags), base) == (negative, value) <==>
              Faithful(value, negative, base, prec, width, flags)
  {
    hide NumberText, ReadNumber, Read, Narrowed, PaddedLength, KeptLength, DigitCount, AllDigits, PrefixLength, Kept;
    var f, w := if value == 0 then flags.(hash := false) else flags, Narrowed(negative, width, flags);
    KeptIs(value, base, prec, w, f);
    PrintedReads(value, negative, base, prec, width, flags);
    PrefixIs(0, base, f);
  }

  lemma PrintedReads(value: nat, negative: bool, base: nat, prec: nat, width: nat, flags: Flags)
    requires base in {2, 8, 10, 16}
    ensures var f, w := if value == 0 then flags.(hash := false) else flags, Narrowed(negative, width, flags);
            var kept := Kept(value, base, prec, w, f);
            ReadNumber(NumberText(value, negative, base, prec, width, flags), base) ==
              (negative && |kept| + PrefixLength(base, f) < NTOA_BUFFER_SIZE,
               if PrefixLength(base, f) == 2 && |kept| == NTOA_BUFFER_SIZE - 1 then 0 else Read(kept, base))
  {
    hide NumberText, ReadNumber, Read, Narrowed, PaddedLength, KeptLength, DigitCount, AllDigits, Prefix, PrefixLength, Sign, IsPrefix, IsBroken, Kept, Repeat;
    var f, w := if value == 0 then flags.(hash := false) else flags, Narrowed(negative, width, flags);
    var kept := Kept(value, base, prec, w, f);
    var sign := if |kept| + PrefixLength(base, f) < NTOA_BUFFER_SIZE then Sign(negative, f) else [];
    var prefix := Prefix(|kept|, base, f);
    var fill := w - |sign + prefix + kept|;
    NumberShape(value, negative, base, prec, width, flags);
    SignIs(negative, f);
    PrefixIs(|kept|, base, f);
    KeptIs(value, base, prec, w, f);
    SameRepeat(if !f.left && !f.zeropad then fill else 0);
    SameRepeat(if f.left then fill else 0);
    CoreReads(base, Max(0, if !f.left && !f.zeropad then fill else 0), sign, prefix, kept, Max(0, if f.left then fill else 0));
  }

  lemma KeptIs(value: nat, base: nat, prec: nat, width: nat, f: Flags)
    requires base in {2, 8, 10, 16} && (value == 0 ==> !f.hash)
    ensures var kept, n := Kept(value, base, prec, width, f), if f.precision && value == 0 then 0 else DigitCount(value, base);
            && AllDigits(kept, base)
            && |kept| == KeptLength(PaddedLength(Min(n, NTOA_BUFFER_SIZE), prec, width, f), base, prec, width, f)
            && (Read(kept, base) == value <==> n <= NTOA_BUFFER_SIZE && n <= |kept|)
  {
    hide LowDigits, Read, PaddedLength, KeptLength, Reversed, Repeat, DigitCount, AllDigits;
    var d := if f.precision && value == 0 then [] else LowDigits(value, base, f.uppercase, NTOA_BUFFER_SIZE);
    var p := PaddedLength(|d|, prec, width, f);
    LengthsFit(|d|, base, prec, width, f);
    LowDigitsCount(value, base, f.uppercase, NTOA_BUFFER_SIZE);
    if value == 0 {
      ZeroReads(base, f, d, p, p);
    } else {
      KeptReads(value, base, f.uppercase, p - |d|, KeptLength(p, base, prec, width, f));
    }
  }

  lemma SameRepeat(n: int)
    ensures Repeat(SPACE, Max(0, n)) == Repeat(SPACE, n)
  {
  }

  lemma SignIs(negative: bool, f: Flags)
    ensures Sign(negative, f) in {[], ['-' as nat], ['+' as nat], [SPACE]} && (Sign(negative, f) == ['-' as nat] <==> negative)
  {
  }

  lemma PrefixIs(k: nat, base: nat, f: Flags)
    requires base in {2, 8, 10, 16}
    ensures var p := Prefix(k, base, f);
            && IsPrefix(p, base)
            && (IsBroken(p, base) <==> PrefixLength(base, f) == 2 && k == NTOA_BUFFER_SIZE - 1)
    ensures !f.hash ==> PrefixLength(base, f) == 0
  {
  }

  lemma LengthsFit(n: nat, base: nat, prec: nat, width: nat, f: Flags)
    requires n <= NTOA_BUFFER_SIZE
    ensures n <= PaddedLength(n, prec, width, f) <= NTOA_BUFFER_SIZE
    ensures !f.hash ==> KeptLength(PaddedLength(n, prec, width, f), base, prec, width, f) == PaddedLength(n, prec, width, f)
  {
  }

  lemma ZeroReads(base: nat, f: Flags, d: seq<nat>, p: nat, k: nat)
    requires base in {2, 8, 10, 16} && |d| <= p == k
    requires d == if f.precision then [] else LowDigits(0, base, f.uppercase, NTOA_BUFFER_SIZE)
    ensures DigitCount(0, base) == 1 && |d| <= 1
    ensures var kept := Reversed((d + Repeat(ZERO, p - |d|))[..k]); AllDigits(kept, base) && Read(kept, base) == 0
  {
    hide Read;
    var kept := Reversed((d + Repeat(ZERO, p - |d|))[..k]);
    assert kept == Repeat(ZERO, p) + [];
    LeadingZeros(p, [], base);
    NoDigits(base);
  }

  lemma SixtyFourBitsCount(value: nat, base: nat)
    requires value < U64 && 8 <= base
    ensures DigitCount(value, base) <= 22
  {
    hide Power, DigitCount;
    PowerGrows(8, base, 22, 22);
    PowerOfEight();
    PowerSum(8, 11, 11);
    DigitCountIs(value, base, 22);
  }

  /** Without a prefix, and up to 64 bits, there is room for a sign unless zeros fill the whole buffer. */
  lemma SignIsPrinted(value: nat, base: nat, prec: nat, width: nat, f: Flags)
    requires value < U64 && base in {8, 10, 16} && !f.hash
    ensures |Kept(value, base, prec, width, f)| < NTOA_BUFFER_SIZE <==>
              f.left || (prec < NTOA_BUFFER_SIZE && (!f.zeropad || width < NTOA_BUFFER_SIZE))
  {
    hide DigitCount, Read, LowDigits;
    KeptIs(value, base, prec, width, f);
    SixtyFourBitsCount(value, base);
  }

  /** `%#4x` of 0x1234: the prefix takes the place of two digits. */
  lemma HashDropsDigits()
    ensures NumberText(0x1234, false, 16, 0, 4, NO_FLAGS.(hash := true)) == [ZERO, 'x' as nat, '3' as nat, '4' as nat]
    ensures !Faithful(0x1234, false, 16, 0, 4, NO_FLAGS.(hash := true))
  {
  }

  // ---------------------------------------------------------------------------------------------
  // Reading numbers
  // ---------------------------------------------------------------------------------------------

  /** Where the digits that start at `i` end. */
  function DigitsEnd(s: seq<nat>, i: nat): (e: nat)
    requires i <= |s|
    ensures i <= e <= |s| && (forall k :: i <= k < e ==> IsDigit(s[k])) && (e < |s| ==> !IsDigit(s[e]))
    decreases |s| - i
  {
    if i < |s| && IsDigit(s[i]) then DigitsEnd(s, i + 1) else i
  }

  /** _atoi: the number there, modulo 2^32, and the place after it. */
  method Atoi(s: seq<nat>, start: nat) returns (v: nat, i: nat)
    requires start <= |s|
    ensures i == DigitsEnd(s, start) && v == Read(s[start..i], 10) % U32
  {
    hide Read;
    v, i := 0, start;
    ReadLast([], ZERO, 10);
    assert s[start..start] == [];
    while i < |s| && IsDigit(s[i])
      invariant start <= i <= |s| && DigitsEnd(s, i) == DigitsEnd(s, start)
      invariant v == Read(s[start..i], 10) % U32
    {
      ReadNext(s, start, i);
      CutAtEachStep(Read(s[start..i], 10), s[i] - ZERO);
      v := (v * 10 + (s[i] - ZERO)) % U32;
      i := i + 1;
    }
  }

  lemma ReadNext(s: seq<nat>, start: nat, i: nat)
    requires start <= i < |s|
    ensures Read(s[start..i + 1], 10) == Read(s[start..i], 10) * 10 + DigitValue(s[i])
  {
    assert s[start..i + 1] == s[start..i] + [s[i]];
    ReadLast(s[start..i], s[i], 10);
  }

  /** _atoi inverts base 10 below 2^32: a decimal numeral before anything but a digit is read as its value. */
  lemma AtoiInvertsDecimal(s: seq<nat>, i: nat, value: nat)
    requires value < U32
    requires var d := Reversed(LowDigits(value, 10, false, NTOA_BUFFER_SIZE));
             i + |d| <= |s| && s[i..i + |d|] == d && (i + |d| < |s| ==> !IsDigit(s[i + |d|]))
    ensures var e := DigitsEnd(s, i);
            s[i..e] == Reversed(LowDigits(value, 10, false, NTOA_BUFFER_SIZE)) && Read(s[i..e], 10) % U32 == value
  {
    hide LowDigits, Read, DigitsEnd;
    var low := LowDigits(value, 10, false, NTOA_BUFFER_SIZE);
    var d := Reversed(low);
    DecimalDigits(value, NTOA_BUFFER_SIZE);
    forall k | i <= k < i + |d|
      ensures IsDigit(s[k])
    {
      assert s[k] == s[i..i + |d|][k - i] == d[k - i] == low[|low| - 1 - (k - i)];
      assert low[|low| - 1 - (k - i)] in low;
    }
    DigitsEndIs(s, i, i + |d|);
    NumeralReads(value, 10, false, 0);
    assert Repeat(ZERO, 0) + d == d;
  }

  lemma DigitsEndIs(s: seq<nat>, i: nat, e: nat)
    requires i <= e <= |s| && (forall k :: i <= k < e ==> IsDigit(s[k])) && (e < |s| ==> !IsDigit(s[e]))
    ensures DigitsEnd(s, i) == e
  {
  }

  lemma {:induction false} DecimalDigits(value: nat, room: nat)
    requires 0 < room
    ensures forall c :: c in LowDigits(value, 10, false, room) ==> IsDigit(c)
    decreases room
  {
    if value / 10 == 0 || room == 1 {
    } else {
      DecimalDigits(value / 10, room - 1);
    }
  }
}
