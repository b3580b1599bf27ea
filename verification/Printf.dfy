/** The format-string machine of printf, in the build without floating point and long long
    (src/stdlib/printf.c:135-140, 196-203, 585-865). */
module Printf {
  import opened Arithmetic
  import opened DigitStrings
  import opened Bytes
  import opened Numerals

  type Long = w: nat | w < U64
  type Char = c: nat | 0 < c < 0x100 witness 1

  /** A variable argument: a machine word, or a pointer to the characters of a string before its NUL. */
  datatype Arg = Word(w: Long) | Str(s: seq<Char>)

  /** The character at `i`; the format ends with a NUL. */
  function At(fmt: seq<nat>, i: nat): nat {
    if i < |fmt| then fmt[i] else 0
  }

  /** A word read as a signed number of `size` values. */
  function Signed(w: nat, size: nat): int
    requires 0 < size
  {
    if w % size < size / 2 then w % size else w % size - size
  }

  function Magnitude(v: int): nat {
    if v > 0 then v else -v
  }

  // ---------------------------------------------------------------------------------------------
  // One directive
  // ---------------------------------------------------------------------------------------------

  /** A directive as far as it is read: `i` is the next character, `a` the next argument. */
  datatype Directive = Directive(f: Flags, width: nat, prec: nat, i: nat, a: nat)

  predicate IsFlag(c: nat) {
    c == '0' as nat || c == '-' as nat || c == '+' as nat || c == ' ' as nat || c == '#' as nat
  }

  function SetFlag(f: Flags, c: nat): Flags {
    if c == '0' as nat then f.(zeropad := true)
    else if c == '-' as nat then f.(left := true)
    else if c == '+' as nat then f.(plus := true)
    else if c == ' ' as nat then f.(space := true)
    else f.(hash := true)
  }

  function FlagsField(fmt: seq<nat>, i: nat, f: Flags): (r: (Flags, nat))
    requires i <= |fmt|
    ensures i <= r.1 <= |fmt|
    decreases |fmt| - i
  {
    if i < |fmt| && IsFlag(fmt[i]) then FlagsField(fmt, i + 1, SetFlag(f, fmt[i])) else (f, i)
  }

  /** The number at `i`, and the place after it. */
  function NumberAt(fmt: seq<nat>, i: nat): (r: (nat, nat))
    requires i <= |fmt|
    ensures i <= r.1 <= |fmt|
  {
    (Read(fmt[i..DigitsEnd(fmt, i)], 10) % U32, DigitsEnd(fmt, i))
  }

  predicate HasWord(args: seq<Arg>, a: nat) {
    a < |args| && args[a].Word?
  }

  /** The width: digits, or an argument whose sign means justification. */
  function WidthField(fmt: seq<nat>, args: seq<Arg>, d: Directive): (r: Option<Directive>)
    requires d.i <= |fmt|
    ensures r.Some? ==> d.i <= r.value.i <= |fmt|
  {
    if IsDigit(At(fmt, d.i)) then
      Some(d.(width := NumberAt(fmt, d.i).0, i := NumberAt(fmt, d.i).1))
    else if At(fmt, d.i) == '*' as nat then
      if HasWord(args, d.a) then
        var w := Signed(args[d.a].w, U32);
        Some(d.(f := if w < 0 then d.f.(left := true) else d.f, width := Magnitude(w), i := d.i + 1, a := d.a + 1))
      else None
    else Some(d)
  }

  function PrecisionField(fmt: seq<nat>, args: seq<Arg>, d: Directive): (r: Option<Directive>)
    requires d.i <= |fmt|
    ensures r.Some? ==> d.i <= r.value.i <= |fmt|
  {
    if At(fmt, d.i) != '.' as nat then Some(d)
    else
      var e := d.(f := d.f.(precision := true), i := d.i + 1);
      if IsDigit(At(fmt, e.i)) then
        Some(e.(prec := NumberAt(fmt, e.i).0, i := NumberAt(fmt, e.i).1))
      else if At(fmt, e.i) == '*' as nat then
        if HasWord(args, e.a) then
          var p := Signed(args[e.a].w, U32);
          Some(e.(prec := if p > 0 then p else 0, i := e.i + 1, a := e.a + 1))
        else None
      else Some(e)
  }

  /** The length modifiers; ptrdiff_t, intmax_t and size_t are as long as long. */
  function LengthField(fmt: seq<nat>, d: Directive): (r: Directive)
    requires d.i <= |fmt|
    ensures d.i <= r.i <= |fmt|
  {
    var c := At(fmt, d.i);
    if c == 'l' as nat then
      if At(fmt, d.i + 1) == 'l' as nat then d.(f := d.f.(isLong := true, isLongLong := true), i := d.i + 2)
      else d.(f := d.f.(isLong := true), i := d.i + 1)
    else if c == 'h' as nat then
      if At(fmt, d.i + 1) == 'h' as nat then d.(f := d.f.(isShort := true, isChar := true), i := d.i + 2)
      else d.(f := d.f.(isShort := true), i := d.i + 1)
    else if c == 't' as nat || c == 'j' as nat || c == 'z' as nat then
      d.(f := d.f.(isLong := true), i := d.i + 1)
    else d
  }

  /** A directive up to its specifier: what follows a '%'.  None when an argument is missing. */
  function Parse(fmt: seq<nat>, args: seq<Arg>, i: nat, a: nat): (r: Option<Directive>)
    requires i <= |fmt|
    ensures r.Some? ==> i <= r.value.i <= |fmt|
  {
    var (f, j) := FlagsField(fmt, i, NO_FLAGS);
    var w := WidthField(fmt, args, Directive(f, 0, 0, j, a));
    if w.None? then None
    else
      var p := PrecisionField(fmt, args, w.value);
      if p.None? then None else Some(LengthField(fmt, p.value))
  }

  // ---------------------------------------------------------------------------------------------
  // Conversions
  // ---------------------------------------------------------------------------------------------

  predicate IsInteger(c: nat) {
    c == 'd' as nat || c == 'i' as nat || c == 'u' as nat || c == 'x' as nat || c == 'X' as nat || c == 'o' as nat || c == 'b' as nat
  }

  predicate IsSigned(c: nat) {
    c == 'd' as nat || c == 'i' as nat
  }

  function BaseOf(c: nat): (b: nat)
    ensures 2 <= b <= 16
  {
    if c == 'x' as nat || c == 'X' as nat then 16 else if c == 'o' as nat then 8 else if c == 'b' as nat then 2 else 10
  }

  function IntegerFlags(f: Flags, c: nat): Flags {
    var g := if BaseOf(c) == 10 then f.(hash := false) else f;
    var h := if c == 'X' as nat then g.(uppercase := true) else g;
    var k := if IsSigned(c) then h else h.(plus := false, space := false);
    if f.precision then k.(zeropad := false) else k
  }

  /** The value of an integer argument after its length modifiers. */
  function IntegerValue(w: nat, f: Flags, signed: bool): int {
    var size := if f.isLong then U64 else if f.isChar then 0x100 else if f.isShort then 0x1_0000 else U32;
    if signed then Signed(w, size) else w % size
  }

  /** The characters of a string, at most as many as a precision allows. */
  function StringPart(s: seq<nat>, prec: nat, f: Flags): seq<nat> {
    if f.precision && prec < |s| then s[..prec] else s
  }

  function Justified(s: seq<nat>, width: nat, f: Flags): seq<nat> {
    Repeat(SPACE, if f.left then 0 else width - |s|) + s + Repeat(SPACE, if f.left then width - |s| else 0)
  }

  /** What the specifier `c` puts out, and how many arguments it takes.  Long long is compiled out: it takes
      nothing and puts out nothing. */
  function Convert(c: nat, d: Directive, args: seq<Arg>): (r: Option<(seq<nat>, nat)>)
    ensures r.Some? ==> r.value.1 <= 1
  {
    if IsInteger(c) && d.f.isLongLong then Some(([], 0))
    else if IsInteger(c) then
      if HasWord(args, d.a) then
        var v := IntegerValue(args[d.a].w, d.f, IsSigned(c));
        Some((NumberText(Magnitude(v), v < 0, BaseOf(c), d.prec, d.width, IntegerFlags(d.f, c)), 1))
      else None
    else if c == 'c' as nat then
      if HasWord(args, d.a) then Some((Justified([args[d.a].w % 0x100], d.width, d.f), 1)) else None
    else if c == 's' as nat then
      if d.a < |args| && args[d.a].Str? then Some((Justified(StringPart(args[d.a].s, d.prec, d.f), d.width, d.f), 1)) else None
    else if c == 'p' as nat then
      if HasWord(args, d.a) then
        Some((NumberText(args[d.a].w, false, 16, d.prec, 16, d.f.(zeropad := true, uppercase := true)), 1))
      else None
    else Some(([c], 0))
  }

  /** The whole unbounded output from place `i` and argument `a` on.  None when the format ends inside a
      directive or an argument is missing or of the wrong kind, where the C code has no defined behaviour. */
  function Expand(fmt: seq<nat>, args: seq<Arg>, i: nat, a: nat): Option<seq<nat>>
    requires i <= |fmt|
    decreases |fmt| - i
  {
    if i == |fmt| then Some([])
    else if fmt[i] != '%' as nat then Before([fmt[i]], Expand(fmt, args, i + 1, a))
    else
      var d := Parse(fmt, args, i + 1, a);
      if d.None? || d.value.i == |fmt| then None
      else
        var r := Convert(fmt[d.value.i], d.value, args);
        if r.None? then None else Before(r.value.0, Expand(fmt, args, d.value.i + 1, d.value.a + r.value.1))
  }

  /** An integer conversion reads back as the argument exactly when _ntoa_long puts it out in full. */
  lemma IntegerReads(c: nat, d: Directive, args: seq<Arg>)
    requires IsInteger(c) && !d.f.isLongLong && HasWord(args, d.a)
    ensures var r, v := Convert(c, d, args), IntegerValue(args[d.a].w, d.f, IsSigned(c));
            && r.Some? && r.value.1 == 1
            && (ReadNumber(r.value.0, BaseOf(c)) == (v < 0, Magnitude(v)) <==>
                  Faithful(Magnitude(v), v < 0, BaseOf(c), d.prec, d.width, IntegerFlags(d.f, c)))
  {
    hide NumberText, ReadNumber, Faithful, Read;
    var v := IntegerValue(args[d.a].w, d.f, IsSigned(c));
    PrintedNumberReads(Magnitude(v), v < 0, BaseOf(c), d.prec, d.width, IntegerFlags(d.f, c));
  }

  /** `%ld`, `%lu`, `%lx` and `%lo` put out every 64-bit value so that it reads back. */
  lemma LongReads(c: nat, w: Long)
    requires c in {'d' as nat, 'i' as nat, 'u' as nat, 'x' as nat, 'X' as nat, 'o' as nat}
    ensures var r := Expand(['%' as nat, 'l' as nat, c], [Word(w)], 0, 0);
            r.Some? && ReadNumber(r.value, BaseOf(c)) == if IsSigned(c) then (Signed(w, U64) < 0, Magnitude(Signed(w, U64))) else (false, w)
  {
    hide NumberText, ReadNumber, Faithful, Read;
    var fmt: seq<nat>, args := ['%' as nat, 'l' as nat, c], [Word(w)];
    var d := Directive(NO_FLAGS.(isLong := true), 0, 0, 2, 0);
    assert Parse(fmt, args, 1, 0) == Some(d);
    var r := Convert(c, d, args);
    IntegerReads(c, d, args);
    LongIsFaithful(Magnitude(IntegerValue(w, d.f, IsSigned(c))), IntegerValue(w, d.f, IsSigned(c)) < 0, BaseOf(c), IntegerFlags(d.f, c));
    assert Expand(fmt, args, 3, 1) == Some([]);
    assert r.value.0 + [] == r.value.0;
  }

  lemma LongIsFaithful(value: nat, negative: bool, base: nat, f: Flags)
    requires value < U64 && base in {8, 10, 16} && !f.hash && !f.precision && !f.left && !f.zeropad
    ensures Faithful(value, negative, base, 0, 0, f)
  {
    hide DigitCount, Narrowed, PaddedLength, KeptLength, PrefixLength;
    SixtyFourBitsCount(value, base);
    assert f.(hash := false) == f;
    NothingAdded(DigitCount(value, base), negative, base, f);
  }

  lemma NothingAdded(n: nat, negative: bool, base: nat, f: Flags)
    requires !f.hash && !f.left && !f.zeropad
    ensures Narrowed(negative, 0, f) == 0 && PaddedLength(n, 0, 0, f) == n
    ensures KeptLength(n, base, 0, 0, f) == n && PrefixLength(base, f) == 0
  {
  }

  function Before(s: seq<nat>, r: Option<seq<nat>>): Option<seq<nat>> {
    if r.None? then None else Some(s + r.value)
  }

  lemma BeforeTwice(s: seq<nat>, t: seq<nat>, r: Option<seq<nat>>)
    ensures Before(s, Before(t, r)) == Before(s + t, r)
  {
    if r.Some? {
      assert s + (t + r.value) == s + t + r.value;
    }
  }

  // ---------------------------------------------------------------------------------------------
  // The machine
  // ---------------------------------------------------------------------------------------------

  method ReadFlags(fmt: seq<nat>, start: nat) returns (f: Flags, i: nat)
    requires start <= |fmt|
    ensures (f, i) == FlagsField(fmt, start, NO_FLAGS) && i <= |fmt|
  {
    f, i := NO_FLAGS, start;
    while i < |fmt| && IsFlag(fmt[i])
      invariant start <= i <= |fmt| && FlagsField(fmt, i, f) == FlagsField(fmt, start, NO_FLAGS)
    {
      f := SetFlag(f, fmt[i]);
      i := i + 1;
    }
  }

  method ReadWidth(fmt: seq<nat>, args: seq<Arg>, d: Directive) returns (r: Option<Directive>)
    requires d.i <= |fmt|
    ensures r == WidthField(fmt, args, d)
  {
    if IsDigit(At(fmt, d.i)) {
      var width, i := Atoi(fmt, d.i);
      return Some(d.(width := width, i := i));
    } else if At(fmt, d.i) == '*' as nat {
      if !HasWord(args, d.a) {
        return None;
      }
      var w := Signed(args[d.a].w, U32);
      if w < 0 {
        return Some(d.(f := d.f.(left := true), width := -w, i := d.i + 1, a := d.a + 1));
      }
      return Some(d.(width := w, i := d.i + 1, a := d.a + 1));
    }
    return Some(d);
  }

  method ReadPrecision(fmt: seq<nat>, args: seq<Arg>, d: Directive) returns (r: Option<Directive>)
    requires d.i <= |fmt|
    ensures r == PrecisionField(fmt, args, d)
  {
    if At(fmt, d.i) != '.' as nat {
      return Some(d);
    }
    var e := d.(f := d.f.(precision := true), i := d.i + 1);
    if IsDigit(At(fmt, e.i)) {
      var prec, i := Atoi(fmt, e.i);
      return Some(e.(prec := prec, i := i));
    } else if At(fmt, e.i) == '*' as nat {
      if !HasWord(args, e.a) {
        return None;
      }
      var p := Signed(args[e.a].w, U32);
      return Some(e.(prec := if p > 0 then p else 0, i := e.i + 1, a := e.a + 1));
    }
    return Some(e);
  }

  method ReadDirective(fmt: seq<nat>, args: seq<Arg>, i: nat, a: nat) returns (r: Option<Directive>)
    requires i <= |fmt|
    ensures r == Parse(fmt, args, i, a)
  {
    hide WidthField, PrecisionField, LengthField, FlagsField;
    var f, j := ReadFlags(fmt, i);
    var w := ReadWidth(fmt, args, Directive(f, 0, 0, j, a));
    if w.None? {
      return None;
    }
    var p := ReadPrecision(fmt, args, w.value);
    if p.None? {
      return None;
    }
    return Some(LengthField(fmt, p.value));
  }

  /** Characters one by one. */
  method OutString(s: seq<nat>, buffer: array<nat>, idx: nat, maxlen: nat, ghost orig: seq<nat>, ghost text: seq<nat>) returns (r: nat)
    requires Holds(buffer, idx, maxlen, orig, text)
    modifies buffer
    ensures Holds(buffer, r, maxlen, orig, text + s)
  {
    hide Filled;
    r := idx;
    assert text + s[..0] == text;
    for k := 0 to |s|
      invariant Holds(buffer, r, maxlen, orig, text + s[..k])
    {
      OutBuffer(s[k], buffer, r, maxlen, orig, text + s[..k]);
      assert text + s[..k] + [s[k]] == text + s[..k + 1];
      r := r + 1;
    }
    assert s[..|s|] == s;
  }

  /** The cases 'c' and 's'. */
  method OutJustified(s: seq<nat>, width: nat, f: Flags, buffer: array<nat>, idx: nat, maxlen: nat, ghost orig: seq<nat>, ghost text: seq<nat>)
    returns (r: nat)
    requires Holds(buffer, idx, maxlen, orig, text)
    modifies buffer
    ensures Holds(buffer, r, maxlen, orig, text + Justified(s, width, f))
  {
    hide Filled;
    r := idx;
    ghost var t := text;
    if !f.left {
      r := OutPadding(SPACE, width - |s|, buffer, r, maxlen, orig, t);
      t := t + Repeat(SPACE, width - |s|);
    }
    r := OutString(s, buffer, r, maxlen, orig, t);
    t := t + s;
    if f.left {
      r := OutPadding(SPACE, width - |s|, buffer, r, maxlen, orig, t);
      t := t + Repeat(SPACE, width - |s|);
    }
    assert text + Justified(s, width, f) == t;
  }

  /** The switch on the specifier. */
  method OutConversion(c: nat, d: Directive, args: seq<Arg>, buffer: array<nat>, idx: nat, maxlen: nat, ghost orig: seq<nat>, ghost text: seq<nat>)
    returns (r: nat, taken: nat)
    requires Holds(buffer, idx, maxlen, orig, text) && Convert(c, d, args).Some?
    modifies buffer
    ensures Holds(buffer, r, maxlen, orig, text + Convert(c, d, args).value.0) && taken == Convert(c, d, args).value.1
  {
    hide Filled, NumberText, Justified;
    r, taken := idx, 1;
    if IsInteger(c) {
      if d.f.isLongLong {
        taken := 0;
        assert text + [] == text;
      } else {
        var v := IntegerValue(args[d.a].w, d.f, IsSigned(c));
        r := NtoaLong(buffer, idx, maxlen, Magnitude(v), v < 0, BaseOf(c), d.prec, d.width, IntegerFlags(d.f, c), orig, text);
      }
    } else if c == 'c' as nat {
      r := OutJustified([args[d.a].w % 0x100], d.width, d.f, buffer, idx, maxlen, orig, text);
    } else if c == 's' as nat {
      r := OutJustified(StringPart(args[d.a].s, d.prec, d.f), d.width, d.f, buffer, idx, maxlen, orig, text);
    } else if c == 'p' as nat {
      r := NtoaLong(buffer, idx, maxlen, args[d.a].w, false, 16, d.prec, 16, d.f.(zeropad := true, uppercase := true), orig, text);
    } else {
      taken := 0;
      OutBuffer(c, buffer, idx, maxlen, orig, text);
      r := idx + 1;
    }
  }

  /** A buffer after snprintf with capacity `n`: the output cut to n - 1 characters, a NUL, and nothing
      else. */
  function Stored(orig: seq<nat>, text: seq<nat>, n: nat): (b: seq<nat>)
    ensures |b| == |orig|
  {
    var k := Min(|text|, n - 1);
    seq(|orig|, i requires 0 <= i < |orig| => if i < k then text[i] else if i == k && 0 < n then 0 else orig[i])
  }

  /** _vsnprintf into a buffer: the count is the length of the unbounded output, cast to an int, whatever the
      capacity. */
  method VSnprintf(buffer: array<nat>, maxlen: nat, fmt: seq<nat>, args: seq<Arg>) returns (count: int)
    requires maxlen <= buffer.Length && Expand(fmt, args, 0, 0).Some?
    modifies buffer
    ensures count == Signed(|Expand(fmt, args, 0, 0).value|, U32)
    ensures buffer[..] == Stored(old(buffer[..]), Expand(fmt, args, 0, 0).value, maxlen)
  {
    hide Filled, Convert, Parse, Expand;
    ghost var orig, whole, text := buffer[..], Expand(fmt, args, 0, 0), [];
    var idx: nat := 0;
    StartsEmpty(buffer[..], maxlen);
    BeforeNothing(whole);
    var i: nat, a: nat := 0, 0;
    while i < |fmt|
      invariant i <= |fmt| && Holds(buffer, idx, maxlen, orig, text)
      invariant whole == Before(text, Expand(fmt, args, i, a))
      decreases |fmt| - i
    {
      ExpandStep(fmt, args, i, a);
      ghost var piece;
      if fmt[i] != '%' as nat {
        OutBuffer(fmt[i], buffer, idx, maxlen, orig, text);
        idx := idx + 1;
        piece := [fmt[i]];
        i := i + 1;
      } else {
        var d := ReadDirective(fmt, args, i + 1, a);
        var taken;
        piece := Convert(fmt[d.value.i], d.value, args).value.0;
        idx, taken := OutConversion(fmt[d.value.i], d.value, args, buffer, idx, maxlen, orig, text);
        i, a := d.value.i + 1, d.value.a + taken;
      }
      BeforeTwice(text, piece, Expand(fmt, args, i, a));
      text := text + piece;
    }
    ExpandEnd(fmt, args, a);
    assert text == whole.value;
    Terminated(orig, text, maxlen);
    if maxlen > 0 {
      buffer[if idx < maxlen then idx else maxlen - 1] := 0;
    }
    count := Signed(idx, U32);
  }

  lemma StartsEmpty(b: seq<nat>, n: nat)
    ensures Filled(b, [], n) == b
  {
  }

  lemma BeforeNothing(r: Option<seq<nat>>)
    ensures Before([], r) == r
  {
    assert r.Some? ==> [] + r.value == r.value;
  }

  lemma ExpandStep(fmt: seq<nat>, args: seq<Arg>, i: nat, a: nat)
    requires i < |fmt|
    ensures fmt[i] != '%' as nat ==> Expand(fmt, args, i, a) == Before([fmt[i]], Expand(fmt, args, i + 1, a))
    ensures fmt[i] == '%' as nat && Expand(fmt, args, i, a).Some? ==>
              var d := Parse(fmt, args, i + 1, a);
              && d.Some? && d.value.i < |fmt| && Convert(fmt[d.value.i], d.value, args).Some?
              && Expand(fmt, args, i, a) ==
                 Before(Convert(fmt[d.value.i], d.value, args).value.0,
                        Expand(fmt, args, d.value.i + 1, d.value.a + Convert(fmt[d.value.i], d.value, args).value.1))
  {
    hide Parse, Convert;
  }

  lemma ExpandEnd(fmt: seq<nat>, args: seq<Arg>, a: nat)
    ensures Expand(fmt, args, |fmt|, a) == Some([])
  {
  }

  lemma Terminated(orig: seq<nat>, text: seq<nat>, n: nat)
    requires n <= |orig|
    ensures 0 < n ==> Filled(orig, text, n)[(if |text| < n then |text| else n - 1) := 0] == Stored(orig, text, n)
    ensures n == 0 ==> Filled(orig, text, n) == Stored(orig, text, n)
  {
  }

  // ---------------------------------------------------------------------------------------------
  // Capacities
  // ---------------------------------------------------------------------------------------------

  /** The string in a buffer: up to the first NUL. */
  function CString(b: seq<nat>): (s: seq<nat>)
    ensures s <= b
  {
    if b == [] || b[0] == 0 then [] else [b[0]] + CString(b[1..])
  }

  lemma {:induction false} CStringIs(b: seq<nat>, k: nat)
    requires k < |b| && b[k] == 0 && forall i :: 0 <= i < k ==> b[i] != 0
    ensures CString(b) == b[..k]
  {
    if k == 0 {
    } else {
      CStringIs(b[1..], k - 1);
      assert b[..k] == [b[0]] + b[1..][..k - 1];
    }
  }

  /** Whatever was in the buffers before, the string left by a smaller capacity is a prefix of the one left
      by a larger capacity, and of the unbounded output; nothing is stored beyond the capacity. */
  lemma CapacityOnlyTruncates(orig: seq<nat>, other: seq<nat>, text: seq<nat>, n: nat, m: nat)
    requires 1 <= n <= m && n <= |orig| && m <= |other| && forall i :: 0 <= i < |text| ==> text[i] != 0
    ensures CString(Stored(orig, text, n)) == text[..Min(|text|, n - 1)]
    ensures CString(Stored(orig, text, n)) <= CString(Stored(other, text, m)) <= text
    ensures forall i :: n <= i < |orig| ==> Stored(orig, text, n)[i] == orig[i]
  {
    StoredString(orig, text, n);
    StoredString(other, text, m);
  }

  lemma StoredString(orig: seq<nat>, text: seq<nat>, n: nat)
    requires 1 <= n <= |orig| && forall i :: 0 <= i < |text| ==> text[i] != 0
    ensures CString(Stored(orig, text, n)) == text[..Min(|text|, n - 1)]
  {
    var b, k := Stored(orig, text, n), Min(|text|, n - 1);
    CStringIs(b, k);
    assert b[..k] == text[..k];
  }
}
