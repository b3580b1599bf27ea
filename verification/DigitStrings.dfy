// Numerals: strings of digits, most significant first.
module DigitStrings {

  const ZERO: nat := '0' as nat

  predicate IsDigit(c: nat) {
    ZERO <= c <= '9' as nat
  }

  function DigitValue(c: nat): nat {
    if IsDigit(c) then c - ZERO
    else if 'a' as nat <= c <= 'f' as nat then c - 'a' as nat + 10
    else if 'A' as nat <= c <= 'F' as nat then c - 'A' as nat + 10
    else 0
  }

  /** The number that a numeral denotes. */
  function Read(s: seq<nat>, base: nat): nat {
    if s == [] then 0 else Read(s[..|s| - 1], base) * base + DigitValue(s[|s| - 1])
  }

  lemma ReadLast(s: seq<nat>, c: nat, base: nat)
    ensures Read(s + [c], base) == Read(s, base) * base + DigitValue(c) && Read([], base) == 0
  {
    assert (s + [c])[..|s|] == s;
  }
}
