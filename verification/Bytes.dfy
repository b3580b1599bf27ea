// Byte strings: the arguments of memcpy, fread and fwrite.
module Bytes {

  datatype Option<+T> = None | Some(value: T)

  type Byte = b: int | 0 <= b < 0x100

  /** The bytes of `base` after a memcpy of `data` to offset `at`. */
  function Splice<T>(base: seq<T>, at: nat, data: seq<T>): (r: seq<T>)
    requires at + |data| <= |base|
    ensures |r| == |base|
    ensures forall i {:trigger r[i]} :: 0 <= i < |r| ==> r[i] == if at <= i < at + |data| then data[i - at] else base[i]
  {
    base[..at] + data + base[at + |data|..]
  }

  /** Two adjacent copies are one copy. */
  lemma SpliceJoin<T>(base: seq<T>, at: nat, a: seq<T>, b: seq<T>)
    requires at + |a| + |b| <= |base|
    ensures Splice(Splice(base, at, a), at + |a|, b) == Splice(base, at, a + b)
  {
  }

  /** A copy that starts with a prefix of itself is the whole copy. */
  lemma SplicePrefix<T>(base: seq<T>, at: nat, data: seq<T>, k: nat)
    requires at + |data| <= |base| && k <= |data|
    ensures Splice(Splice(base, at, data[..k]), at, data) == Splice(base, at, data)
  {
  }

  lemma SpliceNothing<T>(base: seq<T>, at: nat)
    requires at <= |base|
    ensures Splice(base, at, []) == base
  {
  }

  lemma SpliceShows<T>(base: seq<T>, at: nat, data: seq<T>)
    requires at + |data| <= |base|
    ensures Splice(base, at, data)[at..at + |data|] == data
  {
  }
}
