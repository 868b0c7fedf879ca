/** Byte strings, the value type of every Go `string` in the model.

    Go strings are immutable byte sequences: indexing yields a byte and
    `len` counts bytes. A byte is modelled as a `char` below 0x100 so that
    ASCII string literals can be written directly.
 */
module Bytes {

  type Byte = c: char | c as int < 0x100 witness '\0'

  type Bytes = seq<Byte>

  /** Go's `strings.HasPrefix`. */
  predicate HasPrefix(s: Bytes, prefix: Bytes) {
    |prefix| <= |s| && s[..|prefix|] == prefix
  }

  /** Index of the first occurrence of `c` in `s`, or `|s|` when there is none. */
  function IndexOf(s: Bytes, c: Byte): (i: nat)
    ensures i <= |s|
    ensures i < |s| ==> s[i] == c
    ensures forall j :: 0 <= j < i ==> s[j] != c
  {
    if |s| == 0 then 0
    else if s[0] == c then 0
    else 1 + IndexOf(s[1..], c)
  }

  /** Number of occurrences of `c` in `s`. */
  function Count(s: Bytes, c: Byte): nat
  {
    if |s| == 0 then 0
    else (if s[0] == c then 1 else 0) + Count(s[1..], c)
  }

  /** A suffix holds no more occurrences than the whole. */
  lemma {:induction false} CountSuffix(s: Bytes, k: nat, c: Byte)
    requires k <= |s|
    ensures Count(s[k..], c) <= Count(s, c)
  {
    if k > 0 {
      assert s[k..] == s[1..][k - 1..];
      CountSuffix(s[1..], k - 1, c);
    }
  }

  /** The first `c` in `a + [c] + b` is the one after `a` when `a` holds none. */
  lemma {:induction false} IndexOfAfter(a: Bytes, c: Byte, b: Bytes)
    requires c !in a
    ensures IndexOf(a + [c] + b, c) == |a|
  {
    if |a| > 0 {
      assert (a + [c] + b)[1..] == a[1..] + [c] + b;
      IndexOfAfter(a[1..], c, b);
    }
  }
}
