/** Bytes, and the strings in them, which end at a NUL. */
module Strings {
  type byte = b: int | 0 <= b < 256

  /** The bytes before the first NUL. */
  function Text(s: seq<byte>): (t: seq<byte>)
    ensures |t| <= |s| && t == s[..|t|] && 0 !in t
    ensures |t| < |s| ==> s[|t|] == 0
  {
    if s == [] || s[0] == 0 then [] else [s[0]] + Text(s[1..])
  }

  lemma {:induction false} TextIs(s: seq<byte>, n: nat)
    requires n <= |s| && (forall i :: 0 <= i < n ==> s[i] != 0) && (n < |s| ==> s[n] == 0)
    ensures Text(s) == s[..n]
  {
    if n > 0 {
      TextIs(s[1..], n - 1);
    }
  }
}
