/**
  What several modules use: optional values, C strings and blanks.
 */
module Common {

  datatype Option<+T> = None | Some(value: T)

  const NUL := '\0'

  /** A C string read at an index; behind its end there is a null. */
  function At(s: string, i: nat): char { if i < |s| then s[i] else NUL }

  function Blanks(n: nat): (r: string)
    ensures |r| == n
    ensures forall i | 0 <= i < n :: r[i] == ' '
  {
    seq(n, _ => ' ')
  }

  lemma TailPush<T>(s: seq<T>, x: T, b: nat)
    requires b <= |s|
    ensures (s + [x])[b..] == s[b..] + [x]
  {
  }

  lemma PushLast<T>(s: seq<T>, x: T)
    ensures (s + [x])[|s|] == x && (s + [x])[..|s|] == s
  {
  }

  /** Part of a prefix of an array is that part of the array. */
  lemma SliceOfPrefix<T>(a: array<T>, e: nat, i: nat, j: nat)
    requires i <= j <= e <= a.Length
    ensures a[..e][i..j] == a[i..j]
  {
    assert forall k | 0 <= k < j - i :: a[..e][i..j][k] == a[i + k] == a[i..j][k];
  }
}
