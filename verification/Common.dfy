/** Machine integers, byte moves and status codes shared by the whole model. */
module Common {

  type byte = x: int | 0 <= x < 0x100
  type uint16 = x: int | 0 <= x < 0x1_0000
  type uint32 = x: int | 0 <= x < 0x1_0000_0000

  datatype Option<+T> = None | Some(value: T)

  /** The status codes (`error_t`) returned by the modelled functions. */
  datatype Error =
    | NoError
    | InvalidParameter
    | InvalidHeader
    | InvalidVersion
    | InvalidMessage
    | InvalidLength
    | InvalidType
    | InvalidStatus
    | BufferUnderflow
    | BufferOverflow
    | NotFound
    | EndOfStream
    | OutOfMemory
    | OutOfResources
    | Failure
    | Timeout
    | WouldBlock
    | WrongState
    | WrongChecksum
    | UnexpectedMessage
    | TtlExceeded

  datatype Result<+T> = Ok(value: T) | Err(error: Error)

  function Min(a: int, b: int): int {
    if a < b then a else b
  }

  /** An overlap-safe move of `n` bytes, as `osMemmove`. */
  method Move(dst: array<byte>, d: nat, src: array<byte>, s: nat, n: nat)
    requires d + n <= dst.Length && s + n <= src.Length
    modifies dst
    ensures dst[..] == old(dst[..d]) + old(src[s..s + n]) + old(dst[d + n..])
  {
    forall i | 0 <= i < n {
      dst[d + i] := src[s + i];
    }
  }

  lemma SliceOfSlice<T>(s: seq<T>, i: nat, j: nat, a: nat, b: nat)
    requires i <= j <= |s| && a <= b <= j - i
    ensures s[i..j][a..b] == s[i + a..i + b]
  {
    assert |s[i..j][a..b]| == |s[i + a..i + b]|;
    assert forall k :: 0 <= k < b - a ==> s[i..j][a..b][k] == s[i + a..i + b][k];
  }

  lemma SamePrefix<T>(s: seq<T>, t: seq<T>, n: nat)
    requires n <= |t| <= |s| && s[..|t|] == t
    ensures s[..n] == t[..n]
  {
    assert s[..n] == s[..|t|][..n];
  }

  lemma SuffixOfSuffix<T>(s: seq<T>, i: nat, j: nat)
    requires i <= j <= |s|
    ensures s[i..][j - i..] == s[j..]
  {
  }

  lemma SliceOfPrefix<T>(s: seq<T>, n: nat, a: nat, b: nat)
    requires a <= b <= n <= |s|
    ensures s[..n][a..b] == s[a..b]
  {
    SliceOfSlice(s, 0, n, a, b);
    assert s[0..n] == s[..n];
  }

  lemma SuffixOfSlice<T>(s: seq<T>, i: nat, k: nat, j: nat)
    requires i <= k <= j <= |s|
    ensures s[i..j][k - i..] == s[k..j]
  {
    SliceOfSlice(s, i, j, k - i, j - i);
    assert s[i..j][k - i..j - i] == s[i..j][k - i..];
  }

  lemma ConcatAssoc<T>(a: seq<T>, b: seq<T>, c: seq<T>)
    ensures a + b + c == a + (b + c)
  {
  }

  lemma SliceOfSuffix<T>(s: seq<T>, n: nat, a: nat, b: nat)
    requires n <= |s| && a <= b <= |s| - n
    ensures s[n..][a..b] == s[n + a..n + b]
  {
    SliceOfSlice(s, n, |s|, a, b);
    assert s[n..|s|] == s[n..];
  }

  lemma PrefixOfSuffix<T>(s: seq<T>, i: nat, j: nat)
    requires i <= j <= |s|
    ensures s[i..][..j - i] == s[i..j]
  {
  }

  /** Replacing everything from `k` on, seen from `h`. */
  lemma ReplaceFrom<T>(s: seq<T>, h: nat, k: nat, t: seq<T>)
    requires h <= k <= |s|
    ensures s[..k] + t == s[..h] + (s[h..][..k - h] + t)
  {
    PrefixOfSuffix(s, h, k);
    assert s[..k] == s[..h] + s[h..k];
  }

  /** Two neighbouring stretches of an array. */
  lemma StretchesJoin<T>(a: array<T>, i: nat, j: nat, k: nat)
    requires i <= j <= k <= a.Length
    ensures a[i..j] + a[j..k] == a[i..k]
  {
  }
}
