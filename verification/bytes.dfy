/**
 * Byte strings. Both `std::vector<unsigned char>` and `std::string` are
 * sequences of 8-bit units in the C++ program, so both are `bytes` here.
 * `Find` and `FindSeq` stand for `std::find` and `std::string::find`, with
 * `None` playing the part of `end()` / `npos`.
 */
module Bytes {

  type byte = b: int | 0 <= b < 256
  type bytes = seq<byte>

  const SP: byte := 0x20   // ' '
  const LF: byte := 0x0A   // '\n'
  const NUL: byte := 0x00  // '\0'

  datatype Option<T> = None | Some(value: T)

  /** The bytes of a literal whose characters are all below 256. */
  function Ascii(s: string): (r: bytes)
    requires forall i | 0 <= i < |s| :: s[i] as int < 256
    ensures |r| == |s|
    ensures forall i | 0 <= i < |s| :: r[i] == s[i] as int
  {
    seq(|s|, i requires 0 <= i < |s| => s[i] as int)
  }

  predicate StartsWith(s: bytes, p: bytes)
  {
    |p| <= |s| && s[..|p|] == p
  }

  /** `std::find(s.begin() + from, s.end(), x)`: the first `x` at or after `from`. */
  function Find(s: bytes, x: byte, from: nat): (r: Option<nat>)
    requires from <= |s|
    ensures r.Some? ==> from <= r.value < |s| && s[r.value] == x
    decreases |s| - from
  {
    if from == |s| then None
    else if s[from] == x then Some(from)
    else Find(s, x, from + 1)
  }

  /** `Find` returns the first occurrence, and `None` only when there is none. */
  lemma {:induction false} FindFirstOccurrence(s: bytes, x: byte, from: nat)
    requires from <= |s|
    ensures var r := Find(s, x, from);
            && (r.Some? ==> forall k | from <= k < r.value :: s[k] != x)
            && (r.None? ==> forall k | from <= k < |s| :: s[k] != x)
    decreases |s| - from
  {
    if from < |s| && s[from] != x {
      FindFirstOccurrence(s, x, from + 1);
    }
  }

  /** `Find` returns `i` when `x` is at `i` and not between `from` and `i`. */
  lemma {:induction false} FindFirst(s: bytes, x: byte, from: nat, i: nat)
    requires from <= i < |s| && s[i] == x
    requires forall k | from <= k < i :: s[k] != x
    ensures Find(s, x, from) == Some(i)
    decreases i - from
  {
    if from < i {
      FindFirst(s, x, from + 1, i);
    }
  }

  /** `Find` from `from` stops just past `piece` when `piece` holds no `x` and `x` follows it. */
  lemma FindAfter(s: bytes, x: byte, from: nat, piece: bytes)
    requires from + |piece| < |s| && s[from..from + |piece|] == piece && s[from + |piece|] == x
    requires forall i | 0 <= i < |piece| :: piece[i] != x
    ensures Find(s, x, from) == Some(from + |piece|)
  {
    forall k | from <= k < from + |piece|
      ensures s[k] != x
    {
      assert s[k] == piece[k - from];
    }
    FindFirst(s, x, from, from + |piece|);
  }

  /** `pat` occurs in `s` starting at index `i`. */
  predicate OccursAt<T(==)>(s: seq<T>, pat: seq<T>, i: nat)
  {
    i + |pat| <= |s| && s[i..i + |pat|] == pat
  }

  /** `s.find(pat, from)`: the first occurrence of `pat` starting at or after `from`. */
  function FindSeq<T(==)>(s: seq<T>, pat: seq<T>, from: nat): (r: Option<nat>)
    ensures r.Some? ==> from <= r.value && OccursAt(s, pat, r.value)
    decreases |s| - from
  {
    if from + |pat| > |s| then None
    else if s[from..from + |pat|] == pat then Some(from)
    else FindSeq(s, pat, from + 1)
  }

  /** `FindSeq` returns the first occurrence, and `None` only when there is none. */
  lemma {:induction false} FindSeqFirst<T>(s: seq<T>, pat: seq<T>, from: nat)
    ensures var r := FindSeq(s, pat, from);
            && (r.Some? ==> forall k: nat | from <= k < r.value :: !OccursAt(s, pat, k))
            && (r.None? ==> forall k: nat | from <= k :: !OccursAt(s, pat, k))
    decreases |s| - from
  {
    if from + |pat| <= |s| && s[from..from + |pat|] != pat {
      FindSeqFirst(s, pat, from + 1);
    }
  }

  /** Regrouping a concatenation, for proofs that build output piece by piece. */
  lemma Assoc<T>(a: seq<T>, b: seq<T>, c: seq<T>)
    ensures a + b + c == a + (b + c)
  {
  }

  lemma Regroup<T>(a: seq<T>, b: seq<T>, c: seq<T>, d: seq<T>)
    ensures a + (b + c + d) == a + b + c + d
  {
  }
}
