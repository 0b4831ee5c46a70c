/** The pieces of Python's sequence semantics that the chatbot relies on:
    slicing `s[i:j]` (negative indices count from the end, out-of-range
    indices are clamped), reversal `s[::-1]` and `sep.join(parts)`. */
module PySeq {

  /** Python's normalisation of one slice bound against a sequence of length `n`. */
  function SliceBound(i: int, n: nat): (b: nat)
    ensures b <= n
    ensures 0 <= i <= n ==> b == i
    ensures n < i ==> b == n
    ensures -(n as int) <= i < 0 ==> b as int == n as int + i
    ensures i < -(n as int) ==> b == 0
  {
    if i < 0 then (if i + n < 0 then 0 else i + n)
    else if i > n then n
    else i
  }

  /** `s[i:j]` */
  function Slice<T>(s: seq<T>, i: int, j: int): (r: seq<T>)
    ensures |r| <= |s|
    ensures 0 <= i <= j ==> |r| <= j - i
    ensures 0 <= i <= |s| && i <= j ==> r == s[i..if j < |s| then j else |s|]
  {
    var lo, hi := SliceBound(i, |s|), SliceBound(j, |s|);
    if lo < hi then s[lo..hi] else []
  }

  /** A slice is a contiguous run of the sliced sequence. */
  lemma SliceIsInfix<T>(s: seq<T>, i: int, j: int)
    ensures IsInfix(Slice(s, i, j), s)
  {
    var lo, hi := SliceBound(i, |s|), SliceBound(j, |s|);
    if lo < hi {
      assert OccursAt(s[lo..hi], s, lo);
    } else {
      assert OccursAt([], s, 0);
    }
  }

  /** `r` occurs as a contiguous run of `s`. */
  ghost predicate IsInfix<T>(r: seq<T>, s: seq<T>) {
    exists lo: nat :: OccursAt(r, s, lo)
  }

  /** `r` occurs in `s` starting at position `lo`. */
  ghost predicate OccursAt<T>(r: seq<T>, s: seq<T>, lo: nat) {
    lo + |r| <= |s| && s[lo..lo + |r|] == r
  }

  lemma InfixTransitive<T>(a: seq<T>, b: seq<T>, c: seq<T>)
    requires IsInfix(a, b) && IsInfix(b, c)
    ensures IsInfix(a, c)
  {
    var i: nat :| OccursAt(a, b, i);
    var j: nat :| OccursAt(b, c, j);
    assert j + i + |a| <= |c|;
    forall t | 0 <= t < |a| ensures c[j + i..j + i + |a|][t] == a[t] {
      assert a[t] == b[i + t] == c[j + i + t];
    }
    assert OccursAt(a, c, j + i);
  }

  /** `s[::-1]` */
  function Reverse<T>(s: seq<T>): (r: seq<T>)
    ensures |r| == |s|
    ensures forall t :: 0 <= t < |s| ==> r[t] == s[|s| - 1 - t]
  {
    if s == [] then [] else Reverse(s[1..]) + [s[0]]
  }

  /** `sep.join(parts)` */
  function Join(sep: string, parts: seq<string>): (r: string)
    ensures parts == [] ==> r == []
    ensures |parts| == 1 ==> r == parts[0]
    ensures 1 <= |parts| ==> |r| == TotalLength(parts) + (|parts| - 1) * |sep|
  {
    if parts == [] then []
    else if |parts| == 1 then parts[0]
    else parts[0] + sep + Join(sep, parts[1..])
  }

  /** The summed lengths of `parts`. */
  function TotalLength(parts: seq<string>): nat {
    if parts == [] then 0 else |parts[0]| + TotalLength(parts[1..])
  }

  /** Every part of a join occurs in it, at the offset its predecessors and
      the separators between them take up. */
  lemma {:induction false} JoinHoldsParts(sep: string, parts: seq<string>, i: nat)
    requires i < |parts|
    ensures OccursAt(parts[i], Join(sep, parts), TotalLength(parts[..i]) + i * |sep|)
  {
    if i > 0 {
      var rest := parts[1..];
      JoinHoldsParts(sep, rest, i - 1);
      assert parts[..i] == [parts[0]] + rest[..i - 1];
      assert TotalLength(parts[..i]) == |parts[0]| + TotalLength(rest[..i - 1]);
      assert i * |sep| == (i - 1) * |sep| + |sep|;
    } else if |parts| > 1 {
      assert Join(sep, parts)[..|parts[0]|] == parts[0];
    }
  }
}
