/** Bytes, and facts about joining, cutting and overwriting sequences of them. */
module Bytes {

  type byte = b: int | 0 <= b < 256

  lemma {:induction false} Regroup<T>(a: seq<T>, b: seq<T>, c: seq<T>)
    ensures a + (b + c) == (a + b) + c
  {
  }

  lemma {:induction false} FiveParts<T>(a: seq<T>, b: seq<T>, c: seq<T>, d: seq<T>)
    ensures a + b + c + d == a + (b + c + d)
  {
  }

  lemma {:induction false} SplitAt<T>(s: seq<T>, k: nat)
    requires k < |s|
    ensures s == s[..k] + ([s[k]] + s[k + 1..]) && s[k..] == [s[k]] + s[k + 1..]
  {
  }

  lemma {:induction false} TakeNext<T>(s: seq<T>, k: nat)
    requires k < |s|
    ensures s[..k + 1] == s[..k] + [s[k]] && s == s[..k + 1] + s[k + 1..]
  {
  }

  lemma {:induction false} TakeAll<T>(s: seq<T>)
    ensures s[..|s|] == s
  {
  }

  lemma {:induction false} SplitSlice<T>(s: seq<T>, i: nat, j: nat, k: nat)
    requires i <= j <= k <= |s|
    ensures s[i..k] == s[i..j] + s[j..k]
  {
  }

  lemma {:induction false} ThreeParts<T>(s: seq<T>, i: nat, j: nat, n: nat)
    requires i <= j <= n <= |s|
    ensures s[..n] == s[..i] + s[i..j] + s[j..n]
  {
  }

  lemma {:induction false} FourParts(s: seq<byte>, i: nat, j: nat, k: nat, n: nat)
    requires i <= j <= k <= n <= |s|
    ensures s[..n] == s[..i] + s[i..j] + (s[j..k] + s[k..n])
  {
  }

  lemma {:induction false} SliceOfTake<T>(s: seq<T>, p: nat, i: nat, j: nat)
    requires i <= j <= p <= |s|
    ensures s[..p][i..j] == s[i..j]
  {
  }

  lemma {:induction false} SliceOfDrop<T>(s: seq<T>, p: nat, i: nat, j: nat)
    requires p <= i <= j <= |s|
    ensures s[p..][i - p..j - p] == s[i..j]
  {
  }

  lemma {:induction false} SliceOfSlice<T>(s: seq<T>, p: nat, q: nat, i: nat, j: nat)
    requires p <= q <= |s| && i <= j <= q - p
    ensures s[p..q][i..j] == s[p + i..p + j]
  {
    var (t, u, v) := (s[p..q], s[p..q][i..j], s[p + i..p + j]);
    assert |u| == |v| && forall k :: 0 <= k < |u| ==> u[k] == t[i + k] == s[p + (i + k)] == v[k];
  }

  lemma {:induction false} SliceInside<T>(pre: seq<T>, e: seq<T>, post: seq<T>, i: nat, j: nat)
    requires i <= j <= |e|
    ensures (pre + e + post)[|pre| + i..|pre| + j] == e[i..j]
  {
  }

  lemma {:induction false} DropPrefix<T>(a: seq<T>, b: seq<T>)
    ensures (a + b)[..|a|] == a && (a + b)[|a|..] == b
  {
  }

  lemma {:induction false} SameTail<T>(a: seq<T>, b: seq<T>, c: seq<T>)
    requires a + b == a + c
    ensures b == c
  {
    assert (a + b)[|a|..] == (a + c)[|a|..];
  }

  lemma {:induction false} SameSlice(a: seq<byte>, i: nat, b: seq<byte>, j: int, n: nat)
    requires i + n <= |a| && 0 <= j && j + n <= |b|
    requires forall x :: i <= x < i + n ==> a[x] == b[x - (i - j)]
    ensures a[i..i + n] == b[j..j + n]
  {
    if n > 0 {
      SameSlice(a, i, b, j, n - 1);
      assert a[i..i + n] == a[i..i + n - 1] + [a[i + n - 1]];
      assert b[j..j + n] == b[j..j + n - 1] + [b[j + n - 1]];
    }
  }

  /** `s` with the bytes from `p` on replaced by `t`. */
  function Overwrite(s: seq<byte>, p: nat, t: seq<byte>): (r: seq<byte>)
    requires p + |t| <= |s|
    ensures |r| == |s|
  {
    s[..p] + t + s[p + |t|..]
  }

  lemma {:induction false} OverwriteOne(s: seq<byte>, p: nat, x: byte)
    requires p < |s|
    ensures Overwrite(s, p, [x]) == s[p := x]
  {
  }

  /** The three parts of an overwritten sequence. */
  lemma {:induction false} OverwriteParts(s: seq<byte>, p: nat, t: seq<byte>)
    requires p + |t| <= |s|
    ensures var r := Overwrite(s, p, t); r[..p] == s[..p] && r[p..p + |t|] == t && r[p + |t|..] == s[p + |t|..]
  {
    var (a, c) := (s[..p], s[p + |t|..]);
    Regroup(a, t, c);
    DropPrefix(a, t + c);
    DropPrefix(a + t, c);
    DropPrefix(a, t);
    SliceOfTake(a + t + c, p + |t|, p, p + |t|);
  }

  lemma {:induction false} OverwriteTwice(s: seq<byte>, p: nat, a: seq<byte>, b: seq<byte>)
    requires p + |a| + |b| <= |s|
    ensures Overwrite(Overwrite(s, p, a), p + |a|, b) == Overwrite(s, p, a + b)
  {
    var r := Overwrite(s, p, a);
    OverwriteParts(s, p, a);
    assert r[..p + |a|] == s[..p] + a;
    SliceOfDrop(r, p + |a|, p + |a| + |b|, |s|);
    SliceOfDrop(s, p + |a|, p + |a| + |b|, |s|);
    Regroup(s[..p], a, b);
  }

  lemma {:induction false} OverwriteInParts(s: seq<byte>, p: nat, a: seq<byte>, b: seq<byte>, c: seq<byte>, d: seq<byte>)
    requires p + |a| + |b| + |c| + |d| <= |s|
    ensures var (q, r, t) := (p + |a|, p + |a| + |b|, p + |a| + |b| + |c|);
      Overwrite(Overwrite(Overwrite(Overwrite(s, p, a), q, b), r, c), t, d) == Overwrite(s, p, a + b + c + d)
  {
    hide Overwrite;
    OverwriteTwice(s, p, a, b);
    OverwriteTwice(s, p, a + b, c);
    OverwriteTwice(s, p, a + b + c, d);
  }

  lemma {:induction false} OverwriteKeeps(s: seq<byte>, p: nat, t: seq<byte>, i: nat, j: nat)
    requires p + |t| <= |s| && i <= j <= |s| && (j <= p || p + |t| <= i)
    ensures Overwrite(s, p, t)[i..j] == s[i..j]
  {
    OverwriteParts(s, p, t);
    var r := Overwrite(s, p, t);
    hide Overwrite;
    if j <= p {
      SliceOfTake(r, p, i, j);
      SliceOfTake(s, p, i, j);
    } else {
      SliceOfDrop(r, p + |t|, i, j);
      SliceOfDrop(s, p + |t|, i, j);
    }
  }

  lemma {:induction false} ShiftedIs(b: seq<byte>, a: seq<byte>, length: nat, offset: nat, amount: nat)
    requires |a| == |b| && length <= |a| && offset + amount <= length
    requires forall i :: length - amount <= i < length ==> a[i] == b[i - offset]
    requires forall i :: 0 <= i < length - amount || length <= i < |a| ==> a[i] == b[i]
    ensures var source := length - offset - amount; a == Overwrite(b, length - amount, b[source..source + amount])
  {
    SameSlice(a, length - amount, b, length - offset - amount, amount);
    assert a == a[..length - amount] + a[length - amount..length] + a[length..];
  }

  lemma {:induction false} ShiftedDownIs(b: seq<byte>, a: seq<byte>, start: nat, offset: nat, amount: nat)
    requires |a| == |b| && start + offset + amount <= |a|
    requires forall i :: start <= i < start + amount ==> a[i] == b[i + offset]
    requires forall i :: 0 <= i < start || start + amount <= i < |a| ==> a[i] == b[i]
    ensures a == Overwrite(b, start, b[start + offset..start + offset + amount])
  {
    SameSlice(a, start, b, start + offset, amount);
    assert a == a[..start] + a[start..start + amount] + a[start + amount..];
  }

  /** A middle part of a slice. */
  lemma Piece(b: seq<byte>, p: nat, q: nat, x: seq<byte>, y: seq<byte>, z: seq<byte>)
    requires p <= q <= |b| && b[p..q] == x + (y + z)
    ensures p + |x| + |y| <= q && b[p + |x|..p + |x| + |y|] == y
  {
    var s := b[p..q];
    Regroup(x, y, z);
    SliceInside(x, y, z, 0, |y|);
    SliceOfSlice(b, p, q, |x|, |x| + |y|);
  }

  lemma ThreePieces(b: seq<byte>, p: nat, q: nat, x: seq<byte>, y: seq<byte>, z: seq<byte>)
    requires p <= q <= |b| && b[p..q] == x + y + z
    ensures q == p + |x| + |y| + |z|
    ensures b[p..p + |x|] == x && b[p + |x|..p + |x| + |y|] == y && b[p + |x| + |y|..q] == z
  {
    Regroup(x, y, z);
    Regroup([], x, y + z);
    Piece(b, p, q, [], x, y + z);
    Piece(b, p, q, x, y, z);
    Regroup(x + y, z, []);
    Piece(b, p, q, x + y, z, []);
  }
}
