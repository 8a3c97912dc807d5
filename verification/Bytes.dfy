/** Bytes, little-endian integers and the copy operations that every on-disk format shares. */
module Bytes {
  import opened Arith

  type byte = x: int | 0 <= x < 256

  const U16 := 0x1_0000
  const U32 := 0x1_0000_0000
  const U64 := 0x1_0000_0000_0000_0000

  /** The number of values that fit in `n` bytes. */
  function Pow256(n: nat): (r: nat)
    ensures r > 0
  {
    if n == 0 then 1 else 256 * Pow256(n - 1)
  }

  lemma Pow256Values()
    ensures Pow256(1) == 256 && Pow256(2) == U16 && Pow256(4) == U32 && Pow256(8) == U64
  {
    assert Pow256(2) == 256 * Pow256(1);
    assert Pow256(4) == 256 * (256 * Pow256(2));
    assert Pow256(6) == 256 * (256 * Pow256(4));
    assert Pow256(8) == 256 * (256 * Pow256(6));
  }

  /** `v`, least significant byte first, in `width` bytes; higher bytes are dropped. */
  function WriteLE(v: nat, width: nat): (s: seq<byte>)
    ensures |s| == width
  {
    if width == 0 then [] else [v % 256] + WriteLE(v / 256, width - 1)
  }

  function ReadLE(s: seq<byte>): (v: nat)
    ensures v < Pow256(|s|)
  {
    if s == [] then 0 else s[0] + 256 * ReadLE(s[1..])
  }

  lemma {:induction false} ReadWriteLE(v: nat, width: nat)
    requires v < Pow256(width)
    ensures ReadLE(WriteLE(v, width)) == v
  {
    if width > 0 {
      ReadWriteLE(v / 256, width - 1);
      assert WriteLE(v, width)[1..] == WriteLE(v / 256, width - 1);
    }
  }

  /** Byte `i` is the `i`-th digit of the number to the base 256: the least significant byte comes first. */
  lemma {:induction false} LittleEndian(v: nat, width: nat, i: nat)
    requires i < width
    ensures WriteLE(v, width)[i] == (v / Pow256(i)) % 256
  {
    if i > 0 {
      LittleEndian(v / 256, width - 1, i - 1);
      DivideTwice(v, Pow256(i - 1));
    }
  }

  lemma DivideTwice(v: nat, n: nat)
    requires n > 0
    ensures v / 256 / n == v / (256 * n)
  {
    QuotientBounds(v / 256, n);
    var q := v / 256 / n;
    var r := v / 256 - q * n;
    assert v == 256 * (q * n) + 256 * r + v % 256;
    assert 256 * (q * n) == q * (256 * n);
    QuotientIs(v, 256 * n, q, 256 * r + v % 256);
  }

  lemma {:induction false} WriteReadLE(s: seq<byte>)
    ensures WriteLE(ReadLE(s), |s|) == s
  {
    if s != [] {
      WriteReadLE(s[1..]);
      assert s == [s[0]] + s[1..];
    }
  }

  /** The parts of a concatenation, in order. */
  function Concat(parts: seq<seq<byte>>): (s: seq<byte>) {
    if parts == [] then [] else parts[0] + Concat(parts[1..])
  }

  lemma {:induction false} ConcatAppend(a: seq<seq<byte>>, b: seq<seq<byte>>)
    ensures Concat(a + b) == Concat(a) + Concat(b)
  {
    if a == [] {
      assert a + b == b;
    } else {
      ConcatAppend(a[1..], b);
      assert (a + b)[1..] == a[1..] + b && (a + b)[0] == a[0];
      AppendAssociates(a[0], Concat(a[1..]), Concat(b));
    }
  }

  lemma AppendAssociates(a: seq<byte>, b: seq<byte>, c: seq<byte>)
    ensures a + (b + c) == a + b + c
  {
  }

  /** Three adjacent fields can be sliced back out of the bytes that hold them. */
  lemma Slices(a: seq<byte>, b: seq<byte>, c: seq<byte>, rest: seq<byte>)
    ensures var s := a + b + c + rest;
            s[..|a|] == a && s[|a|..|a| + |b|] == b && s[|a| + |b|..|a| + |b| + |c|] == c
            && s[|a| + |b| + |c|..] == rest
  {
  }

  lemma SliceOfSlice(s: seq<byte>, a: nat, b: nat, i: nat, j: nat)
    requires a <= b <= |s| && i <= j <= b - a
    ensures s[a..b][i..j] == s[a + i..a + j]
  {
    forall k | 0 <= k < j - i
      ensures s[a..b][i..j][k] == s[a + i..a + j][k]
    {
    }
  }

  lemma SameBefore(r: seq<byte>, d: seq<byte>, at: nat, i: nat, j: nat)
    requires at <= |r| && at <= |d| && r[..at] == d[..at] && i <= j <= at
    ensures r[i..j] == d[i..j]
  {
    assert r[0..at] == r[..at] && d[0..at] == d[..at];
    SliceOfSlice(r, 0, at, i, j);
    SliceOfSlice(d, 0, at, i, j);
  }

  lemma SameAfter(r: seq<byte>, d: seq<byte>, at: nat, i: nat, j: nat)
    requires at <= |r| == |d| && r[at..] == d[at..] && at <= i <= j <= |d|
    ensures r[i..j] == d[i..j]
  {
    SliceOfSlice(r, at, |r|, i - at, j - at);
    SliceOfSlice(d, at, |d|, i - at, j - at);
  }

  /** `dst` with `src` copied over it at `at`. */
  function Overwrite(dst: seq<byte>, at: nat, src: seq<byte>): (r: seq<byte>)
    requires at + |src| <= |dst|
    ensures |r| == |dst|
    ensures r[at..at + |src|] == src
    ensures r[..at] == dst[..at] && r[at + |src|..] == dst[at + |src|..]
  {
    dst[..at] + src + dst[at + |src|..]
  }

  lemma OverwriteByte(dst: seq<byte>, at: nat, src: seq<byte>, x: nat)
    requires at + |src| <= |dst| && x < |dst|
    ensures Overwrite(dst, at, src)[x] == if at <= x < at + |src| then src[x - at] else dst[x]
  {
  }

  /** Copying `src` into the array at `at`. */
  method CopyInto(dst: array<byte>, at: nat, src: seq<byte>)
    requires at + |src| <= dst.Length
    modifies dst
    ensures dst[..] == Overwrite(old(dst[..]), at, src)
  {
    var i := 0;
    while i < |src|
      invariant 0 <= i <= |src|
      invariant forall k :: 0 <= k < dst.Length ==>
                  dst[k] == if at <= k < at + i then src[k - at] else old(dst[k])
    {
      dst[at + i] := src[i];
      i := i + 1;
    }
  }
}
