/** Byte strings in lexicographic order, shorter prefixes first. */
module ByteOrder {
  import opened Bytes

  predicate Below(a: seq<byte>, b: seq<byte>) {
    b != [] && (a == [] || a[0] < b[0] || (a[0] == b[0] && Below(a[1..], b[1..])))
  }

  /** The first byte that differs decides; without one, the shorter string comes first. */
  lemma {:induction false} BelowExact(a: seq<byte>, b: seq<byte>)
    ensures Below(a, b) <==> exists i: nat :: FirstDifference(a, b, i) && i < |b| && (i == |a| || a[i] < b[i])
  {
    if a == [] || b == [] || a[0] != b[0] {
      assert FirstDifference(a, b, 0);
      assert forall i: nat :: FirstDifference(a, b, i) ==> i == 0;
    } else {
      BelowExact(a[1..], b[1..]);
      forall i: nat | 0 < i
        ensures FirstDifference(a, b, i) <==> FirstDifference(a[1..], b[1..], i - 1)
      {
        DifferenceLater(a, b, i);
      }
      if Below(a, b) {
        var i: nat :| FirstDifference(a[1..], b[1..], i) && i < |b| - 1 && (i == |a| - 1 || a[1..][i] < b[1..][i]);
        assert FirstDifference(a, b, i + 1);
      }
    }
  }

  /** The strings agree before position `i` and not at it. */
  ghost predicate FirstDifference(a: seq<byte>, b: seq<byte>, i: nat) {
    i <= |a| && i <= |b| && a[..i] == b[..i] && (i < |a| && i < |b| ==> a[i] != b[i])
  }

  lemma DifferenceLater(a: seq<byte>, b: seq<byte>, i: nat)
    requires a != [] && b != [] && a[0] == b[0] && 0 < i
    ensures FirstDifference(a, b, i) <==> FirstDifference(a[1..], b[1..], i - 1)
  {
    if i <= |a| && i <= |b| {
      var x, y := a[1..][..i - 1], b[1..][..i - 1];
      assert a[..i] == [a[0]] + x && b[..i] == [b[0]] + y;
      assert a[..i][1..] == x && b[..i][1..] == y;
    }
  }

  lemma {:induction false} BelowTotal(a: seq<byte>, b: seq<byte>)
    ensures !(Below(a, b) && Below(b, a))
    ensures Below(a, b) || Below(b, a) || a == b
    ensures !Below(a, a)
  {
    if a != [] && b != [] {
      BelowTotal(a[1..], b[1..]);
      assert a == [a[0]] + a[1..] && b == [b[0]] + b[1..];
    }
    if a != [] { BelowTotal(a[1..], a[1..]); }
  }

  lemma {:induction false} BelowTransitive(a: seq<byte>, b: seq<byte>, c: seq<byte>)
    requires !Below(b, a) && Below(b, c)
    ensures Below(a, c)
  {
    if a != [] && b != [] && a[0] == b[0] == c[0] {
      BelowTransitive(a[1..], b[1..], c[1..]);
    }
  }
}
