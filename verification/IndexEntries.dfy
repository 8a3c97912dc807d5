/** The sorted entry list of an index leaf: byte-lexicographic keys, duplicates in insertion order. */
module IndexEntries {
  import opened Bytes
  import opened ByteOrder

  datatype Entry = Entry(key: seq<byte>, page: nat, slot: nat)

  predicate IsEntry(e: Entry) { e.page < U32 && e.slot < U32 }

  // ---------- comparing keys ----------

  /** The three-way byte comparison that the search makes for each entry. */
  method CompareKeys(kb: seq<byte>, search: seq<byte>) returns (cmp: int)
    ensures cmp < 0 <==> Below(kb, search)
    ensures cmp == 0 <==> kb == search
  {
    BelowTotal(kb, search);
    var n := if |kb| < |search| then |kb| else |search|;
    var j := 0;
    while j < n
      invariant 0 <= j <= n && kb[..j] == search[..j]
      invariant Below(kb, search) == Below(kb[j..], search[j..])
    {
      if kb[j] < search[j] { return -1; }
      if kb[j] > search[j] { return 1; }
      assert kb[j..][1..] == kb[j + 1..] && search[j..][1..] == search[j + 1..];
      assert kb[..j + 1] == kb[..j] + [kb[j]] && search[..j + 1] == search[..j] + [search[j]];
      j := j + 1;
    }
    if |kb| < |search| { return -1; }
    if |kb| > |search| { return 1; }
    assert kb[..j] == kb && search[..j] == search;
    return 0;
  }

  // ---------- sorted lists ----------

  predicate Sorted(es: seq<Entry>) {
    forall i, j :: 0 <= i < j < |es| ==> !Below(es[j].key, es[i].key)
  }

  /** `i` is the first position whose key is not below `key`. */
  predicate IsLowerBound(es: seq<Entry>, key: seq<byte>, i: nat) {
    i <= |es| && (forall k :: 0 <= k < i ==> Below(es[k].key, key))
    && forall k :: i <= k < |es| ==> !Below(es[k].key, key)
  }

  /** `i` is the first position whose key is above `key`. */
  predicate IsUpperBound(es: seq<Entry>, key: seq<byte>, i: nat) {
    i <= |es| && (forall k :: 0 <= k < i ==> !Below(key, es[k].key))
    && forall k :: i <= k < |es| ==> Below(key, es[k].key)
  }

  /** Where a new entry for `key` goes: before the first larger key. */
  function UpperBound(es: seq<Entry>, key: seq<byte>): (i: nat)
    ensures i <= |es|
  {
    if es == [] || Below(key, es[0].key) then 0 else 1 + UpperBound(es[1..], key)
  }

  lemma {:induction false} UpperBoundUnique(es: seq<Entry>, key: seq<byte>, i: nat)
    requires IsUpperBound(es, key, i)
    ensures UpperBound(es, key) == i
  {
    hide Below;
    if i > 0 {
      assert es != [] && !Below(key, es[0].key);
      UpperBoundUnique(es[1..], key, i - 1);
    }
  }

  function With(es: seq<Entry>, i: nat, e: Entry): (r: seq<Entry>)
    requires i <= |es|
    ensures |r| == |es| + 1
    ensures forall k :: 0 <= k < |r| ==> r[k] == if k < i then es[k] else if k == i then e else es[k - 1]
  {
    es[..i] + [e] + es[i..]
  }

  function Without(es: seq<Entry>, i: nat): (r: seq<Entry>)
    requires i < |es|
    ensures |r| == |es| - 1
    ensures forall k :: 0 <= k < |r| ==> r[k] == if k < i then es[k] else es[k + 1]
  {
    es[..i] + es[i + 1..]
  }

  lemma WithSorted(es: seq<Entry>, i: nat, e: Entry)
    requires Sorted(es) && IsUpperBound(es, e.key, i)
    ensures Sorted(With(es, i, e))
  {
    forall k | i <= k < |es|
      ensures !Below(es[k].key, e.key)
    {
      BelowTotal(es[k].key, e.key);
    }
  }

  /** All entries for one key, in page order. */
  function ForKey(es: seq<Entry>, key: seq<byte>): (r: seq<Entry>) {
    if es == [] then []
    else if es[0].key == key then [es[0]] + ForKey(es[1..], key)
    else ForKey(es[1..], key)
  }

  lemma {:induction false} ForKeyMember(es: seq<Entry>, key: seq<byte>, e: Entry)
    ensures e in ForKey(es, key) <==> e in es && e.key == key
  {
    if es != [] {
      ForKeyMember(es[1..], key, e);
      assert es == [es[0]] + es[1..];
    }
  }

  lemma {:induction false} ForKeyAppend(a: seq<Entry>, b: seq<Entry>, key: seq<byte>)
    ensures ForKey(a + b, key) == ForKey(a, key) + ForKey(b, key)
  {
    if a == [] {
      assert a + b == b;
    } else {
      ForKeyAppend(a[1..], b, key);
      assert (a + b)[1..] == a[1..] + b;
      assert [a[0]] + (ForKey(a[1..], key) + ForKey(b, key)) == [a[0]] + ForKey(a[1..], key) + ForKey(b, key);
    }
  }

  lemma ForKeyOne(e: Entry, key: seq<byte>)
    ensures ForKey([e], key) == if key == e.key then [e] else []
  {
    assert [e][1..] == [];
  }

  lemma NoneForKey(es: seq<Entry>, key: seq<byte>)
    requires forall i :: 0 <= i < |es| ==> es[i].key != key
    ensures ForKey(es, key) == []
  {
    if ForKey(es, key) != [] {
      var e := ForKey(es, key)[0];
      ForKeyMember(es, key, e);
      assert false;
    }
  }

  /** Inserting after every equal key puts the entry last among the entries for its key. */
  lemma WithForKey(es: seq<Entry>, i: nat, e: Entry, key: seq<byte>)
    requires IsUpperBound(es, e.key, i)
    ensures ForKey(With(es, i, e), key) == ForKey(es, key) + if key == e.key then [e] else []
  {
    hide ForKey, Below;
    ForKeyOne(e, key);
    ForKeyAppend(es[..i], es[i..], key);
    assert es[..i] + es[i..] == es;
    ForKeyAppend(es[..i] + [e], es[i..], key);
    ForKeyAppend(es[..i], [e], key);
    if key == e.key {
      forall k | 0 <= k < |es[i..]|
        ensures es[i..][k].key != key
      {
        BelowTotal(key, key);
      }
      NoneForKey(es[i..], key);
    }
  }

  /** The list without the first occurrence of `e`. */
  function WithoutFirst(es: seq<Entry>, e: Entry): (r: seq<Entry>) {
    if es == [] then [] else if es[0] == e then es[1..] else [es[0]] + WithoutFirst(es[1..], e)
  }

  lemma {:induction false} WithoutFirstAt(es: seq<Entry>, i: nat)
    requires i < |es| && es[i] !in es[..i]
    ensures Without(es, i) == WithoutFirst(es, es[i])
  {
    if i > 0 {
      assert es[0] == es[..i][0];
      assert es[1..][..i - 1] == es[..i][1..];
      WithoutFirstAt(es[1..], i - 1);
      assert Without(es, i) == [es[0]] + Without(es[1..], i - 1);
    }
  }

  lemma {:induction false} WithoutFirstForKey(es: seq<Entry>, e: Entry, key: seq<byte>)
    ensures ForKey(WithoutFirst(es, e), key)
            == if key == e.key then WithoutFirst(ForKey(es, key), e) else ForKey(es, key)
  {
    if es != [] {
      var r := ForKey(es[1..], key);
      if es[0] == e {
        assert ([e] + r)[1..] == r;
      } else {
        WithoutFirstForKey(es[1..], e, key);
        assert ([es[0]] + WithoutFirst(es[1..], e))[1..] == WithoutFirst(es[1..], e);
        assert ([es[0]] + r)[1..] == r;
      }
    }
  }

  /** A sorted leaf is determined by what it holds for each key. */
  lemma {:induction false} SortedUnique(a: seq<Entry>, b: seq<Entry>)
    requires Sorted(a) && Sorted(b) && forall k :: ForKey(a, k) == ForKey(b, k)
    ensures a == b
  {
    SameEmpty(a, b);
    SameEmpty(b, a);
    if a != [] {
      SameHead(a, b);
      forall k
        ensures ForKey(a[1..], k) == ForKey(b[1..], k)
      {
        assert ForKey(a, k) == ForKey(b, k);
        ForKeyTail(a, k);
        ForKeyTail(b, k);
      }
      SortedUnique(a[1..], b[1..]);
      assert a == [a[0]] + a[1..] && b == [b[0]] + b[1..];
    }
  }

  lemma ForKeyTail(es: seq<Entry>, key: seq<byte>)
    requires es != []
    ensures if es[0].key == key then ForKey(es, key) != [] && ForKey(es, key)[1..] == ForKey(es[1..], key)
            else ForKey(es, key) == ForKey(es[1..], key)
  {
  }

  lemma SameEmpty(a: seq<Entry>, b: seq<Entry>)
    requires forall k :: ForKey(a, k) == ForKey(b, k)
    ensures b == [] ==> a == []
  {
    if a != [] {
      ForKeyTail(a, a[0].key);
      assert ForKey(b, a[0].key) != [];
    }
  }

  lemma SameHead(a: seq<Entry>, b: seq<Entry>)
    requires Sorted(a) && Sorted(b) && a != [] && b != [] && forall k :: ForKey(a, k) == ForKey(b, k)
    ensures a[0] == b[0]
  {
    BelowTotal(a[0].key, b[0].key);
    HeadNotAbove(a, b);
    HeadNotAbove(b, a);
    assert ForKey(a, a[0].key)[0] == a[0] && ForKey(b, b[0].key)[0] == b[0];
  }

  lemma HeadNotAbove(a: seq<Entry>, b: seq<Entry>)
    requires Sorted(b) && a != [] && b != [] && forall k :: ForKey(a, k) == ForKey(b, k)
    ensures !Below(a[0].key, b[0].key)
  {
    ForKeyMember(a, a[0].key, a[0]);
    ForKeyMember(b, a[0].key, a[0]);
    var i :| 0 <= i < |b| && b[i] == a[0];
    BelowTotal(b[0].key, b[0].key);
  }

  // ---------- sizes ----------

  function TotalBytes(es: seq<Entry>): (n: nat) {
    if es == [] then 0 else |es[0].key| + 8 + TotalBytes(es[1..])
  }

  lemma {:induction false} TotalAppend(a: seq<Entry>, b: seq<Entry>)
    ensures TotalBytes(a + b) == TotalBytes(a) + TotalBytes(b)
  {
    if a == [] {
      assert a + b == b;
    } else {
      TotalAppend(a[1..], b);
      assert (a + b)[1..] == a[1..] + b;
    }
  }

  lemma TotalOne(e: Entry)
    ensures TotalBytes([e]) == |e.key| + 8
  {
    assert [e][1..] == [];
  }

  lemma TotalWith(es: seq<Entry>, i: nat, e: Entry)
    requires i <= |es|
    ensures TotalBytes(With(es, i, e)) == TotalBytes(es) + |e.key| + 8
  {
    hide TotalBytes;
    TotalOne(e);
    TotalAppend(es[..i], es[i..]);
    assert es[..i] + es[i..] == es;
    TotalAppend(es[..i] + [e], es[i..]);
    TotalAppend(es[..i], [e]);
  }

  lemma TotalWithout(es: seq<Entry>, i: nat)
    requires i < |es|
    ensures TotalBytes(Without(es, i)) + |es[i].key| + 8 == TotalBytes(es)
  {
    assert es == With(Without(es, i), i, es[i]);
    TotalWith(Without(es, i), i, es[i]);
  }

  // ---------- splitting ----------

  ghost predicate Separates(left: seq<Entry>, key: seq<byte>, right: seq<Entry>) {
    (forall e :: e in left ==> !Below(key, e.key)) && forall e :: e in right ==> !Below(e.key, key)
  }

  /** Both halves of a sorted list cut anywhere are sorted, and the key at the cut separates them. */
  lemma SplitSeparates(es: seq<Entry>, mid: nat)
    requires Sorted(es) && mid < |es|
    ensures Sorted(es[..mid]) && Sorted(es[mid..]) && es[..mid] + es[mid..] == es
    ensures Separates(es[..mid], es[mid].key, es[mid..])
  {
    hide Below;
    BelowTotal(es[mid].key, es[mid].key);
  }

  // ---------- runs ----------

  datatype LeafOp = Put(entry: Entry) | Del(entry: Entry)

  function Apply(es: seq<Entry>, op: LeafOp): (r: seq<Entry>) {
    match op
    case Put(e) => With(es, UpperBound(es, e.key), e)
    case Del(e) => WithoutFirst(es, e)
  }

  function ApplyAll(ops: seq<LeafOp>): (r: seq<Entry>) {
    if ops == [] then [] else Apply(ApplyAll(ops[..|ops| - 1]), ops[|ops| - 1])
  }

  /** What a reader of one key expects: its entries in insertion order, each removal taking the oldest match. */
  function KeyList(ops: seq<LeafOp>, key: seq<byte>): (r: seq<Entry>) {
    if ops == [] then []
    else
      var before := KeyList(ops[..|ops| - 1], key);
      var op := ops[|ops| - 1];
      if op.entry.key != key then before
      else if op.Put? then before + [op.entry] else WithoutFirst(before, op.entry)
  }

  lemma {:induction false} UpperBoundSplits(es: seq<Entry>, key: seq<byte>)
    requires Sorted(es)
    ensures IsUpperBound(es, key, UpperBound(es, key))
  {
    if es != [] {
      if Below(key, es[0].key) {
        forall k | 0 <= k < |es|
          ensures Below(key, es[k].key)
        {
          AboveStays(key, es[0].key, es[k].key, k == 0);
        }
      } else {
        UpperBoundSplits(es[1..], key);
        assert forall k :: 0 <= k < |es| - 1 ==> es[1..][k] == es[k + 1];
        assert forall k :: 1 <= k < |es| ==> es[k] == es[1..][k - 1];
      }
    }
  }

  lemma AboveStays(key: seq<byte>, a: seq<byte>, b: seq<byte>, same: bool)
    requires Below(key, a) && (if same then a == b else !Below(b, a))
    ensures Below(key, b)
  {
    BelowTotal(a, b);
    BelowTotal(key, a);
    if Below(a, b) { BelowTransitive(key, a, b); }
  }

  lemma {:induction false} WithoutFirstSorted(es: seq<Entry>, e: Entry)
    requires Sorted(es)
    ensures Sorted(WithoutFirst(es, e)) && forall x :: x in WithoutFirst(es, e) ==> x in es
  {
    hide Below;
    if es != [] && es[0] != e {
      WithoutFirstSorted(es[1..], e);
      var t := WithoutFirst(es[1..], e);
      forall j | 0 <= j < |t|
        ensures t[j] in es && !Below(t[j].key, es[0].key)
      {
        assert t[j] in t;
        var k :| 0 <= k < |es[1..]| && es[1..][k] == t[j];
        assert es[k + 1] == t[j];
      }
    }
  }

  /** Every run of insertions and removals leaves the one sorted list that has each key's expected entries. */
  lemma {:induction false} RunIsSortedMultimap(ops: seq<LeafOp>, key: seq<byte>)
    ensures Sorted(ApplyAll(ops)) && ForKey(ApplyAll(ops), key) == KeyList(ops, key)
  {
    hide Below, Sorted, ForKey, With, WithoutFirst, UpperBound;
    if ops == [] {
      NothingSorted(key);
    } else {
      var es, op := ApplyAll(ops[..|ops| - 1]), ops[|ops| - 1];
      RunIsSortedMultimap(ops[..|ops| - 1], key);
      match op {
        case Put(e) =>
          UpperBoundSplits(es, e.key);
          WithSorted(es, UpperBound(es, e.key), e);
          WithForKey(es, UpperBound(es, e.key), e, key);
        case Del(e) =>
          WithoutFirstSorted(es, e);
          WithoutFirstForKey(es, e, key);
      }
    }
  }

  lemma NothingSorted(key: seq<byte>)
    ensures Sorted([]) && ForKey([], key) == []
  {
  }
}
