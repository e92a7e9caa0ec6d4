/** The fixed-capacity bucket of ADS_set.h (struct bucket, lines 32-98):
    a block of `n` slots and the fill counter `current`. The overflow link
    is not part of the value: a bucket and its overflow buckets form a
    chain, modelled in module Chains as a sequence of buckets. */
module Buckets {

  datatype Option<T> = None | Some(value: T)

  /** Slot tag. The source distinguishes `free` and `freeagain`; no lookup
      tells them apart, so both are `Free` here. */
  datatype Slot<K> = Free | Used(key: K)

  datatype Bucket<K> = Bucket(block: seq<Slot<K>>, current: nat)

  /** The keys of the used slots, in slot order. */
  function UsedKeys<K>(s: seq<Slot<K>>): seq<K>
  {
    if s == [] then []
    else UsedKeys(s[..|s| - 1]) + (if s[|s| - 1].Used? then [s[|s| - 1].key] else [])
  }

  function Keys<K>(b: Bucket<K>): seq<K>
  {
    UsedKeys(b.block)
  }

  /** The bucket invariant: `n` slots, and slot i is used exactly when
      i < current <= n (occupied slots are kept dense at the front). */
  ghost predicate WellFormed<K>(b: Bucket<K>, n: nat)
  {
    |b.block| == n && b.current <= n &&
    forall i :: 0 <= i < n ==> (b.block[i].Used? <==> i < b.current)
  }

  lemma {:induction false} UsedKeysConcat<K>(a: seq<Slot<K>>, b: seq<Slot<K>>)
    ensures UsedKeys(a + b) == UsedKeys(a) + UsedKeys(b)
    decreases |b|
  {
    if b == [] {
      assert a + b == a;
    } else {
      assert (a + b)[..|a + b| - 1] == a + b[..|b| - 1];
      UsedKeysConcat(a, b[..|b| - 1]);
    }
  }

  /** In a dense block the used keys are exactly the first `c` slots' keys. */
  lemma {:induction false} UsedKeysDense<K>(s: seq<Slot<K>>, c: nat)
    requires c <= |s|
    requires forall i :: 0 <= i < |s| ==> (s[i].Used? <==> i < c)
    ensures |UsedKeys(s)| == c
    ensures forall i :: 0 <= i < c ==> UsedKeys(s)[i] == s[i].key
    decreases |s|
  {
    if s != [] {
      var init := s[..|s| - 1];
      if c == |s| {
        UsedKeysDense(init, c - 1);
      } else {
        UsedKeysDense(init, c);
      }
    }
  }

  lemma KeysOfWellFormed<K>(b: Bucket<K>, n: nat)
    requires WellFormed(b, n)
    ensures |Keys(b)| == b.current
    ensures forall i :: 0 <= i < b.current ==> Keys(b)[i] == b.block[i].key
  {
    UsedKeysDense(b.block, b.current);
  }

  /** A freshly allocated bucket (`new bucket`): all slots free. */
  function Empty<K>(n: nat): (b: Bucket<K>)
    ensures WellFormed(b, n) && Keys(b) == []
  {
    var b := Bucket(seq(n, _ => Free), 0);
    KeysOfWellFormed(b, n);
    b
  }

  /** The append idiom the source writes out at every insertion site: store
      the key at slot `current`, mark it used, increment `current` once. */
  function Append<K>(b: Bucket<K>, n: nat, key: K): (r: Bucket<K>)
    requires WellFormed(b, n) && b.current < n
    ensures WellFormed(r, n) && r.current == b.current + 1
    ensures Keys(r) == Keys(b) + [key]
  {
    var r := Bucket(b.block[b.current := Used(key)], b.current + 1);
    KeysOfWellFormed(b, n);
    KeysOfWellFormed(r, n);
    r
  }

  /** A new bucket holding one key, as allocate_overflow and insert_overflow
      create it. */
  function Single<K>(n: nat, key: K): (r: Bucket<K>)
    requires n >= 1
    ensures WellFormed(r, n) && r.current == 1 && Keys(r) == [key]
  {
    Append(Empty(n), n, key)
  }

  lemma MinusAbsent<T>(m: multiset<T>, x: T)
    requires x !in m
    ensures m - multiset{x} == m
  {
  }

  /** No element occurs twice. */
  ghost predicate NoRepeats<T>(m: multiset<T>)
  {
    forall e :: e in m ==> m[e] == 1
  }

  /** A sub-multiset of a multiset without repetitions has none either. */
  lemma NoRepeatsBelow<T>(x: multiset<T>, a: multiset<T>)
    requires x <= a && NoRepeats(a)
    ensures NoRepeats(x)
  {
    forall e | e in x ensures x[e] == 1 {
      assert x[e] <= a[e];
    }
  }

  /** Two multisets without repetitions, of the same size, one inside the
      other, are equal. */
  lemma SameSizeSubset<T>(a: multiset<T>, b: multiset<T>)
    requires NoRepeats(a) && NoRepeats(b) && |a| == |b|
    requires forall e | e in b :: e in a
    ensures a == b
  {
    assert b <= a by {
      forall e ensures b[e] <= a[e] {
        if e in b {
          assert e in a;
        }
      }
    }
    var rest := a - b;
    assert a == b + rest;
    assert |rest| == 0;
    assert rest == multiset{};
  }

  /** The first r elements of s all occur in m. */
  ghost predicate PrefixIn<T>(s: seq<T>, r: nat, m: multiset<T>)
  {
    r <= |s| && forall j :: 0 <= j < r ==> s[j] in m
  }

  lemma PrefixInStep<T>(s: seq<T>, r: nat, m: multiset<T>)
    requires PrefixIn(s, r, m) && r < |s| && s[r] in m
    ensures PrefixIn(s, r + 1, m)
  {
  }

  /** Trading `o` for `o` less one `k`: x + o == a + (o - {k}) gives
      x + {k} == a. */
  lemma RemovedOne<T>(x: multiset<T>, a: multiset<T>, o: multiset<T>, b: multiset<T>, k: T)
    requires k in o && b == o - multiset{k} && x + o == a + b
    ensures x + multiset{k} == a
  {
    forall e ensures (x + multiset{k})[e] == a[e] {
      assert (x + o)[e] == (a + b)[e];
    }
  }

  /** Trading `b` plus one `k` for `b`: x + (b + {k}) == a + b gives
      x + {k} == a. */
  lemma DroppedOne<T>(x: multiset<T>, a: multiset<T>, o: multiset<T>, b: multiset<T>, k: T)
    requires o == b + multiset{k} && x + o == a + b
    ensures x + multiset{k} == a
  {
    forall e ensures (x + multiset{k})[e] == a[e] {
      assert (x + o)[e] == (a + b)[e];
    }
  }

  /** Trading `o` for `o` plus one `k`: x + o == a + (o + {k}) gives
      x == a + {k}. */
  lemma AddedOne<T>(x: multiset<T>, a: multiset<T>, o: multiset<T>, b: multiset<T>, k: T)
    requires b == o + multiset{k} && x + o == a + b
    ensures x == a + multiset{k}
  {
    forall e ensures x[e] == (a + multiset{k})[e] {
      assert (x + o)[e] == (a + b)[e];
    }
  }

  /** Inserting x anywhere in a sequence adds one x to its multiset. */
  lemma InsertedMultiset<T>(a: seq<T>, x: T, b: seq<T>)
    ensures multiset(a + [x] + b) == multiset(a + b) + multiset{x}
  {
    assert multiset(a + [x] + b) == multiset(a) + multiset{x} + multiset(b);
  }

  /** In a sequence without repetitions, element r does not occur before
      position r. */
  lemma FreshAt<T>(s: seq<T>, r: nat)
    requires r < |s| && NoRepeats(multiset(s))
    ensures s[r] !in multiset(s[..r])
  {
    assert s == s[..r] + s[r..];
    assert s[r] in multiset(s[r..]);
    assert multiset(s)[s[r]] == multiset(s[..r])[s[r]] + multiset(s[r..])[s[r]];
  }

  /** Position of the first occurrence of `x` in `s`. */
  function IndexOf<T(==)>(s: seq<T>, x: T): (r: nat)
    requires x in s
    ensures r < |s| && s[r] == x
    ensures forall j :: 0 <= j < r ==> s[j] != x
  {
    if s[0] == x then 0 else 1 + IndexOf(s[1..], x)
  }

  /** Remove position i by moving the last element into it. */
  function SwapRemove<T>(s: seq<T>, i: nat): seq<T>
    requires i < |s|
  {
    s[i := s[|s| - 1]][..|s| - 1]
  }

  lemma SwapRemoveMultiset<T>(s: seq<T>, i: nat)
    requires i < |s|
    ensures |SwapRemove(s, i)| == |s| - 1
    ensures multiset(SwapRemove(s, i)) == multiset(s) - multiset{s[i]}
  {
    var n := |s|;
    if i == n - 1 {
      assert SwapRemove(s, i) == s[..n - 1];
      assert s == s[..n - 1] + [s[n - 1]];
    } else {
      assert SwapRemove(s, i) == s[..i] + [s[n - 1]] + s[i + 1..n - 1];
      assert s == s[..i] + [s[i]] + s[i + 1..n - 1] + [s[n - 1]];
    }
  }

  /** bucket::erase: find `key` among the first `current` slots; move the
      last occupied slot into its place, free the vacated slot and
      decrement `current`. Returns 1 if the key was there, else 0. */
  method Erase<K(==)>(b: Bucket<K>, n: nat, key: K) returns (r: Bucket<K>, removed: nat)
    requires WellFormed(b, n)
    ensures WellFormed(r, n)
    ensures key !in Keys(b) ==> removed == 0 && r == b
    ensures key in Keys(b) ==>
      removed == 1 && r.current == b.current - 1 &&
      Keys(r) == SwapRemove(Keys(b), IndexOf(Keys(b), key))
    ensures multiset(Keys(r)) == multiset(Keys(b)) - multiset{key}
  {
    KeysOfWellFormed(b, n);
    var i := 0;
    while i < b.current
      invariant i <= b.current
      invariant forall j :: 0 <= j < i ==> Keys(b)[j] != key
    {
      if b.block[i].key == key {
        // `i != current--` compares i with the count before the decrement,
        // so the compaction below runs for every hit, the last slot included.
        var cur := b.current;
        var last := cur - 1;
        var blk := b.block;
        if i != cur {
          blk := blk[i := blk[last]][last := Free];
        }
        r, removed := Bucket(blk, last), 1;
        EraseKeys(b, n, i, r);
        return;
      }
      i := i + 1;
    }
    r, removed := b, 0;
  }

  lemma EraseKeys<K>(b: Bucket<K>, n: nat, i: nat, r: Bucket<K>)
    requires WellFormed(b, n) && i < b.current && |Keys(b)| == b.current
    requires r == Bucket(b.block[i := b.block[b.current - 1]][b.current - 1 := Free], b.current - 1)
    requires forall j :: 0 <= j < i ==> Keys(b)[j] != Keys(b)[i]
    ensures WellFormed(r, n)
    ensures Keys(b)[i] in Keys(b) && IndexOf(Keys(b), Keys(b)[i]) == i
    ensures Keys(r) == SwapRemove(Keys(b), i)
    ensures multiset(Keys(r)) == multiset(Keys(b)) - multiset{Keys(b)[i]}
  {
    KeysOfWellFormed(b, n);
    KeysOfWellFormed(r, n);
    var k := Keys(b)[i];
    var x := IndexOf(Keys(b), k);
    assert x == i;
    SwapRemoveMultiset(Keys(b), i);
  }

  /** bucket::find: scan all `n` slots for a used slot holding `key`. */
  method FindSlot<K(==)>(b: Bucket<K>, n: nat, key: K) returns (slot: Option<nat>)
    requires WellFormed(b, n)
    ensures slot.Some? <==> key in Keys(b)
    ensures slot.Some? ==> slot.value < n && b.block[slot.value] == Used(key)
    ensures slot.Some? ==> forall j :: 0 <= j < slot.value ==> b.block[j] != Used(key)
  {
    KeysOfWellFormed(b, n);
    if b.current == 0 {
      return None;
    }
    var i := 0;
    while i < n
      invariant i <= n
      invariant forall j :: 0 <= j < i ==> b.block[j] != Used(key)
    {
      if b.block[i].Used? && b.block[i].key == key {
        assert Keys(b)[i] == key;
        return Some(i);
      }
      i := i + 1;
    }
    assert forall j :: 0 <= j < b.current ==> Keys(b)[j] != key;
    return None;
  }
}
