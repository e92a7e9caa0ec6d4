/** The iterator of ADS_set.h (class Iterator, lines 566-663): a cursor
    over directory entry `idx`, bucket `b` of that entry's chain and slot
    `i` of that bucket, with `p` the slot it points at (None is the null
    pointer that marks the end). The intended traversal visits every stored
    key once, in directory order, then chain order, then slot order; the
    number of keys a cursor has passed is its rank. */
module Iteration {
  import opened Buckets
  import opened Chains
  import opened Directory

  /** Every live entry holds a chain of well-formed buckets. */
  ghost predicate LiveOk<K>(dir: seq<seq<Bucket<K>>>, live: nat, n: nat)
  {
    live <= |dir| && forall j :: 0 <= j < live ==> ChainOk(dir[j], n)
  }

  /** The keys of the live entries in traversal order. */
  function Elements<K>(dir: seq<seq<Bucket<K>>>, live: nat): seq<K>
    requires live <= |dir|
  {
    DirKeys(dir[..live])
  }

  /** How many keys the traversal passes before slot `i` of bucket `b` of
      entry `idx`. */
  function Before<K>(dir: seq<seq<Bucket<K>>>, live: nat, idx: nat, b: nat, i: nat): nat
    requires idx <= live <= |dir|
    requires idx < live ==> b <= |dir[idx]|
  {
    |DirKeys(dir[..idx])| + (if idx < live then |ChainKeys(dir[idx][..b])| else 0) + i
  }

  lemma DirKeysStep<K>(dir: seq<seq<Bucket<K>>>, idx: nat)
    requires idx < |dir|
    ensures DirKeys(dir[..idx + 1]) == DirKeys(dir[..idx]) + ChainKeys(dir[idx])
  {
    assert dir[..idx + 1][..idx] == dir[..idx];
  }

  /** Passing the last slot of a bucket is arriving at the next bucket. */
  lemma BucketEnd<K>(dir: seq<seq<Bucket<K>>>, live: nat, n: nat, idx: nat, b: nat)
    requires LiveOk(dir, live, n) && idx < live && b < |dir[idx]|
    ensures Before(dir, live, idx, b, dir[idx][b].current) == Before(dir, live, idx, b + 1, 0)
  {
    ChainKeysStep(dir[idx], b);
    KeysOfWellFormed(dir[idx][b], n);
  }

  /** Passing the last bucket of a chain is arriving at the next entry. */
  lemma ChainEnd<K>(dir: seq<seq<Bucket<K>>>, live: nat, idx: nat)
    requires live <= |dir| && idx < live
    ensures Before(dir, live, idx, |dir[idx]|, 0) == Before(dir, live, idx + 1, 0, 0)
  {
    DirKeysStep(dir, idx);
    assert dir[idx][..|dir[idx]|] == dir[idx];
    if idx + 1 < live {
      assert dir[idx + 1][..0] == [];
    }
  }

  /** The start of the traversal has rank 0. */
  lemma BeginRank<K>(dir: seq<seq<Bucket<K>>>, live: nat)
    requires live <= |dir|
    ensures Before(dir, live, 0, 0, 0) == 0
  {
    assert dir[..0] == [];
    if 0 < live {
      assert dir[0][..0] == [];
    }
  }

  /** Slot i of bucket b sits at |keys of the buckets before b| + i of
      the chain's keys. */
  lemma ChainKeyAt<K>(c: seq<Bucket<K>>, n: nat, b: nat, i: nat)
    requires ChainOk(c, n) && b < |c| && i < c[b].current
    ensures c[b].block[i].Used?
    ensures |ChainKeys(c[..b])| + i < |ChainKeys(c)|
    ensures ChainKeys(c)[|ChainKeys(c[..b])| + i] == c[b].block[i].key
  {
    KeysOfWellFormed(c[b], n);
    ChainKeysStep(c, b);
    ChainKeysConcat(c[..b + 1], c[b + 1..]);
    assert c == c[..b + 1] + c[b + 1..];
  }

  /** Key m of entry idx's chain sits at |keys of the entries before| + m
      of the traversal order. */
  lemma DirKeyAt<K>(dir: seq<seq<Bucket<K>>>, live: nat, idx: nat, m: nat)
    requires idx < live <= |dir| && m < |ChainKeys(dir[idx])|
    ensures |DirKeys(dir[..idx])| + m < |Elements(dir, live)|
    ensures Elements(dir, live)[|DirKeys(dir[..idx])| + m] == ChainKeys(dir[idx])[m]
  {
    DirKeysStep(dir, idx);
    DirKeysConcat(dir[..idx + 1], dir[idx + 1..live]);
    assert dir[..live] == dir[..idx + 1] + dir[idx + 1..live];
  }

  /** A used slot's rank indexes the traversal order at its key. */
  lemma KeyAt<K>(dir: seq<seq<Bucket<K>>>, live: nat, n: nat, idx: nat, b: nat, i: nat)
    requires LiveOk(dir, live, n) && idx < live && b < |dir[idx]| && i < dir[idx][b].current
    ensures Before(dir, live, idx, b, i) < |Elements(dir, live)|
    ensures dir[idx][b].block[i].Used?
    ensures Elements(dir, live)[Before(dir, live, idx, b, i)] == dir[idx][b].block[i].key
  {
    ChainKeyAt(dir[idx], n, b, i);
    DirKeyAt(dir, live, idx, |ChainKeys(dir[idx][..b])| + i);
  }

  /** The end of the traversal has rank |Elements|. */
  lemma EndRank<K>(dir: seq<seq<Bucket<K>>>, live: nat)
    requires live <= |dir|
    ensures Before(dir, live, live, 0, 0) == |Elements(dir, live)|
  {
  }

  lemma ChainPrefixMono<K>(c: seq<Bucket<K>>, x: nat, y: nat)
    requires x <= y <= |c|
    ensures |ChainKeys(c[..x])| <= |ChainKeys(c[..y])|
  {
    ChainKeysConcat(c[..x], c[x..y]);
    assert c[..y] == c[..x] + c[x..y];
  }

  lemma DirPrefixMono<K>(dir: seq<seq<Bucket<K>>>, x: nat, y: nat)
    requires x <= y <= |dir|
    ensures |DirKeys(dir[..x])| <= |DirKeys(dir[..y])|
  {
    DirKeysConcat(dir[..x], dir[x..y]);
    assert dir[..y] == dir[..x] + dir[x..y];
  }

  /** A used slot ranks below every position after its bucket. */
  lemma BelowBucketEnd<K>(dir: seq<seq<Bucket<K>>>, live: nat, n: nat, idx: nat, b: nat, i: nat)
    requires LiveOk(dir, live, n) && idx < live && b < |dir[idx]| && i < dir[idx][b].current
    ensures Before(dir, live, idx, b, i) < Before(dir, live, idx, b + 1, 0)
    ensures Before(dir, live, idx, b, i) < |DirKeys(dir[..idx + 1])|
  {
    BucketEnd(dir, live, n, idx, b);
    ChainPrefixMono(dir[idx], b + 1, |dir[idx]|);
    assert dir[idx][..|dir[idx]|] == dir[idx];
    DirKeysStep(dir, idx);
  }

  /** Traversal order: a used slot at a lexicographically earlier
      (entry, bucket, slot) position has a smaller rank. */
  lemma {:induction false} RankOrder<K>(dir: seq<seq<Bucket<K>>>, live: nat, n: nat,
                                        idx: nat, b: nat, i: nat, idx': nat, b': nat, i': nat)
    requires LiveOk(dir, live, n)
    requires idx < live && b < |dir[idx]| && i < dir[idx][b].current
    requires idx' < live && b' < |dir[idx']| && i' < dir[idx'][b'].current
    requires idx < idx' || (idx == idx' && (b < b' || (b == b' && i < i')))
    ensures Before(dir, live, idx, b, i) < Before(dir, live, idx', b', i')
  {
    BelowBucketEnd(dir, live, n, idx, b, i);
    if idx < idx' {
      DirPrefixMono(dir, idx + 1, idx');
    } else if b < b' {
      ChainPrefixMono(dir[idx], b + 1, b');
    }
  }

  /** The cursor (idx, b, i) within bounds: slot i at most the fill of
      bucket b, the slot and bucket reset when the chain is exhausted. */
  ghost predicate CursorIn<K>(dir: seq<seq<Bucket<K>>>, live: nat, n: nat, idx: nat, b: nat, i: nat)
  {
    LiveOk(dir, live, n) && idx <= live &&
    (idx < live ==>
      b <= |dir[idx]| &&
      (b < |dir[idx]| ==> i <= dir[idx][b].current) &&
      (b == |dir[idx]| ==> i == 0)) &&
    (idx == live ==> b == 0 && i == 0)
  }

  /** The nested loops of skip, over the cursor (idx, b, i) and the slot p
      as values: entries, then the buckets of an entry's chain, then the
      slots below a bucket's current. With p null the scan stops at the
      first used slot at or after the cursor; with p set, it stops at once
      while p is below current and otherwise clears p and resumes at slot
      i + 1. The source's branch for an unused slot below current is never
      taken: those slots are all used. */
  method Scan<K>(dir: seq<seq<Bucket<K>>>, live: nat, ghost n: nat,
                 idx: nat, b: nat, i: nat, p: Option<nat>)
    returns (idx': nat, b': nat, i': nat, p': Option<nat>)
    requires CursorIn(dir, live, n, idx, b, i)
    requires p.Some? ==>
      idx < live && b < |dir[idx]| && i < dir[idx][b].current && i <= p.value <= dir[idx][b].current
    ensures CursorIn(dir, live, n, idx', b', i')
    ensures p'.None? ==> idx' == live
    ensures p'.Some? ==> idx' < live && b' < |dir[idx']| && i' <= p'.value < dir[idx'][b'].current
    ensures p.None? ==> Before(dir, live, idx', b', i') == Before(dir, live, idx, b, i)
    ensures p.None? && p'.Some? ==> p'.value == i'
    ensures p.Some? && p.value < dir[idx][b].current ==> idx' == idx && b' == b && i' == i && p' == p
    ensures p.Some? && p.value == dir[idx][b].current ==>
      Before(dir, live, idx', b', i') == Before(dir, live, idx, b, i) + 1 &&
      (p'.Some? ==> p'.value == i')
  {
    idx', b', i', p' := idx, b, i, p;
    ghost var r0 := Before(dir, live, idx, b, i);
    ghost var step := if p.Some? then 1 else 0;
    // a pointer still below current is kept as it is
    ghost var keep := p.Some? && p.value < dir[idx][b].current;
    while idx' < live
      invariant CursorIn(dir, live, n, idx', b', i')
      invariant p'.Some? ==>
        idx' == idx && b' == b && i' == i && p' == p && idx' < live && b' < |dir[idx']| &&
        i' < dir[idx'][b'].current
      invariant p'.None? ==> Before(dir, live, idx', b', i') == r0 + step
      invariant keep ==> p'.Some?
      decreases live - idx'
    {
      while b' < |dir[idx']|
        invariant CursorIn(dir, live, n, idx', b', i')
        invariant p'.Some? ==>
          idx' == idx && b' == b && i' == i && p' == p && b' < |dir[idx']| && i' < dir[idx'][b'].current
        invariant p'.None? ==> Before(dir, live, idx', b', i') == r0 + step
        invariant keep ==> p'.Some?
        decreases |dir[idx']| - b'
      {
        while i' < dir[idx'][b'].current
          invariant i' <= dir[idx'][b'].current
          invariant p'.Some? ==> idx' == idx && b' == b && i' == i && p' == p && i' < dir[idx'][b'].current
          invariant p'.None? ==> Before(dir, live, idx', b', i') == r0 + step
          invariant keep ==> p'.Some?
          decreases dir[idx'][b'].current - i'
        {
          if p'.None? {
            p' := Some(i');
            return;
          }
          if p'.value < dir[idx'][b'].current {
            return;
          }
          p' := None;
          i' := i' + 1;
        }
        BucketEnd(dir, live, n, idx', b');
        i' := 0;
        b' := b' + 1;
      }
      ChainEnd(dir, live, idx');
      b' := 0;
      idx' := idx' + 1;
    }
  }

  class Iterator<K> {
    /** The directory the iterator walks (the source keeps a pointer to it). */
    const dir: seq<seq<Bucket<K>>>
    /** The iterator's table_size: the number of live entries, 2^d + nts. */
    const live: nat
    /** Bucket capacity of the set the directory belongs to. */
    ghost const n: nat
    var idx: nat
    /** The bucket `b`, as its position in the chain of entry idx. */
    var b: nat
    var i: nat
    /** The slot `p` points at in bucket b; None is the null pointer. */
    var p: Option<nat>

    ghost predicate Cursor()
      reads this
    {
      CursorIn(dir, live, n, idx, b, i)
    }

    /** The number of keys of the traversal before the cursor. */
    ghost function Rank(): nat
      reads this
      requires Cursor()
    {
      Before(dir, live, idx, b, i)
    }

    /** The cursor names a used slot. */
    ghost predicate AtElement()
      reads this
    {
      Cursor() && idx < live && b < |dir[idx]| && i < dir[idx][b].current
    }

    /** An iterator at rest: at a key with p on slot i, or at the end with
        p null. */
    ghost predicate Parked()
      reads this
    {
      Cursor() && (if p.Some? then AtElement() && p.value == i else idx == live)
    }

    /** The state the increment as written leaves: p may run ahead of i
        inside bucket b. */
    ghost predicate Loose()
      reads this
    {
      Cursor() && (if p.Some? then AtElement() && i <= p.value < dir[idx][b].current else idx == live)
    }

    /** current of bucket b. */
    ghost function Fill(): nat
      reads this
      requires Cursor() && idx < live && b < |dir[idx]|
    {
      dir[idx][b].current
    }

    /** The iterator begin() creates: every field cleared, then skip(). */
    constructor (dir: seq<seq<Bucket<K>>>, live: nat, ghost n: nat)
      requires LiveOk(dir, live, n)
      ensures this.dir == dir && this.live == live && this.n == n
      ensures Parked() && Rank() == 0
    {
      this.dir, this.live, this.n := dir, live, n;
      idx, b, i, p := 0, 0, 0, None;
      new;
      BeginRank(dir, live);
      Skip();
    }

    /** The default iterator end() returns: no table, p null. */
    constructor End()
      ensures dir == [] && live == 0 && p.None? && Parked()
    {
      dir, live, n := [], 0, 0;
      idx, b, i, p := 0, 0, 0, None;
    }

    /** skip: walk forward to the next used slot. With p null it stops at
        the first used slot at or after (idx, b, i); with p set, it keeps p
        while p is below current and otherwise clears p and resumes at
        slot i + 1. The source's branch for an unused slot below current
        is never taken, since those slots are all used. */
    method Skip()
      requires Cursor()
      requires p.Some? ==> AtElement() && i <= p.value <= dir[idx][b].current
      modifies this
      ensures Loose()
      ensures old(p).None? ==> Parked() && Rank() == old(Rank())
      ensures old(p).Some? && old(p.value) < old(Fill()) ==>
        idx == old(idx) && b == old(b) && i == old(i) && p == old(p)
      ensures old(p).Some? && old(p.value) == old(Fill()) ==> Parked() && Rank() == old(Rank()) + 1
    {
      idx, b, i, p := Scan(dir, live, n, idx, b, i, p);
    }

    /** operator++ as intended: the slot index moves with the pointer. */
    method Next()
      requires Parked() && p.Some?
      modifies this
      ensures Parked() && Rank() == old(Rank()) + 1
    {
      i := i + 1;
      p := None;
      Skip();
    }

    /** Next, within a walk towards end(). */
    method Advance(ghost stop: Iterator<K>, ghost keys: seq<K>)
      requires Walk(this, stop, keys) && !Equals(stop)
      modifies this
      ensures Walk(this, stop, keys) && Rank() == old(Rank()) + 1
    {
      Next();
      AtEndIffPassedAll(this, stop);
    }

    /** operator++ as written: `++p` moves the pointer but leaves i behind,
        so leaving a bucket resumes the scan at slot i + 1 of the same
        bucket instead of moving on. */
    method NextAsWritten()
      requires Loose() && p.Some?
      modifies this
      ensures Loose()
      ensures old(p.value) + 1 < old(Fill()) ==>
        idx == old(idx) && b == old(b) && i == old(i) && p == Some(old(p.value) + 1)
      ensures old(p.value) + 1 == old(Fill()) ==> Parked() && Rank() == old(Rank()) + 1
    {
      p := Some(p.value + 1);
      Skip();
    }

    /** operator*: the key of the slot p points at. */
    function Deref(): (k: K)
      reads this
      requires Loose() && p.Some?
      ensures p.value == i ==> Rank() < |Elements(dir, live)| && k == Elements(dir, live)[Rank()]
    {
      KeyAt(dir, live, n, idx, b, p.value);
      KeyAt(dir, live, n, idx, b, i);
      dir[idx][b].block[p.value].key
    }

    /** operator==: the two pointers are the same, that is both null or
        the same slot of the same bucket. */
    predicate Equals(other: Iterator<K>)
      reads this, other
      ensures other == this ==> Equals(other)
      ensures Equals(other) ==> (p.None? <==> other.p.None?)
    {
      p == other.p && (p.None? || (idx == other.idx && b == other.b))
    }
  }

  /** Two iterators at rest over the same directory are equal exactly when
      they have passed the same number of keys; in particular an iterator
      equals end() exactly when it has passed them all. */
  lemma EqualsIffSameRank<K>(x: Iterator<K>, y: Iterator<K>)
    requires x.Parked() && y.Parked() && x.dir == y.dir && x.live == y.live
    ensures x.Equals(y) <==> x.Rank() == y.Rank()
  {
    var dir, live, n := x.dir, x.live, x.n;
    if x.p.Some? && y.p.Some? {
      if !x.Equals(y) {
        if x.idx < y.idx || (x.idx == y.idx && (x.b < y.b || (x.b == y.b && x.i < y.i))) {
          RankOrder(dir, live, x.n, x.idx, x.b, x.i, y.idx, y.b, y.i);
        } else {
          RankOrder(dir, live, x.n, y.idx, y.b, y.i, x.idx, x.b, x.i);
        }
      }
    } else if x.p.Some? {
      KeyAt(dir, live, x.n, x.idx, x.b, x.i);
      EndRank(dir, live);
    } else if y.p.Some? {
      KeyAt(dir, live, x.n, y.idx, y.b, y.i);
      EndRank(dir, live);
    }
  }

  /** A walk over `keys` from begin() towards `stop`, an end() iterator:
      `it` is at rest, and equal to `stop` exactly when it has passed every
      key. */
  ghost predicate Walk<K>(it: Iterator<K>, stop: Iterator<K>, keys: seq<K>)
    reads it, stop
  {
    it != stop && stop.p.None? && it.Parked() && keys == Elements(it.dir, it.live) &&
    it.Rank() <= |keys| && (it.Equals(stop) <==> it.Rank() == |keys|)
  }

  /** Before the end of a walk, the iterator is at key number Rank(). */
  lemma WalkAt<K>(it: Iterator<K>, stop: Iterator<K>, keys: seq<K>)
    requires Walk(it, stop, keys) && !it.Equals(stop)
    ensures it.p.Some? && it.Loose() && it.Rank() < |keys| && it.Deref() == keys[it.Rank()]
  {
    KeyAt(it.dir, it.live, it.n, it.idx, it.b, it.i);
  }

  /** A range-for loop: the keys `*it` yields from `it` up to `stop`, in
      order. From begin(), they are the keys of the traversal. */
  method Traverse<K>(it: Iterator<K>, stop: Iterator<K>, ghost keys: seq<K>) returns (ks: seq<K>)
    requires Walk(it, stop, keys) && it.Rank() == 0
    modifies it
    ensures ks == keys
  {
    ks := [];
    while !it.Equals(stop)
      invariant Walk(it, stop, keys) && ks == keys[..it.Rank()]
      decreases |keys| - it.Rank()
    {
      WalkAt(it, stop, keys);
      var k := it.Deref();
      assert keys[..it.Rank() + 1] == keys[..it.Rank()] + [k];
      ks := ks + [k];
      it.Advance(stop, keys);
    }
  }

  /** The end test: an iterator at rest is at the end exactly when it has
      passed every key. */
  lemma AtEndIffPassedAll<K>(it: Iterator<K>, stop: Iterator<K>)
    requires it.Parked() && stop.p.None?
    ensures it.Rank() <= |Elements(it.dir, it.live)|
    ensures it.Equals(stop) <==> it.Rank() == |Elements(it.dir, it.live)|
  {
    if it.p.Some? {
      KeyAt(it.dir, it.live, it.n, it.idx, it.b, it.i);
    }
  }

  /** operator++ as written re-yields keys: on a directory whose first entry
      is one bucket holding 0 and 2 (bucket capacity 2), the iteration from
      begin() yields 0, then 2, then 2 again, and only then reaches the end. */
  method AsWrittenRepeats() returns (yielded: seq<int>)
    ensures yielded == [0, 2, 2]
  {
    var full := Bucket([Used(0), Used(2)], 2);
    var none: Bucket<int> := Empty(2);
    var dir := [[full], [none]];
    assert WellFormed(full, 2);
    assert LiveOk(dir, 2, 2);
    KeysOfWellFormed(full, 2);
    assert Keys(full) == [0, 2];
    assert Elements(dir, 2) == [0, 2] by {
      assert dir[..2] == dir;
      assert dir[..1] == [[full]] && [[full]][..0] == [];
      assert [full][..0] == [] && [none][..0] == [];
      assert ChainKeys([full]) == [0, 2];
      assert ChainKeys([none]) == [];
      assert DirKeys(dir[..1]) == [0, 2];
    }
    var it := new Iterator(dir, 2, 2);
    EndRank(dir, 2);
    yielded := [it.Deref()];
    it.NextAsWritten();
    yielded := yielded + [it.Deref()];
    it.NextAsWritten();
    EndRank(dir, 2);
    yielded := yielded + [it.Deref()];
    it.NextAsWritten();
    EndRank(dir, 2);
    assert it.Rank() == |Elements(dir, 2)|;
  }
}
