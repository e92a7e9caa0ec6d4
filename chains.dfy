/** A primary bucket together with its overflow buckets (the `overflow`
    links of ADS_set.h), as a sequence in link order. The empty sequence
    would stand for a null directory entry; every live directory entry
    holds at least its primary bucket. */
module Chains {
  import opened Buckets

  /** The keys of a chain, bucket by bucket in link order. */
  function ChainKeys<K>(c: seq<Bucket<K>>): seq<K>
  {
    if c == [] then [] else ChainKeys(c[..|c| - 1]) + Keys(c[|c| - 1])
  }

  ghost predicate ChainOk<K>(c: seq<Bucket<K>>, n: nat)
  {
    |c| >= 1 && forall i :: 0 <= i < |c| ==> WellFormed(c[i], n)
  }

  lemma {:induction false} ChainKeysConcat<K>(a: seq<Bucket<K>>, b: seq<Bucket<K>>)
    ensures ChainKeys(a + b) == ChainKeys(a) + ChainKeys(b)
    decreases |b|
  {
    if b == [] {
      assert a + b == a;
    } else {
      var init, last := b[..|b| - 1], b[|b| - 1];
      var ab := a + b;
      assert ab[..|ab| - 1] == a + init && ab[|ab| - 1] == last;
      assert ChainKeys(ab) == ChainKeys(a + init) + Keys(last);
      ChainKeysConcat(a, init);
      assert ChainKeys(b) == ChainKeys(init) + Keys(last);
    }
  }

  lemma ChainKeysSplit<K>(pre: seq<Bucket<K>>, x: Bucket<K>, post: seq<Bucket<K>>)
    ensures ChainKeys(pre + [x] + post) == ChainKeys(pre) + Keys(x) + ChainKeys(post)
  {
    ChainKeysConcat(pre + [x], post);
    ChainKeysConcat(pre, [x]);
    assert [x][..0] == [];
  }

  /** Replacing one bucket replaces its keys in the chain's key multiset. */
  lemma ChainKeysUpdate<K>(c: seq<Bucket<K>>, i: nat, b: Bucket<K>)
    requires i < |c|
    ensures multiset(ChainKeys(c[i := b])) + multiset(Keys(c[i])) ==
      multiset(ChainKeys(c)) + multiset(Keys(b))
  {
    var pre, post := c[..i], c[i + 1..];
    assert c == pre + [c[i]] + post;
    assert c[i := b] == pre + [b] + post;
    ChainKeysSplit(pre, c[i], post);
    ChainKeysSplit(pre, b, post);
  }

  /** A key of bucket i is a key of the chain. */
  lemma {:induction false} ChainKeysHas<K>(c: seq<Bucket<K>>, i: nat, k: K)
    requires i < |c| && k in Keys(c[i])
    ensures k in ChainKeys(c)
    decreases |c|
  {
    var init := c[..|c| - 1];
    assert ChainKeys(c) == ChainKeys(init) + Keys(c[|c| - 1]);
    if i < |init| {
      assert init[i] == c[i];
      ChainKeysHas(init, i, k);
    }
  }

  /** The last bucket, in link order, that holds a given key of the chain: no later bucket holds it. */
  ghost function BucketOf<K>(c: seq<Bucket<K>>, k: K): (i: nat)
    requires k in ChainKeys(c)
    ensures i < |c| && k in Keys(c[i])
    ensures forall j :: i < j < |c| ==> k !in Keys(c[j])
    decreases |c|
  {
    var init := c[..|c| - 1];
    assert ChainKeys(c) == ChainKeys(init) + Keys(c[|c| - 1]);
    if k in Keys(c[|c| - 1]) then |c| - 1
    else
      var i := BucketOf(init, k);
      assert forall j :: i < j < |init| ==> init[j] == c[j];
      i
  }

  lemma ChainKeysMember<K>(c: seq<Bucket<K>>, k: K)
    ensures k in ChainKeys(c) <==> exists i :: 0 <= i < |c| && k in Keys(c[i])
  {
    if k in ChainKeys(c) {
      var i := BucketOf(c, k);
    }
    if exists i :: 0 <= i < |c| && k in Keys(c[i]) {
      var i :| 0 <= i < |c| && k in Keys(c[i]);
      ChainKeysHas(c, i, k);
    }
  }

  /** Append to the primary bucket (the first branch of insert_ and
      insert_nosplit). */
  function AppendPrimary<K>(c: seq<Bucket<K>>, n: nat, key: K): (r: seq<Bucket<K>>)
    requires ChainOk(c, n) && c[0].current < n
    ensures ChainOk(r, n) && |r| == |c| && r[1..] == c[1..]
    ensures r[0].current == c[0].current + 1 && Keys(r[0]) == Keys(c[0]) + [key]
    ensures multiset(ChainKeys(r)) == multiset(ChainKeys(c)) + multiset{key}
  {
    AppendInChain(c, n, 0, key);
    c[0 := Append(c[0], n, key)]
  }

  /** Appending the key to bucket i adds it to the chain. */
  lemma AppendInChain<K>(c: seq<Bucket<K>>, n: nat, i: nat, key: K)
    requires ChainOk(c, n) && i < |c| && c[i].current < n
    ensures ChainOk(c[i := Append(c[i], n, key)], n)
    ensures multiset(ChainKeys(c[i := Append(c[i], n, key)])) ==
      multiset(ChainKeys(c)) + multiset{key}
  {
    var b := Append(c[i], n, key);
    ChainOkUpdate(c, n, i, b);
    ChainKeysUpdate(c, i, b);
    AddedOne(multiset(ChainKeys(c[i := b])), multiset(ChainKeys(c)), multiset(Keys(c[i])),
      multiset(Keys(b)), key);
  }

  /** allocate_overflow on a chain without overflow: a new bucket holding
      the key becomes the primary bucket's overflow. */
  function AttachOverflow<K>(c: seq<Bucket<K>>, n: nat, key: K): (r: seq<Bucket<K>>)
    requires ChainOk(c, n) && |c| == 1 && n >= 1
    ensures ChainOk(r, n) && |r| == 2 && r[0] == c[0]
    ensures ChainKeys(r) == ChainKeys(c) + [key]
  {
    var r := c + [Single(n, key)];
    assert r[..|r| - 1] == c;
    r
  }

  /** insert_overflow: append to the first overflow bucket if it has room,
      otherwise link a new bucket holding the key directly behind the
      primary bucket, in front of the existing overflow buckets. */
  function PushOverflow<K>(c: seq<Bucket<K>>, n: nat, key: K): (r: seq<Bucket<K>>)
    requires ChainOk(c, n) && |c| >= 2 && n >= 1 && c[0].current == n
    ensures ChainOk(r, n) && r[0] == c[0]
    ensures c[1].current < n ==> |r| == |c| && r[1].current == c[1].current + 1
    ensures c[1].current < n ==> Keys(r[1]) == Keys(c[1]) + [key] && r[2..] == c[2..]
    ensures c[1].current == n ==> |r| == |c| + 1 && r[2..] == c[1..]
    ensures c[1].current == n ==> r[1].current == 1 && Keys(r[1]) == [key]
    ensures multiset(ChainKeys(r)) == multiset(ChainKeys(c)) + multiset{key}
  {
    if c[1].current != n || c[0].current == 0 then
      AppendInChain(c, n, 1, key);
      c[1 := Append(c[1], n, key)]
    else
      var r := [c[0]] + [Single(n, key)] + c[1..];
      LinkBehindPrimary(c, n, key, r);
      r
  }

  lemma LinkBehindPrimary<K>(c: seq<Bucket<K>>, n: nat, key: K, r: seq<Bucket<K>>)
    requires ChainOk(c, n) && |c| >= 2 && n >= 1
    requires r == [c[0]] + [Single(n, key)] + c[1..]
    ensures ChainOk(r, n) && r[2..] == c[1..]
    ensures multiset(ChainKeys(r)) == multiset(ChainKeys(c)) + multiset{key}
  {
    LinkBehindPrimaryKeys(c, Single(n, key), key);
    LinkIndices(c, Single(n, key), r);
    forall i | 0 <= i < |r| ensures WellFormed(r[i], n) {
      if i >= 2 {
        assert r[i] == c[i - 1];
      }
    }
  }

  /** Where each bucket of `c` sits once `s` is linked behind the primary. */
  lemma LinkIndices<K>(c: seq<Bucket<K>>, s: Bucket<K>, r: seq<Bucket<K>>)
    requires |c| >= 1 && r == [c[0]] + [s] + c[1..]
    ensures |r| == |c| + 1 && r[0] == c[0] && r[1] == s && r[2..] == c[1..]
    ensures forall i :: 2 <= i < |r| ==> r[i] == c[i - 1]
  {
    assert r[2..] == c[1..];
    forall i | 2 <= i < |r| ensures r[i] == c[i - 1] {
      assert r[i] == r[2..][i - 2];
    }
  }

  lemma LinkBehindPrimaryKeys<K>(c: seq<Bucket<K>>, s: Bucket<K>, key: K)
    requires |c| >= 1 && Keys(s) == [key]
    ensures multiset(ChainKeys([c[0]] + [s] + c[1..])) == multiset(ChainKeys(c)) + multiset{key}
  {
    ChainKeysSplit([c[0]], s, c[1..]);
    ChainKeysFirst(c);
    InsertedMultiset(Keys(c[0]), key, ChainKeys(c[1..]));
  }

  /** The keys of a chain: those of its primary bucket, then the rest. */
  lemma ChainKeysFirst<K>(c: seq<Bucket<K>>)
    requires |c| >= 1
    ensures ChainKeys([c[0]]) == Keys(c[0])
    ensures ChainKeys(c) == Keys(c[0]) + ChainKeys(c[1..])
  {
    assert [c[0]][..0] == [];
    ChainKeysConcat([c[0]], c[1..]);
    assert c == [c[0]] + c[1..];
  }

  /** Replacing bucket `i` by the result of removing `key` from it
      removes `key` from the chain. */
  lemma EraseInChain<K>(c: seq<Bucket<K>>, n: nat, i: nat, nb: Bucket<K>, key: K)
    requires ChainOk(c, n) && i < |c| && WellFormed(nb, n) && key in Keys(c[i])
    requires multiset(Keys(nb)) == multiset(Keys(c[i])) - multiset{key}
    ensures ChainOk(c[i := nb], n)
    ensures multiset(ChainKeys(c[i := nb])) + multiset{key} == multiset(ChainKeys(c))
  {
    ChainOkUpdate(c, n, i, nb);
    ChainKeysUpdate(c, i, nb);
    RemovedOne(multiset(ChainKeys(c[i := nb])), multiset(ChainKeys(c)), multiset(Keys(c[i])),
      multiset(Keys(nb)), key);
  }

  /** A well-formed bucket in place of bucket i keeps the chain well formed. */
  lemma ChainOkUpdate<K>(c: seq<Bucket<K>>, n: nat, i: nat, nb: Bucket<K>)
    requires ChainOk(c, n) && i < |c| && WellFormed(nb, n)
    ensures ChainOk(c[i := nb], n)
  {
    var r := c[i := nb];
    forall j | 0 <= j < |r| ensures WellFormed(r[j], n) {
      if j != i {
        assert r[j] == c[j];
      }
    }
  }

  /** The walk of search_bucket over one chain: the first bucket, in
      link order, whose bucket::find sees the key. */
  method SearchChain<K(==)>(c: seq<Bucket<K>>, n: nat, key: K) returns (b: Option<nat>)
    requires ChainOk(c, n)
    ensures b.Some? <==> key in ChainKeys(c)
    ensures b.Some? ==> b.value < |c| && key in Keys(c[b.value]) && c[b.value].current > 0
    ensures b.Some? ==> forall j :: 0 <= j < b.value ==> key !in Keys(c[j])
  {
    ChainKeysMember(c, key);
    var j := 0;
    while j < |c|
      invariant j <= |c|
      invariant forall i :: 0 <= i < j ==> key !in Keys(c[i])
    {
      var slot := FindSlot(c[j], n, key);
      if slot.Some? {
        KeysOfWellFormed(c[j], n);
        return Some(j);
      }
      j := j + 1;
    }
    return None;
  }

  /** The walk of find_ over one chain: every slot of every bucket, in link
      order, until a used slot holds the key. */
  method ScanChain<K(==)>(c: seq<Bucket<K>>, n: nat, key: K) returns (pos: Option<(nat, nat)>)
    requires ChainOk(c, n)
    ensures pos.Some? <==> key in ChainKeys(c)
    ensures pos.Some? ==>
      pos.value.0 < |c| && pos.value.1 < n && c[pos.value.0].block[pos.value.1] == Used(key)
    ensures pos.Some? ==> forall j :: 0 <= j < pos.value.0 ==> key !in Keys(c[j])
    ensures pos.Some? ==> forall s :: 0 <= s < pos.value.1 ==> c[pos.value.0].block[s] != Used(key)
  {
    ChainKeysMember(c, key);
    var b := 0;
    while b < |c|
      invariant b <= |c|
      invariant forall j :: 0 <= j < b ==> key !in Keys(c[j])
    {
      KeysOfWellFormed(c[b], n);
      var i := 0;
      while i < n
        invariant i <= n
        invariant forall s :: 0 <= s < i ==> c[b].block[s] != Used(key)
      {
        if c[b].block[i].Used? && c[b].block[i].key == key {
          assert Keys(c[b])[i] == key;
          return Some((b, i));
        }
        i := i + 1;
      }
      assert forall s :: 0 <= s < c[b].current ==> Keys(c[b])[s] != key;
      b := b + 1;
    }
    return None;
  }

  /** A used slot of a block splits its used keys around its own key. */
  lemma {:induction false} PendingSlot<K>(blk: seq<Slot<K>>, s: nat, key: K)
    requires s < |blk| && blk[s] == Used(key)
    ensures UsedKeys(blk) == UsedKeys(blk[..s]) + [key] + UsedKeys(blk[s + 1..])
    ensures key in UsedKeys(blk)
    ensures multiset(UsedKeys(blk[..s])) + multiset{key} <= multiset(UsedKeys(blk))
  {
    UsedKeysConcat(blk[..s], blk[s..]);
    assert blk == blk[..s] + blk[s..];
    UsedKeysConcat([blk[s]], blk[s + 1..]);
    assert blk[s..] == [blk[s]] + blk[s + 1..];
    assert UsedKeys([blk[s]]) == [key] by { assert [blk[s]][..0] == []; }
  }

  /** One more visited slot. */
  lemma UsedKeysStep<K>(blk: seq<Slot<K>>, s: nat)
    requires s < |blk|
    ensures UsedKeys(blk[..s + 1]) ==
      UsedKeys(blk[..s]) + (if blk[s].Used? then [blk[s].key] else [])
  {
    assert blk[..s + 1][..s] == blk[..s];
  }

  /** One more visited bucket. */
  lemma ChainKeysStep<K>(c: seq<Bucket<K>>, bi: nat)
    requires bi < |c|
    ensures ChainKeys(c[..bi + 1]) == ChainKeys(c[..bi]) + Keys(c[bi])
  {
    assert c[..bi + 1][..bi] == c[..bi];
  }

  /** The keys of a prefix of a chain are among the chain's keys. */
  lemma ChainKeysPrefix<K>(c: seq<Bucket<K>>, i: nat)
    requires i <= |c|
    ensures multiset(ChainKeys(c[..i])) <= multiset(ChainKeys(c))
  {
    ChainKeysConcat(c[..i], c[i..]);
    assert c == c[..i] + c[i..];
  }

  /** The rehash loop visiting bucket `bi` of a detached chain whose keys,
      together with `start`, are free of repetitions. */
  lemma {:induction false} DetachedBucket<K>(start: multiset<K>, det: seq<Bucket<K>>, bi: nat)
    requires bi < |det|
    requires NoRepeats(start + multiset(ChainKeys(det)))
    ensures multiset(ChainKeys(det[..bi + 1])) ==
      multiset(ChainKeys(det[..bi])) + multiset(Keys(det[bi]))
    ensures forall k :: k in Keys(det[bi]) ==> k in ChainKeys(det)
    ensures NoRepeats(start + multiset(ChainKeys(det[..bi])) + multiset(Keys(det[bi])))
  {
    ChainKeysStep(det, bi);
    ChainKeysPrefix(det, bi + 1);
    var upto, all := multiset(ChainKeys(det[..bi + 1])), multiset(ChainKeys(det));
    forall k | k in Keys(det[bi]) ensures k in ChainKeys(det) {
      assert k in upto;
    }
    var x := start + multiset(ChainKeys(det[..bi])) + multiset(Keys(det[bi]));
    assert x == start + upto;
    NoRepeatsBelow(x, start + all);
  }
}
