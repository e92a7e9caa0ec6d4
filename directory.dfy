/** The directory of ADS_set.h (`table`, lines 100-104) as a value: a
    sequence of chains of which the first 2^d + nts are live. DirInv is the
    linear-hashing invariant; the lemmas say how it survives replacing one
    chain, opening a split and completing a round. */
module Directory {
  import opened Addressing
  import opened Buckets
  import opened Chains

  /** The keys of a directory, in directory order then chain order. */
  function DirKeys<K>(dir: seq<seq<Bucket<K>>>): seq<K>
  {
    if dir == [] then [] else DirKeys(dir[..|dir| - 1]) + ChainKeys(dir[|dir| - 1])
  }

  /** Number of live directory entries, 2^d + nts. */
  function Span(d: nat, nts: nat): nat
  {
    Pow2(d) + nts
  }

  /** The keys held by the live part of the directory, with multiplicity. */
  ghost function Stored<K>(dir: seq<seq<Bucket<K>>>, d: nat, nts: nat): multiset<K>
    requires Span(d, nts) <= |dir|
  {
    multiset(DirKeys(dir[..Span(d, nts)]))
  }

  /** Every key of chain `c` has directory index `j`. */
  ghost predicate Addressed<K>(c: seq<Bucket<K>>, j: nat, hash: K -> nat, d: nat, nts: nat)
    requires nts <= Pow2(d)
  {
    forall k :: k in ChainKeys(c) ==> FindIdx(hash(k), d, nts) == j
  }

  /** The linear-hashing invariant: the live entries exist and fit, each
      live entry holds a chain of well-formed buckets whose keys all address
      to that entry, and no key is stored twice. */
  ghost predicate DirInv<K>(dir: seq<seq<Bucket<K>>>, n: nat, hash: K -> nat, d: nat, nts: nat)
  {
    n >= 1 && nts <= Pow2(d) && Span(d, nts) <= |dir| &&
    (forall j :: 0 <= j < Span(d, nts) ==>
      ChainOk(dir[j], n) && Addressed(dir[j], j, hash, d, nts)) &&
    (forall k :: k in Stored(dir, d, nts) ==> Stored(dir, d, nts)[k] == 1)
  }

  lemma {:induction false} DirKeysConcat<K>(a: seq<seq<Bucket<K>>>, b: seq<seq<Bucket<K>>>)
    ensures DirKeys(a + b) == DirKeys(a) + DirKeys(b)
    decreases |b|
  {
    if b == [] {
      assert a + b == a;
    } else {
      assert (a + b)[..|a + b| - 1] == a + b[..|b| - 1];
      DirKeysConcat(a, b[..|b| - 1]);
    }
  }

  lemma DirKeysSplit<K>(pre: seq<seq<Bucket<K>>>, c: seq<Bucket<K>>, post: seq<seq<Bucket<K>>>)
    ensures DirKeys(pre + [c] + post) == DirKeys(pre) + ChainKeys(c) + DirKeys(post)
  {
    DirKeysConcat(pre + [c], post);
    DirKeysConcat(pre, [c]);
    assert [c][..0] == [];
  }

  /** Replacing one chain replaces its keys in the directory's multiset. */
  lemma DirKeysUpdate<K>(dir: seq<seq<Bucket<K>>>, i: nat, c: seq<Bucket<K>>)
    requires i < |dir|
    ensures multiset(DirKeys(dir[i := c])) + multiset(ChainKeys(dir[i])) ==
      multiset(DirKeys(dir)) + multiset(ChainKeys(c))
  {
    var pre, post := dir[..i], dir[i + 1..];
    assert dir == pre + [dir[i]] + post;
    assert dir[i := c] == pre + [c] + post;
    DirKeysSplit(pre, dir[i], post);
    DirKeysSplit(pre, c, post);
  }

  lemma {:induction false} DirKeysMember<K>(dir: seq<seq<Bucket<K>>>, k: K)
    ensures k in DirKeys(dir) <==> exists j :: 0 <= j < |dir| && k in ChainKeys(dir[j])
    decreases |dir|
  {
    if dir != [] {
      var init, last := dir[..|dir| - 1], dir[|dir| - 1];
      assert DirKeys(dir) == DirKeys(init) + ChainKeys(last);
      DirKeysMember(init, k);
      if k in DirKeys(init) {
        var j :| 0 <= j < |init| && k in ChainKeys(init[j]);
        assert dir[j] == init[j];
      } else if k !in ChainKeys(last) {
        forall j | 0 <= j < |dir| ensures k !in ChainKeys(dir[j]) {
          if j < |init| {
            assert init[j] == dir[j];
          }
        }
      }
    }
  }

  /** Under the invariant a key is stored iff it is in the chain its
      address names: lookups need to search one chain only. */
  lemma StoredLookup<K>(dir: seq<seq<Bucket<K>>>, n: nat, hash: K -> nat, d: nat, nts: nat, k: K)
    requires DirInv(dir, n, hash, d, nts)
    ensures k in Stored(dir, d, nts) <==> k in ChainKeys(dir[FindIdx(hash(k), d, nts)])
  {
    var live := dir[..Span(d, nts)];
    var idx := FindIdx(hash(k), d, nts);
    DirKeysMember(live, k);
    if k in Stored(dir, d, nts) {
      var j :| 0 <= j < |live| && k in ChainKeys(live[j]);
      assert live[j] == dir[j];
    } else {
      assert live[idx] == dir[idx];
    }
  }

  /** Replacing a live chain by a well-formed chain addressed to the same
      index keeps the per-chain invariants and swaps the chains' keys. */
  lemma ReplaceChain<K>(dir: seq<seq<Bucket<K>>>, n: nat, hash: K -> nat, d: nat, nts: nat,
                        idx: nat, c: seq<Bucket<K>>, dir': seq<seq<Bucket<K>>>)
    requires DirInv(dir, n, hash, d, nts) && idx < Span(d, nts)
    requires ChainOk(c, n) && Addressed(c, idx, hash, d, nts)
    requires dir' == dir[idx := c]
    ensures Span(d, nts) <= |dir'|
    ensures forall j :: 0 <= j < Span(d, nts) ==>
      ChainOk(dir'[j], n) && Addressed(dir'[j], j, hash, d, nts)
    ensures Stored(dir', d, nts) + multiset(ChainKeys(dir[idx])) ==
      Stored(dir, d, nts) + multiset(ChainKeys(c))
  {
    var live := dir[..Span(d, nts)];
    assert dir[idx := c][..Span(d, nts)] == live[idx := c];
    DirKeysUpdate(live, idx, c);
  }

  /** Storing a new key in the chain its address names. */
  lemma InsertIntoChain<K>(dir: seq<seq<Bucket<K>>>, n: nat, hash: K -> nat, d: nat, nts: nat,
                           key: K, c: seq<Bucket<K>>)
    requires DirInv(dir, n, hash, d, nts) && key !in Stored(dir, d, nts)
    requires ChainOk(c, n)
    requires multiset(ChainKeys(c)) ==
      multiset(ChainKeys(dir[FindIdx(hash(key), d, nts)])) + multiset{key}
    ensures DirInv(dir[FindIdx(hash(key), d, nts) := c], n, hash, d, nts)
    ensures Stored(dir[FindIdx(hash(key), d, nts) := c], d, nts) ==
      Stored(dir, d, nts) + multiset{key}
  {
    var idx := FindIdx(hash(key), d, nts);
    forall k | k in ChainKeys(c) ensures FindIdx(hash(k), d, nts) == idx {
      assert k in multiset(ChainKeys(c));
    }
    var dir' := dir[idx := c];
    ReplaceChain(dir, n, hash, d, nts, idx, c, dir');
    var s', s := Stored(dir', d, nts), Stored(dir, d, nts);
    AddedOne(s', s, multiset(ChainKeys(dir[idx])), multiset(ChainKeys(c)), key);
    forall k | k in s' ensures s'[k] == 1 {
      if k != key {
        assert s'[k] == s[k];
      }
    }
  }

  /** Removing a stored key from the chain its address names. */
  lemma EraseFromChain<K>(dir: seq<seq<Bucket<K>>>, n: nat, hash: K -> nat, d: nat, nts: nat,
                          key: K, c: seq<Bucket<K>>)
    requires DirInv(dir, n, hash, d, nts)
    requires ChainOk(c, n)
    requires multiset(ChainKeys(c)) + multiset{key} ==
      multiset(ChainKeys(dir[FindIdx(hash(key), d, nts)]))
    ensures DirInv(dir[FindIdx(hash(key), d, nts) := c], n, hash, d, nts)
    ensures Stored(dir[FindIdx(hash(key), d, nts) := c], d, nts) + multiset{key} ==
      Stored(dir, d, nts)
    ensures Stored(dir, d, nts)[key] == 1
    ensures |Stored(dir[FindIdx(hash(key), d, nts) := c], d, nts)| + 1 == |Stored(dir, d, nts)|
    ensures AgreeExcept(dir, dir[FindIdx(hash(key), d, nts) := c], FindIdx(hash(key), d, nts),
      FindIdx(hash(key), d, nts))
  {
    var idx := FindIdx(hash(key), d, nts);
    var dir' := dir[idx := c];
    forall k | k in ChainKeys(c) ensures FindIdx(hash(k), d, nts) == idx {
      assert k in multiset(ChainKeys(c));
      assert k in multiset(ChainKeys(dir[idx]));
    }
    ReplaceChain(dir, n, hash, d, nts, idx, c, dir');
    var s' := Stored(dir', d, nts);
    var s := Stored(dir, d, nts);
    DroppedOne(s', s, multiset(ChainKeys(dir[idx])), multiset(ChainKeys(c)), key);
    forall k | k in s' ensures s'[k] == 1 {
      assert (s' + multiset{key})[k] == s[k];
      assert k in s;
    }
    assert DirInv(dir', n, hash, d, nts);
    assert key in s;
    UpdateAgrees(dir, idx, c);
  }

  /** The first half of split(): with nts already advanced, the chain at
      old nts is detached and fresh single buckets stand at old nts and at
      2^d + old nts. Every other chain keeps its address; the detached keys
      now address to one of the two fresh entries. */
  lemma SplitOpen<K>(dir: seq<seq<Bucket<K>>>, n: nat, hash: K -> nat, d: nat, nts: nat,
                     dir': seq<seq<Bucket<K>>>)
    requires DirInv(dir, n, hash, d, nts) && nts < Pow2(d)
    requires |dir'| > Span(d, nts)
    requires dir'[nts] == [Empty(n)] && dir'[Span(d, nts)] == [Empty(n)]
    requires forall j :: 0 <= j < Span(d, nts) && j != nts ==> dir'[j] == dir[j]
    ensures DirInv(dir', n, hash, d, nts + 1)
    ensures Stored(dir', d, nts + 1) + multiset(ChainKeys(dir[nts])) == Stored(dir, d, nts)
    ensures forall k :: k in ChainKeys(dir[nts]) ==>
      FindIdx(hash(k), d, nts + 1) == nts || FindIdx(hash(k), d, nts + 1) == Span(d, nts)
  {
    SplitOpenKeys(dir, n, d, nts, dir');
    SplitOpenChains(dir, n, hash, d, nts, dir');
    var s, s' := Stored(dir, d, nts), Stored(dir', d, nts + 1);
    forall k | k in s' ensures s'[k] == 1 {
      assert k in s;
    }
    forall k | k in ChainKeys(dir[nts])
      ensures FindIdx(hash(k), d, nts + 1) == nts || FindIdx(hash(k), d, nts + 1) == Span(d, nts)
    {
      SplitReaddress(hash(k), d, nts);
    }
  }

  lemma SplitOpenKeys<K>(dir: seq<seq<Bucket<K>>>, n: nat, d: nat, nts: nat,
                         dir': seq<seq<Bucket<K>>>)
    requires nts < Pow2(d) && Span(d, nts) < |dir'| && Span(d, nts) <= |dir|
    requires dir'[nts] == [Empty(n)] && dir'[Span(d, nts)] == [Empty(n)]
    requires forall j :: 0 <= j < Span(d, nts) && j != nts ==> dir'[j] == dir[j]
    ensures Stored(dir', d, nts + 1) + multiset(ChainKeys(dir[nts])) == Stored(dir, d, nts)
  {
    var e: seq<Bucket<K>> := [Empty(n)];
    assert ChainKeys(e) == [] by { assert e[..0] == []; }
    var live := dir[..Span(d, nts)];
    var live' := dir'[..Span(d, nts + 1)];
    assert live' == live[nts := e] + [e];
    DirKeysConcat(live[nts := e], [e]);
    assert DirKeys([e]) == [] by { assert [e][..0] == []; }
    assert DirKeys(live') == DirKeys(live[nts := e]);
    DirKeysUpdate(live, nts, e);
  }

  lemma SplitOpenChains<K>(dir: seq<seq<Bucket<K>>>, n: nat, hash: K -> nat, d: nat, nts: nat,
                           dir': seq<seq<Bucket<K>>>)
    requires DirInv(dir, n, hash, d, nts) && nts < Pow2(d)
    requires |dir'| > Span(d, nts)
    requires dir'[nts] == [Empty(n)] && dir'[Span(d, nts)] == [Empty(n)]
    requires forall j :: 0 <= j < Span(d, nts) && j != nts ==> dir'[j] == dir[j]
    ensures forall j :: 0 <= j < Span(d, nts + 1) ==>
      ChainOk(dir'[j], n) && Addressed(dir'[j], j, hash, d, nts + 1)
  {
    var e: seq<Bucket<K>> := [Empty(n)];
    assert ChainKeys(e) == [] by { assert e[..0] == []; }
    forall j | 0 <= j < Span(d, nts + 1)
      ensures ChainOk(dir'[j], n) && Addressed(dir'[j], j, hash, d, nts + 1)
    {
      if j != nts && j != Span(d, nts) {
        forall k | k in ChainKeys(dir'[j]) ensures FindIdx(hash(k), d, nts + 1) == j {
          SplitReaddress(hash(k), d, nts);
        }
      }
    }
  }

  /** The end of a round (nts reaches 2^d): d grows by one and nts restarts
      at 0; the same entries stay live and every key keeps its address. */
  lemma Rollover<K>(dir: seq<seq<Bucket<K>>>, n: nat, hash: K -> nat, d: nat,
                    dir': seq<seq<Bucket<K>>>)
    requires DirInv(dir, n, hash, d, Pow2(d))
    requires |dir'| >= Span(d + 1, 0)
    requires dir'[..Span(d + 1, 0)] == dir[..Span(d + 1, 0)]
    ensures Span(d + 1, 0) == Span(d, Pow2(d))
    ensures DirInv(dir', n, hash, d + 1, 0)
    ensures Stored(dir', d + 1, 0) == Stored(dir, d, Pow2(d))
  {
    assert Span(d + 1, 0) == Span(d, Pow2(d));
    assert dir'[..Span(d + 1, 0)] == dir[..Span(d, Pow2(d))];
    forall j | 0 <= j < Span(d + 1, 0)
      ensures ChainOk(dir'[j], n) && Addressed(dir'[j], j, hash, d + 1, 0)
    {
      assert dir'[j] == dir'[..Span(d + 1, 0)][j] == dir[j];
      forall k | k in ChainKeys(dir'[j]) ensures FindIdx(hash(k), d + 1, 0) == j {
        RolloverReaddress(hash(k), d);
      }
    }
    var s := Stored(dir, d, Pow2(d));
    assert Stored(dir', d + 1, 0) == s;
    forall k | k in s ensures s[k] == 1 {
    }
  }

  /** The directory the default constructor builds: d = 1, nts = 0 and two
      chains of one empty bucket each. */
  lemma FreshDirectory<K>(dir: seq<seq<Bucket<K>>>, n: nat, hash: K -> nat)
    requires n >= 1 && |dir| == 2 && dir[0] == [Empty(n)] && dir[1] == [Empty(n)]
    ensures DirInv(dir, n, hash, 1, 0) && Stored(dir, 1, 0) == multiset{}
  {
    var e: seq<Bucket<K>> := [Empty(n)];
    assert ChainKeys(e) == [] by { assert e[..0] == []; }
    assert DirKeys([e]) == [] by { assert [e][..0] == []; }
    assert Pow2(1) == 2;
    assert dir[..Span(1, 0)] == dir && dir[..1] == [e];
  }

  /** Two directories that differ at most at entries x and y. */
  ghost predicate AgreeExcept<K>(a: seq<seq<Bucket<K>>>, b: seq<seq<Bucket<K>>>, x: nat, y: nat)
  {
    |a| == |b| && forall j :: 0 <= j < |a| && j != x && j != y ==> a[j] == b[j]
  }

  lemma AgreeExceptTrans<K>(a: seq<seq<Bucket<K>>>, b: seq<seq<Bucket<K>>>, c: seq<seq<Bucket<K>>>,
                            x: nat, y: nat)
    requires AgreeExcept(a, b, x, y) && AgreeExcept(b, c, x, y)
    ensures AgreeExcept(a, c, x, y)
  {
  }

  /** Replacing one entry changes the directory at that entry only. */
  lemma UpdateAgrees<K>(a: seq<seq<Bucket<K>>>, i: nat, c: seq<Bucket<K>>)
    requires i < |a|
    ensures AgreeExcept(a, a[i := c], i, i) && a[i := c][i] == c
  {
  }

  /** The first `live` entries of `b` are those of `a`, except entry `o`. */
  ghost predicate KeepsOthers<K>(a: seq<seq<Bucket<K>>>, b: seq<seq<Bucket<K>>>, live: nat, o: nat)
  {
    live <= |a| && live <= |b| && forall j :: 0 <= j < live && j != o ==> b[j] == a[j]
  }

  lemma KeepsOthersThen<K>(a: seq<seq<Bucket<K>>>, b: seq<seq<Bucket<K>>>, c: seq<seq<Bucket<K>>>,
                           live: nat, o: nat)
    requires KeepsOthers(a, b, live, o) && AgreeExcept(b, c, o, live)
    ensures KeepsOthers(a, c, live, o)
  {
  }

  /** The chain `key` addresses is a single bucket. */
  ghost predicate AloneIn<K>(dir: seq<seq<Bucket<K>>>, hash: K -> nat, d: nat, nts: nat, key: K)
  {
    nts <= Pow2(d) && FindIdx(hash(key), d, nts) < |dir| && |dir[FindIdx(hash(key), d, nts)]| == 1
  }

  /** Splitting entry `o` keeps a single-bucket chain single: a key whose
      chain did not change is still addressed to it, and a key of the split
      chain moves to one of the two halves. */
  lemma SplitKeepsSingle<K>(dir: seq<seq<Bucket<K>>>, dir': seq<seq<Bucket<K>>>,
                            hash: K -> nat, d: nat, o: nat, key: K)
    requires o < Pow2(d) && Span(d, o) <= |dir| && Span(d, o) < |dir'|
    requires KeepsOthers(dir, dir', Span(d, o), o)
    requires |dir[o]| == 1 ==> |dir'[o]| == 1 && |dir'[Span(d, o)]| == 1
    ensures AloneIn(dir, hash, d, o, key) ==> AloneIn(dir', hash, d, o + 1, key)
  {
    SplitReaddress(hash(key), d, o);
  }

  /** Completing a round keeps a single-bucket chain single. */
  lemma RolloverKeepsSingle<K>(dir: seq<seq<Bucket<K>>>, dir': seq<seq<Bucket<K>>>,
                               hash: K -> nat, d: nat, key: K)
    requires |dir| >= Pow2(d + 1) && |dir'| >= Pow2(d + 1)
    requires dir'[..Pow2(d + 1)] == dir[..Pow2(d + 1)]
    ensures AloneIn(dir, hash, d, Pow2(d), key) ==> AloneIn(dir', hash, d + 1, 0, key)
  {
    RolloverReaddress(hash(key), d);
    var i := FindIdx(hash(key), d + 1, 0);
    assert dir'[i] == dir'[..Pow2(d + 1)][i];
  }

  /** `now` holds exactly the elements of `before` and of `ks`. */
  ghost predicate Covers<K>(now: multiset<K>, before: multiset<K>, ks: seq<K>)
  {
    (forall k | k in now :: k in before || k in ks) &&
    (forall k | k in before :: k in now) &&
    (forall i | 0 <= i < |ks| :: ks[i] in now)
  }

  /** Making sure the next element `ks[i]` is present extends the cover
      of the prefix `ks[..i]` by one. */
  lemma CoversStep<K>(now: multiset<K>, prev: multiset<K>, before: multiset<K>, ks: seq<K>, i: nat)
    requires i < |ks| && Covers(prev, before, ks[..i])
    requires ks[i] in now && (now == prev || now == prev + multiset{ks[i]})
    ensures Covers(now, before, ks[..i + 1])
  {
    assert ks[..i + 1] == ks[..i] + [ks[i]];
  }
}
