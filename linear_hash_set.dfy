/** The set container ADS_set<Key, N> of ADS_set.h: a directory of bucket
    chains grown by linear hashing. The directory `table` is an array whose
    first 2^d + nts entries are live; `nts` is the next bucket to split and
    `d` the round number. */
module LinearHashing {
  import opened Addressing
  import opened Buckets
  import opened Chains
  import opened Directory
  import opened Iteration

  /** Where a key sits: directory index, position in the chain, slot. */
  datatype Position = End | At(idx: nat, bucket: nat, slot: nat)

  class LinearHashSet<K(==)> {
    /** Bucket capacity (the template parameter N). */
    const N: nat
    /** The key hash (the `hasher` capability). */
    const hash: K -> nat

    var table: array<seq<Bucket<K>>>
    var currSize: nat
    /** table_size: the capacity the split test consults. It is not always
        the allocated length: rehash_round doubles it but allocates
        2^(d+1) + 1 entries. */
    var tableSize: nat
    var nts: nat
    var d: nat

    /** The stored keys with multiplicity (at most one each under Valid). */
    ghost function Contents(): multiset<K>
      reads this`table, this`d, this`nts, table
      requires Span(d, nts) <= table.Length
    {
      Stored(table[..], d, nts)
    }

    /** The directory invariant; it also holds inside a split, where nts
        may momentarily equal 2^d. */
    ghost predicate Shaped()
      reads this`table, this`d, this`nts, table
    {
      DirInv(table[..], N, hash, d, nts)
    }

    /** What keeps split's writes inside the array: table_size covers the
        live entries, and either the array is at least table_size long or
        it has room for a whole round of splits (2^(d+1) + 1 entries). */
    ghost predicate Roomy()
      reads this`table, this`d, this`nts, this`tableSize
    {
      Span(d, nts) <= tableSize && (tableSize <= table.Length || Pow2(d + 1) < table.Length)
    }

    /** The container invariant: Shaped, Roomy, 0 <= nts < 2^d, and
        curr_size counts the stored keys. */
    ghost predicate Valid()
      reads this, table
    {
      Shaped() && Roomy() && nts < Pow2(d) && currSize == |Contents()|
    }

    /** The chain at a key's address. */
    ghost function Home(key: K): (c: seq<Bucket<K>>)
      reads this`table, this`d, this`nts, table
      requires Shaped()
      ensures c == table[FindIdx(hash(key), d, nts)] && |c| >= 1
    {
      table[FindIdx(hash(key), d, nts)]
    }

    /** Entries `o` and `top` are chains of a single bucket. */
    ghost predicate Single(o: nat, top: nat)
      reads this`table, table
    {
      o < table.Length && top < table.Length && |table[o]| == 1 && |table[top]| == 1
    }

    /** Entries `o` and `top` are chains of a single bucket holding `m`
        keys between them. */
    ghost predicate Filled(o: nat, top: nat, m: nat)
      reads this`table, table
    {
      Single(o, top) && table[o][0].current + table[top][0].current == m
    }

    /** Entries `o` and `top` are chains of a single empty bucket, as a
        split leaves them before its rehash loop. */
    ghost predicate Emptied(o: nat, top: nat)
      reads this`table, table
    {
      Filled(o, top, 0)
    }

    /** The default constructor: d = 1, nts = 0, two empty buckets. */
    constructor (n: nat, h: K -> nat)
      requires n >= 1
      ensures Valid() && fresh(table)
      ensures N == n && hash == h && d == 1 && nts == 0 && table.Length == 2 && tableSize == 2
      ensures Contents() == multiset{} && currSize == 0
    {
      N, hash := n, h;
      d, nts, currSize, tableSize := 1, 0, 0, 2;
      table := new seq<Bucket<K>>[2](_ => [Empty(n)]);
      new;
      FreshDirectory(table[..], n, h);
    }

    /** size() */
    function Size(): (s: nat)
      reads this, table
      requires Valid()
      ensures s == |Contents()|
    {
      currSize
    }

    /** empty() */
    function IsEmpty(): (e: bool)
      reads this, table
      requires Valid()
      ensures e <==> Contents() == multiset{}
    {
      currSize == 0
    }

    /** find_, with the walk over the whole addressed chain: every used
        slot of every bucket in link order is compared with the key. */
    method Find(key: K) returns (p: Position)
      requires Shaped()
      ensures p.At? <==> key in Contents()
      ensures p.At? ==>
        p.idx == FindIdx(hash(key), d, nts) && p.bucket < |table[p.idx]| &&
        p.slot < N && table[p.idx][p.bucket].block[p.slot] == Used(key)
      ensures p.At? ==> forall j :: 0 <= j < p.bucket ==> key !in Keys(table[p.idx][j])
      ensures p.At? ==> forall s :: 0 <= s < p.slot ==> table[p.idx][p.bucket].block[s] != Used(key)
    {
      var idx := FindIdx(hash(key), d, nts);
      StoredLookup(table[..], N, hash, d, nts, key);
      var pos := ScanChain(table[idx], N, key);
      p := if pos.Some? then At(idx, pos.value.0, pos.value.1) else End;
    }

    /** find_ as written: it gives up when the primary bucket is empty,
        without looking at the overflow buckets behind it. */
    method FindAsWritten(key: K) returns (p: Position)
      requires Shaped()
      ensures p.At? <==> table[FindIdx(hash(key), d, nts)][0].current != 0 && key in Contents()
    {
      var idx := FindIdx(hash(key), d, nts);
      if table[idx][0].current == 0 {
        return End;
      }
      p := Find(key);
    }

    /** search_bucket: the bucket of the addressed chain that holds the key. */
    method SearchBucket(key: K) returns (b: Option<nat>)
      requires Shaped()
      ensures b.Some? <==> key in Contents()
      ensures b.Some? ==>
        b.value < |table[FindIdx(hash(key), d, nts)]| &&
        key in Keys(table[FindIdx(hash(key), d, nts)][b.value]) &&
        table[FindIdx(hash(key), d, nts)][b.value].current > 0
    {
      var idx := FindIdx(hash(key), d, nts);
      StoredLookup(table[..], N, hash, d, nts, key);
      b := SearchChain(table[idx], N, key);
    }

    /** count: 0 or 1. */
    method Count(key: K) returns (c: nat)
      requires Valid()
      ensures c <= 1 && c == Contents()[key]
    {
      var p := Find(key);
      c := if p.At? then 1 else 0;
    }

    /** allocate_overflow: called only when the addressed chain has no
        overflow bucket; a new bucket holding the key is linked behind the
        primary bucket. */
    method AllocateOverflow(key: K)
      requires Shaped() && key !in Contents()
      requires |table[FindIdx(hash(key), d, nts)]| == 1
      modifies table
      ensures Shaped() && Contents() == old(Contents()) + multiset{key}
      ensures |table[FindIdx(hash(key), d, nts)]| == 2
      ensures table[FindIdx(hash(key), d, nts)][0] == old(table[FindIdx(hash(key), d, nts)][0])
      ensures Keys(table[FindIdx(hash(key), d, nts)][1]) == [key]
      ensures AgreeExcept(old(table[..]), table[..], FindIdx(hash(key), d, nts),
        FindIdx(hash(key), d, nts))
    {
      var idx := FindIdx(hash(key), d, nts);
      var c := AttachOverflow(table[idx], N, key);
      InsertIntoChain(table[..], N, hash, d, nts, key, c);
      table[idx] := c;
      assert table[..] == old(table[..])[idx := c];
    }

    /** insert_overflow: called only when the primary bucket is full and an
        overflow bucket exists; the key goes into the first overflow bucket
        or into a new bucket linked in front of it. */
    method InsertOverflow(key: K)
      requires Shaped() && key !in Contents()
      requires |Home(key)| >= 2 && Home(key)[0].current == N
      modifies table
      ensures Shaped() && Contents() == old(Contents()) + multiset{key}
      ensures Home(key)[0] == old(Home(key)[0])
      ensures old(Home(key)[1].current) < N ==>
        |Home(key)| == |old(Home(key))| && Home(key)[1].current == old(Home(key)[1].current) + 1
      ensures old(Home(key)[1].current) < N ==>
        Keys(Home(key)[1]) == Keys(old(Home(key)[1])) + [key] && Home(key)[2..] == old(Home(key)[2..])
      ensures old(Home(key)[1].current) == N ==>
        |Home(key)| == |old(Home(key))| + 1 && Home(key)[2..] == old(Home(key)[1..]) &&
        Keys(Home(key)[1]) == [key]
      ensures AgreeExcept(old(table[..]), table[..], FindIdx(hash(key), d, nts),
        FindIdx(hash(key), d, nts))
    {
      var idx := FindIdx(hash(key), d, nts);
      var c := PushOverflow(table[idx], N, key);
      InsertIntoChain(table[..], N, hash, d, nts, key, c);
      table[idx] := c;
      assert table[..] == old(table[..])[idx := c];
    }

    /** The append idiom on the primary bucket of the addressed chain, as
        insert_ and insert_nosplit write it out. */
    method InsertPrimary(key: K)
      requires Shaped() && key !in Contents()
      requires table[FindIdx(hash(key), d, nts)][0].current < N
      modifies table
      ensures Shaped() && Contents() == old(Contents()) + multiset{key}
      ensures AgreeExcept(old(table[..]), table[..], FindIdx(hash(key), d, nts),
        FindIdx(hash(key), d, nts))
      ensures |table[FindIdx(hash(key), d, nts)]| == |old(table[FindIdx(hash(key), d, nts)])|
      ensures table[FindIdx(hash(key), d, nts)][0].current ==
        old(table[FindIdx(hash(key), d, nts)][0].current) + 1
      ensures Keys(table[FindIdx(hash(key), d, nts)][0]) ==
        Keys(old(table[FindIdx(hash(key), d, nts)][0])) + [key]
      ensures table[FindIdx(hash(key), d, nts)][1..] == old(table[FindIdx(hash(key), d, nts)][1..])
    {
      var idx := FindIdx(hash(key), d, nts);
      var c := AppendPrimary(table[idx], N, key);
      InsertIntoChain(table[..], N, hash, d, nts, key, c);
      table[idx] := c;
      assert table[..] == old(table[..])[idx := c];
    }

    /** insert_nosplit: store a key that is not yet present without ever
        splitting; a full primary bucket sends it to the overflow chain. */
    method InsertNoSplit(key: K)
      requires Shaped() && key !in Contents()
      modifies table
      ensures Shaped() && Contents() == old(Contents()) + multiset{key}
      ensures AgreeExcept(old(table[..]), table[..], FindIdx(hash(key), d, nts),
        FindIdx(hash(key), d, nts))
      ensures old(table[FindIdx(hash(key), d, nts)][0].current) < N ==>
        |table[FindIdx(hash(key), d, nts)]| == |old(table[FindIdx(hash(key), d, nts)])| &&
        table[FindIdx(hash(key), d, nts)][0].current ==
          old(table[FindIdx(hash(key), d, nts)][0].current) + 1
    {
      var idx := FindIdx(hash(key), d, nts);
      if table[idx][0].current != N || table[idx][0].current == 0 {
        InsertPrimary(key);
      } else {
        var p := FindAsWritten(key);
        if p.End? {
          if |table[idx]| == 1 {
            AllocateOverflow(key);
          } else {
            InsertOverflow(key);
          }
        }
      }
    }

    /** The loop shared by rehash_p and rehash_split: every used slot of the
        detached chain `det`, bucket by bucket, is stored again with
        insert_nosplit. Bucket `o` has just been split, so its keys now
        address to `o` or to `o + 2^d`, both of which start empty. */
    method Redistribute(det: seq<Bucket<K>>, ghost o: nat)
      requires Shaped() && o < Pow2(d) && nts == o + 1 && ChainOk(det, N)
      requires table[o] == [Empty(N)] && table[Span(d, o)] == [Empty(N)]
      requires forall k :: k in ChainKeys(det) ==>
        FindIdx(hash(k), d, nts) == o || FindIdx(hash(k), d, nts) == Span(d, o)
      requires NoRepeats(Contents() + multiset(ChainKeys(det)))
      modifies table
      ensures Shaped() && Contents() == old(Contents()) + multiset(ChainKeys(det))
      ensures AgreeExcept(old(table[..]), table[..], o, Span(d, o))
      ensures |det| == 1 ==> Single(o, Span(d, o))
    {
      ghost var start := Contents();
      var top := Span(d, o);
      assert Emptied(o, top);
      var bi := 0;
      assert det[..bi] == [];
      while bi < |det|
        invariant bi <= |det| && Shaped()
        invariant Contents() == start + multiset(ChainKeys(det[..bi]))
        invariant AgreeExcept(old(table[..]), table[..], o, top)
        invariant bi == 0 ==> Emptied(o, top)
        invariant |det| == 1 && bi == 1 ==> Single(o, top)
      {
        ghost var before := table[..];
        RedistributeBucket(det, bi, o, start, bi == 0);
        AgreeExceptTrans(old(table[..]), before, table[..], o, top);
        bi := bi + 1;
      }
      assert det[..bi] == det;
    }

    /** One bucket `det[bi]` of the rehash loop; `fromEmpty` marks the
        first bucket, which finds both halves of the split empty. */
    method RedistributeBucket(det: seq<Bucket<K>>, bi: nat, ghost o: nat, ghost start: multiset<K>,
                              ghost fromEmpty: bool)
      requires Shaped() && o < Pow2(d) && nts == o + 1 && ChainOk(det, N) && bi < |det|
      requires forall k :: k in ChainKeys(det) ==>
        FindIdx(hash(k), d, nts) == o || FindIdx(hash(k), d, nts) == Span(d, o)
      requires NoRepeats(start + multiset(ChainKeys(det)))
      requires Contents() == start + multiset(ChainKeys(det[..bi]))
      requires fromEmpty ==> Emptied(o, Span(d, o))
      modifies table
      ensures Shaped() && Contents() == start + multiset(ChainKeys(det[..bi + 1]))
      ensures AgreeExcept(old(table[..]), table[..], o, Span(d, o))
      ensures old(Emptied(o, Span(d, o))) ==> Single(o, Span(d, o))
      ensures fromEmpty ==> Single(o, Span(d, o))
    {
      DetachedBucket(start, det, bi);
      RedistributeSlots(det[bi], o, start + multiset(ChainKeys(det[..bi])));
    }

    /** The used slots of one detached bucket, in slot order. */
    method RedistributeSlots(bk: Bucket<K>, ghost o: nat, ghost base: multiset<K>)
      requires Shaped() && o < Pow2(d) && nts == o + 1 && WellFormed(bk, N)
      requires forall k :: k in Keys(bk) ==>
        FindIdx(hash(k), d, nts) == o || FindIdx(hash(k), d, nts) == Span(d, o)
      requires NoRepeats(base + multiset(Keys(bk)))
      requires Contents() == base
      modifies table
      ensures Shaped() && Contents() == base + multiset(Keys(bk))
      ensures AgreeExcept(old(table[..]), table[..], o, Span(d, o))
      ensures old(Emptied(o, Span(d, o))) ==> Single(o, Span(d, o))
    {
      ghost var fromEmpty := Emptied(o, Span(d, o));
      ghost var moved := 0;
      var top := Span(d, o);
      var s := 0;
      assert bk.block[..s] == [];
      while s < N
        invariant s <= N && Shaped()
        invariant Contents() == base + multiset(UsedKeys(bk.block[..s]))
        invariant AgreeExcept(old(table[..]), table[..], o, top)
        invariant fromEmpty ==> Filled(o, top, moved) && moved <= s
      {
        ghost var before := table[..];
        RedistributeSlot(bk, s, o, base, moved);
        AgreeExceptTrans(old(table[..]), before, table[..], o, top);
        if bk.block[s].Used? {
          moved := moved + 1;
        }
        s := s + 1;
      }
      assert bk.block[..N] == bk.block;
    }

    /** One slot of the rehash loop: a used slot's key is stored again. */
    method RedistributeSlot(bk: Bucket<K>, s: nat, ghost o: nat, ghost start: multiset<K>,
                            ghost m: nat)
      requires Shaped() && o < Pow2(d) && nts == o + 1 && WellFormed(bk, N) && s < N
      requires forall k :: k in Keys(bk) ==>
        FindIdx(hash(k), d, nts) == o || FindIdx(hash(k), d, nts) == Span(d, o)
      requires NoRepeats(start + multiset(Keys(bk)))
      requires Contents() == start + multiset(UsedKeys(bk.block[..s]))
      modifies table
      ensures Shaped() && Contents() == start + multiset(UsedKeys(bk.block[..s + 1]))
      ensures AgreeExcept(old(table[..]), table[..], o, Span(d, o))
      ensures !bk.block[s].Used? ==> table[..] == old(table[..])
      ensures bk.block[s].Used? && old(Filled(o, Span(d, o), m)) && m < N ==>
        Filled(o, Span(d, o), m + 1)
    {
      UsedKeysStep(bk.block, s);
      ghost var done := multiset(UsedKeys(bk.block[..s]));
      if bk.block[s].Used? {
        var key := bk.block[s].key;
        PendingSlot(bk.block, s, key);
        assert (start + multiset(Keys(bk)))[key] == 1;
        Rehome(key, o, m);
        assert multiset(UsedKeys(bk.block[..s + 1])) == done + multiset{key};
      } else {
        assert UsedKeys(bk.block[..s + 1]) == UsedKeys(bk.block[..s]);
      }
    }

    /** insert_nosplit of one key of the bucket being split; while both
        halves of the split are single buckets with room left, the key goes
        into one of their primary buckets. */
    method Rehome(key: K, ghost o: nat, ghost m: nat)
      requires Shaped() && o < Pow2(d) && nts == o + 1 && key !in Contents()
      requires FindIdx(hash(key), d, nts) == o || FindIdx(hash(key), d, nts) == Span(d, o)
      modifies table
      ensures Shaped() && Contents() == old(Contents()) + multiset{key}
      ensures AgreeExcept(old(table[..]), table[..], o, Span(d, o))
      ensures old(Filled(o, Span(d, o), m)) && m < N ==> Filled(o, Span(d, o), m + 1)
    {
      ghost var t := FindIdx(hash(key), d, nts);
      ghost var before := table[t];
      InsertNoSplit(key);
      if before[0].current < N {
        assert |table[t]| == |before| && table[t][0].current == before[0].current + 1;
      }
    }
    /** rehash_p: the array already has room for entry 2^d + o. The chain
        at `o` is detached, fresh buckets are put at `o` and 2^d + o, and
        the detached keys are stored again. */
    method RehashInPlace(o: nat)
      requires DirInv(table[..], N, hash, d, o) && o < Pow2(d) && nts == o + 1
      requires Span(d, o) < table.Length
      modifies table
      ensures Shaped() && Contents() == old(Stored(table[..], d, o))
      ensures KeepsOthers(old(table[..]), table[..], Span(d, o), o)
      ensures |old(table[o])| == 1 ==> |table[..][o]| == 1 && |table[..][Span(d, o)]| == 1
    {
      var det := table[o];
      ghost var dir0 := table[..];
      table[o] := [Empty(N)];
      table[Span(d, o)] := [Empty(N)];
      SplitOpen(dir0, N, hash, d, o, table[..]);
      ghost var split0 := table[..];
      assert KeepsOthers(dir0, split0, Span(d, o), o);
      Redistribute(det, o);
      KeepsOthersThen(dir0, split0, table[..], Span(d, o), o);
    }

    /** The copy loop of rehash_split: a new array of `size` entries
        holding `src`'s first `live` chains, with an empty bucket in place
        of chain `o`; entries from `live` on are empty. */
    method CopyForSplit(src: array<seq<Bucket<K>>>, live: nat, o: nat, size: nat)
      returns (dst: array<seq<Bucket<K>>>)
      requires o < live <= src.Length && live < size
      ensures fresh(dst) && dst.Length == size
      ensures dst[o] == [Empty(N)]
      ensures forall j :: 0 <= j < live && j != o ==> dst[j] == src[j]
    {
      dst := new seq<Bucket<K>>[size](_ => []);
      var i := 0;
      while i < live
        invariant i <= live
        invariant forall j :: 0 <= j < i && j != o ==> dst[j] == src[j]
        invariant o < i ==> dst[o] == [Empty(N)]
      {
        if i == o {
          dst[i] := [Empty(N)];
        } else {
          dst[i] := src[i];
        }
        i := i + 1;
      }
    }

    /** rehash_split: the array is one entry short. A new array of
        table_size + 1 entries receives the live chains, with a fresh bucket
        in place of chain `o` and another at 2^d + o; then the detached keys
        are stored again. */
    method RehashGrow(o: nat)
      requires DirInv(table[..], N, hash, d, o) && o < Pow2(d) && nts == o + 1
      requires Span(d, o) <= tableSize
      modifies this
      ensures fresh(table) && table.Length == tableSize == old(tableSize) + 1
      ensures d == old(d) && nts == old(nts) && currSize == old(currSize)
      ensures Shaped() && Contents() == old(Stored(table[..], d, o))
      ensures KeepsOthers(old(table[..]), table[..], Span(d, o), o)
      ensures |old(table[o])| == 1 ==> |table[..][o]| == 1 && |table[..][Span(d, o)]| == 1
    {
      var det := GrowOpen(o);
      ghost var split0 := table[..];
      Redistribute(det, o);
      KeepsOthersThen(old(table[..]), split0, table[..], Span(d, o), o);
    }

    /** The first half of rehash_split, up to the rehash loop. Entries past
        the live ones are left empty (the source leaves them unset). */
    method GrowOpen(o: nat) returns (det: seq<Bucket<K>>)
      requires DirInv(table[..], N, hash, d, o) && o < Pow2(d) && nts == o + 1
      requires Span(d, o) <= tableSize
      modifies this
      ensures fresh(table) && table.Length == tableSize == old(tableSize) + 1
      ensures d == old(d) && nts == old(nts) && currSize == old(currSize)
      ensures det == old(table[o]) && ChainOk(det, N)
      ensures Shaped() && table[o] == [Empty(N)] && table[Span(d, o)] == [Empty(N)]
      ensures forall k :: k in ChainKeys(det) ==>
        FindIdx(hash(k), d, nts) == o || FindIdx(hash(k), d, nts) == Span(d, o)
      ensures Contents() + multiset(ChainKeys(det)) == old(Stored(table[..], d, o))
      ensures KeepsOthers(old(table[..]), table[..], Span(d, o), o)
    {
      ghost var dir0 := table[..];
      det := table[o];
      tableSize := tableSize + 1;
      var grown := CopyForSplit(table, Span(d, o), o, tableSize);
      table := grown;
      table[Span(d, o)] := [Empty(N)];
      SplitOpen(dir0, N, hash, d, o, table[..]);
    }

    /** The copy loop of rehash_round: a new array of `size` entries holding
        `src`'s first `live` chains; the entries after them are empty (the
        source leaves them unset). */
    method CopyPrefix(src: array<seq<Bucket<K>>>, live: nat, size: nat)
      returns (dst: array<seq<Bucket<K>>>)
      requires live <= src.Length && live <= size
      ensures fresh(dst) && dst.Length == size
      ensures dst[..live] == src[..live]
    {
      dst := new seq<Bucket<K>>[size](_ => []);
      var i := 0;
      while i < live
        invariant i <= live
        invariant dst[..i] == src[..i]
      {
        dst[i] := src[i];
        i := i + 1;
      }
    }

    /** rehash_round, called by split once d has been incremented and nts
        reset: table_size doubles and a new array of 2^(d+1) + 1 entries
        receives the 2^d live chains. Every key keeps its address. */
    method RehashRound()
      requires d >= 1 && nts == 0 && DirInv(table[..], N, hash, d - 1, Pow2(d - 1))
      modifies this
      ensures fresh(table) && table.Length == Pow2(d + 1) + 1
      ensures tableSize == 2 * old(tableSize)
      ensures d == old(d) && nts == 0 && currSize == old(currSize)
      ensures Shaped() && Contents() == old(Stored(table[..], d - 1, Pow2(d - 1)))
      ensures table[..Pow2(d)] == old(table[..Pow2(d)])
    {
      ghost var dir0 := table[..];
      tableSize := tableSize * 2;
      var round := Pow2(d);
      assert Span(d - 1, Pow2(d - 1)) == round <= |dir0|;
      assert dir0[..round] == table[..round];
      var grown := CopyPrefix(table, round, Pow2(d + 1) + 1);
      table := grown;
      assert table[..][..round] == dir0[..round];
      Rollover(dir0, N, hash, d - 1, table[..]);
    }
    /** The chain `key` addresses is a single bucket. */
    ghost predicate AloneAt(key: K)
      reads this`table, this`d, this`nts, table
    {
      AloneIn(table[..], hash, d, nts, key)
    }

    /** split: advance nts, split chain old nts and, when the round is
        complete, start the next one. The stored keys do not change. The
        ghost `key` names the key whose insertion asked for the split: if
        its chain was a single bucket, it still is one afterwards. */
    method Split(ghost key: K)
      requires Shaped() && Roomy() && nts < Pow2(d)
      modifies this, table
      ensures Shaped() && Roomy() && nts < Pow2(d)
      ensures Contents() == old(Contents()) && currSize == old(currSize)
      ensures old(nts) + 1 == Pow2(old(d)) ==> d == old(d) + 1 && nts == 0
      ensures old(nts) + 1 < Pow2(old(d)) ==> d == old(d) && nts == old(nts) + 1
      ensures old(AloneAt(key)) ==> AloneAt(key)
      ensures table == old(table) || fresh(table)
    {
      var round := Pow2(d);
      SplitChain(key);
      if nts == round {
        NextRound(key);
      }
    }

    /** The first part of split, for the key that asked for it: a
        single-bucket chain stays single. */
    method SplitChain(ghost key: K)
      requires Shaped() && Roomy() && nts < Pow2(d)
      modifies this, table
      ensures Shaped() && Roomy()
      ensures d == old(d) && nts == old(nts) + 1 && currSize == old(currSize)
      ensures Contents() == old(Contents())
      ensures old(AloneAt(key)) ==> AloneAt(key)
      ensures table == old(table) || fresh(table)
    {
      ghost var dir0 := table[..];
      SplitNext();
      SplitKeepsSingle(dir0, table[..], hash, d, nts - 1, key);
    }

    /** `old_nts = nts; ++nts;` and the rehash of chain old_nts: in place
        when table_size exceeds 2^d + nts, else into a grown array. */
    method SplitNext()
      requires Shaped() && Roomy() && nts < Pow2(d)
      modifies this, table
      ensures Shaped() && Roomy()
      ensures d == old(d) && nts == old(nts) + 1 && currSize == old(currSize)
      ensures Contents() == old(Contents())
      ensures table == old(table) || fresh(table)
      ensures Span(d, old(nts)) < table.Length
      ensures KeepsOthers(old(table[..]), table[..], Span(d, old(nts)), old(nts))
      ensures |old(table[nts])| == 1 ==>
        |table[..][old(nts)]| == 1 && |table[..][Span(d, old(nts))]| == 1
    {
      var o := nts;
      nts := nts + 1;
      if tableSize > Span(d, nts) {
        RehashInPlace(o);
      } else {
        RehashGrow(o);
      }
    }

    /** The end of split when nts has reached 2^d: the next round starts
        and a single-bucket chain stays single. */
    method NextRound(ghost key: K)
      requires Shaped() && Roomy() && nts == Pow2(d)
      modifies this
      ensures Shaped() && Roomy() && d == old(d) + 1 && nts == 0 && currSize == old(currSize)
      ensures Contents() == old(Contents())
      ensures old(AloneAt(key)) ==> AloneAt(key)
      ensures fresh(table)
    {
      ghost var mid := table[..];
      AdvanceRound();
      RolloverKeepsSingle(mid, table[..], hash, d - 1, key);
    }

    /** `++d; nts = 0; rehash_round();` */
    method AdvanceRound()
      requires Shaped() && Roomy() && nts == Pow2(d)
      modifies this
      ensures Shaped() && Roomy() && d == old(d) + 1 && nts == 0 && currSize == old(currSize)
      ensures Contents() == old(Contents())
      ensures fresh(table) && |old(table[..])| >= Pow2(d) && table.Length >= Pow2(d)
      ensures table[..][..Pow2(d)] == old(table[..])[..Pow2(d)]
    {
      ghost var before := Contents();
      assert Span(d, nts) == Pow2(d + 1) <= tableSize;
      d := d + 1;
      nts := 0;
      RehashRound();
      assert Contents() == before;
      assert Span(d, nts) <= tableSize && Pow2(d + 1) < table.Length;
    }

    /** insert_: store a key known to be absent, then count it. */
    method InsertNew(key: K)
      requires Valid() && key !in Contents()
      modifies this, table
      ensures Valid() && Contents() == old(Contents()) + multiset{key}
      ensures table == old(table) || fresh(table)
    {
      Store(key);
      ghost var now := Contents();
      currSize := currSize + 1;
      assert Shaped() && Roomy() && Contents() == now;
    }

    /** The body of insert_ before `++curr_size`. A primary bucket with
        room takes the key; a full primary bucket with overflow buckets
        sends it to insert_overflow and may split afterwards; a full
        primary bucket without overflow splits first. */
    method Store(key: K)
      requires Shaped() && Roomy() && nts < Pow2(d) && key !in Contents()
      modifies this, table
      ensures Shaped() && Roomy() && nts < Pow2(d) && currSize == old(currSize)
      ensures Contents() == old(Contents()) + multiset{key}
      ensures table == old(table) || fresh(table)
    {
      var idx := FindIdx(hash(key), d, nts);
      if table[idx][0].current == 0 || table[idx][0].current != N {
        InsertPrimary(key);
      } else if |table[idx]| >= 2 {
        InsertThroughOverflow(key);
      } else {
        InsertAfterSplit(key);
      }
    }

    /** insert_ when the primary bucket is full and has overflow buckets:
        `help` walks the chain past full buckets (stopping at the last one),
        insert_overflow stores the key, and a split follows when the bucket
        `help` names is full afterwards. */
    method InsertThroughOverflow(key: K)
      requires Shaped() && Roomy() && nts < Pow2(d) && key !in Contents()
      requires |table[FindIdx(hash(key), d, nts)]| >= 2
      requires table[FindIdx(hash(key), d, nts)][0].current == N
      modifies this, table
      ensures Shaped() && Roomy() && nts < Pow2(d) && currSize == old(currSize)
      ensures Contents() == old(Contents()) + multiset{key}
      ensures table == old(table) || fresh(table)
    {
      var idx := FindIdx(hash(key), d, nts);
      var chain := table[idx];
      var help := 0;
      while help + 1 < |chain| && chain[help].current == N
        invariant help < |chain|
        invariant forall j :: 0 <= j < help ==> chain[j].current == N
      {
        help := help + 1;
      }
      var shifted := chain[1].current == N;
      InsertOverflow(key);
      // insert_overflow links a new bucket at position 1 when the first
      // overflow bucket is full, which moves the bucket `help` names one on.
      var at := if shifted then help + 1 else help;
      if shifted {
        assert table[idx][at] == table[idx][2..][help - 1] == chain[help];
      } else {
        assert at == 1;
      }
      if table[idx][at].current == N {
        Split(key);
      }
    }

    /** insert_ when the primary bucket is full and has no overflow bucket:
        split first, then store the key in its (possibly new) chain. */
    method InsertAfterSplit(key: K)
      requires Shaped() && Roomy() && nts < Pow2(d) && key !in Contents()
      requires |table[FindIdx(hash(key), d, nts)]| == 1
      requires table[FindIdx(hash(key), d, nts)][0].current == N
      modifies this, table
      ensures Shaped() && Roomy() && nts < Pow2(d) && currSize == old(currSize)
      ensures Contents() == old(Contents()) + multiset{key}
      ensures table == old(table) || fresh(table)
    {
      assert AloneAt(key);
      Split(key);
      StoreAlone(key);
    }

    /** The end of insert_ after a split: the key's chain is a single
        bucket, so the source's case of a full primary bucket with an
        overflow bucket, in which nothing is stored, does not arise. */
    method StoreAlone(key: K)
      requires Shaped() && key !in Contents() && AloneAt(key)
      modifies table
      ensures Shaped() && Contents() == old(Contents()) + multiset{key}
    {
      var idx := FindIdx(hash(key), d, nts);
      assert |table[idx]| == 1;
      if table[idx][0].current != N {
        InsertPrimary(key);
      } else if |table[idx]| == 1 {
        AllocateOverflow(key);
      }
    }

    /** erase: search_bucket finds the bucket holding the key and
        bucket::erase removes it from there; 0 when no bucket holds it. */
    method Erase(key: K) returns (r: nat)
      requires Valid()
      modifies this, table
      ensures Valid() && r == old(Contents())[key] && r <= 1
      ensures Contents() == old(Contents()) - multiset{key}
      ensures table == old(table) && currSize == old(currSize) - r
      ensures d == old(d) && nts == old(nts) && tableSize == old(tableSize)
      ensures r == 0 ==> table[..] == old(table[..])
      ensures AgreeExcept(old(table[..]), table[..], FindIdx(hash(key), d, nts),
        FindIdx(hash(key), d, nts))
      ensures |table[FindIdx(hash(key), d, nts)]| == |old(table[FindIdx(hash(key), d, nts)])|
    {
      var b := SearchBucket(key);
      var idx := FindIdx(hash(key), d, nts);
      if b.None? || table[idx][b.value].current == 0 {
        MinusAbsent(Contents(), key);
        return 0;
      }
      EraseAt(key, b.value);
      return 1;
    }

    /** The hit of erase: remove the key from bucket `j` of its chain and
        decrement curr_size. */
    method EraseAt(key: K, j: nat)
      requires Valid() && j < |table[FindIdx(hash(key), d, nts)]|
      requires key in Keys(table[FindIdx(hash(key), d, nts)][j])
      modifies this, table
      ensures Valid() && old(Contents())[key] == 1
      ensures Contents() == old(Contents()) - multiset{key}
      ensures table == old(table) && currSize == old(currSize) - 1
      ensures d == old(d) && nts == old(nts) && tableSize == old(tableSize)
      ensures AgreeExcept(old(table[..]), table[..], FindIdx(hash(key), d, nts),
        FindIdx(hash(key), d, nts))
      ensures |table[FindIdx(hash(key), d, nts)]| == |old(table[FindIdx(hash(key), d, nts)])|
    {
      RemoveFromBucket(key, j);
      ghost var now := Contents();
      currSize := currSize - 1;
      assert Shaped() && Roomy() && Contents() == now;
    }

    /** bucket::erase on bucket `j` of the key's chain, which holds the key. */
    method RemoveFromBucket(key: K, j: nat)
      requires Shaped() && j < |table[FindIdx(hash(key), d, nts)]|
      requires key in Keys(table[FindIdx(hash(key), d, nts)][j])
      modifies table
      ensures Shaped() && Contents() == old(Contents()) - multiset{key}
      ensures old(Contents())[key] == 1 && |Contents()| + 1 == |old(Contents())|
      ensures AgreeExcept(old(table[..]), table[..], FindIdx(hash(key), d, nts),
        FindIdx(hash(key), d, nts))
      ensures |table[FindIdx(hash(key), d, nts)]| == |old(table[FindIdx(hash(key), d, nts)])|
    {
      var idx := FindIdx(hash(key), d, nts);
      ghost var t0 := table[..];
      var nb, removed := Buckets.Erase(table[idx][j], N, key);
      var c := table[idx][j := nb];
      EraseInChain(table[idx], N, j, nb, key);
      EraseFromChain(t0, N, hash, d, nts, key, c);
      table[idx] := c;
      assert table[..] == t0[idx := c];
    }

    /** insert(key): the key's position, and whether it was added. A present
        key changes nothing. */
    method Insert(key: K) returns (p: Position, inserted: bool)
      requires Valid()
      modifies this, table
      ensures Valid() && Contents()[key] == 1
      ensures inserted <==> key !in old(Contents())
      ensures inserted ==> Contents() == old(Contents()) + multiset{key}
      ensures !inserted ==> Contents() == old(Contents()) && table == old(table)
      ensures !inserted ==> table[..] == old(table[..])
      ensures !inserted ==> d == old(d) && nts == old(nts) && tableSize == old(tableSize)
      ensures p.At? && p.idx == FindIdx(hash(key), d, nts) && p.bucket < |table[p.idx]| &&
        p.slot < N && table[p.idx][p.bucket].block[p.slot] == Used(key)
      ensures table == old(table) || fresh(table)
    {
      inserted := InsertKey(key);
      p := Find(key);
    }

    /** The common step of insert(key) and range insert: look the key up,
        and run insert_ when it is absent. */
    method InsertKey(key: K) returns (inserted: bool)
      requires Valid()
      modifies this, table
      ensures Valid() && key in Contents()
      ensures inserted <==> key !in old(Contents())
      ensures inserted ==> Contents() == old(Contents()) + multiset{key}
      ensures !inserted ==> Contents() == old(Contents()) && table == old(table)
      ensures !inserted ==> table[..] == old(table[..])
      ensures !inserted ==> d == old(d) && nts == old(nts) && tableSize == old(tableSize)
      ensures table == old(table) || fresh(table)
    {
      var found := Find(key);
      if found.At? {
        return false;
      }
      InsertNew(key);
      inserted := true;
    }

    /** Range insert: every key not yet present is inserted, in order. */
    method InsertAll(keys: seq<K>)
      requires Valid()
      modifies this, table
      ensures Valid()
      ensures Covers(Contents(), old(Contents()), keys)
      ensures table == old(table) || fresh(table)
    {
      ghost var before := Contents();
      var j := 0;
      while j < |keys|
        invariant j <= |keys| && Valid() && Covers(Contents(), before, keys[..j])
        invariant table == old(table) || fresh(table)
      {
        InsertNth(keys, j, before);
        j := j + 1;
      }
      assert keys[..j] == keys;
    }

    /** The range insert's loop invariant: a valid set holding `before` and
        the keys `ks` processed so far, and nothing else. */
    ghost predicate Holds(before: multiset<K>, ks: seq<K>)
      reads this, table
    {
      Valid() && Covers(Contents(), before, ks)
    }

    /** One round of the range insert loop: insert `keys[j]` unless present. */
    method InsertNth(keys: seq<K>, j: nat, ghost before: multiset<K>)
      requires j < |keys| && Holds(before, keys[..j])
      modifies this, table
      ensures Holds(before, keys[..j + 1])
      ensures table == old(table) || fresh(table)
    {
      ghost var prev := Contents();
      var _ := InsertKey(keys[j]);
      CoversStep(Contents(), prev, before, keys, j);
    }

    /** swap: every field of the two sets is exchanged, table_size included. */
    method Swap(other: LinearHashSet<K>)
      requires Valid() && other.Valid() && other.N == N && other.hash == hash
      modifies this, other
      ensures Valid() && other.Valid()
      ensures Contents() == old(other.Contents()) && other.Contents() == old(Contents())
      ensures table == old(other.table) && other.table == old(table)
      ensures d == old(other.d) && nts == old(other.nts) && tableSize == old(other.tableSize)
      ensures other.d == old(d) && other.nts == old(nts) && other.tableSize == old(tableSize)
      ensures currSize == old(other.currSize) && other.currSize == old(currSize)
    {
      // Swapping a set with itself exchanges nothing.
      if other != this {
        tableSize, other.tableSize := other.tableSize, tableSize;
        SwapShared(other);
      }
    }

    /** swap as written: table_size is not exchanged, so each set keeps its
        own capacity figure next to the other's directory. */
    method SwapAsWritten(other: LinearHashSet<K>)
      requires Valid() && other.Valid() && other.N == N && other.hash == hash
      modifies this, other
      ensures Shaped() && other.Shaped()
      ensures Contents() == old(other.Contents()) && other.Contents() == old(Contents())
      ensures table == old(other.table) && other.table == old(table)
      ensures d == old(other.d) && nts == old(other.nts)
      ensures other.d == old(d) && other.nts == old(nts)
      ensures tableSize == old(tableSize) && other.tableSize == old(other.tableSize)
      ensures currSize == old(other.currSize) && other.currSize == old(currSize)
    {
      if other != this {
        SwapShared(other);
      }
    }

    /** The part of swap both versions share, on two distinct sets:
        directory, size and round state change places. */
    method SwapShared(other: LinearHashSet<K>)
      requires Shaped() && other.Shaped() && other.N == N && other.hash == hash && other != this
      modifies this`table, this`currSize, this`d, this`nts
      modifies other`table, other`currSize, other`d, other`nts
      ensures Shaped() && other.Shaped()
      ensures Contents() == old(other.Contents()) && other.Contents() == old(Contents())
      ensures table == old(other.table) && other.table == old(table)
      ensures d == old(other.d) && nts == old(other.nts)
      ensures other.d == old(d) && other.nts == old(nts)
      ensures currSize == old(other.currSize) && other.currSize == old(currSize)
    {
      ghost var mine, theirs := table[..], other.table[..];
      table, other.table := other.table, table;
      currSize, other.currSize := other.currSize, currSize;
      d, other.d := other.d, d;
      nts, other.nts := other.nts, nts;
      assert table[..] == theirs && other.table[..] == mine;
    }

    /** clear: swap with a freshly constructed set. */
    method Clear()
      requires Valid()
      modifies this
      ensures Valid() && Contents() == multiset{} && currSize == 0
      ensures fresh(table) && d == 1 && nts == 0 && tableSize == 2
    {
      var tmp := new LinearHashSet(N, hash);
      Swap(tmp);
    }

    /** clear as written, over swap as written: the cleared set gets the
        fresh two-entry directory but keeps its old table_size. Once the set
        has split once, table_size exceeds 2 and the set is no longer Valid;
        from the second split on it exceeds 3, and the next split's test `table_size > 2^d + nts` chooses
        the in-place rehash, which writes entry 2^d + 0 == table.Length, one
        past the end of the array. */
    method ClearAsWritten()
      requires Valid()
      modifies this
      ensures Shaped() && Contents() == multiset{} && currSize == 0
      ensures d == 1 && nts == 0 && table.Length == 2 && tableSize == old(tableSize)
      ensures old(tableSize) > 2 ==> !Roomy()
      ensures old(tableSize) > 3 ==> tableSize > Span(d, nts + 1) && Span(d, nts) == table.Length
    {
      var tmp := new LinearHashSet(N, hash);
      SwapAsWritten(tmp);
    }

    /** begin(): an iterator over the 2^d + nts live entries, at the first
        key of the traversal. */
    method Begin() returns (it: Iterator<K>)
      requires Shaped()
      ensures fresh(it) && it.Parked() && it.Rank() == 0
      ensures it.dir == table[..] && it.live == Span(d, nts)
      ensures multiset(Elements(it.dir, it.live)) == Contents()
    {
      it := new Iterator(table[..], Span(d, nts), N);
    }

    /** The keys a range-for loop over `other` visits: from begin() to
        end(), every stored key once. */
    static method KeysOf(other: LinearHashSet<K>) returns (ks: seq<K>)
      requires other.Shaped()
      ensures multiset(ks) == other.Contents()
    {
      var it := other.Begin();
      var stop := new Iterator.End();
      AtEndIffPassedAll(it, stop);
      ks := Traverse(it, stop, Elements(it.dir, it.live));
    }

    /** operator==: equal sizes, and every key the iteration over `other`
        yields is counted in this set; the first key that is not ends the
        comparison. */
    method Equal(other: LinearHashSet<K>) returns (r: bool)
      requires Valid() && other.Valid()
      ensures r <==> Contents() == other.Contents()
    {
      if currSize != other.currSize {
        return false;
      }
      var ks := KeysOf(other);
      var j := 0;
      while j < |ks|
        invariant PrefixIn(ks, j, Contents())
      {
        var c := Count(ks[j]);
        if c == 0 {
          assert ks[j] in other.Contents();
          return false;
        }
        PrefixInStep(ks, j, Contents());
        j := j + 1;
      }
      forall e | e in other.Contents() ensures e in Contents() {
        var x :| 0 <= x < |ks| && ks[x] == e;
      }
      SameSizeSubset(Contents(), other.Contents());
      return true;
    }

    /** The copy constructor: a default set, then insert_ of every key the
        iteration over `other` yields. */
    constructor Copy(other: LinearHashSet<K>)
      requires other.Valid()
      ensures Valid() && fresh(table)
      ensures N == other.N && hash == other.hash
      ensures Contents() == other.Contents()
    {
      N, hash := other.N, other.hash;
      d, nts, currSize, tableSize := 1, 0, 0, 2;
      table := new seq<Bucket<K>>[2](_ => [Empty(other.N)]);
      new;
      FreshDirectory(table[..], N, hash);
      var ks := KeysOf(other);
      InsertEach(ks);
    }

    /** The copy constructor's loop: insert_ of each of the distinct keys
        `ks` into an empty set. */
    method InsertEach(ks: seq<K>)
      requires Valid() && Contents() == multiset{} && NoRepeats(multiset(ks))
      modifies this, table
      ensures Valid() && Contents() == multiset(ks)
      ensures table == old(table) || fresh(table)
    {
      var j := 0;
      while j < |ks|
        invariant j <= |ks| && Valid() && Contents() == multiset(ks[..j])
        invariant table == old(table) || fresh(table)
      {
        CopyNth(ks, j);
        j := j + 1;
      }
      assert ks[..j] == ks;
    }

    /** The copy loop's invariant: a valid set holding exactly the first `j`
        of the distinct keys `ks`. */
    ghost predicate Copied(ks: seq<K>, j: nat)
      reads this, table
    {
      j <= |ks| && NoRepeats(multiset(ks)) && Valid() && Contents() == multiset(ks[..j])
    }

    /** One round of the copy loop: insert_ of a key not yet present. */
    method CopyNth(ks: seq<K>, j: nat)
      requires j < |ks| && Copied(ks, j)
      modifies this, table
      ensures Copied(ks, j + 1)
      ensures table == old(table) || fresh(table)
    {
      FreshAt(ks, j);
      assert ks[..j + 1] == ks[..j] + [ks[j]];
      InsertNew(ks[j]);
    }

    /** operator=(other): nothing on self-assignment, else copy and swap. */
    method Assign(other: LinearHashSet<K>)
      requires Valid() && other.Valid() && other.N == N && other.hash == hash
      modifies this
      ensures Valid() && Contents() == old(other.Contents())
    {
      if this == other {
        return;
      }
      var tmp := new LinearHashSet.Copy(other);
      Swap(tmp);
    }

    /** The initializer-list and iterator-range constructors: a default
        set, then the range insert. */
    constructor FromSeq(n: nat, h: K -> nat, keys: seq<K>)
      requires n >= 1
      ensures Valid() && fresh(table) && N == n && hash == h
      ensures Covers(Contents(), multiset{}, keys)
    {
      N, hash := n, h;
      d, nts, currSize, tableSize := 1, 0, 0, 2;
      table := new seq<Bucket<K>>[2](_ => [Empty(n)]);
      new;
      FreshDirectory(table[..], n, h);
      InsertAll(keys);
    }

    /** operator=(initializer list): build a set from the keys and swap. */
    method AssignSeq(keys: seq<K>)
      requires Valid()
      modifies this
      ensures Valid() && Covers(Contents(), multiset{}, keys)
    {
      var tmp := new LinearHashSet.FromSeq(N, hash, keys);
      Swap(tmp);
    }
  }

  /** The identity hash on naturals, the hasher of the example below. */
  function Identity(k: nat): nat
  {
    k
  }

  /** The directory left by insert(0), insert(4) and erase(0) with N = 1 and
      the identity hash: inserting 4 finds the primary bucket of entry 0
      full, splits entry 0 (both keys stay there, d = 1 and nts = 1), and
      puts 4 in an overflow bucket; erasing 0 then empties the primary
      bucket while the overflow bucket still holds 4. */
  function StrandedDir(): seq<seq<Bucket<nat>>>
  {
    [[Empty(1), Single(1, 4)], [Empty(1)], [Empty(1)]]
  }

  /** That directory meets the directory invariant, stores 4, and 4's
      primary bucket is empty. */
  lemma StrandedOverflow()
    ensures |StrandedDir()| == 3 && DirInv(StrandedDir(), 1, Identity, 1, 1)
    ensures Stored(StrandedDir(), 1, 1) == multiset{4}
    ensures FindIdx(Identity(4), 1, 1) == 0 && StrandedDir()[0][0].current == 0
  {
    var e: seq<Bucket<nat>> := [Empty(1)];
    var c := [Empty(1), Single(1, 4)];
    var dir := [c, e, e];
    assert dir == StrandedDir();
    assert ChainKeys(e) == [] by { assert e[..0] == []; }
    assert ChainKeys(c) == [4] by { assert c[..1] == e && c[..2][..1] == e; }
    assert DirKeys([c]) == [4] by { assert [c][..0] == []; }
    assert DirKeys([c, e]) == [4] by { assert [c, e][..1] == [c]; }
    assert Pow2(1) == 2 && Pow2(2) == 4;
    assert Span(1, 1) == 3;
    assert dir[..3] == dir && dir[..2] == [c, e];
    assert DirKeys(dir) == [4];
    assert FindIdx(4, 1, 1) == 0 by { assert 4 % 2 == 0 && 4 % 4 == 0; }
    assert ChainOk(c, 1) && ChainOk(e, 1);
    assert Addressed(c, 0, Identity, 1, 1);
    assert Addressed(e, 1, Identity, 1, 1);
    assert Addressed(e, 2, Identity, 1, 1);
  }
}
