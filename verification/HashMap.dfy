/** The chained hash multimap of hashmap.c.

Buckets are chains of entries, head first.  The hash and equality functions are
given when the map is made and read a context, passed here as the value the
context pointer leads to at the time of the call. */
module HashMaps {

  import opened Seqs
  import opened Words

  datatype Option<+T> = None | Some(value: T)

  datatype Entry<+K, +V> = Entry(key: K, value: V)

  datatype Strategy = Add | Set | Update | Append

  const ENOENT := -2
  const ENOMEM := -12
  const EEXIST := -17

  const MIN_CAP_BITS := 2

  /** The first size for which `calloc(1UL << bits, 8)` asks for 2^64 bytes or more and fails. */
  const CALLOC_FAIL_BITS := 61

  /** Fewer entries than these always fit. */
  const MANY := 0x0800_0000_0000_0000

  ghost function Pow2(n: nat): nat { if n == 0 then 1 else 2 * Pow2(n - 1) }

  function Shl1(bits: nat): (r: nat)
    ensures r == Pow2(bits) > 0
  {
    if bits == 0 then 1 else 2 * Shl1(bits - 1)
  }

  function Shr(x: nat, n: nat): nat
    decreases n
  {
    if n == 0 then x else Shr(x / 2, n - 1)
  }

  /** `hash_bits`: the top bits of the product with the 64-bit golden ratio. */
  function HashBits(h: u64, bits: nat): nat
    requires bits <= 64
  {
    if bits == 0 then 0
    else Shr(Wrap64(h * 11400714819323198485), 64 - bits)
  }

  lemma {:induction false} Pow2Adds(a: nat, b: nat)
    ensures Pow2(a + b) == Pow2(a) * Pow2(b)
  {
    if a > 0 {
      Pow2Adds(a - 1, b);
      assert Pow2(a) * Pow2(b) == 2 * (Pow2(a - 1) * Pow2(b));
    }
  }

  lemma Pow2Of64()
    ensures Pow2(64) == 0x1_0000_0000_0000_0000
  {
    assert Pow2(2) == 4;
    hide Pow2;
    Pow2Adds(2, 2);
    Pow2Adds(4, 4);
    Pow2Adds(8, 8);
    Pow2Adds(16, 16);
    Pow2Adds(32, 32);
  }

  lemma {:induction false} ShrBelow(x: nat, n: nat, bits: nat)
    requires x < Pow2(n + bits)
    ensures Shr(x, n) < Pow2(bits)
    decreases n
  {
    if n > 0 {
      ShrBelow(x / 2, n - 1, bits);
    }
  }

  /** `hash_bits` never reaches the capacity the bits stand for. */
  lemma HashBitsBelowCap(h: u64, bits: nat)
    requires bits <= 64
    ensures HashBits(h, bits) < Pow2(bits)
  {
    if bits > 0 {
      Pow2Of64();
      ShrBelow(Wrap64(h * 11400714819323198485), 64 - bits, bits);
    }
  }

  lemma {:induction false} FlatUpdate<T>(buckets: seq<seq<T>>, i: nat, chain: seq<T>)
    requires i < |buckets|
    ensures multiset(Flat(buckets[i := chain])) + multiset(buckets[i]) == multiset(Flat(buckets)) + multiset(chain)
    ensures |Flat(buckets[i := chain])| + |buckets[i]| == |Flat(buckets)| + |chain|
    decreases |buckets|
  {
    var n := |buckets| - 1;
    var after := buckets[i := chain];
    if i == n {
      assert after[..n] == buckets[..n];
    } else {
      assert Flat(after) == Flat(after[..n]) + buckets[n];
      assert Flat(buckets) == Flat(buckets[..n]) + buckets[n];
      hide Flat;
      FlatUpdate(buckets[..n], i, chain);
      assert after[..n] == buckets[..n][i := chain];
      assert buckets[..n][i] == buckets[i];
      assert multiset(Flat(after)) + multiset(buckets[i])
          == (multiset(Flat(after[..n])) + multiset(buckets[i])) + multiset(buckets[n]);
    }
  }

  lemma {:induction false} FlatOfEmpty<T>(buckets: seq<seq<T>>)
    requires forall i :: 0 <= i < |buckets| ==> buckets[i] == []
    ensures Flat(buckets) == []
  {
    if buckets != [] {
      FlatOfEmpty(buckets[..|buckets| - 1]);
    }
  }

  lemma {:induction false} ChainWithinFlat<T>(buckets: seq<seq<T>>, i: nat, e: T)
    requires i < |buckets|
    ensures multiset(buckets[i])[e] <= multiset(Flat(buckets))[e]
    decreases |buckets|
  {
    var n := |buckets| - 1;
    if i < n {
      ChainWithinFlat(buckets[..n], i, e);
    }
  }

  /** An entry that can only be in one bucket occurs as often in all as in that one. */
  lemma {:induction false} FlatCount<T>(buckets: seq<seq<T>>, home: nat, e: T)
    requires forall b :: 0 <= b < |buckets| && b != home ==> e !in buckets[b]
    ensures multiset(Flat(buckets))[e] == if home < |buckets| then multiset(buckets[home])[e] else 0
    decreases |buckets|
  {
    if buckets != [] {
      var n := |buckets| - 1;
      FlatCount(buckets[..n], home, e);
      assert buckets[n] == buckets[|buckets| - 1];
    }
  }

  lemma {:induction false} InFlat<T>(buckets: seq<seq<T>>, e: T)
    ensures e in Flat(buckets) <==> exists b :: 0 <= b < |buckets| && e in buckets[b]
    decreases |buckets|
  {
    if buckets != [] {
      var n := |buckets| - 1;
      InFlat(buckets[..n], e);
      if b :| 0 <= b < |buckets| && e in buckets[b] {
        assert b < n ==> e in buckets[..n][b];
      }
    }
  }

  /** Newest first becomes oldest first. */
  ghost function Reverse<T>(s: seq<T>): (r: seq<T>)
    ensures |r| == |s|
    ensures s != [] ==> r[0] == s[|s| - 1]
  {
    if s == [] then [] else [s[|s| - 1]] + Reverse(s[..|s| - 1])
  }

  lemma ReverseAppend<T>(s: seq<T>, e: T)
    ensures Reverse(s + [e]) == [e] + Reverse(s)
  {
    assert (s + [e])[..|s|] == s;
  }

  lemma {:induction false} ReverseConcat<T>(a: seq<T>, b: seq<T>)
    ensures Reverse(a + b) == Reverse(b) + Reverse(a)
    decreases |b|
  {
    if b == [] {
      assert a + b == a && Reverse(b) + Reverse(a) == Reverse(a);
    } else {
      var n := |b| - 1;
      ReverseConcat(a, b[..n]);
      assert (a + b)[..|a + b| - 1] == a + b[..n];
      Reassociate([b[n]], Reverse(b[..n]), Reverse(a));
    }
  }

  lemma {:induction false} ReverseTwice<T>(s: seq<T>)
    ensures Reverse(Reverse(s)) == s
    decreases |s|
  {
    if s != [] {
      var n := |s| - 1;
      ReverseTwice(s[..n]);
      ReverseConcat([s[n]], Reverse(s[..n]));
      assert [s[n]][..0] == [] && Reverse([s[n]]) == [s[n]] + Reverse([]);
      assert s == s[..n] + [s[n]];
    }
  }

  ghost function ReversedIf<T>(grown: bool, s: seq<T>): seq<T> {
    if grown then Reverse(s) else s
  }

  /** A chain after some number of growths. */
  ghost function AfterGrowths<T>(s: seq<T>, growths: nat): seq<T> {
    if growths == 0 then s else Reverse(AfterGrowths(s, growths - 1))
  }

  lemma OneMoreGrowth<T>(s: seq<T>, growths: nat, grown: bool)
    ensures AfterGrowths(s, 0) == s
    ensures AfterGrowths(s, if grown then growths + 1 else growths) == ReversedIf(grown, AfterGrowths(s, growths))
  {
  }

  lemma TwoGrowths<T>(s: seq<T>, growths: nat)
    ensures AfterGrowths(s, growths + 2) == AfterGrowths(s, growths)
  {
    ReverseTwice(AfterGrowths(s, growths));
    assert AfterGrowths(s, growths + 2) == Reverse(AfterGrowths(s, growths + 1));
  }

  lemma {:induction false} GrowthParity<T>(s: seq<T>, growths: nat)
    ensures AfterGrowths(s, growths) == ReversedIf(growths % 2 == 1, s)
    decreases growths
  {
    hide AfterGrowths, Reverse;
    if growths > 1 {
      GrowthParity(s, growths - 2);
      TwoGrowths(s, growths - 2);
    } else {
      OneMoreGrowth(s, 0, true);
    }
  }

  lemma Pow2Of60()
    ensures Pow2(60) == 0x1000_0000_0000_0000
  {
    Pow2Of64();
    Pow2Adds(60, 4);
    assert Pow2(4) == 16;
  }

  /** Values that have different numbers below n are at most n. */
  lemma {:induction false} AtMost<T(!new)>(m: multiset<T>, number: T -> nat, n: nat)
    requires forall x :: x in m ==> m[x] == 1 && number(x) < n
    requires forall x, y :: x in m && y in m && number(x) == number(y) ==> x == y
    ensures |m| <= n
    decreases n
  {
    if n == 0 {
      if x :| x in m {
        assert false;
      }
    } else if x :| x in m && number(x) == n - 1 {
      var rest := m - multiset{x};
      assert m == rest + multiset{x} && x !in rest;
      AtMost(rest, number, n - 1);
    } else {
      AtMost(m, number, n - 1);
    }
  }

  class HashMap<K(==,!new), V(==,!new), C(!new)> {
    const hashFn: (K, C) -> u64
    const equalFn: (K, K, C) -> bool

    var buckets: seq<seq<Entry<K, V>>>
    var cap: nat
    var capBits: nat
    var sz: nat

    constructor (hashFn: (K, C) -> u64, equalFn: (K, K, C) -> bool)
      ensures this.hashFn == hashFn && this.equalFn == equalFn
      ensures Contents() == multiset{} && sz == 0 && cap == 0 && capBits == 0 && forall ctx :: Valid(ctx)
    {
      this.hashFn, this.equalFn := hashFn, equalFn;
      buckets, cap, capBits, sz := [], 0, 0, 0;
    }

    /** The entries as a multimap: what every operation is specified by. */
    ghost function Contents(): multiset<Entry<K, V>>
      reads this
    {
      multiset(Flat(buckets))
    }

    ghost predicate SizesAgree()
      reads this
    {
      && cap == |buckets| && sz == |Flat(buckets)| && sz * 4 / 3 <= cap
      && capBits < CALLOC_FAIL_BITS
      && if cap == 0 then capBits == 0 else capBits >= MIN_CAP_BITS && cap == Pow2(capBits)
    }

    /** Each entry sits in the bucket its hash selects. */
    ghost predicate Valid(ctx: C)
      reads this
    {
      SizesAgree() && AtHome(buckets, capBits, ctx)
    }

    ghost predicate AtHome(bs: seq<seq<Entry<K, V>>>, bits: nat, ctx: C)
      requires bits <= 64
    {
      forall b, j :: 0 <= b < |bs| && 0 <= j < |bs[b]| ==> HashBits(hashFn(bs[b][j].key, ctx), bits) == b
    }

    /** What the caller owes: equal keys have equal hashes. */
    ghost predicate Lawful(ctx: C) {
      forall a, b :: equalFn(a, b, ctx) ==> hashFn(a, ctx) == hashFn(b, ctx)
    }

    /** Lawful, and equality of keys is an equivalence. */
    ghost predicate Equivalence(ctx: C) {
      && Lawful(ctx) && (forall a :: equalFn(a, a, ctx))
      && (forall a, b :: equalFn(a, b, ctx) ==> equalFn(b, a, ctx))
      && forall a, b, c :: equalFn(a, b, ctx) && equalFn(b, c, ctx) ==> equalFn(a, c, ctx)
    }

    ghost predicate Holds(key: K, ctx: C)
      reads this
    {
      exists e :: e in Contents() && equalFn(e.key, key, ctx)
    }

    predicate NeedsToGrow()
      reads this
    {
      cap == 0 || (sz + 1) * 4 / 3 > cap
    }

    /** The table would have to grow beyond what can be allocated. */
    predicate Full()
      reads this
    {
      NeedsToGrow() && capBits + 1 >= CALLOC_FAIL_BITS
    }

    /** That takes very many entries. */
    lemma FullHoldsMany()
      requires SizesAgree() && Full()
      ensures |Contents()| >= MANY
    {
      Pow2Of60();
      hide Pow2;
      assert capBits == 60 && (sz + 1) * 4 / 3 > cap;
    }

    /** The sizes after one more entry. */
    function NextCapBits(): nat
      reads this
    {
      if !NeedsToGrow() then capBits else if cap == 0 then MIN_CAP_BITS else capBits + 1
    }

    function NextCap(): nat
      reads this
    {
      if !NeedsToGrow() then cap else if cap == 0 then 4 else 2 * cap
    }

    // ---- the order within chains ----

    /** The entries of a chain with an equal key. */
    ghost function Equals(chain: seq<Entry<K, V>>, key: K, ctx: C): seq<Entry<K, V>> {
      if chain == [] then []
      else
        var n := |chain| - 1;
        Equals(chain[..n], key, ctx) + if equalFn(chain[n].key, key, ctx) then [chain[n]] else []
    }

    lemma {:induction false} EqualsConcat(a: seq<Entry<K, V>>, b: seq<Entry<K, V>>, key: K, ctx: C)
      ensures Equals(a + b, key, ctx) == Equals(a, key, ctx) + Equals(b, key, ctx)
      decreases |b|
    {
      if b == [] {
        assert a + b == a;
      } else {
        var n := |b| - 1;
        EqualsConcat(a, b[..n], key, ctx);
        assert (a + b)[..|a + b| - 1] == a + b[..n];
      }
    }

    lemma EqualsPrepend(e: Entry<K, V>, chain: seq<Entry<K, V>>, key: K, ctx: C)
      ensures Equals([e] + chain, key, ctx) == (if equalFn(e.key, key, ctx) then [e] else []) + Equals(chain, key, ctx)
    {
      EqualsConcat([e], chain, key, ctx);
      assert [e][..0] == [];
    }

    lemma EqualsAppend(chain: seq<Entry<K, V>>, cur: nat, key: K, ctx: C)
      requires cur < |chain|
      ensures Equals(chain[..cur + 1], key, ctx)
           == Equals(chain[..cur], key, ctx) + (if equalFn(chain[cur].key, key, ctx) then [chain[cur]] else [])
    {
      assert chain[..cur + 1][..cur] == chain[..cur];
    }

    lemma {:induction false} EqualsNone(chain: seq<Entry<K, V>>, key: K, ctx: C)
      requires forall j :: 0 <= j < |chain| ==> !equalFn(chain[j].key, key, ctx)
      ensures Equals(chain, key, ctx) == []
    {
      if chain != [] {
        EqualsNone(chain[..|chain| - 1], key, ctx);
      }
    }

    /** The first equal entry of a chain is the first of its equal entries. */
    lemma EqualsFirst(chain: seq<Entry<K, V>>, i: nat, key: K, ctx: C)
      requires i < |chain| && equalFn(chain[i].key, key, ctx)
      requires forall j :: 0 <= j < i ==> !equalFn(chain[j].key, key, ctx)
      ensures Equals(chain, key, ctx) == [chain[i]] + Equals(chain[i + 1..], key, ctx)
    {
      hide Equals;
      assert chain == chain[..i] + ([chain[i]] + chain[i + 1..]);
      EqualsConcat(chain[..i], [chain[i]] + chain[i + 1..], key, ctx);
      EqualsNone(chain[..i], key, ctx);
      EqualsPrepend(chain[i], chain[i + 1..], key, ctx);
    }

    /** Where a key belongs among 2^bits buckets. */
    function Slot(key: K, bits: nat, ctx: C): (b: nat)
      requires bits <= 64
      ensures b < Pow2(bits)
    {
      HashBitsBelowCap(hashFn(key, ctx), bits);
      HashBits(hashFn(key, ctx), bits)
    }

    /** The bucket of a key. */
    function Bucket(key: K, ctx: C): (b: nat)
      requires Valid(ctx)
      reads this
      ensures cap > 0 ==> b < cap
    {
      Slot(key, capBits, ctx)
    }

    /** Replacing or dropping an entry of another key changes nothing for this one. */
    lemma EqualsElsewhere(chain: seq<Entry<K, V>>, i: nat, instead: seq<Entry<K, V>>, key: K, ctx: C)
      requires i < |chain| && !equalFn(chain[i].key, key, ctx)
      requires forall j :: 0 <= j < |instead| ==> !equalFn(instead[j].key, key, ctx)
      ensures Equals(chain[..i] + instead + chain[i + 1..], key, ctx) == Equals(chain, key, ctx)
    {
      hide Equals;
      assert chain == chain[..i] + [chain[i]] + chain[i + 1..];
      EqualsConcat(chain[..i] + [chain[i]], chain[i + 1..], key, ctx);
      EqualsConcat(chain[..i], [chain[i]], key, ctx);
      EqualsConcat(chain[..i] + instead, chain[i + 1..], key, ctx);
      EqualsConcat(chain[..i], instead, key, ctx);
      EqualsNone([chain[i]], key, ctx);
      EqualsNone(instead, key, ctx);
    }

    /** Replacing or dropping the first equal entry does so in the entries of the key. */
    lemma EqualsAtFirst(chain: seq<Entry<K, V>>, i: nat, instead: seq<Entry<K, V>>, key: K, ctx: C)
      requires i < |chain| && equalFn(chain[i].key, key, ctx)
      requires forall j :: 0 <= j < i ==> !equalFn(chain[j].key, key, ctx)
      ensures Equals(chain, key, ctx) != []
      ensures Equals(chain[..i] + instead + chain[i + 1..], key, ctx)
                == Equals(instead, key, ctx) + Equals(chain, key, ctx)[1..]
    {
      hide Equals;
      EqualsFirst(chain, i, key, ctx);
      EqualsConcat(chain[..i] + instead, chain[i + 1..], key, ctx);
      EqualsConcat(chain[..i], instead, key, ctx);
      EqualsNone(chain[..i], key, ctx);
    }

    /** The entries with a key, in the order of their chain. */
    ghost function KeyChain(key: K, ctx: C): seq<Entry<K, V>>
      requires Valid(ctx)
      reads this
    {
      if cap == 0 then [] else Equals(buckets[Bucket(key, ctx)], key, ctx)
    }

    /** The value at the far end of the chain of a key once one more has been appended. */
    ghost function FarEndValue(key: K, value: V, ctx: C): V
      requires Valid(ctx)
      reads this
    {
      var older := ReversedIf(NeedsToGrow(), KeyChain(key, ctx));
      if older == [] then value else older[|older| - 1].value
    }

    /** Adding one chain to new buckets, entry by entry, reverses it. */
    ghost predicate ChainMoved(bs: seq<seq<Entry<K, V>>>, bs': seq<seq<Entry<K, V>>>, bits: nat,
                               chain: seq<Entry<K, V>>, ctx: C)
      requires bits <= 64 && |bs'| == |bs| == Pow2(bits)
    {
      forall k: K ::
        Equals(bs'[Slot(k, bits, ctx)], k, ctx)
          == Reverse(Equals(chain, k, ctx)) + Equals(bs[Slot(k, bits, ctx)], k, ctx)
    }

    lemma NothingMoved(bs: seq<seq<Entry<K, V>>>, bits: nat, ctx: C)
      requires bits <= 64 && |bs| == Pow2(bits)
      ensures ChainMoved(bs, bs, bits, [], ctx)
    {
      hide Slot;
      forall k: K
        ensures Equals(bs[Slot(k, bits, ctx)], k, ctx)
                  == Reverse(Equals([], k, ctx)) + Equals(bs[Slot(k, bits, ctx)], k, ctx)
      {
      }
    }

    lemma ChainMovedNext(bs: seq<seq<Entry<K, V>>>, bs': seq<seq<Entry<K, V>>>, bits: nat, chain: seq<Entry<K, V>>,
                         cur: nat, ctx: C)
      requires bits <= 64 && |bs'| == |bs| == Pow2(bits) && cur < |chain| && Lawful(ctx)
      requires ChainMoved(bs, bs', bits, chain[..cur], ctx)
      ensures var h := Slot(chain[cur].key, bits, ctx);
              ChainMoved(bs, bs'[h := [chain[cur]] + bs'[h]], bits, chain[..cur + 1], ctx)
    {
      hide HashBits, Pow2, Equals, Reverse;
      var e := chain[cur];
      var h := Slot(e.key, bits, ctx);
      forall k: K
        ensures var i := Slot(k, bits, ctx);
                Equals(bs'[h := [e] + bs'[h]][i], k, ctx)
                  == Reverse(Equals(chain[..cur + 1], k, ctx)) + Equals(bs[i], k, ctx)
      {
        var i := Slot(k, bits, ctx);
        var eq := Equals(chain[..cur], k, ctx);
        assert Equals(bs'[i], k, ctx) == Reverse(eq) + Equals(bs[i], k, ctx);
        EqualsAppend(chain, cur, k, ctx);
        EqualsPrepend(e, bs'[h], k, ctx);
        if equalFn(e.key, k, ctx) {
          ReverseAppend(eq, e);
          Reassociate([e], Reverse(eq), Equals(bs[i], k, ctx));
        } else {
          assert eq + [] == eq;
        }
      }
    }

    /** After the first n buckets have been rehashed. */
    ghost predicate BucketsMoved(bs': seq<seq<Entry<K, V>>>, bits: nat, n: nat, ctx: C)
      requires bits <= 64 && |bs'| == Pow2(bits) && Valid(ctx)
      reads this
    {
      forall k: K ::
        Equals(bs'[Slot(k, bits, ctx)], k, ctx)
          == if cap > 0 && Bucket(k, ctx) < n then Reverse(KeyChain(k, ctx)) else []
    }

    lemma BucketsMovedNext(bs: seq<seq<Entry<K, V>>>, bs': seq<seq<Entry<K, V>>>, bits: nat, n: nat, ctx: C)
      requires bits <= 64 && |bs'| == |bs| == Pow2(bits) && Valid(ctx) && Lawful(ctx) && n < cap
      requires BucketsMoved(bs, bits, n, ctx) && ChainMoved(bs, bs', bits, buckets[n], ctx)
      ensures BucketsMoved(bs', bits, n + 1, ctx)
    {
      hide HashBits, Pow2;
      forall k: K
        ensures Equals(bs'[Slot(k, bits, ctx)], k, ctx)
             == if cap > 0 && Bucket(k, ctx) < n + 1 then Reverse(KeyChain(k, ctx)) else []
      {
        var h := Slot(k, bits, ctx);
        assert Equals(bs'[h], k, ctx) == Reverse(Equals(buckets[n], k, ctx)) + Equals(bs[h], k, ctx);
        if Bucket(k, ctx) != n {
          EqualsNone(buckets[n], k, ctx);
        }
      }
    }

    lemma NoneMoved(bs': seq<seq<Entry<K, V>>>, bits: nat, ctx: C)
      requires bits <= 64 && |bs'| == Pow2(bits) && Valid(ctx) && forall b :: 0 <= b < |bs'| ==> bs'[b] == []
      ensures BucketsMoved(bs', bits, 0, ctx)
    {
      hide Slot;
      forall k: K
        ensures Equals(bs'[Slot(k, bits, ctx)], k, ctx) == []
      {
      }
    }

    /** The inner loop of `hashmap_grow`: each entry of one chain to the head of its new one. */
    method RehashChain(bs: seq<seq<Entry<K, V>>>, bits: nat, chain: seq<Entry<K, V>>, ctx: C)
      returns (bs': seq<seq<Entry<K, V>>>)
      requires bits <= 64 && |bs| == Pow2(bits) && AtHome(bs, bits, ctx) && Lawful(ctx)
      ensures |bs'| == |bs| && AtHome(bs', bits, ctx)
      ensures multiset(Flat(bs')) == multiset(Flat(bs)) + multiset(chain)
      ensures |Flat(bs')| == |Flat(bs)| + |chain|
      ensures ChainMoved(bs, bs', bits, chain, ctx)
    {
      hide Equals, HashBits, Pow2, ChainMoved;
      bs' := bs;
      assert chain[..0] == [];
      NothingMoved(bs, bits, ctx);
      var cur := 0;
      while cur < |chain|
        invariant 0 <= cur <= |chain| && |bs'| == |bs| && AtHome(bs', bits, ctx)
        invariant multiset(Flat(bs')) == multiset(Flat(bs)) + multiset(chain[..cur])
        invariant |Flat(bs')| == |Flat(bs)| + cur
        invariant ChainMoved(bs, bs', bits, chain[..cur], ctx)
      {
        var h := HashBits(hashFn(chain[cur].key, ctx), bits);
        HashBitsBelowCap(hashFn(chain[cur].key, ctx), bits);
        ChainReplaced(bs', bits, h, [chain[cur]] + bs'[h], multiset{}, multiset{chain[cur]}, ctx);
        OneMore(multiset(Flat(bs')), multiset(Flat(bs)), chain, cur);
        ChainMovedNext(bs, bs', bits, chain, cur, ctx);
        assert h == Slot(chain[cur].key, bits, ctx);
        bs' := bs'[h := [chain[cur]] + bs'[h]];
        cur := cur + 1;
      }
      assert chain[..cur] == chain;
    }

    /** The outer loop of `hashmap_grow`. */
    method RehashAll(newBits: nat, ctx: C) returns (newBuckets: seq<seq<Entry<K, V>>>)
      requires Valid(ctx) && Lawful(ctx) && newBits <= 64
      ensures |newBuckets| == Pow2(newBits) && AtHome(newBuckets, newBits, ctx)
      ensures multiset(Flat(newBuckets)) == multiset(Flat(buckets)) && |Flat(newBuckets)| == |Flat(buckets)|
      ensures BucketsMoved(newBuckets, newBits, cap, ctx)
    {
      hide Equals, HashBits, Pow2, KeyChain, Bucket, BucketsMoved, ChainMoved;
      newBuckets := seq(Shl1(newBits), _ => []);
      FlatOfEmpty(newBuckets);
      NoneMoved(newBuckets, newBits, ctx);
      var bkt := 0;
      while bkt < cap
        invariant 0 <= bkt <= cap && |newBuckets| == Pow2(newBits)
        invariant AtHome(newBuckets, newBits, ctx)
        invariant multiset(Flat(newBuckets)) == multiset(Flat(buckets[..bkt]))
        invariant |Flat(newBuckets)| == |Flat(buckets[..bkt])|
        invariant BucketsMoved(newBuckets, newBits, bkt, ctx)
      {
        ghost var before := newBuckets;
        newBuckets := RehashChain(newBuckets, newBits, buckets[bkt], ctx);
        assert buckets[..bkt + 1][..bkt] == buckets[..bkt];
        BucketsMovedNext(before, newBuckets, newBits, bkt, ctx);
        bkt := bkt + 1;
      }
      assert buckets[..cap] == buckets;
    }

    /** Rehashes every entry into twice the buckets; the multimap stays the same, and
        the entries of each key come out in the opposite order. */
    method Grow(ctx: C) returns (err: int)
      requires Valid(ctx) && Lawful(ctx)
      modifies this
      ensures Valid(ctx) && Contents() == old(Contents()) && sz == old(sz)
      ensures err == 0 || (err == ENOMEM && unchanged(this))
      ensures err == ENOMEM <==> old(capBits) + 1 >= CALLOC_FAIL_BITS
      ensures err == 0 ==> capBits == (if old(cap) == 0 then MIN_CAP_BITS else old(capBits) + 1)
                           && cap == (if old(cap) == 0 then 4 else 2 * old(cap)) && !NeedsToGrow()
      ensures err == 0 ==> forall k: K :: KeyChain(k, ctx) == Reverse(old(KeyChain(k, ctx)))
    {
      var newBits := capBits + 1;
      if newBits < MIN_CAP_BITS { newBits := MIN_CAP_BITS; }
      if newBits >= CALLOC_FAIL_BITS { return ENOMEM; }
      var newBuckets := RehashAll(newBits, ctx);
      Doubled(cap, capBits, newBits, sz);
      cap, capBits, buckets := Shl1(newBits), newBits, newBuckets;
      err := 0;
    }

    /** `hashmap_find_entry` on one bucket: the position of the first equal key, if any. */
    method FindEntry(key: K, hash: nat, ctx: C) returns (pos: Option<nat>)
      requires Valid(ctx) && hash == Bucket(key, ctx)
      ensures pos.None? ==> cap == 0 || forall e :: e in buckets[hash] ==> !equalFn(e.key, key, ctx)
      ensures pos.Some? ==> && cap > 0 && pos.value < |buckets[hash]|
                            && equalFn(buckets[hash][pos.value].key, key, ctx)
                            && forall j :: 0 <= j < pos.value ==> !equalFn(buckets[hash][j].key, key, ctx)
      ensures pos.None? <==> KeyChain(key, ctx) == []
      ensures pos.Some? ==> KeyChain(key, ctx)[0] == buckets[hash][pos.value]
    {
      hide Equals, Bucket, HashBits, Pow2, AtHome;
      if cap == 0 { return None; }
      var cur := 0;
      while cur < |buckets[hash]|
        invariant 0 <= cur <= |buckets[hash]|
        invariant forall j :: 0 <= j < cur ==> !equalFn(buckets[hash][j].key, key, ctx)
      {
        if equalFn(buckets[hash][cur].key, key, ctx) {
          EqualsFirst(buckets[hash], cur, key, ctx);
          return Some(cur);
        }
        cur := cur + 1;
      }
      EqualsNone(buckets[hash], key, ctx);
      pos := None;
    }

    lemma NotInBucketNotHeld(key: K, ctx: C)
      requires Valid(ctx) && Lawful(ctx)
      requires cap == 0 || forall e :: e in buckets[Bucket(key, ctx)] ==> !equalFn(e.key, key, ctx)
      ensures !Holds(key, ctx)
    {
      forall e | e in Contents()
        ensures !equalFn(e.key, key, ctx)
      {
        InFlat(buckets, e);
      }
    }

    lemma InBucketHeld(b: nat, j: nat)
      requires b < |buckets| && j < |buckets[b]|
      ensures buckets[b][j] in Contents()
    {
      assert buckets[b][j] in buckets[b];
      InFlat(buckets, buckets[b][j]);
    }

    /** `hashmap__insert`; `was` is the entry it reports through old_key and old_value. */
    method Insert(key: K, value: V, strategy: Strategy, ctx: C) returns (err: int, was: Option<Entry<K, V>>)
      requires Valid(ctx) && Lawful(ctx)
      modifies this
      ensures Valid(ctx)
      ensures err in {0, ENOENT, EEXIST, ENOMEM} && (err != 0 ==> Contents() == old(Contents()))
      ensures was.Some? <==> strategy != Append && old(Holds(key, ctx))
      ensures was.Some? ==> was.value in old(Contents()) && equalFn(was.value.key, key, ctx)
      ensures err == EEXIST <==> was.Some? && strategy == Add
      ensures err == ENOENT <==> was.None? && strategy == Update
      ensures err == ENOMEM <==>
                was.None? && strategy != Update && old(Full())
      ensures err == 0 && was.Some? ==>
                Contents() == old(Contents()) - multiset{was.value} + multiset{Entry(key, value)}
      ensures err == 0 && was.None? ==> Contents() == old(Contents()) + multiset{Entry(key, value)}
      ensures was.Some? ==> old(KeyChain(key, ctx)) != [] && was.value == old(KeyChain(key, ctx))[0]
      ensures err != 0 || was.Some? ==> sz == old(sz) && cap == old(cap) && capBits == old(capBits)
      ensures err != 0 ==> forall k: K :: KeyChain(k, ctx) == old(KeyChain(k, ctx))
      ensures err == 0 && was.None? ==> sz == old(sz) + 1 && cap == old(NextCap()) && capBits == old(NextCapBits())
      ensures err == 0 && was.None? ==> forall k: K ::
        KeyChain(k, ctx) == (if equalFn(key, k, ctx) then [Entry(key, value)] else [])
                            + ReversedIf(old(NeedsToGrow()), old(KeyChain(k, ctx)))
      ensures err == 0 && was.Some? ==>
        && KeyChain(key, ctx)
             == (if equalFn(key, key, ctx) then [Entry(key, value)] else []) + old(KeyChain(key, ctx))[1..]
        && forall k: K :: !equalFn(was.value.key, k, ctx) && !equalFn(key, k, ctx)
                          ==> KeyChain(k, ctx) == old(KeyChain(k, ctx))
    {
      hide Flat, AtHome, HashBits, Pow2, Equals, KeyChain, Contents, Bucket;
      was := None;
      var h := Bucket(key, ctx);
      if strategy != Append {
        var pos := FindEntry(key, h, ctx);
        if pos.Some? {
          InBucketHeld(h, pos.value);
          was := Some(buckets[h][pos.value]);
          if strategy == Set || strategy == Update {
            ReplaceEntry(h, pos.value, Entry(key, value), ctx);
            return 0, was;
          }
          return EEXIST, was;
        }
        NotInBucketNotHeld(key, ctx);
      }
      if strategy == Update { return ENOENT, was; }
      if NeedsToGrow() {
        err := Grow(ctx);
        if err != 0 { return err, was; }
        h := Bucket(key, ctx);
      }
      AddEntry(h, Entry(key, value), ctx);
      err := 0;
    }

    method ReplaceEntry(h: nat, i: nat, e: Entry<K, V>, ctx: C)
      requires Valid(ctx) && h == Bucket(e.key, ctx) && cap > 0 && i < |buckets[h]| && Lawful(ctx)
      requires equalFn(buckets[h][i].key, e.key, ctx)
      requires forall j :: 0 <= j < i ==> !equalFn(buckets[h][j].key, e.key, ctx)
      modifies this
      ensures Valid(ctx) && Contents() == old(Contents()) - multiset{old(buckets[h][i])} + multiset{e}
      ensures sz == old(sz) && cap == old(cap) && capBits == old(capBits) && old(KeyChain(e.key, ctx)) != []
      ensures KeyChain(e.key, ctx) == (if equalFn(e.key, e.key, ctx) then [e] else []) + old(KeyChain(e.key, ctx))[1..]
      ensures forall k: K :: !equalFn(old(buckets[h][i]).key, k, ctx) && !equalFn(e.key, k, ctx)
                             ==> KeyChain(k, ctx) == old(KeyChain(k, ctx))
    {
      hide Flat, AtHome, HashBits, Pow2, Equals;
      ReplacedInChain(buckets[h], i, e);
      ChainReplaced(buckets, capBits, h, buckets[h][i := e], multiset{buckets[h][i]}, multiset{e}, ctx);
      OneEntryReplaced(h, i, e, ctx);
      buckets := buckets[h := buckets[h][i := e]];
    }

    /** `hashmap_add_entry` and the size update after it. */
    method AddEntry(h: nat, e: Entry<K, V>, ctx: C)
      requires Valid(ctx) && h == Bucket(e.key, ctx) && !NeedsToGrow() && Lawful(ctx)
      modifies this
      ensures Valid(ctx) && Contents() == old(Contents()) + multiset{e}
      ensures sz == old(sz) + 1 && cap == old(cap) && capBits == old(capBits)
      ensures forall k: K :: KeyChain(k, ctx) == (if equalFn(e.key, k, ctx) then [e] else []) + old(KeyChain(k, ctx))
    {
      hide Flat, AtHome, HashBits, Pow2, Equals;
      ChainReplaced(buckets, capBits, h, [e] + buckets[h], multiset{}, multiset{e}, ctx);
      OneEntryAdded(h, e, ctx);
      buckets := buckets[h := [e] + buckets[h]];
      sz := sz + 1;
    }

    /** `hashmap_del_entry` and the size update after it. */
    method RemoveEntry(h: nat, i: nat, key: K, ctx: C)
      requires Valid(ctx) && h == Bucket(key, ctx) && cap > 0 && i < |buckets[h]| && Lawful(ctx)
      requires equalFn(buckets[h][i].key, key, ctx)
      requires forall j :: 0 <= j < i ==> !equalFn(buckets[h][j].key, key, ctx)
      modifies this
      ensures Valid(ctx) && Contents() == old(Contents()) - multiset{old(buckets[h][i])}
      ensures sz == old(sz) - 1 && cap == old(cap) && capBits == old(capBits) && old(KeyChain(key, ctx)) != []
      ensures KeyChain(key, ctx) == old(KeyChain(key, ctx))[1..]
      ensures forall k: K :: !equalFn(old(buckets[h][i]).key, k, ctx) ==> KeyChain(k, ctx) == old(KeyChain(k, ctx))
    {
      hide Flat, AtHome, HashBits, Pow2, Equals;
      DroppedFromTable(buckets, capBits, h, i, ctx);
      var rest := buckets[h][..i] + buckets[h][i + 1..];
      OneEntryDropped(h, i, key, ctx);
      buckets := buckets[h := rest];
      sz := sz - 1;
    }

    lemma OneChainChanged(h: nat, i: nat, instead: seq<Entry<K, V>>, key: K, ctx: C)
      requires Valid(ctx) && h == Bucket(key, ctx) && cap > 0 && i < |buckets[h]|
      requires equalFn(buckets[h][i].key, key, ctx)
      requires forall j :: 0 <= j < i ==> !equalFn(buckets[h][j].key, key, ctx)
      ensures var chain := buckets[h][..i] + instead + buckets[h][i + 1..];
              && KeyChain(key, ctx) != []
              && Equals(chain, key, ctx) == Equals(instead, key, ctx) + KeyChain(key, ctx)[1..]
              && forall k: K :: !equalFn(buckets[h][i].key, k, ctx)
                                && (forall j :: 0 <= j < |instead| ==> !equalFn(instead[j].key, k, ctx))
                                ==> Equals(chain, k, ctx) == Equals(buckets[h], k, ctx)
    {
      hide HashBits, Pow2, Equals;
      EqualsAtFirst(buckets[h], i, instead, key, ctx);
      forall k: K | !equalFn(buckets[h][i].key, k, ctx) && forall j :: 0 <= j < |instead| ==>
        !equalFn(instead[j].key, k, ctx)
        ensures Equals(buckets[h][..i] + instead + buckets[h][i + 1..], k, ctx) == Equals(buckets[h], k, ctx)
      {
        EqualsElsewhere(buckets[h], i, instead, k, ctx);
      }
    }

    lemma OneEntryReplaced(h: nat, i: nat, e: Entry<K, V>, ctx: C)
      requires Valid(ctx) && h == Bucket(e.key, ctx) && cap > 0 && i < |buckets[h]|
      requires equalFn(buckets[h][i].key, e.key, ctx)
      requires forall j :: 0 <= j < i ==> !equalFn(buckets[h][j].key, e.key, ctx)
      ensures var chain := buckets[h][i := e];
              && KeyChain(e.key, ctx) != []
              && Equals(chain, e.key, ctx)
                 == (if equalFn(e.key, e.key, ctx) then [e] else []) + KeyChain(e.key, ctx)[1..]
              && forall k: K :: !equalFn(buckets[h][i].key, k, ctx) && !equalFn(e.key, k, ctx)
                                ==> Equals(chain, k, ctx) == Equals(buckets[h], k, ctx)
    {
      hide HashBits, Pow2, Equals, Flat, AtHome;
      OneChainChanged(h, i, [e], e.key, ctx);
      assert buckets[h][i := e] == buckets[h][..i] + [e] + buckets[h][i + 1..];
      assert [e] == [e] + [];
      EqualsPrepend(e, [], e.key, ctx);
      EqualsNone([], e.key, ctx);
    }

    lemma OneEntryDropped(h: nat, i: nat, key: K, ctx: C)
      requires Valid(ctx) && h == Bucket(key, ctx) && cap > 0 && i < |buckets[h]|
      requires equalFn(buckets[h][i].key, key, ctx)
      requires forall j :: 0 <= j < i ==> !equalFn(buckets[h][j].key, key, ctx)
      ensures var chain := buckets[h][..i] + buckets[h][i + 1..];
              && KeyChain(key, ctx) != []
              && Equals(chain, key, ctx) == KeyChain(key, ctx)[1..]
              && forall k: K :: !equalFn(buckets[h][i].key, k, ctx) ==>
                   Equals(chain, k, ctx) == Equals(buckets[h], k, ctx)
    {
      hide HashBits, Pow2, Equals, Flat, AtHome;
      var none: seq<Entry<K, V>> := [];
      OneChainChanged(h, i, none, key, ctx);
      EqualsNone(none, key, ctx);
      assert buckets[h][..i] + none + buckets[h][i + 1..] == buckets[h][..i] + buckets[h][i + 1..];
    }

    lemma OneEntryAdded(h: nat, e: Entry<K, V>, ctx: C)
      requires Valid(ctx) && h == Bucket(e.key, ctx) && cap > 0 && Lawful(ctx)
      ensures forall k: K :: && (equalFn(e.key, k, ctx) ==> Bucket(k, ctx) == h)
                             && Equals([e] + buckets[h], k, ctx)
                                == (if equalFn(e.key, k, ctx) then [e] else []) + Equals(buckets[h], k, ctx)
    {
      hide HashBits, Pow2, Equals;
      forall k: K
        ensures equalFn(e.key, k, ctx) ==> Bucket(k, ctx) == h
        ensures Equals([e] + buckets[h], k, ctx)
             == (if equalFn(e.key, k, ctx) then [e] else []) + Equals(buckets[h], k, ctx)
      {
        EqualsPrepend(e, buckets[h], k, ctx);
      }
    }

    /** What replacing one chain does to the whole table. */
    lemma ChainReplaced(bs: seq<seq<Entry<K, V>>>, bits: nat, h: nat, chain: seq<Entry<K, V>>,
                        gone: multiset<Entry<K, V>>, come: multiset<Entry<K, V>>, ctx: C)
      requires bits <= 64 && AtHome(bs, bits, ctx) && h < |bs|
      requires gone <= multiset(bs[h]) && multiset(chain) == multiset(bs[h]) - gone + come
      requires forall e :: e in come ==> HashBits(hashFn(e.key, ctx), bits) == h
      ensures AtHome(bs[h := chain], bits, ctx)
      ensures multiset(Flat(bs[h := chain])) == multiset(Flat(bs)) - gone + come
      ensures |Flat(bs[h := chain])| + |bs[h]| == |Flat(bs)| + |chain|
    {
      forall j | 0 <= j < |chain|
        ensures HashBits(hashFn(chain[j].key, ctx), bits) == h
      {
        assert chain[j] in multiset(chain);
        assert chain[j] !in come ==> chain[j] in multiset(bs[h]);
      }
      FlatUpdate(bs, h, chain);
      forall e | e in gone
        ensures gone[e] <= multiset(Flat(bs))[e]
      {
        ChainWithinFlat(bs, h, e);
      }
      Exchange(multiset(Flat(bs[h := chain])), multiset(Flat(bs)), multiset(bs[h]), gone, come);
    }

    lemma DroppedFromTable(bs: seq<seq<Entry<K, V>>>, bits: nat, h: nat, i: nat, ctx: C)
      requires bits <= 64 && AtHome(bs, bits, ctx) && h < |bs| && i < |bs[h]|
      ensures var bs' := bs[h := bs[h][..i] + bs[h][i + 1..]];
              && AtHome(bs', bits, ctx) && multiset(Flat(bs')) == multiset(Flat(bs)) - multiset{bs[h][i]}
              && |Flat(bs')| + 1 == |Flat(bs)|
    {
      hide Flat, AtHome;
      DroppedFromChain(bs[h], i);
      ChainReplaced(bs, bits, h, bs[h][..i] + bs[h][i + 1..], multiset{bs[h][i]}, multiset{}, ctx);
    }

    /** `hashmap__find`. */
    method Find(key: K, ctx: C) returns (found: Option<V>)
      requires Valid(ctx) && Lawful(ctx)
      ensures found.Some? <==> Holds(key, ctx)
      ensures found.Some? ==> exists e :: e in Contents() && equalFn(e.key, key, ctx) && e.value == found.value
      ensures found == if KeyChain(key, ctx) == [] then None else Some(KeyChain(key, ctx)[0].value)
    {
      var h := Bucket(key, ctx);
      var pos := FindEntry(key, h, ctx);
      if pos.None? {
        NotInBucketNotHeld(key, ctx);
        return None;
      }
      InBucketHeld(h, pos.value);
      found := Some(buckets[h][pos.value].value);
    }

    /** `hashmap__delete`; `was` is the entry it removed. */
    method Delete(key: K, ctx: C) returns (was: Option<Entry<K, V>>)
      requires Valid(ctx) && Lawful(ctx)
      modifies this
      ensures Valid(ctx) && (was.Some? <==> old(Holds(key, ctx)))
      ensures was.None? ==> Contents() == old(Contents())
      ensures was.Some? ==> && was.value in old(Contents()) && equalFn(was.value.key, key, ctx)
                            && Contents() == old(Contents()) - multiset{was.value}
      ensures was == if old(KeyChain(key, ctx)) == [] then None else Some(old(KeyChain(key, ctx))[0])
      ensures was.None? ==> sz == old(sz) && forall k: K :: KeyChain(k, ctx) == old(KeyChain(k, ctx))
      ensures was.Some? ==> && sz == old(sz) - 1 && KeyChain(key, ctx) == old(KeyChain(key, ctx))[1..]
                            && forall k: K :: !equalFn(was.value.key, k, ctx) ==>
                                 KeyChain(k, ctx) == old(KeyChain(k, ctx))
      ensures cap == old(cap) && capBits == old(capBits)
    {
      var h := Bucket(key, ctx);
      var pos := FindEntry(key, h, ctx);
      if pos.None? {
        NotInBucketNotHeld(key, ctx);
        return None;
      }
      InBucketHeld(h, pos.value);
      was := Some(buckets[h][pos.value]);
      RemoveEntry(h, pos.value, key, ctx);
    }

    /** The entries `hashmap__for_each_key_entry` visits, in its order: every entry
        with an equal key, each once, and no other. */
    method KeyEntries(key: K, ctx: C) returns (es: seq<Entry<K, V>>)
      requires Valid(ctx) && Lawful(ctx)
      ensures forall e :: multiset(es)[e] == if equalFn(e.key, key, ctx) then Contents()[e] else 0
      ensures es == KeyChain(key, ctx)
    {
      hide HashBits, Pow2, Equals;
      es := [];
      EqualsNone([], key, ctx);
      if cap == 0 {
        FlatOfEmpty(buckets);
        return;
      }
      var h := Bucket(key, ctx);
      var chain, cur := buckets[h], 0;
      while cur < |chain|
        invariant 0 <= cur <= |chain|
        invariant forall e :: multiset(es)[e] == if equalFn(e.key, key, ctx) then multiset(chain[..cur])[e] else 0
        invariant es == Equals(chain[..cur], key, ctx)
      {
        if equalFn(chain[cur].key, key, ctx) { es := es + [chain[cur]]; }
        assert chain[..cur + 1] == chain[..cur] + [chain[cur]];
        EqualsAppend(chain, cur, key, ctx);
        cur := cur + 1;
      }
      assert chain[..cur] == chain;
      forall e: Entry<K, V> | equalFn(e.key, key, ctx)
        ensures multiset(chain)[e] == Contents()[e]
      {
        FlatCount(buckets, h, e);
      }
    }

    /** Validity depends on the context only through the hashes of the keys held. */
    lemma ContextOnlyMattersForHeldKeys(before: C, after: C)
      requires Valid(before)
      requires forall e :: e in Contents() ==> hashFn(e.key, before) == hashFn(e.key, after)
      ensures Valid(after)
    {
      forall b, j | 0 <= b < |buckets| && 0 <= j < |buckets[b]|
        ensures HashBits(hashFn(buckets[b][j].key, after), capBits) == b
      {
        InBucketHeld(b, j);
      }
    }
  }

  /** Another call on the table. */
  datatype Op<+K, +V> = InsertOp(key: K, value: V, strategy: Strategy) | DeleteOp(key: K) | FindOp(key: K)

  /** Any calls with other keys: the entries of this key only turn round when the table
      grows, and each growth adds one bit to the bucket number. */
  method CallsWithOtherKeys<K(==,!new), V(==,!new), C(!new)>(table: HashMap<K, V, C>, ops: seq<Op<K, V>>, key: K,
                                                             ctx: C)
    requires table.Valid(ctx) && table.cap > 0 && table.Equivalence(ctx)
    requires forall i :: 0 <= i < |ops| ==> !table.equalFn(ops[i].key, key, ctx)
    modifies table
    ensures table.Valid(ctx) && table.capBits >= old(table.capBits)
    ensures table.KeyChain(key, ctx) == AfterGrowths(old(table.KeyChain(key, ctx)), table.capBits - old(table.capBits))
  {
    hide HashMap.Valid, HashMap.KeyChain, HashMap.Equivalence, AfterGrowths, ReversedIf;
    ghost var chain := table.KeyChain(key, ctx);
    OneMoreGrowth(chain, 0, false);
    for i := 0 to |ops|
      invariant table.Valid(ctx) && table.cap > 0 && table.capBits >= old(table.capBits)
      invariant table.KeyChain(key, ctx) == AfterGrowths(chain, table.capBits - old(table.capBits))
    {
      ghost var bits := table.capBits;
      OtherCall(table, ops[i], key, ctx);
      OneMoreGrowth(chain, bits - old(table.capBits), table.capBits != bits);
    }
  }

  method OtherCall<K(==,!new), V(==,!new), C(!new)>(table: HashMap<K, V, C>, op: Op<K, V>, key: K, ctx: C)
    requires table.Valid(ctx) && table.cap > 0 && table.Equivalence(ctx) && !table.equalFn(op.key, key, ctx)
    modifies table
    ensures table.Valid(ctx) && table.cap > 0 && table.capBits - old(table.capBits) in {0, 1}
    ensures table.KeyChain(key, ctx) == ReversedIf(table.capBits != old(table.capBits), old(table.KeyChain(key, ctx)))
  {
    hide HashMap.Valid, HashMap.KeyChain, HashMap.Holds, HashMap.Contents;
    match op
    case InsertOp(k, value, strategy) =>
      var err, was := table.Insert(k, value, strategy, ctx);
    case DeleteOp(k) =>
      var was := table.Delete(k, ctx);
    case FindOp(k) =>
      var found := table.Find(k, ctx);
  }

  /** The last appended value of a key is what a find returns, whatever calls with other
      keys come between, if the table has grown an even number of times since; otherwise
      it is the value at the far end of the chain (the new one if the key was not held). */
  method FindAfterAppend<K(==,!new), V(==,!new), C(!new)>(table: HashMap<K, V, C>, key: K, value: V, ops: seq<Op<K, V>>,
                                                          ctx: C)
    returns (err: int, ghost bits: nat, found: Option<V>)
    requires table.Valid(ctx) && table.Equivalence(ctx)
    requires forall i :: 0 <= i < |ops| ==> !table.equalFn(ops[i].key, key, ctx)
    modifies table
    ensures table.Valid(ctx) && (err == 0 ==> bits == old(table.NextCapBits()) <= table.capBits)
    ensures err == 0 ==> found == Some(if (table.capBits - bits) % 2 == 0 then value else
                                       old(table.FarEndValue(key, value, ctx)))
  {
    hide HashMap.Valid, HashMap.KeyChain, HashMap.Holds, HashMap.Contents, AfterGrowths, Reverse;
    var was;
    err, was := table.Insert(key, value, Append, ctx);
    found, bits := None, table.capBits;
    if err == 0 {
      ghost var chain := table.KeyChain(key, ctx);
      CallsWithOtherKeys(table, ops, key, ctx);
      GrowthParity(chain, table.capBits - bits);
      found := table.Find(key, ctx);
    }
  }

  /** The documented order fails: after two appends of key 0, two appends of other keys
      grow the table, and the first value of key 0 is found. */
  method GrowthHidesLastAppend() returns (found: Option<int>)
    ensures found == Some(1)
  {
    hide HashMap.Valid, HashMap.Holds, HashMap.Contents, AfterGrowths;
    var table := new HashMap<nat, int, ()>((k: nat, ctx) => Wrap64(k), (a, b, ctx) => a == b);
    assert table.KeyChain(0, ()) == [];
    hide HashMap.KeyChain;
    var err, was := table.Insert(0, 1, Append, ());
    assert table.KeyChain(0, ()) == [Entry(0, 1)] && table.sz == 1 && table.cap == 4;
    err, was := table.Insert(0, 2, Append, ());
    assert table.KeyChain(0, ()) == [Entry(0, 2), Entry(0, 1)] && table.sz == 2 && table.cap == 4;
    err, was := table.Insert(1, 0, Append, ());
    assert table.KeyChain(0, ()) == [Entry(0, 2), Entry(0, 1)] && table.sz == 3 && table.cap == 4;
    err, was := table.Insert(2, 0, Append, ());
    found := table.Find(0, ());
  }

  lemma ReplacedInChain<T>(chain: seq<T>, i: nat, e: T)
    requires i < |chain|
    ensures multiset(chain[i := e]) == multiset(chain) - multiset{chain[i]} + multiset{e}
  {
  }

  lemma OneMore<T>(all: multiset<T>, before: multiset<T>, chain: seq<T>, cur: nat)
    requires cur < |chain| && all == before + multiset(chain[..cur])
    ensures all + multiset{chain[cur]} == before + multiset(chain[..cur + 1])
  {
    assert chain[..cur + 1] == chain[..cur] + [chain[cur]];
  }

  /** Twice the buckets are at most three quarters full after one more entry. */
  lemma Doubled(cap: nat, bits: nat, newBits: nat, sz: nat)
    requires sz * 4 / 3 <= cap
    requires if cap == 0 then bits == 0 && newBits == 2 else bits >= 2 && cap == Pow2(bits) && newBits == bits + 1
    ensures (sz + 1) * 4 / 3 <= Pow2(newBits)
  {
    assert Pow2(2) == 4;
    if cap > 0 {
      Pow2Monotonic(2, bits);
    }
  }

  lemma DroppedFromChain<T>(chain: seq<T>, i: nat)
    requires i < |chain|
    ensures multiset(chain[..i] + chain[i + 1..]) == multiset(chain) - multiset{chain[i]}
  {
    assert chain == chain[..i] + [chain[i]] + chain[i + 1..];
  }

  /** Replacing one chain by another replaces in the whole what it replaces in the chain. */
  lemma Exchange<T>(after: multiset<T>, before: multiset<T>, chain: multiset<T>, gone: multiset<T>, come: multiset<T>)
    requires after + chain == before + (chain - gone + come)
    requires gone <= chain && gone <= before
    ensures after == before - gone + come
  {
    forall e: T
      ensures after[e] == (before - gone + come)[e]
    {
      assert (after + chain)[e] == (before + (chain - gone + come))[e];
    }
  }

  lemma {:induction false} Pow2Monotonic(a: nat, b: nat)
    requires a <= b
    ensures Pow2(a) <= Pow2(b)
    decreases b
  {
    if a < b {
      Pow2Monotonic(a, b - 1);
    }
  }
}
