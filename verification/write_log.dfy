/** Prefix iteration over a key-value state, and the write log that buffers a block's
    writes in front of the storage until the block is committed. */
module WriteLog {
  import opened Common
  import opened Storage

  /** One item of a prefix iteration: a key, its value, and the gas the item costs. */
  datatype Entry = Entry(key: Key, value: Bytes, gas: nat)

  function Keys(es: seq<Entry>): (ks: seq<Key>)
    ensures |ks| == |es| && forall i :: 0 <= i < |es| ==> ks[i] == es[i].key
  {
    if |es| == 0 then [] else Keys(es[..|es| - 1]) + [es[|es| - 1].key]
  }

  /** `es` lists exactly the pairs of `m` whose key starts with `prefix`, in strictly
      ascending key order, each charging its key's length plus its value's length. */
  predicate IsPrefixListing(m: Subspace, prefix: Key, es: seq<Entry>)
  {
    && StrictlyAscending(Keys(es))
    && (forall i :: 0 <= i < |es| ==> prefix <= es[i].key && es[i].key in m)
    && (forall i :: 0 <= i < |es| ==> es[i].key in m && es[i].value == m[es[i].key])
    && (forall i :: 0 <= i < |es| ==> es[i].gas == |es[i].key| + |es[i].value|)
    && (forall k :: k in m && prefix <= k ==> k in Elems(Keys(es)))
  }

  /** The iteration's progress: `es` lists, in ascending order, the pairs under `prefix`
      that are smaller than every key still `remaining`, and together they cover all
      pairs under the prefix. */
  predicate PartialListing(m: Subspace, prefix: Key, es: seq<Entry>, remaining: set<Key>)
  {
    && (forall k :: k in remaining ==> k in m && prefix <= k)
    && StrictlyAscending(Keys(es))
    && (forall i :: 0 <= i < |es| ==> prefix <= es[i].key && es[i].key in m)
    && (forall i :: 0 <= i < |es| ==> es[i].key in m && es[i].value == m[es[i].key])
    && (forall i :: 0 <= i < |es| ==> es[i].gas == |es[i].key| + |es[i].value|)
    && (forall i, k :: 0 <= i < |es| && k in remaining ==> Less(es[i].key, k))
    && (forall k :: k in m && prefix <= k ==> k in remaining || k in Elems(Keys(es)))
  }

  /** Taking the smallest remaining key next keeps the iteration's progress invariant. */
  lemma PartialListingStep(m: Subspace, prefix: Key, es: seq<Entry>, remaining: set<Key>, k: Key)
    requires PartialListing(m, prefix, es, remaining)
    requires IsLeast(k, remaining)
    ensures PartialListing(m, prefix, es + [Entry(k, m[k], |k| + |m[k]|)], remaining - {k})
  {
    var es' := es + [Entry(k, m[k], |k| + |m[k]|)];
    forall i, x | 0 <= i < |es| && x in remaining - {k} ensures Less(es[i].key, x) {
      LessTransitive(es[i].key, k, x);
    }
    assert Keys(es') == Keys(es) + [k];
    ListingCoverStep(m, prefix, Keys(es), remaining, k);
  }

  /** Moving `k` from the remaining keys to the end of the listing keeps the coverage. */
  lemma ListingCoverStep(m: Subspace, prefix: Key, ks: seq<Key>, remaining: set<Key>, k: Key)
    requires forall x :: x in m && prefix <= x ==> x in remaining || x in Elems(ks)
    ensures forall x :: x in m && prefix <= x ==> x in remaining - {k} || x in Elems(ks + [k])
  {
    forall x | x in m && prefix <= x ensures x in remaining - {k} || x in Elems(ks + [k]) {
      if x == k {
        assert (ks + [k])[|ks|] == x;
      } else if x !in remaining {
        var i :| 0 <= i < |ks| && ks[i] == x;
        assert (ks + [k])[i] == x;
      }
    }
  }

  /** Iterates the pairs under `prefix` in ascending key order; the iteration itself
      charges the prefix's length. */
  method IterPrefix(m: Subspace, prefix: Key) returns (es: seq<Entry>, gas: nat)
    ensures IsPrefixListing(m, prefix, es)
    ensures gas == |prefix|
  {
    var remaining := set k | k in m && prefix <= k;
    es := [];
    while remaining != {}
      invariant PartialListing(m, prefix, es, remaining)
      decreases |remaining|
    {
      LeastExists(remaining);
      var k :| k in remaining && IsLeast(k, remaining);
      PartialListingStep(m, prefix, es, remaining, k);
      es := es + [Entry(k, m[k], |k| + |m[k]|)];
      remaining := remaining - {k};
    }
    gas := |prefix|;
  }

  /** A prefix listing is determined by the pairs under the prefix: two states that agree
      there list the same items in the same order. */
  lemma PrefixListingUnique(m1: Subspace, m2: Subspace, prefix: Key, a: seq<Entry>, b: seq<Entry>)
    requires forall k :: prefix <= k ==> Get(m1, k) == Get(m2, k)
    requires IsPrefixListing(m1, prefix, a) && IsPrefixListing(m2, prefix, b)
    ensures a == b
  {
    forall k | k in Elems(Keys(a)) ensures k in Elems(Keys(b)) {
      var i :| 0 <= i < |a| && Keys(a)[i] == k;
      assert Get(m1, k) == Get(m2, k);
    }
    forall k | k in Elems(Keys(b)) ensures k in Elems(Keys(a)) {
      var i :| 0 <= i < |b| && Keys(b)[i] == k;
      assert Get(m1, k) == Get(m2, k);
    }
    AscendingUnique(Keys(a), Keys(b));
    forall i | 0 <= i < |a| ensures a[i] == b[i] {
      assert Keys(a)[i] == Keys(b)[i];
      assert Get(m1, a[i].key) == Get(m2, a[i].key);
    }
  }

  // ---------------------------------------------------------------------------
  // The write log

  /** The storage together with the writes of the current block not yet flushed to it. */
  datatype WlStorage = WlStorage(storage: Storage, log: Diff)

  /** The state reads through the write log see: the subspace with the pending writes
      and deletes applied. */
  function View(wl: WlStorage): Subspace
  {
    Apply(wl.storage.db.subspace, wl.log)
  }

  /** Reads the pending value when the log holds one, otherwise the storage's. */
  function WlRead(wl: WlStorage, k: Key): (r: (Option<Bytes>, nat))
    ensures r.0 == Get(View(wl), k)
    ensures r.1 == ReadGas(k, r.0)
  {
    if k in wl.log then
      var v := ValueOf(Some(wl.log[k]));
      (v, ReadGas(k, v))
    else Read(wl.storage, k)
  }

  function WlWrite(wl: WlStorage, k: Key, v: Bytes): (r: (WlStorage, nat))
    ensures r.0.storage == wl.storage
    ensures r.1 == |k| + |v|
  {
    (wl.(log := wl.log[k := Put(v)]), |k| + |v|)
  }

  function WlDelete(wl: WlStorage, k: Key): (r: (WlStorage, nat))
    ensures r.0.storage == wl.storage
    ensures r.1 == |k|
  {
    (wl.(log := wl.log[k := Remove]), |k|)
  }

  /** A write through the log reads back at once; a delete reads back as absent;
      other keys read as before. */
  lemma WlWriteDeleteThenRead(wl: WlStorage, k: Key, v: Bytes, other: Key)
    ensures WlRead(WlWrite(wl, k, v).0, k).0 == Some(v)
    ensures WlRead(WlDelete(wl, k).0, k).0 == None
    ensures other != k ==> WlRead(WlWrite(wl, k, v).0, other) == WlRead(wl, other)
    ensures other != k ==> WlRead(WlDelete(wl, k).0, other) == WlRead(wl, other)
  {
  }

  /** Flushes the write log into the current block and commits the block. */
  function WlCommitBlock(wl: WlStorage): (r: WlStorage)
    ensures r.log == map[]
    ensures r.storage.lastHeight == wl.storage.block.height
  {
    WlStorage(CommitBlock(ApplyBlockDiff(wl.storage, wl.log)), map[])
  }

  /** Committing changes nothing a reader sees. */
  lemma CommitPreservesView(wl: WlStorage)
    ensures View(WlCommitBlock(wl)) == View(wl)
  {
    var flushed := Apply(wl.storage.db.subspace, wl.log);
    SubspaceExt(Apply(flushed, map[]), flushed);
  }

  /** Committing keeps the storage invariant when the block was not committed before, and
      also when a block that opens its epoch is committed again. */
  lemma CommitKeepsValid(wl: WlStorage)
    requires Valid(wl.storage) && Recommittable(wl.storage)
    ensures Valid(WlCommitBlock(wl).storage)
  {
    ApplyThenCommitValid(wl.storage, wl.log);
  }

  /** Committing the genesis block twice, with writes in between and no new block begun,
      keeps the invariant. */
  lemma GenesisCommittedTwice(limit: Option<nat>, first: Diff, second: Diff)
    ensures var wl := WlCommitBlock(WlStorage(Open(EmptyDb, limit), first));
            && Recommittable(wl.storage)
            && Valid(WlCommitBlock(wl.(log := second)).storage)
  {
    OpenEmptyValid(limit);
    var wl := WlCommitBlock(WlStorage(Open(EmptyDb, limit), first));
    CommitKeepsValid(WlStorage(Open(EmptyDb, limit), first));
    assert wl.storage.db.stores.Keys == {0};
    CommitKeepsValid(wl.(log := second));
  }

  /** Iterating a prefix before and after a commit yields the same items in the same order. */
  lemma IterPrefixStableAcrossCommit(wl: WlStorage, prefix: Key, before: seq<Entry>, after: seq<Entry>)
    requires IsPrefixListing(View(wl), prefix, before)
    requires IsPrefixListing(View(WlCommitBlock(wl)), prefix, after)
    ensures before == after
  {
    CommitPreservesView(wl);
    PrefixListingUnique(View(wl), View(WlCommitBlock(wl)), prefix, before, after);
  }

  /** A deleted key no longer appears in any prefix iteration, and every other listed
      pair is still what a read returns. */
  lemma IterPrefixOmitsDeleted(wl: WlStorage, k: Key, prefix: Key, es: seq<Entry>)
    requires IsPrefixListing(View(WlDelete(wl, k).0), prefix, es)
    ensures forall i :: 0 <= i < |es| ==> es[i].key != k
    ensures forall i :: 0 <= i < |es| ==> WlRead(wl, es[i].key).0 == Some(es[i].value)
  {
    forall i | 0 <= i < |es| ensures es[i].key != k && WlRead(wl, es[i].key).0 == Some(es[i].value) {
      assert Get(View(WlDelete(wl, k).0), es[i].key) == Some(es[i].value);
    }
  }
}
