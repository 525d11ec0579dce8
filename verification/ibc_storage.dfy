/** The IBC storage set up at genesis and the per-epoch reset of the throughput
    counters, both written through the write log. */
module IbcStorage {
  import opened Common
  import opened Storage
  import opened WriteLog

  /** The IBC counters; each starts at zero at genesis. */
  const ClientCounterKey: Key := "#ibc/clients/counter"
  const ConnectionCounterKey: Key := "#ibc/connections/counter"
  const ChannelCounterKey: Key := "#ibc/channelEnds/counter"

  /** The prefixes under which a token's deposits and withdrawals in the current epoch
      are kept. */
  const DepositPrefix: Key := "#ibc/deposit/"
  const WithdrawPrefix: Key := "#ibc/withdraw/"

  /** The Borsh encoding of the `u64` zero: eight zero bytes. */
  const ZeroU64: Bytes := Zeros(8)

  /** The Borsh encoding of the zero `Amount` (a 256-bit integer): thirty-two zero bytes. */
  const ZeroAmount: Bytes := Zeros(32)

  predicate IsThroughputKey(k: Key)
  {
    DepositPrefix <= k || WithdrawPrefix <= k
  }

  /** Writes the zero counters of clients, connections and channels. */
  function InitGenesisStorage(wl: WlStorage): (r: WlStorage)
    ensures r.storage == wl.storage
    ensures Get(View(r), ClientCounterKey) == Some(ZeroU64)
    ensures Get(View(r), ConnectionCounterKey) == Some(ZeroU64)
    ensures Get(View(r), ChannelCounterKey) == Some(ZeroU64)
    ensures forall k :: k != ClientCounterKey && k != ConnectionCounterKey && k != ChannelCounterKey
                        ==> Get(View(r), k) == Get(View(wl), k)
  {
    var a := WlWrite(wl, ClientCounterKey, ZeroU64).0;
    var b := WlWrite(a, ConnectionCounterKey, ZeroU64).0;
    WlWrite(b, ChannelCounterKey, ZeroU64).0
  }

  /** The state after the reset: every throughput key present holds zero; nothing else
      changes and no key appears or disappears. */
  function Cleared(m: Subspace): Subspace
  {
    map k | k in m :: if IsThroughputKey(k) then ZeroAmount else m[k]
  }

  lemma ClearedGet(m: Subspace, k: Key)
    ensures Get(Cleared(m), k) == if k in m && IsThroughputKey(k) then Some(ZeroAmount) else Get(m, k)
  {
  }

  /** The keys of the first `n` entries. */
  ghost function KeysUpTo(es: seq<Entry>, n: nat): set<Key>
    requires n <= |es|
  {
    set j | 0 <= j < n :: es[j].key
  }

  /** The keys in `zeroed` read as zero; every other key reads as before. */
  ghost predicate ZeroedSoFar(wl: WlStorage, r: WlStorage, zeroed: set<Key>)
  {
    && r.storage == wl.storage
    && (forall k :: Get(View(r), k) == if k in zeroed then Some(ZeroAmount) else Get(View(wl), k))
  }

  lemma ZeroStep(wl: WlStorage, r: WlStorage, zeroed: set<Key>, k: Key)
    requires ZeroedSoFar(wl, r, zeroed)
    ensures ZeroedSoFar(wl, WlWrite(r, k, ZeroAmount).0, zeroed + {k})
  {
    var r' := WlWrite(r, k, ZeroAmount).0;
    forall x ensures Get(View(r'), x) == if x in zeroed + {k} then Some(ZeroAmount) else Get(View(wl), x) {
      assert Get(View(r'), x) == if x == k then Some(ZeroAmount) else Get(View(r), x);
    }
  }

  /** Writes a zero amount to the key of every entry, in order. */
  method WriteZeros(wl: WlStorage, es: seq<Entry>) returns (r: WlStorage)
    ensures ZeroedSoFar(wl, r, KeysUpTo(es, |es|))
  {
    r := wl;
    var i := 0;
    while i < |es|
      invariant 0 <= i <= |es|
      invariant ZeroedSoFar(wl, r, KeysUpTo(es, i))
    {
      ZeroStep(wl, r, KeysUpTo(es, i), es[i].key);
      assert KeysUpTo(es, i + 1) == KeysUpTo(es, i) + {es[i].key};
      r := WlWrite(r, es[i].key, ZeroAmount).0;
      i := i + 1;
    }
  }

  /** A prefix listing's keys are exactly the keys under the prefix. */
  lemma ListingKeys(m: Subspace, prefix: Key, es: seq<Entry>)
    requires IsPrefixListing(m, prefix, es)
    ensures forall k :: k in KeysUpTo(es, |es|) <==> k in m && prefix <= k
  {
    forall k | k in m && prefix <= k ensures k in KeysUpTo(es, |es|) {
      var j :| 0 <= j < |es| && Keys(es)[j] == k;
    }
  }

  /** Lists the keys under `prefix` and writes a zero amount to each. */
  method ClearPrefix(wl: WlStorage, prefix: Key) returns (r: WlStorage)
    ensures r.storage == wl.storage
    ensures forall k :: Get(View(r), k) == if k in View(wl) && prefix <= k then Some(ZeroAmount) else Get(View(wl), k)
  {
    var es, _ := IterPrefix(View(wl), prefix);
    ListingKeys(View(wl), prefix, es);
    r := WriteZeros(wl, es);
  }

  /** Resets the deposit and the withdraw of every token in the current epoch to zero. */
  method ClearThroughputs(wl: WlStorage) returns (r: WlStorage)
    ensures r.storage == wl.storage
    ensures View(r) == Cleared(View(wl))
  {
    var deposits := ClearPrefix(wl, DepositPrefix);
    r := ClearPrefix(deposits, WithdrawPrefix);
    forall k ensures Get(View(r), k) == Get(Cleared(View(wl)), k) {
      ClearedGet(View(wl), k);
    }
    SubspaceExt(View(r), Cleared(View(wl)));
  }

  /** The reset keeps the key set, zeroes exactly the throughput keys, and is idempotent. */
  lemma ClearedSpec(m: Subspace)
    ensures Cleared(m).Keys == m.Keys
    ensures forall k :: k in m && IsThroughputKey(k) ==> Cleared(m)[k] == ZeroAmount
    ensures forall k :: k in m && !IsThroughputKey(k) ==> Cleared(m)[k] == m[k]
    ensures Cleared(Cleared(m)) == Cleared(m)
  {
  }

  /** The deposit and the withdraw prefixes share no key. */
  lemma PrefixesDisjoint(k: Key)
    ensures !(DepositPrefix <= k && WithdrawPrefix <= k)
  {
    if DepositPrefix <= k {
      assert k[5] == DepositPrefix[5];
    }
  }

  /** No genesis counter is a throughput key, so the reset never touches them. */
  lemma CountersSurviveClearing(m: Subspace)
    ensures !IsThroughputKey(ClientCounterKey) && !IsThroughputKey(ConnectionCounterKey)
    ensures !IsThroughputKey(ChannelCounterKey)
    ensures Get(Cleared(m), ClientCounterKey) == Get(m, ClientCounterKey)
    ensures Get(Cleared(m), ConnectionCounterKey) == Get(m, ConnectionCounterKey)
    ensures Get(Cleared(m), ChannelCounterKey) == Get(m, ChannelCounterKey)
  {
    assert ClientCounterKey[5] != DepositPrefix[5] && ClientCounterKey[5] != WithdrawPrefix[5];
    assert ConnectionCounterKey[5] != DepositPrefix[5] && ConnectionCounterKey[5] != WithdrawPrefix[5];
    assert ChannelCounterKey[5] != DepositPrefix[5] && ChannelCounterKey[5] != WithdrawPrefix[5];
  }
}
