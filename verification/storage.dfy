/** The block-oriented, versioned key-value storage engine: a live subspace, the
    mutations recorded per height, Merkle tree stores kept per epoch, the trees
    committed at each height, and the block metadata that survives a restart.

    The Merkle root of a tree is an uninterpreted function of the tree's contents:
    operations that expose a root take the hasher as a parameter, so every
    statement about roots holds for whatever hash function the engine uses. */
module Storage {
  import opened Common

  type Height = nat

  /** One recorded change of a key. */
  datatype Mutation = Put(value: Bytes) | Remove

  /** The mutations recorded at one height; a later write of a key replaces an earlier one. */
  type Diff = map<Key, Mutation>

  /** A key-value state: the subspace, or the contents of a Merkle tree. */
  type Subspace = map<Key, Bytes>

  function Get(m: Subspace, k: Key): Option<Bytes>
  {
    if k in m then Some(m[k]) else None
  }

  /** The value a mutation leaves behind. */
  function ValueOf(m: Option<Mutation>): Option<Bytes>
  {
    match m
    case Some(Put(v)) => Some(v)
    case _ => None
  }

  lemma SubspaceExt(a: Subspace, b: Subspace)
    requires forall k :: Get(a, k) == Get(b, k)
    ensures a == b
  {
    forall k ensures k in a <==> k in b {
      assert Get(a, k).Some? <==> Get(b, k).Some?;
    }
    forall k | k in a ensures a[k] == b[k] {
      assert Get(a, k) == Get(b, k);
    }
  }

  /** The state after one diff: a put key holds its new value, a removed key is absent,
      every other key keeps its value. */
  function Apply(m: Subspace, d: Diff): (r: Subspace)
    ensures forall k :: Get(r, k) == (if k in d then ValueOf(Some(d[k])) else Get(m, k))
  {
    map k | k in m.Keys + d.Keys && (k in d ==> d[k].Put?) :: if k in d then d[k].value else m[k]
  }

  /** Applying two diffs in turn is applying their union, the later one winning. */
  lemma ApplyCompose(m: Subspace, d1: Diff, d2: Diff)
    ensures Apply(Apply(m, d1), d2) == Apply(m, d1 + d2)
  {
    SubspaceExt(Apply(Apply(m, d1), d2), Apply(m, d1 + d2));
  }

  // ---------------------------------------------------------------------------
  // History: the state as of a height

  /** The state reached by replaying every recorded diff at heights up to `h`. */
  function StateAt(diffs: map<Height, Diff>, h: Height): Subspace
    decreases h
  {
    var before := if h == 0 then map[] else StateAt(diffs, h - 1);
    if h in diffs then Apply(before, diffs[h]) else before
  }

  /** The most recent mutation of `k` recorded at a height up to `h`. */
  function LastMutation(diffs: map<Height, Diff>, k: Key, h: Height): Option<Mutation>
    decreases h
  {
    if h in diffs && k in diffs[h] then Some(diffs[h][k])
    else if h == 0 then None
    else LastMutation(diffs, k, h - 1)
  }

  /** A key's value as of `h` is what its last mutation at or before `h` left, and
      absent when it was never written or was deleted last. */
  lemma {:induction false} StateAtIsLastMutation(diffs: map<Height, Diff>, h: Height, k: Key)
    ensures Get(StateAt(diffs, h), k) == ValueOf(LastMutation(diffs, k, h))
    decreases h
  {
    if h > 0 {
      StateAtIsLastMutation(diffs, h - 1, k);
    }
  }

  /** The state as of `h` depends only on the diffs recorded at heights up to `h`. */
  lemma {:induction false} StateAtFrame(d1: map<Height, Diff>, d2: map<Height, Diff>, h: Height)
    requires forall x :: x <= h ==> (x in d1 <==> x in d2)
    requires forall x :: x <= h && x in d1 ==> d1[x] == d2[x]
    ensures StateAt(d1, h) == StateAt(d2, h)
    decreases h
  {
    if h > 0 {
      StateAtFrame(d1, d2, h - 1);
    }
  }

  /** Heights without recorded diffs do not change the state. */
  lemma {:induction false} StateAtQuiet(diffs: map<Height, Diff>, h: Height, h2: Height)
    requires h <= h2
    requires forall x :: h < x <= h2 ==> x !in diffs
    ensures StateAt(diffs, h2) == StateAt(diffs, h)
    decreases h2
  {
    if h < h2 {
      StateAtQuiet(diffs, h, h2 - 1);
    }
  }

  /** Rebuilds a tree from a base stored at height `start` by replaying the diffs of
      heights `start + 1` to `target` in ascending order. */
  function Replay(base: Subspace, diffs: map<Height, Diff>, start: Height, target: Height): Subspace
    requires start <= target
    decreases target - start
  {
    if target == start then base
    else
      var prev := Replay(base, diffs, start, target - 1);
      if target in diffs then Apply(prev, diffs[target]) else prev
  }

  /** Replaying from the state of `start` reaches exactly the state of `target`. */
  lemma {:induction false} ReplayFromState(diffs: map<Height, Diff>, start: Height, target: Height)
    requires start <= target
    ensures Replay(StateAt(diffs, start), diffs, start, target) == StateAt(diffs, target)
    decreases target - start
  {
    if target > start {
      ReplayFromState(diffs, start, target - 1);
    }
  }

  // ---------------------------------------------------------------------------
  // Epochs

  /** The first heights of epochs 0, 1, 2, ...: epoch 0 starts at height 0 and
      every later epoch starts strictly later. */
  predicate EpochsWellFormed(starts: seq<Height>)
  {
    && |starts| > 0
    && starts[0] == 0
    && forall i, j :: 0 <= i < j < |starts| ==> starts[i] < starts[j]
  }

  /** The epoch that contains height `h`. */
  function EpochOf(starts: seq<Height>, h: Height): (e: nat)
    ensures |starts| > 0 ==> e < |starts|
    ensures EpochsWellFormed(starts) ==> starts[e] <= h
    ensures EpochsWellFormed(starts) ==> e + 1 == |starts| || h < starts[e + 1]
    decreases |starts|
  {
    if |starts| <= 1 then 0
    else if starts[|starts| - 1] <= h then |starts| - 1
    else EpochOf(starts[..|starts| - 1], h)
  }

  /** Epochs are ordered like the heights they contain. */
  lemma EpochOfMonotone(starts: seq<Height>, x: Height, y: Height)
    requires EpochsWellFormed(starts) && x <= y
    ensures EpochOf(starts, x) <= EpochOf(starts, y)
  {
  }

  // ---------------------------------------------------------------------------
  // The storage state

  /** A Merkle tree store: the full tree as committed at `height`. */
  datatype TreeStore = TreeStore(height: Height, tree: Subspace)

  /** The block metadata written at each commit and read back by `LoadLastState`. */
  datatype BlockMeta = BlockMeta(
    height: Height,
    hash: Bytes,
    epochStarts: seq<Height>,
    addressGen: nat,
    tree: Subspace)

  /** What the byte store holds, and so what survives closing and reopening. */
  datatype Db = Db(
    subspace: Subspace,                // the live key-value pairs
    diffs: map<Height, Diff>,          // the mutations recorded at each height
    stores: map<nat, TreeStore>,       // per epoch: the tree at its first committed height
    committed: map<Height, Subspace>,  // the tree committed at each height (its root is the recorded root)
    last: Option<BlockMeta>)           // the metadata of the last commit

  const EmptyDb: Db := Db(map[], map[], map[], map[], None)

  /** The block being built. */
  datatype Block = Block(height: Height, hash: Bytes, epochStarts: seq<Height>)

  datatype Storage = Storage(
    db: Db,
    block: Block,
    tree: Subspace,              // the live Merkle tree
    lastHeight: Height,          // the height of the last commit
    addressGen: nat,             // the address generator's state
    heightLimit: Option<nat>)    // how many heights of tree stores must stay restorable

  /** `n` zero bytes. */
  function Zeros(n: nat): (z: Bytes)
    ensures |z| == n && forall i :: 0 <= i < n ==> z[i] == 0
  {
    if n == 0 then [] else Zeros(n - 1) + [0]
  }

  /** The hash of a block that has not been given one: 32 zero bytes. */
  const DefaultHash: Bytes := Zeros(32)

  /** Opens a storage over a byte store; nothing is read back until `LoadLastState`. */
  function Open(db: Db, heightLimit: Option<nat>): (r: Storage)
    ensures r.block.height == 0 && r.lastHeight == 0 && CurrentEpoch(r) == 0
    ensures r.db == db && r.heightLimit == heightLimit
    ensures forall k :: Read(r, k).0 == Get(db.subspace, k)
  {
    Storage(db, Block(0, DefaultHash, [0]), map[], 0, 0, heightLimit)
  }

  /** The current epoch. */
  function CurrentEpoch(s: Storage): nat
  {
    if |s.block.epochStarts| == 0 then 0 else |s.block.epochStarts| - 1
  }

  /** Gas of a read: the key's length, plus the value's length when one is found. */
  function ReadGas(k: Key, v: Option<Bytes>): nat
  {
    |k| + (if v.Some? then |v.value| else 0)
  }

  function HasKey(s: Storage, k: Key): (r: (bool, nat))
    ensures r.0 <==> Get(s.db.subspace, k).Some?
    ensures r.1 == |k|
  {
    (k in s.db.subspace, |k|)
  }

  function Read(s: Storage, k: Key): (r: (Option<Bytes>, nat))
    ensures r.0 == Get(s.db.subspace, k)
    ensures r.1 == ReadGas(k, r.0)
  {
    var v := Get(s.db.subspace, k);
    (v, ReadGas(k, v))
  }

  /** Records `d` at the current height and applies it to the subspace and the live tree. */
  function ApplyBlockDiff(s: Storage, d: Diff): (r: Storage)
    ensures r.db.subspace == Apply(s.db.subspace, d)
    ensures r.tree == Apply(s.tree, d)
    ensures s.block.height in r.db.diffs
    ensures r.db.diffs[s.block.height] ==
      (if s.block.height in s.db.diffs then s.db.diffs[s.block.height] else map[]) + d
    ensures forall x :: x != s.block.height ==> (x in r.db.diffs <==> x in s.db.diffs)
    ensures forall x :: x != s.block.height && x in s.db.diffs ==> r.db.diffs[x] == s.db.diffs[x]
    ensures r.block == s.block && r.lastHeight == s.lastHeight && r.db.committed == s.db.committed
    ensures r.db.stores == s.db.stores && r.db.last == s.db.last
  {
    var h := s.block.height;
    var recorded := if h in s.db.diffs then s.db.diffs[h] else map[];
    s.(db := s.db.(subspace := Apply(s.db.subspace, d), diffs := s.db.diffs[h := recorded + d]),
       tree := Apply(s.tree, d))
  }

  /** Writes a value; gas is the key's length plus the value's length. */
  function Write(s: Storage, k: Key, v: Bytes): (r: (Storage, nat))
    ensures r.1 == |k| + |v|
  {
    (ApplyBlockDiff(s, map[k := Put(v)]), |k| + |v|)
  }

  /** Deletes a key; gas is the key's length. */
  function Delete(s: Storage, k: Key): (r: (Storage, nat))
    ensures r.1 == |k|
  {
    (ApplyBlockDiff(s, map[k := Remove]), |k|)
  }

  /** Writing then reading a key gives the value back, charging the key's length for
      `HasKey` and key plus value for `Read`; other keys read as before. */
  lemma WriteThenRead(s: Storage, k: Key, v: Bytes, other: Key)
    ensures HasKey(Write(s, k, v).0, k) == (true, |k|)
    ensures Read(Write(s, k, v).0, k) == (Some(v), |k| + |v|)
    ensures other != k ==> Read(Write(s, k, v).0, other) == Read(s, other)
  {
  }

  /** After a delete the key is absent and both lookups charge only the key's length. */
  lemma DeleteThenRead(s: Storage, k: Key, other: Key)
    ensures HasKey(Delete(s, k).0, k) == (false, |k|)
    ensures Read(Delete(s, k).0, k) == (None, |k|)
    ensures other != k ==> Read(Delete(s, k).0, other) == Read(s, other)
  {
  }

  // ---------------------------------------------------------------------------
  // Batched writes

  /** A write batch: staged writes and deletes, executed together. */
  type Batch = seq<(Key, Mutation)>

  function BatchWrite(b: Batch, k: Key, v: Bytes): (r: Batch)
    ensures Collapse(r) == Collapse(b)[k := Put(v)]
  {
    b + [(k, Put(v))]
  }

  function BatchDelete(b: Batch, k: Key): (r: Batch)
    ensures Collapse(r) == Collapse(b)[k := Remove]
  {
    b + [(k, Remove)]
  }

  /** The diff a batch amounts to: for each key, its last staged mutation. */
  function Collapse(b: Batch): (d: Diff)
    ensures forall k :: k in d <==> exists i :: 0 <= i < |b| && b[i].0 == k
    decreases |b|
  {
    if |b| == 0 then map[]
    else
      var init := Collapse(b[..|b| - 1]);
      assert forall i :: 0 <= i < |b| - 1 ==> b[..|b| - 1][i] == b[i];
      init[b[|b| - 1].0 := b[|b| - 1].1]
  }

  /** Executes a batch as one diff at the current height. */
  function ExecBatch(s: Storage, b: Batch): (r: Storage)
    ensures forall k :: Read(r, k).0 == if k in Collapse(b) then ValueOf(Some(Collapse(b)[k])) else Read(s, k).0
    ensures r.block == s.block && r.lastHeight == s.lastHeight && r.db.committed == s.db.committed
  {
    if |b| == 0 then s else ApplyBlockDiff(s, Collapse(b))
  }

  /** The direct writes and deletes a batch stands for, one after another. */
  function ApplyOps(s: Storage, b: Batch): Storage
    decreases |b|
  {
    if |b| == 0 then s
    else
      var prev := ApplyOps(s, b[..|b| - 1]);
      var op := b[|b| - 1];
      match op.1
      case Put(v) => Write(prev, op.0, v).0
      case Remove => Delete(prev, op.0).0
  }

  lemma ApplyOpsLast(s: Storage, b: Batch)
    requires |b| > 0
    ensures ApplyOps(s, b) == ApplyBlockDiff(ApplyOps(s, b[..|b| - 1]), map[b[|b| - 1].0 := b[|b| - 1].1])
  {
    var prev := ApplyOps(s, b[..|b| - 1]);
    var op := b[|b| - 1];
    match op.1
    case Put(v) =>
      assert ApplyOps(s, b) == Write(prev, op.0, v).0;
    case Remove =>
      assert ApplyOps(s, b) == Delete(prev, op.0).0;
  }

  lemma ApplyBlockDiffTwice(s: Storage, d1: Diff, d2: Diff)
    ensures ApplyBlockDiff(ApplyBlockDiff(s, d1), d2) == ApplyBlockDiff(s, d1 + d2)
  {
    var h := s.block.height;
    var recorded := if h in s.db.diffs then s.db.diffs[h] else map[];
    var a := ApplyBlockDiff(ApplyBlockDiff(s, d1), d2);
    var b := ApplyBlockDiff(s, d1 + d2);
    ApplyCompose(s.db.subspace, d1, d2);
    ApplyCompose(s.tree, d1, d2);
    DiffUnionAssoc(recorded, d1, d2);
    assert a.db.diffs == b.db.diffs;
    assert a.db == b.db;
  }

  lemma DiffUnionAssoc(a: Diff, b: Diff, c: Diff)
    ensures (a + b) + c == a + (b + c)
  {
  }

  /** Executing a batch has the same effect as performing its writes and deletes
      directly, in order. */
  lemma {:induction false} ExecBatchIsDirect(s: Storage, b: Batch)
    ensures ExecBatch(s, b) == ApplyOps(s, b)
    decreases |b|
  {
    if |b| > 0 {
      var init := b[..|b| - 1];
      var step: Diff := map[b[|b| - 1].0 := b[|b| - 1].1];
      var last := Collapse(init);
      assert Collapse(b) == last[b[|b| - 1].0 := b[|b| - 1].1];
      assert Collapse(b) == last + step;
      ApplyOpsLast(s, b);
      ExecBatchIsDirect(s, init);
      if |init| == 0 {
        assert last + step == step;
      } else {
        ApplyBlockDiffTwice(s, last, step);
      }
    }
  }

  // ---------------------------------------------------------------------------
  // Block lifecycle

  function BeginBlock(s: Storage, hash: Bytes, height: Height): (r: Storage)
    ensures r.block.height == height && r.block.hash == hash
    ensures r.db == s.db && r.tree == s.tree && r.lastHeight == s.lastHeight
  {
    s.(block := s.block.(height := height, hash := hash))
  }

  /** Starts a new epoch at the current height. */
  function NewEpoch(s: Storage): (r: Storage)
    ensures CurrentEpoch(r) == |s.block.epochStarts|
    ensures r.db == s.db && r.tree == s.tree && r.block.height == s.block.height
  {
    s.(block := s.block.(epochStarts := s.block.epochStarts + [s.block.height]))
  }

  /** Drops the tree stores of every epoch before the one that contains `height - limit`. */
  function Prune(stores: map<nat, TreeStore>, starts: seq<Height>, height: Height, limit: Option<nat>): (r: map<nat, TreeStore>)
    ensures r.Keys <= stores.Keys
    ensures forall e :: e in r ==> r[e] == stores[e]
    ensures limit.None? || height <= limit.value ==> r == stores
    ensures limit.Some? && height > limit.value ==>
      forall e :: e in stores ==> (e in r <==> e >= EpochOf(starts, height - limit.value))
  {
    match limit
    case None => stores
    case Some(l) =>
      if height <= l then stores
      else
        map e | e in stores && e >= EpochOf(starts, height - l) :: stores[e]
  }

  /** Commits the current block: records its tree (whose root is the recorded root),
      writes a tree store on the first commit of an epoch, saves the block metadata,
      and prunes tree stores older than the height limit allows. */
  function CommitBlock(s: Storage): (r: Storage)
    ensures r.lastHeight == s.block.height && r.block == s.block && r.tree == s.tree
    ensures r.db.committed == s.db.committed[s.block.height := s.tree]
    ensures r.db.subspace == s.db.subspace && r.db.diffs == s.db.diffs
    ensures r.db.last == Some(BlockMeta(s.block.height, s.block.hash, s.block.epochStarts, s.addressGen, s.tree))
  {
    var h := s.block.height;
    var epoch := CurrentEpoch(s);
    var fullCommit := epoch !in s.db.stores || (epoch < |s.block.epochStarts| && s.block.epochStarts[epoch] == h);
    var stores := if fullCommit then s.db.stores[epoch := TreeStore(h, s.tree)] else s.db.stores;
    var meta := BlockMeta(h, s.block.hash, s.block.epochStarts, s.addressGen, s.tree);
    s.(db := s.db.(stores := Prune(stores, s.block.epochStarts, h, s.heightLimit),
                   committed := s.db.committed[h := s.tree],
                   last := Some(meta)),
       lastHeight := h)
  }

  /** Reloads the last committed block's metadata and tree after opening. */
  function LoadLastState(s: Storage): (r: Storage)
    ensures s.db.last.None? ==> r == s
    ensures s.db.last.Some? ==>
      && r.block == Block(s.db.last.value.height, s.db.last.value.hash, s.db.last.value.epochStarts)
      && r.lastHeight == s.db.last.value.height && r.tree == s.db.last.value.tree
    ensures r.db == s.db && r.heightLimit == s.heightLimit
  {
    match s.db.last
    case None => s
    case Some(m) =>
      s.(block := Block(m.height, m.hash, m.epochStarts), tree := m.tree,
         lastHeight := m.height, addressGen := m.addressGen)
  }

  function MerkleRoot<D>(s: Storage, hasher: Subspace -> D): D
  {
    hasher(s.tree)
  }

  /** The root and height of the last commit, if there was one. */
  function GetState<D>(s: Storage, hasher: Subspace -> D): (r: Option<(D, Height)>)
    ensures r.Some? <==> s.db.last.Some?
    ensures r.Some? ==> r.value == (hasher(s.tree), s.lastHeight)
  {
    if s.db.last.None? then None else Some((MerkleRoot(s, hasher), s.lastHeight))
  }

  /** Committing, dropping the process and reopening the byte store restores the whole
      in-memory state: root, height, block hash, epochs, address generator, and so
      every read. */
  lemma CommitReopenRoundTrip<D>(s: Storage, hasher: Subspace -> D, k: Key)
    ensures LoadLastState(Open(CommitBlock(s).db, s.heightLimit)) == CommitBlock(s)
    ensures GetState(LoadLastState(Open(CommitBlock(s).db, s.heightLimit)), hasher)
         == Some((hasher(s.tree), s.block.height))
  {
  }

  // ---------------------------------------------------------------------------
  // Historical reads and Merkle tree restoration

  datatype StorageError = NoMerkleTree(height: Height) | NotYetCommitted(height: Height)

  /** Reads `k` as of height `h`; from the last committed height on, reads the latest state. */
  function ReadWithHeight(s: Storage, k: Key, h: Height): (r: (Option<Bytes>, nat))
    ensures r.1 == ReadGas(k, r.0)
    ensures h >= s.lastHeight ==> r == Read(s, k)
  {
    if h >= s.lastHeight then Read(s, k)
    else
      var v := Get(StateAt(s.db.diffs, h), k);
      (v, ReadGas(k, v))
  }

  /** Restores the Merkle tree of height `h` from the tree store of its epoch and the
      diffs recorded since. */
  function GetMerkleTree(s: Storage, h: Height): (r: Result<Subspace, StorageError>)
    ensures r.Err? ==> r.error.height == h
    ensures r == Err(NotYetCommitted(h)) <==> h > s.lastHeight
    ensures r.Ok? ==> EpochOf(s.block.epochStarts, h) in s.db.stores
                      && s.db.stores[EpochOf(s.block.epochStarts, h)].height <= h
  {
    if h > s.lastHeight then Err(NotYetCommitted(h))
    else
      var e := EpochOf(s.block.epochStarts, h);
      if e !in s.db.stores || s.db.stores[e].height > h then Err(NoMerkleTree(h))
      else Ok(Replay(s.db.stores[e].tree, s.db.diffs, s.db.stores[e].height, h))
  }

  /** The oldest epoch whose tree store the last commit kept; the stores of earlier epochs
      were pruned. Without a limit, or before the limit is reached, nothing is pruned. */
  function Horizon(s: Storage): nat
  {
    match s.heightLimit
    case None => 0
    case Some(l) => if s.lastHeight <= l then 0 else EpochOf(s.block.epochStarts, s.lastHeight - l)
  }

  /** The store of the epoch of committed height `h`, when there is one, was taken at or
      before `h`; and there is one unless that epoch lies before the horizon. */
  ghost predicate StoreCovers(s: Storage, h: Height)
  {
    var e := EpochOf(s.block.epochStarts, h);
    && (e in s.db.stores ==> s.db.stores[e].height <= h)
    && (e >= Horizon(s) ==> e in s.db.stores)
  }

  /** The bookkeeping the block lifecycle keeps: well-formed epochs, heights in order, and
      tree stores that cover every committed height not yet pruned. */
  ghost predicate WellKept(s: Storage)
  {
    && EpochsWellFormed(s.block.epochStarts)
    && s.block.epochStarts[|s.block.epochStarts| - 1] <= s.block.height
    && s.lastHeight <= s.block.height
    && (s.lastHeight == 0 || s.lastHeight in s.db.committed)
    && (forall h :: h in s.db.diffs ==> h <= s.block.height)
    && (forall h :: h in s.db.committed ==> h <= s.lastHeight)
    && (forall e :: e in s.db.stores ==> s.db.stores[e].height in s.db.committed && e >= Horizon(s))
    && (forall h {:trigger StoreCovers(s, h)} :: h in s.db.committed ==> StoreCovers(s, h))
  }

  /** The live subspace and tree are the replay of all recorded diffs, and every committed
      tree and tree store is the replay of the diffs up to its height. */
  ghost predicate Replayed(s: Storage)
  {
    && s.db.subspace == StateAt(s.db.diffs, s.block.height)
    && s.tree == s.db.subspace
    && (forall h :: h in s.db.committed ==> s.db.committed[h] == StateAt(s.db.diffs, h))
    && (forall e :: e in s.db.stores ==> s.db.stores[e].tree == StateAt(s.db.diffs, s.db.stores[e].height))
  }

  /** The invariant the block lifecycle keeps. */
  ghost predicate Valid(s: Storage)
  {
    WellKept(s) && Replayed(s)
  }

  /** The current block may be committed: it was not committed before, or it opens the
      current epoch and no other epoch's store was taken at its height. */
  ghost predicate Recommittable(s: Storage)
  {
    || s.block.height !in s.db.committed
    || (&& |s.block.epochStarts| > 0
        && s.block.epochStarts[CurrentEpoch(s)] == s.block.height
        && forall e :: e in s.db.stores && s.db.stores[e].height == s.block.height ==> e == CurrentEpoch(s))
  }

  lemma OpenEmptyValid(limit: Option<nat>)
    ensures Valid(Open(EmptyDb, limit))
  {
  }

  /** Recording a diff at the current height makes the subspace the replay up to it. */
  lemma ApplyBlockDiffCurrent(s: Storage, d: Diff)
    requires s.db.subspace == StateAt(s.db.diffs, s.block.height)
    ensures ApplyBlockDiff(s, d).db.subspace == StateAt(ApplyBlockDiff(s, d).db.diffs, s.block.height)
  {
    var r := ApplyBlockDiff(s, d);
    var h := s.block.height;
    var before := if h == 0 then map[] else StateAt(s.db.diffs, h - 1);
    if h > 0 {
      StateAtFrame(s.db.diffs, r.db.diffs, h - 1);
    }
    var recorded := if h in s.db.diffs then s.db.diffs[h] else map[];
    assert StateAt(r.db.diffs, h) == Apply(before, recorded + d);
    ApplyCompose(before, recorded, d);
    if h !in s.db.diffs {
      assert Apply(before, recorded) == before by {
        SubspaceExt(Apply(before, recorded), before);
      }
    }
    assert s.db.subspace == Apply(before, recorded);
  }

  /** Recording a diff at the current height leaves the replay of every earlier height alone. */
  lemma ApplyBlockDiffEarlier(s: Storage, d: Diff, x: Height)
    requires x < s.block.height
    ensures StateAt(ApplyBlockDiff(s, d).db.diffs, x) == StateAt(s.db.diffs, x)
  {
    StateAtFrame(s.db.diffs, ApplyBlockDiff(s, d).db.diffs, x);
  }

  /** The bookkeeping survives any change that keeps the epochs, the commits, the tree
      stores and the limit, and records no diff past the current block. */
  lemma WellKeptFrame(s: Storage, r: Storage)
    requires WellKept(s)
    requires r.block.epochStarts == s.block.epochStarts && s.block.height <= r.block.height
    requires r.lastHeight == s.lastHeight && r.heightLimit == s.heightLimit
    requires r.db.stores == s.db.stores && r.db.committed == s.db.committed
    requires forall h :: h in r.db.diffs ==> h <= r.block.height
    ensures WellKept(r)
  {
    assert Horizon(r) == Horizon(s);
    forall x | x in r.db.committed
      ensures StoreCovers(r, x)
    {
      assert StoreCovers(s, x);
    }
  }

  /** Writes into a block that has not been committed yet keep the invariant. */
  lemma ApplyBlockDiffValid(s: Storage, d: Diff)
    requires Valid(s) && s.block.height !in s.db.committed
    ensures Valid(ApplyBlockDiff(s, d))
  {
    var r := ApplyBlockDiff(s, d);
    WellKeptFrame(s, r);
    forall x | x in r.db.committed
      ensures r.db.committed[x] == StateAt(r.db.diffs, x)
    {
      ApplyBlockDiffEarlier(s, d, x);
    }
    forall e | e in r.db.stores
      ensures r.db.stores[e].tree == StateAt(r.db.diffs, r.db.stores[e].height)
    {
      ApplyBlockDiffEarlier(s, d, s.db.stores[e].height);
    }
    ApplyBlockDiffCurrent(s, d);
  }

  lemma WriteValid(s: Storage, k: Key, v: Bytes)
    requires Valid(s) && s.block.height !in s.db.committed
    ensures Valid(Write(s, k, v).0)
  {
    ApplyBlockDiffValid(s, map[k := Put(v)]);
  }

  lemma DeleteValid(s: Storage, k: Key)
    requires Valid(s) && s.block.height !in s.db.committed
    ensures Valid(Delete(s, k).0)
  {
    ApplyBlockDiffValid(s, map[k := Remove]);
  }

  lemma ExecBatchValid(s: Storage, b: Batch)
    requires Valid(s) && s.block.height !in s.db.committed
    ensures Valid(ExecBatch(s, b))
  {
    if |b| > 0 {
      ApplyBlockDiffValid(s, Collapse(b));
    }
  }

  /** Beginning a block at the same or a later height keeps the invariant; a later block is
      one nothing was committed at. */
  lemma BeginBlockValid(s: Storage, hash: Bytes, height: Height)
    requires Valid(s) && s.block.height <= height
    ensures Valid(BeginBlock(s, hash, height))
    ensures s.block.height < height ==> height !in BeginBlock(s, hash, height).db.committed
  {
    WellKeptFrame(s, BeginBlock(s, hash, height));
    if s.block.height < height {
      StateAtQuiet(s.db.diffs, s.block.height, height);
    }
  }

  /** Appending a later epoch start leaves the epoch of every earlier height alone. */
  lemma EpochOfAppend(starts: seq<Height>, x: Height, h: Height)
    requires |starts| > 0 && h < x
    ensures EpochOf(starts + [x], h) == EpochOf(starts, h)
  {
    assert (starts + [x])[..|starts|] == starts;
  }

  /** Starting a new epoch at a block that was not committed yet keeps the invariant. */
  lemma NewEpochValid(s: Storage)
    requires Valid(s)
    requires s.block.epochStarts[|s.block.epochStarts| - 1] < s.block.height
    requires s.block.height !in s.db.committed
    ensures Valid(NewEpoch(s))
  {
    NewEpochWellKept(s);
  }

  lemma NewEpochWellKept(s: Storage)
    requires WellKept(s)
    requires s.block.epochStarts[|s.block.epochStarts| - 1] < s.block.height
    requires s.block.height !in s.db.committed
    ensures WellKept(NewEpoch(s))
  {
    var n := NewEpoch(s);
    var starts := s.block.epochStarts;
    var h := s.block.height;
    EpochsAppend(starts, h);
    assert s.lastHeight < h by {
      if s.lastHeight != 0 {
        assert s.lastHeight in s.db.committed;
      }
    }
    HorizonAppend(s);
    forall x | x in n.db.committed
      ensures StoreCovers(n, x)
    {
      assert StoreCovers(s, x);
      CoversAppend(s, x);
    }
  }

  /** A new epoch starting above the last committed height leaves the horizon alone. */
  lemma HorizonAppend(s: Storage)
    requires |s.block.epochStarts| > 0 && s.lastHeight < s.block.height
    ensures Horizon(NewEpoch(s)) == Horizon(s)
  {
    if s.heightLimit.Some? && s.lastHeight > s.heightLimit.value {
      EpochOfAppend(s.block.epochStarts, s.block.height, s.lastHeight - s.heightLimit.value);
    }
  }

  /** A height covered before a new epoch starts above it stays covered. */
  lemma CoversAppend(s: Storage, x: Height)
    requires StoreCovers(s, x) && |s.block.epochStarts| > 0 && x < s.block.height
    requires Horizon(NewEpoch(s)) == Horizon(s)
    ensures StoreCovers(NewEpoch(s), x)
  {
    EpochOfAppend(s.block.epochStarts, s.block.height, x);
  }

  /** Appending a start later than the last keeps the epochs well formed. */
  lemma EpochsAppend(starts: seq<Height>, x: Height)
    requires EpochsWellFormed(starts) && starts[|starts| - 1] < x
    ensures EpochsWellFormed(starts + [x])
  {
    var t := starts + [x];
    forall i, j | 0 <= i < j < |t|
      ensures t[i] < t[j]
    {
      if j == |starts| && i < |starts| - 1 {
        assert starts[i] < starts[|starts| - 1];
      }
    }
  }

  /** The horizon never moves back as the last committed height grows, and it never
      passes the last epoch. */
  lemma HorizonGrows(s: Storage, r: Storage)
    requires EpochsWellFormed(s.block.epochStarts)
    requires r.block.epochStarts == s.block.epochStarts && r.heightLimit == s.heightLimit
    requires s.lastHeight <= r.lastHeight
    ensures Horizon(s) <= Horizon(r) < |s.block.epochStarts|
  {
    var l := s.heightLimit;
    if l.Some? && s.lastHeight > l.value {
      EpochOfMonotone(s.block.epochStarts, s.lastHeight - l.value, r.lastHeight - l.value);
    }
  }

  /** After a commit, every committed height is still covered by its epoch's store. */
  lemma CommitCovers(s: Storage, x: Height)
    requires EpochsWellFormed(s.block.epochStarts) && s.lastHeight <= s.block.height
    requires s.block.epochStarts[|s.block.epochStarts| - 1] <= s.block.height
    requires forall e :: e in s.db.stores ==> e >= Horizon(s) && s.db.stores[e].height <= s.block.height
    requires x == s.block.height || (x < s.block.height && StoreCovers(s, x))
    ensures StoreCovers(CommitBlock(s), x)
  {
    var c := CommitBlock(s);
    var starts := s.block.epochStarts;
    var h := s.block.height;
    var epoch := CurrentEpoch(s);
    var fullCommit := epoch !in s.db.stores || (epoch < |starts| && starts[epoch] == h);
    var stores := if fullCommit then s.db.stores[epoch := TreeStore(h, s.tree)] else s.db.stores;
    assert c.db.stores == Prune(stores, starts, h, s.heightLimit);
    HorizonGrows(s, c);
    if x == h {
      assert epoch in stores;
    } else {
      var e := EpochOf(starts, x);
      assert starts[e] <= x;
      assert Horizon(s) <= epoch;
      assert e in stores ==> stores[e].height <= x;
    }
  }

  /** Committing keeps the bookkeeping, whatever was recorded in the block. */
  lemma CommitBlockWellKept(s: Storage)
    requires WellKept(s)
    ensures WellKept(CommitBlock(s))
  {
    var c := CommitBlock(s);
    forall x | x in c.db.committed
      ensures StoreCovers(c, x)
    {
      if x != s.block.height {
        assert StoreCovers(s, x);
      }
      CommitCovers(s, x);
    }
  }

  lemma CommitBlockValid(s: Storage)
    requires Valid(s)
    ensures Valid(CommitBlock(s))
  {
    CommitBlockWellKept(s);
  }

  /** Writing into the current block and committing it keeps the invariant, also when the
      block was committed before, provided the commit can take its store again. */
  lemma ApplyThenCommitValid(s: Storage, d: Diff)
    requires Valid(s) && Recommittable(s)
    ensures Valid(CommitBlock(ApplyBlockDiff(s, d)))
  {
    var r := ApplyBlockDiff(s, d);
    if s.block.height !in s.db.committed {
      ApplyBlockDiffValid(s, d);
      CommitBlockValid(r);
    } else {
      WellKeptFrame(s, r);
      CommitBlockWellKept(r);
      RecommitReplayed(s, d);
    }
  }

  /** Committing a block again retakes its tree and its epoch's store, so the replay
      facts hold for the new writes. */
  lemma RecommitReplayed(s: Storage, d: Diff)
    requires Valid(s) && Recommittable(s) && s.block.height in s.db.committed
    ensures Replayed(CommitBlock(ApplyBlockDiff(s, d)))
  {
    ApplyBlockDiffCurrent(s, d);
    RecommitTrees(s, d);
    RecommitStores(s, d);
  }

  lemma RecommitTrees(s: Storage, d: Diff)
    requires Valid(s)
    ensures var c := CommitBlock(ApplyBlockDiff(s, d));
            forall x :: x in c.db.committed && x != s.block.height ==> c.db.committed[x] == StateAt(c.db.diffs, x)
  {
    var c := CommitBlock(ApplyBlockDiff(s, d));
    forall x | x in c.db.committed && x != s.block.height
      ensures c.db.committed[x] == StateAt(c.db.diffs, x)
    {
      ApplyBlockDiffEarlier(s, d, x);
    }
  }

  lemma RecommitStores(s: Storage, d: Diff)
    requires Valid(s) && Recommittable(s) && s.block.height in s.db.committed
    ensures var c := CommitBlock(ApplyBlockDiff(s, d));
            forall e :: e in c.db.stores ==> c.db.stores[e].tree == StateAt(c.db.diffs, c.db.stores[e].height)
  {
    var c := CommitBlock(ApplyBlockDiff(s, d));
    ApplyBlockDiffCurrent(s, d);
    forall e | e in c.db.stores
      ensures c.db.stores[e].tree == StateAt(c.db.diffs, c.db.stores[e].height)
    {
      if e != CurrentEpoch(s) {
        ApplyBlockDiffEarlier(s, d, s.db.stores[e].height);
      }
    }
  }

  /** A committed tree can be restored exactly when its epoch lies at or after the
      horizon of the last pruning, so always when no height limit is set; the restored
      tree is the one committed at that height. */
  lemma CommittedTreeRestores(s: Storage, h: Height)
    requires Valid(s) && h in s.db.committed
    ensures GetMerkleTree(s, h).Ok? <==> EpochOf(s.block.epochStarts, h) >= Horizon(s)
    ensures s.heightLimit.None? ==> GetMerkleTree(s, h).Ok?
    ensures GetMerkleTree(s, h).Ok? ==> GetMerkleTree(s, h).value == s.db.committed[h]
  {
    assert StoreCovers(s, h);
    if GetMerkleTree(s, h).Ok? {
      GetMerkleTreeRestores(s, h, (t: Subspace) => t);
    }
  }

  /** Reads as of a height see the last mutation at or before it; reads from the last
      committed height on see the latest state. */
  lemma ReadWithHeightHistory(s: Storage, k: Key, h: Height)
    requires Valid(s)
    ensures ReadWithHeight(s, k, h).0
         == ValueOf(LastMutation(s.db.diffs, k, if h < s.lastHeight then h else s.block.height))
    ensures h >= s.lastHeight ==> ReadWithHeight(s, k, h) == Read(s, k)
  {
    StateAtIsLastMutation(s.db.diffs, if h < s.lastHeight then h else s.block.height, k);
  }

  /** A key written (deleted) at a committed height reads back as that value (as absent)
      at that height. */
  lemma ReadWithHeightAtWrite(s: Storage, k: Key, h: Height)
    requires Valid(s)
    requires h in s.db.diffs && k in s.db.diffs[h]
    requires h < s.lastHeight || h == s.block.height
    ensures ReadWithHeight(s, k, h).0 == ValueOf(Some(s.db.diffs[h][k]))
  {
    ReadWithHeightHistory(s, k, h);
  }

  /** A restored tree is the state as of its height: it holds a key exactly when the key's
      last mutation at or before that height was a write; at a committed height it is
      the committed tree, so its root is the root recorded for that height. */
  lemma GetMerkleTreeRestores<D>(s: Storage, h: Height, hasher: Subspace -> D)
    requires Valid(s)
    requires GetMerkleTree(s, h).Ok?
    ensures GetMerkleTree(s, h).value == StateAt(s.db.diffs, h)
    ensures forall k :: Get(GetMerkleTree(s, h).value, k) == ValueOf(LastMutation(s.db.diffs, k, h))
    ensures h in s.db.committed ==> hasher(GetMerkleTree(s, h).value) == hasher(s.db.committed[h])
  {
    var st := s.db.stores[EpochOf(s.block.epochStarts, h)];
    ReplayFromState(s.db.diffs, st.height, h);
    forall k ensures Get(StateAt(s.db.diffs, h), k) == ValueOf(LastMutation(s.db.diffs, k, h)) {
      StateAtIsLastMutation(s.db.diffs, h, k);
    }
  }

  /** No tree of an epoch before the horizon can be restored. */
  lemma PrunedTreeGone(s: Storage, h: Height)
    requires WellKept(s) && EpochOf(s.block.epochStarts, h) < Horizon(s)
    ensures GetMerkleTree(s, h).Err?
  {
  }

  /** After committing height `H` with height limit `L < H`, trees of epochs before the one
      containing `H - L` can no longer be restored, while every committed height of a
      retained epoch still restores. */
  lemma CommitPrunesOldEpochs(s: Storage, x: Height)
    requires Valid(s)
    requires s.heightLimit.Some? && s.block.height > s.heightLimit.value
    requires x <= s.block.height
    ensures var c := CommitBlock(s);
            var oldest := EpochOf(s.block.epochStarts, s.block.height - s.heightLimit.value);
            var e := EpochOf(s.block.epochStarts, x);
            && (e < oldest ==> GetMerkleTree(c, x).Err?)
            && (e >= oldest && x in c.db.committed ==> GetMerkleTree(c, x).Ok?)
  {
    var c := CommitBlock(s);
    assert Horizon(c) == EpochOf(s.block.epochStarts, s.block.height - s.heightLimit.value);
    CommitBlockValid(s);
    if EpochOf(s.block.epochStarts, x) < Horizon(c) {
      PrunedTreeGone(c, x);
    } else if x in c.db.committed {
      CommittedTreeRestores(c, x);
    }
  }

  lemma ScenarioEpochs()
    ensures EpochOf([0, 1, 6], 1) == 1
    ensures EpochOf([0, 1, 6, 11], 1) == 1 && EpochOf([0, 1, 6, 11], 5) == 1
    ensures EpochOf([0, 1, 6, 11], 6) == 2
  {
  }

  /** The first commit of the pruning scenario: epoch 1 starts at height 1. */
  lemma ScenarioFirstCommit(v1: Bytes)
    ensures
      var s1 := CommitBlock(NewEpoch(Write(BeginBlock(Open(EmptyDb, Some(5)), DefaultHash, 1), "key", v1).0));
      && s1.block.epochStarts == [0, 1] && s1.heightLimit == Some(5)
      && s1.db.stores.Keys == {1} && s1.db.stores[1].height == 1
  {
    var b1 := NewEpoch(Write(BeginBlock(Open(EmptyDb, Some(5)), DefaultHash, 1), "key", v1).0);
    assert b1.block.epochStarts == [0, 1] && b1.db.stores == map[];
  }

  /** The second commit of the pruning scenario: epoch 2 starts at height 6. */
  lemma ScenarioSecondCommit(s1: Storage, v2: Bytes)
    requires s1.block.epochStarts == [0, 1] && s1.heightLimit == Some(5)
    requires s1.db.stores.Keys == {1} && s1.db.stores[1].height == 1
    ensures
      var s6 := CommitBlock(NewEpoch(Write(BeginBlock(s1, DefaultHash, 6), "key2", v2).0));
      && GetMerkleTree(s6, 1).Ok?
      && s6.block.epochStarts == [0, 1, 6] && s6.block.height == 6 && s6.heightLimit == Some(5)
      && 1 in s6.db.stores && 2 in s6.db.stores && s6.db.stores[2].height == 6
  {
    var b6 := NewEpoch(Write(BeginBlock(s1, DefaultHash, 6), "key2", v2).0);
    assert b6.block.epochStarts == [0, 1, 6] && b6.db.stores == s1.db.stores;
    ScenarioEpochs();
  }

  /** The first two commits of the pruning scenario: epochs start at heights 1 and 6. */
  lemma PruneScenarioFirstCommits(v1: Bytes, v2: Bytes)
    ensures
      var s1 := CommitBlock(NewEpoch(Write(BeginBlock(Open(EmptyDb, Some(5)), DefaultHash, 1), "key", v1).0));
      var s6 := CommitBlock(NewEpoch(Write(BeginBlock(s1, DefaultHash, 6), "key2", v2).0));
      && GetMerkleTree(s6, 1).Ok?
      && s6.block.epochStarts == [0, 1, 6] && s6.block.height == 6 && s6.heightLimit == Some(5)
      && 1 in s6.db.stores && 2 in s6.db.stores && s6.db.stores[2].height == 6
  {
    ScenarioFirstCommit(v1);
    var s1 := CommitBlock(NewEpoch(Write(BeginBlock(Open(EmptyDb, Some(5)), DefaultHash, 1), "key", v1).0));
    ScenarioSecondCommit(s1, v2);
  }

  /** The third commit of the pruning scenario, at height 11, starting epoch 3. */
  lemma PruneScenarioThirdCommit(s6: Storage)
    requires s6.block.epochStarts == [0, 1, 6] && s6.block.height == 6 && s6.heightLimit == Some(5)
    requires 1 in s6.db.stores && 2 in s6.db.stores && s6.db.stores[2].height == 6
    ensures
      var s11 := CommitBlock(NewEpoch(BeginBlock(s6, DefaultHash, 11)));
      && GetMerkleTree(s11, 1).Err?
      && GetMerkleTree(s11, 5).Err?
      && GetMerkleTree(s11, 6).Ok?
  {
    var b11 := NewEpoch(BeginBlock(s6, DefaultHash, 11));
    assert b11.block.epochStarts == [0, 1, 6, 11];
    ScenarioEpochs();
    var kept := b11.db.stores[3 := TreeStore(11, b11.tree)];
    var s11 := CommitBlock(b11);
    assert s11.db.stores == Prune(kept, [0, 1, 6, 11], 11, Some(5));
  }

  /** The pruning scenario: height limit 5, epochs starting at heights 1, 6 and 11.
      Before height 11 commits, the tree at height 1 restores; after it, heights 1 and 5
      fail while height 6 still restores. */
  lemma PruneScenario(v1: Bytes, v2: Bytes)
    ensures
      var s1 := CommitBlock(NewEpoch(Write(BeginBlock(Open(EmptyDb, Some(5)), DefaultHash, 1), "key", v1).0));
      var s6 := CommitBlock(NewEpoch(Write(BeginBlock(s1, DefaultHash, 6), "key2", v2).0));
      var s11 := CommitBlock(NewEpoch(BeginBlock(s6, DefaultHash, 11)));
      && GetMerkleTree(s6, 1).Ok?
      && GetMerkleTree(s11, 1).Err?
      && GetMerkleTree(s11, 5).Err?
      && GetMerkleTree(s11, 6).Ok?
  {
    PruneScenarioFirstCommits(v1, v2);
    var s1 := CommitBlock(NewEpoch(Write(BeginBlock(Open(EmptyDb, Some(5)), DefaultHash, 1), "key", v1).0));
    PruneScenarioThirdCommit(CommitBlock(NewEpoch(Write(BeginBlock(s1, DefaultHash, 6), "key2", v2).0)));
  }
}
