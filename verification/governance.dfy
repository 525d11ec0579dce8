/** The governance validity predicate: the rules a transaction's changes to governance
    storage must satisfy, key by key.

    Storage reads are explicit: the pre- and post-states are maps from governance keys
    to stored entries, each holding its raw bytes and what those bytes decode to.
    Proof-of-stake and account queries are oracles held in the context. */
module Governance {
  import opened Common

  type Address = string

  /** The largest number of actions a PGF proposal may carry is one less than this. */
  const MaxPgfActions: nat := 20

  // ---------------------------------------------------------------------------
  // Keys and stored values

  datatype GovParam =
    | MaxContentSize | MaxCodeSize | MinVotingPeriod | MaxProposalPeriod | MinGraceEpochs | MinFunds

  /** The storage keys the validity predicate distinguishes. */
  datatype GovKey =
    | Counter
    | Content(id: nat)
    | Author(id: nat)
    | TypeKey(id: nat)
    | Funds(id: nat)
    | StartEpoch(id: nat)
    | EndEpoch(id: nat)
    | ActivationEpoch(id: nat)
    | Code(id: nat)
    | Vote(id: nat, voter: Option<Address>, delegation: Option<Address>)  // a segment may not parse as an address
    | Committing(id: nat, epoch: nat)
    | Param(param: GovParam)
    | OtherGov(optId: Option<nat>)              // any other key under the governance address
    | Balance(token: Address, owner: Address)   // a token balance key
    | Foreign(path: string)                     // any other key

  datatype AddRemove<T> = Add(item: T) | Remove(item: T)

  datatype PgfTarget = PgfTarget(target: string, amount: nat)

  datatype PgfAction = Continuous(change: AddRemove<PgfTarget>) | Retro(retro: PgfTarget)

  datatype ProposalType =
    | DefaultProposal
    | PgfSteward(stewards: seq<AddRemove<Address>>)
    | PgfPayment(fundings: seq<PgfAction>)

  /** What a stored value decodes to; `Opaque` is anything else. */
  datatype Decoded =
    | U64(n: nat)
    | Amount(amount: nat)
    | AddressVal(address: Address)
    | TypeVal(proposalType: ProposalType)
    | VoteVal
    | Opaque

  datatype Stored = Stored(raw: Bytes, decoded: Decoded)

  type State = map<GovKey, Stored>

  datatype VpFailure = Undecodable(key: GovKey) | ProposalQueryFailed

  datatype GovError =
    | NativeVpError(reason: VpFailure)
    | EmptyProposalField(key: GovKey)
    | InvalidVoteKey(key: GovKey)
    | DivisionByZero        // the remainder by a zero minimum voting period

  /** The context of one validation: both states, the block's epoch, addresses, the
      transaction's verifiers and data, and the proof-of-stake and account oracles. */
  datatype Ctx = Ctx(
    pre: State,
    post: State,
    currentEpoch: nat,
    nativeToken: Address,
    govAddress: Address,
    verifiers: set<Address>,
    txData: Option<Bytes>,
    delegations: (Address, nat) -> Option<set<Address>>,  // validators the address delegates to; None when the query fails
    isValidator: Address -> bool,
    isDelegator: (Address, nat) -> bool,
    accountExists: Address -> bool,
    validatorVotingPeriod: (nat, nat, nat) -> bool,
    proposalAccepted: Bytes -> Option<bool>)              // None when the query fails

  // ---------------------------------------------------------------------------
  // Reads

  /** The number stored under `k`, if the key holds one. */
  function U64At(s: State, k: GovKey): Option<nat>
  {
    if k in s && s[k].decoded.U64? then Some(s[k].decoded.n) else None
  }

  function AmountAt(s: State, k: GovKey): Option<nat>
  {
    if k in s && s[k].decoded.Amount? then Some(s[k].decoded.amount) else None
  }

  function AddressAt(s: State, k: GovKey): Option<Address>
  {
    if k in s && s[k].decoded.AddressVal? then Some(s[k].decoded.address) else None
  }

  function TypeAt(s: State, k: GovKey): Option<ProposalType>
  {
    if k in s && s[k].decoded.TypeVal? then Some(s[k].decoded.proposalType) else None
  }

  /** A read of a value that must be present: a missing key is an empty proposal field. */
  function ForceRead(s: State, k: GovKey): (r: Result<Decoded, GovError>)
    ensures r.Ok? <==> k in s
    ensures r.Ok? ==> r.value == s[k].decoded
    ensures r.Err? ==> r.error == EmptyProposalField(k)
  {
    if k in s then Ok(s[k].decoded) else Err(EmptyProposalField(k))
  }

  function ReadU64(s: State, k: GovKey): (r: Result<nat, GovError>)
    ensures r.Ok? <==> U64At(s, k).Some?
    ensures r.Ok? ==> r.value == U64At(s, k).value
    ensures r.Err? ==> r.error == if k in s then NativeVpError(Undecodable(k)) else EmptyProposalField(k)
  {
    var d :- ForceRead(s, k);
    if d.U64? then Ok(d.n) else Err(NativeVpError(Undecodable(k)))
  }

  function ReadAmount(s: State, k: GovKey): (r: Result<nat, GovError>)
    ensures r.Ok? <==> AmountAt(s, k).Some?
    ensures r.Ok? ==> r.value == AmountAt(s, k).value
  {
    var d :- ForceRead(s, k);
    if d.Amount? then Ok(d.amount) else Err(NativeVpError(Undecodable(k)))
  }

  /** A read of a value that may be absent. */
  function ReadOptAmount(s: State, k: GovKey): (r: Result<Option<nat>, GovError>)
    ensures r.Ok? <==> (k !in s || AmountAt(s, k).Some?)
    ensures r.Ok? ==> r.value == AmountAt(s, k)
  {
    if k !in s then Ok(None)
    else if s[k].decoded.Amount? then Ok(Some(s[k].decoded.amount))
    else Err(NativeVpError(Undecodable(k)))
  }

  function ReadAddress(s: State, k: GovKey): (r: Result<Address, GovError>)
    ensures r.Ok? <==> AddressAt(s, k).Some?
    ensures r.Ok? ==> r.value == AddressAt(s, k).value
  {
    var d :- ForceRead(s, k);
    if d.AddressVal? then Ok(d.address) else Err(NativeVpError(Undecodable(k)))
  }

  function ReadType(s: State, k: GovKey): (r: Result<ProposalType, GovError>)
    ensures r.Ok? <==> TypeAt(s, k).Some?
    ensures r.Ok? ==> r.value == TypeAt(s, k).value
  {
    var d :- ForceRead(s, k);
    if d.TypeVal? then Ok(d.proposalType) else Err(NativeVpError(Undecodable(k)))
  }

  /** The raw bytes under `k`, empty when absent. */
  function ReadBytes(s: State, k: GovKey): Bytes
  {
    if k in s then s[k].raw else []
  }

  // ---------------------------------------------------------------------------
  // Proposal initialisation and counters

  /** The keys every newly initialised proposal must write. */
  function MandatoryKeys(id: nat): set<GovKey>
  {
    {Counter, Content(id), Author(id), TypeKey(id), Funds(id), StartEpoch(id), EndEpoch(id), ActivationEpoch(id)}
  }

  /** Whether every proposal id in `[lo, hi)` has all its mandatory keys changed. */
  function AllMandatoryPresent(keys: set<GovKey>, lo: nat, hi: nat): (r: bool)
    ensures r <==> forall id :: lo <= id < hi ==> MandatoryKeys(id) <= keys
    decreases hi - lo
  {
    lo >= hi || (MandatoryKeys(lo) <= keys && AllMandatoryPresent(keys, lo + 1, hi))
  }

  /** The changed keys must contain the mandatory keys of every proposal created by the
      transaction, those numbered from the old to the new counter. Returns the validity
      and the number of proposals created. */
  function IsValidInitProposalKeySet(c: Ctx, keys: set<GovKey>): (r: Result<(bool, nat), GovError>)
    ensures r.Ok? <==> U64At(c.pre, Counter).Some? && U64At(c.post, Counter).Some?
    ensures r.Ok? ==>
      var pre, post := U64At(c.pre, Counter).value, U64At(c.post, Counter).value;
      && (r.value.0 <==> pre <= post && forall id :: pre <= id < post ==> MandatoryKeys(id) <= keys)
      && r.value.1 == (if r.value.0 then post - pre else 0)
  {
    var pre :- ReadU64(c.pre, Counter);
    var post :- ReadU64(c.post, Counter);
    if post < pre then Ok((false, 0))
    else if !AllMandatoryPresent(keys, pre, post) then Ok((false, 0))
    else Ok((true, post - pre))
  }

  /** The counter must grow by exactly the number of proposals created. */
  function IsValidCounter(c: Ctx, setCount: nat): (r: Result<bool, GovError>)
    ensures r.Ok? <==> U64At(c.pre, Counter).Some? && U64At(c.post, Counter).Some?
    ensures r.Ok? ==> (r.value <==> U64At(c.pre, Counter).value + setCount == U64At(c.post, Counter).value)
  {
    var pre :- ReadU64(c.pre, Counter);
    var post :- ReadU64(c.post, Counter);
    Ok(pre + setCount == post)
  }

  /** A committing-proposal key may only change when a proposal is created. */
  function IsValidProposalCommit(c: Ctx): (r: Result<bool, GovError>)
    ensures r.Ok? <==> U64At(c.pre, Counter).Some? && U64At(c.post, Counter).Some?
    ensures r.Ok? ==> (r.value <==> U64At(c.pre, Counter).value < U64At(c.post, Counter).value)
  {
    var pre :- ReadU64(c.pre, Counter);
    var post :- ReadU64(c.post, Counter);
    Ok(pre < post)
  }

  /** Whenever the key set is accepted, the count it reports makes the counter key valid,
      and a committing key is valid exactly when some proposal was created. */
  lemma KeySetAgreesWithCounter(c: Ctx, keys: set<GovKey>)
    requires IsValidInitProposalKeySet(c, keys).Ok? && IsValidInitProposalKeySet(c, keys).value.0
    ensures IsValidCounter(c, IsValidInitProposalKeySet(c, keys).value.1) == Ok(true)
    ensures IsValidProposalCommit(c) == Ok(IsValidInitProposalKeySet(c, keys).value.1 > 0)
  {
  }

  // ---------------------------------------------------------------------------
  // Epochs

  /** The voting period is a non-empty whole number of minimum periods. */
  predicate WholePeriods(start: nat, end: nat, minPeriod: nat)
    requires minPeriod > 0 && start < end
  {
    (end - start) % minPeriod == 0 && end - start >= minPeriod
  }

  /** A new proposal's voting start must lie after the current epoch and before its end,
      and the voting period must be a whole, non-zero number of minimum periods. */
  function IsValidStartEpoch(c: Ctx, id: nat): (r: Result<bool, GovError>)
    ensures r.Ok? && r.value ==>
      && StartEpoch(id) !in c.pre && EndEpoch(id) !in c.pre
      && U64At(c.post, StartEpoch(id)).Some? && U64At(c.post, EndEpoch(id)).Some?
      && U64At(c.pre, Param(MinVotingPeriod)).Some?
      && var start, end, minPeriod :=
           U64At(c.post, StartEpoch(id)).value, U64At(c.post, EndEpoch(id)).value,
           U64At(c.pre, Param(MinVotingPeriod)).value;
         && c.currentEpoch < start < end
         && exists k: nat :: k >= 1 && end - start == k * minPeriod
    ensures r == Ok(true) <==>
      && StartEpoch(id) !in c.pre && EndEpoch(id) !in c.pre
      && U64At(c.post, StartEpoch(id)).Some? && U64At(c.post, EndEpoch(id)).Some?
      && U64At(c.pre, Param(MinVotingPeriod)).Some?
      && var start, end, minPeriod :=
           U64At(c.post, StartEpoch(id)).value, U64At(c.post, EndEpoch(id)).value,
           U64At(c.pre, Param(MinVotingPeriod)).value;
         && c.currentEpoch < start < end && minPeriod > 0
         && (end - start) % minPeriod == 0 && end - start >= minPeriod
    ensures r == Err(DivisionByZero) <==>
      && StartEpoch(id) !in c.pre && EndEpoch(id) !in c.pre
      && U64At(c.post, StartEpoch(id)).Some? && U64At(c.post, EndEpoch(id)).Some?
      && U64At(c.pre, Param(MinVotingPeriod)) == Some(0)
      && c.currentEpoch < U64At(c.post, StartEpoch(id)).value < U64At(c.post, EndEpoch(id)).value
    ensures StartEpoch(id) in c.pre || EndEpoch(id) in c.pre ==> r == Ok(false)
  {
    if StartEpoch(id) in c.pre || EndEpoch(id) in c.pre then Ok(false)
    else
      var start :- ReadU64(c.post, StartEpoch(id));
      var end :- ReadU64(c.post, EndEpoch(id));
      var minPeriod :- ReadU64(c.pre, Param(MinVotingPeriod));
      if end <= start || start <= c.currentEpoch then Ok(false)
      else if minPeriod == 0 then Err(DivisionByZero)
      else
        var valid := WholePeriods(start, end, minPeriod);
        assert valid ==> end - start == ((end - start) / minPeriod) * minPeriod;
        Ok(valid)
  }

  /** The end-epoch check: the start-epoch conditions plus a voting period no longer than
      the maximum. */
  function IsValidEndEpoch(c: Ctx, id: nat): (r: Result<bool, GovError>)
    ensures StartEpoch(id) in c.pre || EndEpoch(id) in c.pre ==> r == Ok(false)
    ensures r.Ok? && r.value ==>
      && U64At(c.pre, Param(MaxProposalPeriod)).Some?
      && U64At(c.post, EndEpoch(id)).Some? && U64At(c.post, StartEpoch(id)).Some?
      && U64At(c.post, EndEpoch(id)).value - U64At(c.post, StartEpoch(id)).value
         <= U64At(c.pre, Param(MaxProposalPeriod)).value
    ensures r == Ok(true) <==>
      && StartEpoch(id) !in c.pre && EndEpoch(id) !in c.pre
      && U64At(c.post, StartEpoch(id)).Some? && U64At(c.post, EndEpoch(id)).Some?
      && U64At(c.pre, Param(MinVotingPeriod)).Some? && U64At(c.pre, Param(MaxProposalPeriod)).Some?
      && var start, end, minPeriod :=
           U64At(c.post, StartEpoch(id)).value, U64At(c.post, EndEpoch(id)).value,
           U64At(c.pre, Param(MinVotingPeriod)).value;
         && c.currentEpoch < start < end && minPeriod > 0
         && (end - start) % minPeriod == 0 && end - start >= minPeriod
         && end - start <= U64At(c.pre, Param(MaxProposalPeriod)).value
  {
    if StartEpoch(id) in c.pre || EndEpoch(id) in c.pre then Ok(false)
    else
      var start :- ReadU64(c.post, StartEpoch(id));
      var end :- ReadU64(c.post, EndEpoch(id));
      var minPeriod :- ReadU64(c.pre, Param(MinVotingPeriod));
      var maxPeriod :- ReadU64(c.pre, Param(MaxProposalPeriod));
      if end <= start || start <= c.currentEpoch then Ok(false)
      else if minPeriod == 0 then Err(DivisionByZero)
      else Ok(WholePeriods(start, end, minPeriod) && end - start <= maxPeriod)
  }

  /** The end-epoch check is the stronger one: an accepted end epoch implies an accepted
      start epoch, and both reject exactly the same malformed periods. */
  lemma EndEpochImpliesStartEpoch(c: Ctx, id: nat)
    ensures IsValidEndEpoch(c, id) == Ok(true) ==> IsValidStartEpoch(c, id) == Ok(true)
    ensures IsValidStartEpoch(c, id) == Ok(false) && U64At(c.pre, Param(MaxProposalPeriod)).Some?
            ==> IsValidEndEpoch(c, id) == Ok(false)
  {
  }

  /** The activation epoch must be new, have its committing key written, come at least
      the minimum grace period after the voting end, and lie within the maximum proposal
      period of the voting start. */
  function IsValidActivationEpoch(c: Ctx, id: nat): (r: Result<bool, GovError>)
    ensures ActivationEpoch(id) in c.pre ==> r == Ok(false)
    ensures r.Ok? && r.value ==>
      && U64At(c.post, StartEpoch(id)).Some? && U64At(c.post, EndEpoch(id)).Some?
      && U64At(c.post, ActivationEpoch(id)).Some?
      && U64At(c.pre, Param(MinGraceEpochs)).Some? && U64At(c.pre, Param(MaxProposalPeriod)).Some?
      && var start, end, act := U64At(c.post, StartEpoch(id)).value, U64At(c.post, EndEpoch(id)).value,
                                U64At(c.post, ActivationEpoch(id)).value;
         && Committing(id, act) in c.post
         && end + U64At(c.pre, Param(MinGraceEpochs)).value <= act
         && end < act
         && start < act <= start + U64At(c.pre, Param(MaxProposalPeriod)).value
    ensures r == Ok(true) <==>
      && ActivationEpoch(id) !in c.pre
      && U64At(c.post, StartEpoch(id)).Some? && U64At(c.post, EndEpoch(id)).Some?
      && U64At(c.post, ActivationEpoch(id)).Some?
      && U64At(c.pre, Param(MinGraceEpochs)).Some? && U64At(c.pre, Param(MaxProposalPeriod)).Some?
      && var start, end, act := U64At(c.post, StartEpoch(id)).value, U64At(c.post, EndEpoch(id)).value,
                                U64At(c.post, ActivationEpoch(id)).value;
         && Committing(id, act) in c.post
         && end < act && act - end >= U64At(c.pre, Param(MinGraceEpochs)).value
         && start < act && act - start <= U64At(c.pre, Param(MaxProposalPeriod)).value
  {
    if ActivationEpoch(id) in c.pre then Ok(false)
    else
      var start :- ReadU64(c.post, StartEpoch(id));
      var end :- ReadU64(c.post, EndEpoch(id));
      var act :- ReadU64(c.post, ActivationEpoch(id));
      var minGrace :- ReadU64(c.pre, Param(MinGraceEpochs));
      var maxPeriod :- ReadU64(c.pre, Param(MaxProposalPeriod));
      var committing := Committing(id, act) in c.post;
      Ok(committing && end < act && act - end >= minGrace && start < act && act - start <= maxPeriod)
  }

  /** A proposal whose three epoch keys are all accepted has a consistent timeline:
      current epoch < voting start < voting end < activation, and the activation lies
      within the maximum proposal period of the voting start. */
  lemma ProposalTimeline(c: Ctx, id: nat)
    requires IsValidStartEpoch(c, id) == Ok(true)
    requires IsValidEndEpoch(c, id) == Ok(true)
    requires IsValidActivationEpoch(c, id) == Ok(true)
    ensures var start, end, act := U64At(c.post, StartEpoch(id)).value, U64At(c.post, EndEpoch(id)).value,
                                   U64At(c.post, ActivationEpoch(id)).value;
            && c.currentEpoch < start < end < act
            && act - start <= U64At(c.pre, Param(MaxProposalPeriod)).value
            && end - start <= U64At(c.pre, Param(MaxProposalPeriod)).value
  {
  }

  // ---------------------------------------------------------------------------
  // Proposal type, content and code

  /** The addresses added by a steward proposal, in order. */
  function AddedItems<T>(xs: seq<AddRemove<T>>): (r: seq<T>)
    ensures |r| <= |xs|
    ensures forall k :: 0 <= k < |r| ==> exists i :: 0 <= i < |xs| && xs[i].Add? && xs[i].item == r[k]
    ensures forall i :: 0 <= i < |xs| && xs[i].Add? ==> xs[i].item in r
  {
    if |xs| == 0 then []
    else AddedItems(xs[..|xs| - 1]) + (if xs[|xs| - 1].Add? then [xs[|xs| - 1].item] else [])
  }

  /** The address every action of a steward proposal names, in order. */
  function Items<T>(xs: seq<AddRemove<T>>): (r: seq<T>)
    ensures |r| == |xs| && forall i :: 0 <= i < |xs| ==> r[i] == xs[i].item
  {
    if |xs| == 0 then [] else Items(xs[..|xs| - 1]) + [xs[|xs| - 1].item]
  }

  function LowerChar(ch: char): char
  {
    if 'A' <= ch <= 'Z' then (ch as int + 32) as char else ch
  }

  /** Lower-cases the ASCII letters of a string. */
  function Lower(s: string): (r: string)
    ensures |r| == |s| && forall i :: 0 <= i < |s| ==> r[i] == LowerChar(s[i])
  {
    if |s| == 0 then [] else [LowerChar(s[0])] + Lower(s[1..])
  }

  /** The lower-cased targets of the continuous fundings a payment adds, in order. */
  function AddTargets(fs: seq<PgfAction>): seq<string>
  {
    if |fs| == 0 then []
    else
      var f := fs[|fs| - 1];
      AddTargets(fs[..|fs| - 1]) + (if f.Continuous? && f.change.Add? then [Lower(f.change.item.target)] else [])
  }

  /** The lower-cased targets of the continuous fundings a payment removes, in order. */
  function RemoveTargets(fs: seq<PgfAction>): seq<string>
  {
    if |fs| == 0 then []
    else
      var f := fs[|fs| - 1];
      RemoveTargets(fs[..|fs| - 1]) + (if f.Continuous? && f.change.Remove? then [Lower(f.change.item.target)] else [])
  }

  function RetroCount(fs: seq<PgfAction>): nat
  {
    if |fs| == 0 then 0 else RetroCount(fs[..|fs| - 1]) + (if fs[|fs| - 1].Retro? then 1 else 0)
  }

  /** Every funding is exactly one of: a continuous add, a continuous remove, a retro. */
  lemma {:induction false} FundingsPartition(fs: seq<PgfAction>)
    ensures |AddTargets(fs)| + |RemoveTargets(fs)| + RetroCount(fs) == |fs|
    decreases |fs|
  {
    if |fs| > 0 {
      FundingsPartition(fs[..|fs| - 1]);
    }
  }

  /** The payment rule as the code computes it: fewer than the maximum of fundings, the
      distinct added targets plus the distinct removed targets plus the retro fundings
      account for every funding, and no target is both added and removed. */
  predicate IsValidPayment(fs: seq<PgfAction>)
  {
    var adds, removes := Elems(AddTargets(fs)), Elems(RemoveTargets(fs));
    && |fs| < MaxPgfActions
    && |adds| + |removes| + RetroCount(fs) == |fs|
    && adds * removes == {}
  }

  /** The payment rule means: fewer than the maximum of fundings, no target added twice,
      none removed twice, and none both added and removed (targets compared lower-cased). */
  lemma PaymentRule(fs: seq<PgfAction>)
    ensures IsValidPayment(fs) <==>
      && |fs| < MaxPgfActions
      && Distinct(AddTargets(fs))
      && Distinct(RemoveTargets(fs))
      && forall t :: t in AddTargets(fs) ==> t !in RemoveTargets(fs)
  {
    var a, rm := AddTargets(fs), RemoveTargets(fs);
    FundingsPartition(fs);
    DistinctIffElemsSize(a);
    DistinctIffElemsSize(rm);
    assert (|Elems(a)| + |Elems(rm)| + RetroCount(fs) == |fs|) <==> Distinct(a) && Distinct(rm);
    DisjointElems(a, rm);
  }

  lemma DisjointElems<T>(a: seq<T>, b: seq<T>)
    ensures Elems(a) * Elems(b) == {} <==> forall t :: t in a ==> t !in b
  {
    assert forall t :: t in Elems(a) * Elems(b) <==> t in a && t in b;
  }

  /** Validates the proposal type: steward changes may add at most one steward (the
      author), payments must pass the payment rule, any other type is valid. */
  function IsValidProposalType(c: Ctx, id: nat): (r: Result<bool, GovError>)
    ensures r.Ok? ==> TypeAt(c.post, TypeKey(id)).Some?
    ensures TypeAt(c.post, TypeKey(id)) == Some(DefaultProposal) ==> r == Ok(true)
    ensures forall fs :: TypeAt(c.post, TypeKey(id)) == Some(PgfPayment(fs)) ==> r == Ok(IsValidPayment(fs))
    ensures forall st :: TypeAt(c.post, TypeKey(id)) == Some(PgfSteward(st)) && |AddedItems(st)| > 1 ==> r == Ok(false)
  {
    var t :- ReadType(c.post, TypeKey(id));
    match t
    case PgfSteward(st) =>
      var added := AddedItems(st);
      if |added| > 1 then Ok(false)
      else if |added| == 0 then Ok(|st| < MaxPgfActions)
      else
        var author :- ReadAddress(c.post, Author(id));
        var distinct := |Elems(Items(st))|;
        Ok(added[0] == author && |st| == distinct && distinct < MaxPgfActions)
    case PgfPayment(fs) => Ok(IsValidPayment(fs))
    case DefaultProposal => Ok(true)
  }

  /** The steward rule: with no steward added, fewer than the maximum of actions; with
      exactly one added, it must be the author and every action must name a different
      address, fewer than the maximum of them. */
  lemma StewardRule(c: Ctx, id: nat, st: seq<AddRemove<Address>>)
    requires TypeAt(c.post, TypeKey(id)) == Some(PgfSteward(st))
    ensures |AddedItems(st)| == 0 ==> IsValidProposalType(c, id) == Ok(|st| < MaxPgfActions)
    ensures |AddedItems(st)| == 1 && AddressAt(c.post, Author(id)).None? ==> IsValidProposalType(c, id).Err?
    ensures |AddedItems(st)| == 1 && AddressAt(c.post, Author(id)).Some? ==>
      (IsValidProposalType(c, id) == Ok(true) <==>
        && AddedItems(st)[0] == AddressAt(c.post, Author(id)).value
        && Distinct(Items(st))
        && |st| < MaxPgfActions)
  {
    DistinctIffElemsSize(Items(st));
  }

  /** New content must be no longer than the maximum content size. */
  function IsValidContentKey(c: Ctx, id: nat): (r: Result<bool, GovError>)
    ensures r == Ok(true) <==>
      && Content(id) !in c.pre
      && U64At(c.pre, Param(MaxContentSize)).Some?
      && |ReadBytes(c.post, Content(id))| <= U64At(c.pre, Param(MaxContentSize)).value
    ensures r.Err? <==> Content(id) !in c.pre && U64At(c.pre, Param(MaxContentSize)).None?
  {
    if Content(id) in c.pre then Ok(false)
    else
      var maxLength :- ReadU64(c.pre, Param(MaxContentSize));
      Ok(|ReadBytes(c.post, Content(id))| <= maxLength)
  }

  /** Only default proposals carry code, which must be new and no larger than the maximum
      code size. */
  function IsValidProposalCode(c: Ctx, id: nat): (r: Result<bool, GovError>)
    ensures r == Ok(true) <==>
      && TypeAt(c.post, TypeKey(id)) == Some(DefaultProposal)
      && Code(id) !in c.pre
      && U64At(c.pre, Param(MaxCodeSize)).Some?
      && |ReadBytes(c.post, Code(id))| <= U64At(c.pre, Param(MaxCodeSize)).value
  {
    var t :- ReadType(c.post, TypeKey(id));
    if !t.DefaultProposal? then Ok(false)
    else if Code(id) in c.pre then Ok(false)
    else
      var maxLength :- ReadU64(c.pre, Param(MaxCodeSize));
      Ok(|ReadBytes(c.post, Code(id))| <= maxLength)
  }

  /** Accepted code implies an accepted proposal type. */
  lemma CodeImpliesType(c: Ctx, id: nat)
    ensures IsValidProposalCode(c, id) == Ok(true) ==> IsValidProposalType(c, id) == Ok(true)
  {
  }

  // ---------------------------------------------------------------------------
  // Funds, balance, author, parameters

  function GovBalanceKey(c: Ctx): GovKey
  {
    Balance(c.nativeToken, c.govAddress)
  }

  /** The funds locked by a new proposal must reach the minimum and be exactly what the
      governance balance grew by. */
  function IsValidFunds(c: Ctx, id: nat): (r: Result<bool, GovError>)
    ensures r.Ok? <==>
      && AmountAt(c.pre, Param(MinFunds)).Some?
      && (GovBalanceKey(c) !in c.pre || AmountAt(c.pre, GovBalanceKey(c)).Some?)
      && AmountAt(c.post, GovBalanceKey(c)).Some?
      && AmountAt(c.post, Funds(id)).Some?
  {
    var minFunds :- ReadAmount(c.pre, Param(MinFunds));
    var preBalance :- ReadOptAmount(c.pre, GovBalanceKey(c));
    var postBalance :- ReadAmount(c.post, GovBalanceKey(c));
    var funds :- ReadAmount(c.post, Funds(id));
    match preBalance
    case Some(pb) => Ok(funds >= minFunds && postBalance >= pb && postBalance - pb == funds)
    case None => Ok(funds >= minFunds && postBalance == funds)
  }

  /** Both branches of the funds rule say one thing: the funds reach the minimum and the
      governance balance is its old value (zero when absent) plus the funds. */
  lemma FundsAreDeposit(c: Ctx, id: nat)
    requires IsValidFunds(c, id).Ok?
    ensures var pre := AmountAt(c.pre, GovBalanceKey(c));
            var oldBalance := if pre.Some? then pre.value else 0;
            IsValidFunds(c, id).value <==>
              && AmountAt(c.post, Funds(id)).value >= AmountAt(c.pre, Param(MinFunds)).value
              && AmountAt(c.post, GovBalanceKey(c)).value == oldBalance + AmountAt(c.post, Funds(id)).value
  {
  }

  /** A change of a native-token balance must raise the governance balance by at least
      the minimum funds. */
  function IsValidBalance(c: Ctx): (r: Result<bool, GovError>)
    ensures r.Ok? <==>
      && (GovBalanceKey(c) !in c.pre || AmountAt(c.pre, GovBalanceKey(c)).Some?)
      && AmountAt(c.pre, Param(MinFunds)).Some?
      && AmountAt(c.post, GovBalanceKey(c)).Some?
    ensures var pre := AmountAt(c.pre, GovBalanceKey(c));
            var oldBalance := if pre.Some? then pre.value else 0;
            r.Ok? ==>
              (r.value <==>
                 && (pre.Some? ==> AmountAt(c.post, GovBalanceKey(c)).value > pre.value)
                 && AmountAt(c.post, GovBalanceKey(c)).value >= oldBalance + AmountAt(c.pre, Param(MinFunds)).value)
  {
    var preBalance :- ReadOptAmount(c.pre, GovBalanceKey(c));
    var minFunds :- ReadAmount(c.pre, Param(MinFunds));
    var postBalance :- ReadAmount(c.post, GovBalanceKey(c));
    match preBalance
    case Some(pb) => Ok(postBalance > pb && postBalance - pb >= minFunds)
    case None => Ok(postBalance >= minFunds)
  }

  /** With a positive minimum, accepted funds make the balance change acceptable too. */
  lemma FundsImplyBalance(c: Ctx, id: nat)
    requires IsValidFunds(c, id) == Ok(true)
    requires AmountAt(c.pre, Param(MinFunds)).value > 0
    ensures IsValidBalance(c) == Ok(true)
  {
  }

  /** The author must be new, an existing account, and a verifier of the transaction. */
  function IsValidAuthor(c: Ctx, id: nat): (r: Result<bool, GovError>)
    ensures r == Ok(true) <==>
      && Author(id) !in c.pre
      && AddressAt(c.post, Author(id)).Some?
      && c.accountExists(AddressAt(c.post, Author(id)).value)
      && AddressAt(c.post, Author(id)).value in c.verifiers
  {
    if Author(id) in c.pre then Ok(false)
    else
      var author :- ReadAddress(c.post, Author(id));
      Ok(c.accountExists(author) && author in c.verifiers)
  }

  /** A governance parameter may only change through an accepted proposal whose id is
      the transaction's data. */
  function IsValidParameter(c: Ctx): (r: Result<bool, GovError>)
    ensures c.txData.None? ==> r == Ok(false)
    ensures r == Ok(true) <==> c.txData.Some? && c.proposalAccepted(c.txData.value) == Some(true)
    ensures r.Err? <==> c.txData.Some? && c.proposalAccepted(c.txData.value).None?
  {
    match c.txData
    case None => Ok(false)
    case Some(data) =>
      match c.proposalAccepted(data)
      case None => Err(NativeVpError(ProposalQueryFailed))
      case Some(accepted) => Ok(accepted)
  }

  // ---------------------------------------------------------------------------
  // Votes

  /** Voters other than validators may vote from the voting start to the voting end,
      inclusive; validators' window is decided by the validator voting period rule. */
  function IsValidVotingWindow(c: Ctx, current: nat, start: nat, end: nat, isValidator: bool): (r: bool)
    ensures !isValidator ==> (r <==> start <= current <= end)
    ensures isValidator ==> r == c.validatorVotingPeriod(current, start, end)
  {
    if isValidator then c.validatorVotingPeriod(current, start, end)
    else current >= start && current <= end
  }

  /** A validator votes for itself and must be a verifier. */
  function IsValidatorVote(c: Ctx, voter: Address, delegation: Address): bool
  {
    voter == delegation && c.isValidator(voter) && voter in c.verifiers
  }

  /** A delegator votes on a validator's behalf and must be a verifier. */
  function IsDelegatorVote(c: Ctx, epoch: nat, voter: Address, delegation: Address): bool
  {
    voter != delegation && voter in c.verifiers && c.isDelegator(voter, epoch)
  }

  /** The voter and delegation addresses of a key, when it is a well-formed vote key. */
  function VoteAddresses(key: GovKey): Option<(Address, Address)>
  {
    if key.Vote? && key.voter.Some? && key.delegation.Some? then Some((key.voter.value, key.delegation.value))
    else None
  }

  /** Validates a vote: on an existing proposal, with a stored vote, with a vote for
      every validator the voter delegates to, inside the voting window, and from a
      validator within its period or else from a delegator. */
  function IsValidVoteKey(c: Ctx, id: nat, key: GovKey): (r: Result<bool, GovError>)
    ensures r.Ok? ==> VoteAddresses(key).Some?
    ensures VoteAddresses(key).None? ==> r.Err?
    ensures r == Ok(true) ==>
      && U64At(c.pre, Counter).Some? && id < U64At(c.pre, Counter).value
      && U64At(c.pre, StartEpoch(id)).Some? && U64At(c.pre, EndEpoch(id)).Some?
      && var (voter, delegation) := VoteAddresses(key).value;
      var start, end := U64At(c.pre, StartEpoch(id)).value, U64At(c.pre, EndEpoch(id)).value;
      && Vote(id, Some(voter), Some(delegation)) in c.post
      && c.delegations(voter, c.currentEpoch).Some?
      && c.delegations(voter, c.currentEpoch).value != {}
      && (forall a :: a in c.delegations(voter, c.currentEpoch).value ==> Vote(id, Some(voter), Some(a)) in c.post)
      && start <= c.currentEpoch <= end
      && (IsValidatorVote(c, voter, delegation) || IsDelegatorVote(c, start, voter, delegation))
  {
    var preCounter :- ReadU64(c.pre, Counter);
    var start :- ReadU64(c.pre, StartEpoch(id));
    var end :- ReadU64(c.pre, EndEpoch(id));
    match VoteAddresses(key)
    case None => Err(InvalidVoteKey(key))
    case Some((voter, delegation)) =>
      if preCounter <= id then Ok(false)
      else
        var voteKey := Vote(id, Some(voter), Some(delegation));
        if voteKey !in c.post || !c.post[voteKey].decoded.VoteVal? then Err(InvalidVoteKey(key))
        else
          match c.delegations(voter, c.currentEpoch)
          case None => Ok(false)
          case Some(validators) =>
            if validators == {} then Ok(false)
            else if !(forall a :: a in validators ==> Vote(id, Some(voter), Some(a)) in c.post) then Ok(false)
            else if !IsValidVotingWindow(c, c.currentEpoch, start, end, false) then Ok(false)
            else if IsValidatorVote(c, voter, delegation) then Ok(c.validatorVotingPeriod(c.currentEpoch, start, end))
            else Ok(IsDelegatorVote(c, start, voter, delegation))
  }

  /** A vote cast outside the voting window, or on a proposal not yet created, is rejected
      whoever casts it. */
  lemma VoteOutsideWindowRejected(c: Ctx, id: nat, key: GovKey)
    requires U64At(c.pre, StartEpoch(id)).Some? && U64At(c.pre, EndEpoch(id)).Some?
    requires c.currentEpoch < U64At(c.pre, StartEpoch(id)).value || U64At(c.pre, EndEpoch(id)).value < c.currentEpoch
    ensures IsValidVoteKey(c, id, key) != Ok(true)
  {
  }

  // ---------------------------------------------------------------------------
  // Key classification and the transaction rule

  datatype KeyType =
    | CounterType | VoteType | ContentType | ProposalCodeType | TypeType | ProposalCommitType
    | ActivationEpochType | StartEpochType | EndEpochType | FundsType | BalanceType | AuthorType
    | ParameterType | UnknownGovernance | Unknown

  /** Classifies a changed key; any native-token balance key counts as a balance change. */
  function KeyTypeOf(key: GovKey, nativeToken: Address): (r: KeyType)
    ensures r == BalanceType <==> key.Balance? && key.token == nativeToken
    ensures r == Unknown <==> key.Foreign? || (key.Balance? && key.token != nativeToken)
    ensures r == UnknownGovernance <==> key.OtherGov?
    ensures r == VoteType <==> key.Vote?
    ensures r == CounterType <==> key.Counter?
  {
    match key
    case Vote(_, _, _) => VoteType
    case Content(_) => ContentType
    case TypeKey(_) => TypeType
    case Code(_) => ProposalCodeType
    case ActivationEpoch(_) => ActivationEpochType
    case StartEpoch(_) => StartEpochType
    case Committing(_, _) => ProposalCommitType
    case EndEpoch(_) => EndEpochType
    case Funds(_) => FundsType
    case Author(_) => AuthorType
    case Counter => CounterType
    case Param(_) => ParameterType
    case Balance(token, _) => if token == nativeToken then BalanceType else Unknown
    case OtherGov(_) => UnknownGovernance
    case Foreign(_) => Unknown
  }

  /** The proposal id a key belongs to, if any. */
  function ProposalId(key: GovKey): Option<nat>
  {
    match key
    case Content(id) => Some(id)
    case Author(id) => Some(id)
    case TypeKey(id) => Some(id)
    case Funds(id) => Some(id)
    case StartEpoch(id) => Some(id)
    case EndEpoch(id) => Some(id)
    case ActivationEpoch(id) => Some(id)
    case Code(id) => Some(id)
    case Vote(id, _, _) => Some(id)
    case Committing(id, _) => Some(id)
    case OtherGov(optId) => optId
    case _ => None
  }

  /** Every key whose check needs a proposal id carries one. */
  lemma ProposalKeysHaveIds(key: GovKey, nativeToken: Address)
    ensures KeyTypeOf(key, nativeToken) in {VoteType, ContentType, TypeType, ProposalCodeType,
                                            ActivationEpochType, StartEpochType, EndEpochType,
                                            FundsType, AuthorType}
            ==> ProposalId(key).Some?
  {
  }

  /** The check a changed key must pass. */
  function ValidateKey(c: Ctx, setCount: nat, key: GovKey): (r: Result<bool, GovError>)
    ensures KeyTypeOf(key, c.nativeToken) == Unknown ==> r == Ok(true)
    ensures KeyTypeOf(key, c.nativeToken) == UnknownGovernance ==> r == Ok(false)
  {
    match (KeyTypeOf(key, c.nativeToken), ProposalId(key))
    case (VoteType, Some(id)) => IsValidVoteKey(c, id, key)
    case (ContentType, Some(id)) => IsValidContentKey(c, id)
    case (TypeType, Some(id)) => IsValidProposalType(c, id)
    case (ProposalCodeType, Some(id)) => IsValidProposalCode(c, id)
    case (ActivationEpochType, Some(id)) => IsValidActivationEpoch(c, id)
    case (StartEpochType, Some(id)) => IsValidStartEpoch(c, id)
    case (EndEpochType, Some(id)) => IsValidEndEpoch(c, id)
    case (FundsType, Some(id)) => IsValidFunds(c, id)
    case (AuthorType, Some(id)) => IsValidAuthor(c, id)
    case (CounterType, _) => IsValidCounter(c, setCount)
    case (ProposalCommitType, _) => IsValidProposalCommit(c)
    case (ParameterType, _) => IsValidParameter(c)
    case (BalanceType, _) => IsValidBalance(c)
    case (UnknownGovernance, _) => Ok(false)
    case (Unknown, _) => Ok(true)
    case _ => Ok(false)
  }

  /** The governance validity predicate: the key set must be a valid proposal
      initialisation, and then every changed key must pass its check, an error counting
      as a rejection. */
  function ValidateTx(c: Ctx, keys: set<GovKey>): (r: Result<bool, GovError>)
    ensures r.Err? <==> IsValidInitProposalKeySet(c, keys).Err?
    ensures r == Ok(true) <==>
      && IsValidInitProposalKeySet(c, keys).Ok?
      && IsValidInitProposalKeySet(c, keys).value.0
      && forall k :: k in keys ==> ValidateKey(c, IsValidInitProposalKeySet(c, keys).value.1, k) == Ok(true)
  {
    var keySet :- IsValidInitProposalKeySet(c, keys);
    if !keySet.0 then Ok(false)
    else Ok(forall k :: k in keys ==> ValidateKey(c, keySet.1, k) == Ok(true))
  }

  /** One changed key whose check rejects or fails rejects the whole transaction; keys
      outside governance never cause a rejection. */
  lemma ValidateTxRejectsOnAnyKey(c: Ctx, keys: set<GovKey>, bad: GovKey)
    requires bad in keys
    requires IsValidInitProposalKeySet(c, keys).Ok?
    requires ValidateKey(c, IsValidInitProposalKeySet(c, keys).value.1, bad) != Ok(true)
    ensures ValidateTx(c, keys) == Ok(false)
    ensures KeyTypeOf(bad, c.nativeToken) != Unknown
  {
  }
}
