/** The IBC validity predicate's checks on the state a transaction leaves behind: the
    changed IBC keys must be exactly what a pseudo-execution of the transaction's IBC
    message writes, denomination traces must hash to their keys, and every token whose
    balance changed must stay within its mint limit and per-epoch throughput limit.

    Executing and validating the IBC message, the trace hash, and the limit parameters
    are oracles held in the context. */
module IbcVp {
  import opened Common

  type Address = string

  /** The keys the predicate distinguishes. */
  datatype VpKey =
    | IbcPath(path: string)                       // any other key under the IBC address
    | TraceKey(owner: string, hash: string)       // a denomination trace, keyed by its hash
    | MintKey(token: Address)                     // the minted amount of a token
    | DepositKey(token: Address)                  // the token's deposits in this epoch
    | WithdrawKey(token: Address)                 // the token's withdrawals in this epoch
    | TokenBalance(token: Address, owner: Address)
    | OtherKey(path: string)

  predicate IsIbcKey(k: VpKey)
  {
    !k.TokenBalance? && !k.OtherKey?
  }

  /** What a stored value decodes to. */
  datatype Decoded = AmountVal(amount: nat) | TextVal(text: string) | Opaque

  datatype Value = Value(raw: Bytes, decoded: Decoded)

  /** A modification recorded by the pseudo-execution. */
  datatype Modification = Write(value: Bytes) | Delete | InitAccount(vpCode: Bytes) | Temp(temp: Bytes)

  /** What the pseudo-execution of an IBC message produced. */
  datatype Execution = Execution(changes: map<VpKey, Modification>, events: seq<Bytes>)

  datatype ActionError = ExecutionFailed | ValidationFailed | Trace(key: VpKey, reason: TraceFailure)

  datatype TraceFailure = ReadFailed | Mismatch | NotStored

  datatype MatchFailure = ValueMismatched | ValueInvalid | DeletedUnexpectedly

  datatype StateChangeFailure = KeysMismatched | BadValue(key: VpKey, reason: MatchFailure)

  datatype RateLimitFailure = MintLimitExceeded(token: Address) | ThroughputExceeded(token: Address)

  datatype IbcError =
    | NativeVpError
    | NoTxData
    | IbcAction(action: ActionError)
    | StateChange(change: StateChangeFailure)
    | IbcEvent
    | RateLimit(limit: RateLimitFailure)

  datatype Ctx = Ctx(
    post: map<VpKey, Value>,
    events: seq<Bytes>,                                // the events the transaction emitted
    execute: Bytes -> Result<Execution, ActionError>,  // pseudo-execution from the pre-state
    validateWithMsg: Bytes -> Outcome<IbcError>,       // validation of the message itself
    calcHash: string -> string,                        // the trace hash
    limits: Address -> Option<(nat, nat)>)             // (mint limit, throughput limit); None when unreadable

  function PostBytes(c: Ctx, k: VpKey): Option<Bytes>
  {
    if k in c.post then Some(c.post[k].raw) else None
  }

  // ---------------------------------------------------------------------------
  // State comparison

  /** Compares the post-state value of a changed key with the pseudo-execution's
      modification of it. */
  function MatchValue(actual: Option<Bytes>, expected: Option<Modification>): (r: Outcome<MatchFailure>)
    ensures r == Pass <==>
      || (actual.Some? && expected == Some(Write(actual.value)))
      || (actual.None? && expected == Some(Delete))
    ensures actual.Some? && !(expected.Some? && expected.value.Write?) ==> r == Fail(ValueInvalid)
    ensures actual.None? && expected != Some(Delete) ==> r == Fail(DeletedUnexpectedly)
    ensures actual.Some? && expected.Some? && expected.value.Write? && expected.value.value != actual.value
            ==> r == Fail(ValueMismatched)
  {
    match (actual, expected)
    case (Some(v), Some(Write(value))) => if v == value then Pass else Fail(ValueMismatched)
    case (Some(_), _) => Fail(ValueInvalid)
    case (None, Some(Delete)) => Pass
    case (None, _) => Fail(DeletedUnexpectedly)
  }

  function ChangedIbcKeys(keys: set<VpKey>): (r: set<VpKey>)
    ensures forall k :: k in r <==> k in keys && IsIbcKey(k)
  {
    set k | k in keys && IsIbcKey(k)
  }

  function Expected(exec: Execution, k: VpKey): Option<Modification>
  {
    if k in exec.changes then Some(exec.changes[k]) else None
  }

  /** The state check succeeds: the message executes, the changed IBC keys are as many
      as the execution's, each matches its modification, and the events agree. */
  predicate StateMatches(c: Ctx, txData: Bytes, keys: set<VpKey>)
  {
    && c.execute(txData).Ok?
    && var exec := c.execute(txData).value;
       && |ChangedIbcKeys(keys)| == |exec.changes.Keys|
       && (forall k :: k in ChangedIbcKeys(keys) ==> MatchValue(PostBytes(c, k), Expected(exec, k)) == Pass)
       && c.events == exec.events
  }

  /** Pseudo-executes the message and compares: a count mismatch, then a mismatching
      key (in no particular order), then differing events, are reported. */
  method ValidateState(c: Ctx, txData: Bytes, keys: set<VpKey>) returns (r: Outcome<IbcError>)
    ensures r == Pass <==> StateMatches(c, txData, keys)
    ensures r.Fail? ==> r.error.IbcAction? || r.error.StateChange? || r.error.IbcEvent?
    ensures c.execute(txData).Err? ==> r == Fail(IbcAction(c.execute(txData).error))
    ensures c.execute(txData).Ok? && r.Fail? ==> r.error.StateChange? || r.error.IbcEvent?
    ensures c.execute(txData).Ok? && |ChangedIbcKeys(keys)| != |c.execute(txData).value.changes.Keys|
            ==> r == Fail(StateChange(KeysMismatched))
    ensures r.Fail? && r.error.StateChange? && r.error.change.BadValue? ==>
      var k := r.error.change.key;
      && k in ChangedIbcKeys(keys)
      && MatchValue(PostBytes(c, k), Expected(c.execute(txData).value, k)) == Fail(r.error.change.reason)
  {
    if c.execute(txData).Err? {
      return Fail(IbcAction(c.execute(txData).error));
    }
    var exec := c.execute(txData).value;
    var changed := ChangedIbcKeys(keys);
    if |changed| != |exec.changes.Keys| {
      return Fail(StateChange(KeysMismatched));
    }
    var remaining := changed;
    while remaining != {}
      invariant remaining <= changed
      invariant forall k :: k in changed - remaining ==> MatchValue(PostBytes(c, k), Expected(exec, k)) == Pass
      decreases |remaining|
    {
      var k :| k in remaining;
      var m := MatchValue(PostBytes(c, k), Expected(exec, k));
      if m.Fail? {
        return Fail(StateChange(BadValue(k, m.error)));
      }
      remaining := remaining - {k};
    }
    if c.events != exec.events {
      return Fail(IbcEvent);
    }
    return Pass;
  }

  lemma SubsetSameSize<T>(a: set<T>, b: set<T>)
    requires a <= b && |a| == |b|
    ensures a == b
  {
    assert |b - a| == |b| - |a|;
  }

  /** A state that passes the check is exactly the pseudo-execution's outcome: the changed
      IBC keys are the keys it modified, each written key holds the written value and
      each deleted key is absent. */
  lemma StateMatchesIsExecution(c: Ctx, txData: Bytes, keys: set<VpKey>)
    requires StateMatches(c, txData, keys)
    ensures var exec := c.execute(txData).value;
      && ChangedIbcKeys(keys) == exec.changes.Keys
      && (forall k :: k in exec.changes && exec.changes[k].Write? ==> PostBytes(c, k) == Some(exec.changes[k].value))
      && (forall k :: k in exec.changes && exec.changes[k].Delete? ==> PostBytes(c, k).None?)
      && (forall k :: k in exec.changes ==> exec.changes[k].Write? || exec.changes[k].Delete?)
  {
    var exec := c.execute(txData).value;
    forall k | k in ChangedIbcKeys(keys) ensures k in exec.changes {
      assert MatchValue(PostBytes(c, k), Expected(exec, k)) == Pass;
    }
    SubsetSameSize(ChangedIbcKeys(keys), exec.changes.Keys);
    forall k | k in exec.changes ensures exec.changes[k].Write? || exec.changes[k].Delete? {
      assert MatchValue(PostBytes(c, k), Expected(exec, k)) == Pass;
    }
  }

  // ---------------------------------------------------------------------------
  // Denomination traces

  /** A changed trace key must hold a trace whose hash is the hash in the key. */
  function CheckTrace(c: Ctx, k: VpKey): (r: Outcome<TraceFailure>)
    requires k.TraceKey?
    ensures r == Pass <==> k in c.post && c.post[k].decoded.TextVal? && c.calcHash(c.post[k].decoded.text) == k.hash
    ensures k !in c.post ==> r == Fail(NotStored)
  {
    if k !in c.post then Fail(NotStored)
    else
      match c.post[k].decoded
      case TextVal(trace) => if c.calcHash(trace) == k.hash then Pass else Fail(Mismatch)
      case _ => Fail(ReadFailed)
  }

  predicate AllTracesValid(c: Ctx, keys: set<VpKey>)
  {
    forall k :: k in keys && k.TraceKey? ==> CheckTrace(c, k) == Pass
  }

  /** Checks every changed trace key; the first invalid one met is reported. */
  method ValidateTrace(c: Ctx, keys: set<VpKey>) returns (r: Outcome<IbcError>)
    ensures r == Pass <==> AllTracesValid(c, keys)
    ensures r.Fail? ==>
      && r.error.IbcAction? && r.error.action.Trace?
      && r.error.action.key in keys && r.error.action.key.TraceKey?
      && CheckTrace(c, r.error.action.key) == Fail(r.error.action.reason)
  {
    var remaining := set k | k in keys && k.TraceKey?;
    while remaining != {}
      invariant remaining <= keys
      invariant forall k :: k in remaining ==> k.TraceKey?
      invariant forall k :: k in keys && k.TraceKey? && k !in remaining ==> CheckTrace(c, k) == Pass
      decreases |remaining|
    {
      var k :| k in remaining;
      var t := CheckTrace(c, k);
      if t.Fail? {
        return Fail(IbcAction(Trace(k, t.error)));
      }
      remaining := remaining - {k};
    }
    return Pass;
  }

  // ---------------------------------------------------------------------------
  // Rate limits

  /** The amount stored under a key, zero when absent; None when undecodable. */
  function AmountOrZero(c: Ctx, k: VpKey): Option<nat>
  {
    if k !in c.post then Some(0)
    else if c.post[k].decoded.AmountVal? then Some(c.post[k].decoded.amount)
    else None
  }

  /** The net flow of a token in this epoch: the larger of deposit and withdraw minus the
      smaller, so it never underflows. */
  function Throughput(deposit: nat, withdraw: nat): (t: nat)
    ensures t as int == if deposit >= withdraw then deposit - withdraw else withdraw - deposit
  {
    if deposit < withdraw then withdraw - deposit else deposit - withdraw
  }

  lemma ThroughputSymmetric(deposit: nat, withdraw: nat)
    ensures Throughput(deposit, withdraw) == Throughput(withdraw, deposit)
    ensures Throughput(deposit, withdraw) == 0 <==> deposit == withdraw
  {
  }

  /** A token's limits: its minted amount must not exceed the mint limit, and its
      throughput must not exceed the throughput limit. */
  function CheckToken(c: Ctx, token: Address): (r: Outcome<IbcError>)
    ensures r == Pass <==>
      && c.limits(token).Some?
      && AmountOrZero(c, MintKey(token)).Some?
      && AmountOrZero(c, DepositKey(token)).Some?
      && AmountOrZero(c, WithdrawKey(token)).Some?
      && AmountOrZero(c, MintKey(token)).value <= c.limits(token).value.0
      && Throughput(AmountOrZero(c, DepositKey(token)).value, AmountOrZero(c, WithdrawKey(token)).value)
         <= c.limits(token).value.1
    ensures c.limits(token).Some? && AmountOrZero(c, MintKey(token)).Some?
            && AmountOrZero(c, MintKey(token)).value > c.limits(token).value.0
            ==> r == Fail(RateLimit(MintLimitExceeded(token)))
  {
    match c.limits(token)
    case None => Fail(NativeVpError)
    case Some((mintLimit, throughputLimit)) =>
      match AmountOrZero(c, MintKey(token))
      case None => Fail(NativeVpError)
      case Some(minted) =>
        if mintLimit < minted then Fail(RateLimit(MintLimitExceeded(token)))
        else
          match (AmountOrZero(c, DepositKey(token)), AmountOrZero(c, WithdrawKey(token)))
          case (Some(deposit), Some(withdraw)) =>
            if throughputLimit < Throughput(deposit, withdraw) then Fail(RateLimit(ThroughputExceeded(token)))
            else Pass
          case _ => Fail(NativeVpError)
  }

  /** The tokens whose balance keys changed. */
  function ChangedTokens(keys: set<VpKey>): set<Address>
  {
    set k | k in keys && k.TokenBalance? :: k.token
  }

  predicate AllTokensWithinLimits(c: Ctx, keys: set<VpKey>)
  {
    forall t :: t in ChangedTokens(keys) ==> CheckToken(c, t) == Pass
  }

  /** Checks the limits of every token whose balance changed. */
  method CheckLimits(c: Ctx, keys: set<VpKey>) returns (r: Result<bool, IbcError>)
    ensures r == Ok(true) <==> AllTokensWithinLimits(c, keys)
    ensures r.Ok? ==> r.value
    ensures r.Err? ==> exists t :: t in ChangedTokens(keys) && CheckToken(c, t) == Fail(r.error)
  {
    var remaining := ChangedTokens(keys);
    while remaining != {}
      invariant remaining <= ChangedTokens(keys)
      invariant forall t :: t in ChangedTokens(keys) - remaining ==> CheckToken(c, t) == Pass
      decreases |remaining|
    {
      var t :| t in remaining;
      var check := CheckToken(c, t);
      if check.Fail? {
        return Err(check.error);
      }
      remaining := remaining - {t};
    }
    return Ok(true);
  }

  // ---------------------------------------------------------------------------
  // The transaction rule

  /** The IBC validity predicate: the transaction must carry data, then the state, the
      message, the traces and the limits are checked in that order, the first failure
      being the result. */
  method ValidateTx(c: Ctx, txData: Option<Bytes>, keys: set<VpKey>) returns (r: Result<bool, IbcError>)
    ensures r == Ok(true) <==>
      && txData.Some?
      && StateMatches(c, txData.value, keys)
      && c.validateWithMsg(txData.value) == Pass
      && AllTracesValid(c, keys)
      && AllTokensWithinLimits(c, keys)
    ensures r.Ok? ==> r.value
    ensures txData.None? ==> r == Err(NoTxData)
    ensures txData.Some? && c.execute(txData.value).Err? ==> r == Err(IbcAction(c.execute(txData.value).error))
    ensures txData.Some? && c.execute(txData.value).Ok? && !StateMatches(c, txData.value, keys)
            ==> r.Err? && (r.error.StateChange? || r.error.IbcEvent?)
    ensures txData.Some? && StateMatches(c, txData.value, keys) && c.validateWithMsg(txData.value).Fail?
            ==> r == Err(c.validateWithMsg(txData.value).error)
    ensures (txData.Some? && StateMatches(c, txData.value, keys) && c.validateWithMsg(txData.value) == Pass
             && !AllTracesValid(c, keys))
            ==> && r.Err? && r.error.IbcAction? && r.error.action.Trace?
                && r.error.action.key in keys && r.error.action.key.TraceKey?
                && CheckTrace(c, r.error.action.key) == Fail(r.error.action.reason)
    ensures (txData.Some? && StateMatches(c, txData.value, keys) && c.validateWithMsg(txData.value) == Pass
             && AllTracesValid(c, keys) && !AllTokensWithinLimits(c, keys))
            ==> r.Err? && exists t :: t in ChangedTokens(keys) && CheckToken(c, t) == Fail(r.error)
  {
    if txData.None? {
      return Err(NoTxData);
    }
    var data := txData.value;
    var state := ValidateState(c, data, keys);
    if state.Fail? {
      return Err(state.error);
    }
    var msg := c.validateWithMsg(data);
    if msg.Fail? {
      return Err(msg.error);
    }
    var trace := ValidateTrace(c, keys);
    if trace.Fail? {
      return Err(trace.error);
    }
    r := CheckLimits(c, keys);
  }
}
