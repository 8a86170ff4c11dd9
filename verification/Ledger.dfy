/** Block validation as far as coins are concerned (rusty-consensus/src/validation.rs): structure,
    input, fee, double-spend and reward checks, and the batch that applies a block. Scripts and the
    checks specific to a transaction type are parameters of the context: they can only reject. */
module Ledger {
  import opened Arithmetic
  import opened Wrappers
  import opened Utxo
  import opened Sorting

  const MIN_RELAY_FEE_PER_BYTE: nat := 1
  const LOCKTIME_THRESHOLD: nat := 500_000_000
  const MAX_SEQUENCE: nat := U32 - 1
  const NULL_OUTPOINT := OutPoint(0, U32 - 1)

  datatype Input = Input(prev: OutPoint, sequence: nat)

  datatype Tx = Tx(txid: int, coinbase: bool, inputs: seq<Input>, outputs: seq<Output>, lockTime: nat, size: nat)

  datatype Context = Context(entries: Entries, maxTxSize: nat, dustLimit: nat, maturity: nat, blockReward: nat,
                             scriptOk: (Tx, nat) -> bool, pubkeyOk: Output -> bool, typeOk: Tx -> bool)

  // ------------------------------------------------------------------ sums and checks

  function OutputSum(outputs: seq<Output>): nat {
    if outputs == [] then 0 else outputs[0].value + OutputSum(outputs[1..])
  }

  predicate AllExist(m: Entries, inputs: seq<Input>) {
    forall i :: 0 <= i < |inputs| ==> inputs[i].prev in m
  }

  function InputSum(m: Entries, inputs: seq<Input>): nat
    requires AllExist(m, inputs)
  {
    if inputs == [] then 0 else m[inputs[0].prev].output.value + InputSum(m, inputs[1..])
  }

  /** Maturity as validate_transaction tests it, in wrapping u32 arithmetic. */
  predicate MatureAtU32(e: Entry, height: nat, maturity: nat) {
    e.coinbase ==> height % U32 >= (e.height % U32 + maturity) % U32
  }

  predicate AllMature(m: Entries, inputs: seq<Input>, height: nat, maturity: nat)
    requires AllExist(m, inputs)
  {
    forall i :: 0 <= i < |inputs| && m[inputs[i].prev].coinbase ==> height >= m[inputs[i].prev].height + maturity
  }

  function Prevs(inputs: seq<Input>): (r: seq<OutPoint>)
    ensures |r| == |inputs| && forall i :: 0 <= i < |r| ==> r[i] == inputs[i].prev
  {
    seq(|inputs|, i requires 0 <= i < |inputs| => inputs[i].prev)
  }

  function Elements<T>(s: seq<T>): set<T> { set x | x in s }

  predicate OutputsOk(ctx: Context, outputs: seq<Output>) {
    forall i :: 0 <= i < |outputs| ==> outputs[i].opReturn || outputs[i].value >= ctx.dustLimit
  }

  /** Inputs cover outputs and a fee of one satoshi per byte. */
  predicate PaysFee(ctx: Context, tx: Tx) {
    && AllExist(ctx.entries, tx.inputs)
    && InputSum(ctx.entries, tx.inputs) < U64 && OutputSum(tx.outputs) < U64
    && InputSum(ctx.entries, tx.inputs) >= OutputSum(tx.outputs) + MIN_RELAY_FEE_PER_BYTE * tx.size
  }

  /** validate_transaction_structure. */
  predicate StructureOk(ctx: Context, tx: Tx) {
    && tx.size <= ctx.maxTxSize
    && tx.outputs != [] && OutputSum(tx.outputs) < U64 && OutputsOk(ctx, tx.outputs)
    && (forall i :: 0 <= i < |tx.outputs| ==> tx.outputs[i].value > 0)
    && if tx.coinbase then |tx.inputs| == 1 && tx.inputs[0].prev == NULL_OUTPOINT
       else
         && tx.inputs != [] && PaysFee(ctx, tx)
         && (forall i :: 0 <= i < |tx.inputs| ==> ctx.scriptOk(tx, i))
         && (tx.lockTime != 0 ==> forall i :: 0 <= i < |tx.inputs| ==> tx.inputs[i].sequence != MAX_SEQUENCE)
  }

  predicate LockReached(tx: Tx, height: nat, time: nat) {
    tx.lockTime != 0 ==> tx.lockTime <= if tx.lockTime < LOCKTIME_THRESHOLD then height else time
  }

  /** validate_locktime_and_sequence; relative lock times are parsed but enforce nothing. */
  predicate LockAndSequenceOk(tx: Tx, height: nat, time: nat) {
    (!tx.coinbase && exists i :: 0 <= i < |tx.inputs| && tx.inputs[i].sequence < 0xffff_fffe)
    ==> LockReached(tx, height % U32, time)
  }

  /** validate_transaction. */
  ghost predicate TransactionOk(ctx: Context, tx: Tx, height: nat, time: nat) {
    && !(tx.inputs == [] && tx.outputs == [])
    && tx.size <= ctx.maxTxSize
    && (if tx.coinbase then tx.inputs == []
        else
          && tx.inputs != [] && NoDuplicates(Prevs(tx.inputs)) && PaysFee(ctx, tx)
          && (forall i :: 0 <= i < |tx.inputs| ==>
                MatureAtU32(ctx.entries[tx.inputs[i].prev], height, ctx.maturity) && ctx.scriptOk(tx, i))
          && LockAndSequenceOk(tx, height, time))
    && OutputsOk(ctx, tx.outputs)
    && forall i :: 0 <= i < |tx.outputs| ==> ctx.pubkeyOk(tx.outputs[i])
  }

  /** The checks the block loop makes on one transaction, double spends aside. */
  predicate SpendOk(ctx: Context, tx: Tx, height: nat, time: nat) {
    && AllExist(ctx.entries, tx.inputs) && AllMature(ctx.entries, tx.inputs, height, ctx.maturity)
    && InputSum(ctx.entries, tx.inputs) < U64 && OutputSum(tx.outputs) < U64
    && (!tx.coinbase ==> PaysFee(ctx, tx))
    && LockReached(tx, height, time)
  }

  function Fee(m: Entries, tx: Tx): nat
    requires !tx.coinbase ==> AllExist(m, tx.inputs) && InputSum(m, tx.inputs) >= OutputSum(tx.outputs)
  {
    if tx.coinbase then 0 else InputSum(m, tx.inputs) - OutputSum(tx.outputs)
  }

  predicate Payable(m: Entries, txs: seq<Tx>) {
    forall i :: 0 <= i < |txs| && !txs[i].coinbase ==>
      AllExist(m, txs[i].inputs) && InputSum(m, txs[i].inputs) >= OutputSum(txs[i].outputs)
  }

  function Fees(m: Entries, txs: seq<Tx>): nat
    requires Payable(m, txs)
  {
    if txs == [] then 0 else Fees(m, txs[..|txs| - 1]) + Fee(m, txs[|txs| - 1])
  }

  /** Every outpoint a list of transactions names as an input, in order. */
  function AllInputs(txs: seq<Tx>): seq<OutPoint> {
    if txs == [] then [] else AllInputs(txs[..|txs| - 1]) + Prevs(txs[|txs| - 1].inputs)
  }

  function Txids(txs: seq<Tx>): (r: seq<int>)
    ensures |r| == |txs| && forall i :: 0 <= i < |r| ==> r[i] == txs[i].txid
  {
    seq(|txs|, i requires 0 <= i < |txs| => txs[i].txid)
  }

  /** validate_transactions: what a list of transactions must satisfy to be accepted. */
  ghost predicate TransactionsOk(ctx: Context, txs: seq<Tx>, height: nat, time: nat) {
    && txs != [] && txs[0].coinbase
    && (forall i :: 0 <= i < |txs| ==> (i > 0 ==> !txs[i].coinbase) && ItemOk(ctx, txs[i], height, time))
    && NoDuplicates(AllInputs(txs))
    && Payable(ctx.entries, txs) && Fees(ctx.entries, txs) < U64
  }

  predicate ItemOk(ctx: Context, tx: Tx, height: nat, time: nat) {
    StructureOk(ctx, tx) && ctx.typeOk(tx) && SpendOk(ctx, tx, height, time)
  }

  /** The coin-related checks of validate_block_comprehensive; the u64 sum of reward and fees wraps. */
  ghost predicate BlockOk(ctx: Context, txs: seq<Tx>, height: nat, time: nat) {
    && TransactionsOk(ctx, txs, height, time)
    && NoDuplicates(Txids(txs))
    && (forall i :: 1 <= i < |txs| ==> TransactionOk(ctx, txs[i], height, time))
    && OutputSum(txs[0].outputs) <= (ctx.blockReward + Fees(ctx.entries, txs)) % U64
  }

  // ------------------------------------------------------------------- the methods

  /** Checked addition of output values, as every validator does it. */
  method CheckedOutputSum(outputs: seq<Output>) returns (r: Option<nat>)
    ensures r == if OutputSum(outputs) < U64 then Some(OutputSum(outputs)) else None
  {
    var sum := 0;
    for i := 0 to |outputs|
      invariant sum < U64 && sum + OutputSum(outputs[i..]) == OutputSum(outputs)
    {
      assert outputs[i..][1..] == outputs[i + 1..];
      if sum + outputs[i].value >= U64 { return None; }
      sum := sum + outputs[i].value;
    }
    return Some(sum);
  }

  /** Lookup and checked addition of input values. */
  method CheckedInputSum(m: Entries, inputs: seq<Input>) returns (r: Option<nat>)
    ensures r.Some? <==> AllExist(m, inputs) && InputSum(m, inputs) < U64
    ensures r.Some? ==> r.value == InputSum(m, inputs)
  {
    var sum := 0;
    for i := 0 to |inputs|
      invariant sum < U64 && AllExist(m, inputs[..i])
      invariant AllExist(m, inputs) ==> sum + InputSum(m, inputs[i..]) == InputSum(m, inputs)
    {
      if inputs[i].prev !in m { return None; }
      assert inputs[i..][1..] == inputs[i + 1..];
      assert AllExist(m, inputs) ==>
        InputSum(m, inputs[i..]) == m[inputs[i].prev].output.value + InputSum(m, inputs[i + 1..]);
      var value := m[inputs[i].prev].output.value;
      if sum + value >= U64 { return None; }
      sum := sum + value;
    }
    return Some(sum);
  }

  /** The part shared by the validators: inputs and outputs summed, then the fee compared. */
  method CheckFee(ctx: Context, tx: Tx) returns (r: Check)
    ensures r.Ok? <==> PaysFee(ctx, tx)
  {
    var input := CheckedInputSum(ctx.entries, tx.inputs);
    if input.None? { return Err("missing input or input value too large"); }
    var output := CheckedOutputSum(tx.outputs);
    if output.None? { return Err("output value too large"); }
    if input.value < output.value { return Err("spending more than inputs"); }
    var fee := input.value - output.value;
    if fee < MIN_RELAY_FEE_PER_BYTE * tx.size { return Err("insufficient fee"); }
    return Ok(());
  }

  method ValidateStructure(ctx: Context, tx: Tx) returns (r: Check)
    ensures r.Ok? <==> StructureOk(ctx, tx)
  {
    if tx.size > ctx.maxTxSize { return Err("transaction too large"); }
    if !tx.coinbase && tx.inputs == [] { return Err("empty transaction"); }
    if !tx.coinbase {
      for i := 0 to |tx.inputs|
        invariant forall k :: 0 <= k < i ==> ctx.scriptOk(tx, k)
      {
        if !ctx.scriptOk(tx, i) { return Err("script validation failed"); }
      }
    }
    if tx.outputs == [] { return Err("no outputs"); }
    for i := 0 to |tx.outputs|
      invariant forall k :: 0 <= k < i ==> tx.outputs[k].value > 0
      invariant forall k :: 0 <= k < i ==> tx.outputs[k].opReturn || tx.outputs[k].value >= ctx.dustLimit
    {
      if tx.outputs[i].value == 0 { return Err("output value zero"); }
      if !tx.outputs[i].opReturn && tx.outputs[i].value < ctx.dustLimit { return Err("dust output"); }
    }
    var output := CheckedOutputSum(tx.outputs);
    if output.None? { return Err("output value too large"); }
    if tx.coinbase {
      if |tx.inputs| != 1 { return Err("coinbase transaction must have exactly one input"); }
      if tx.inputs[0].prev != NULL_OUTPOINT { return Err("coinbase input must be null"); }
      return Ok(());
    }
    r := CheckFee(ctx, tx);
    if r.Err? { return r; }
    if tx.lockTime != 0 && exists i :: 0 <= i < |tx.inputs| && tx.inputs[i].sequence == MAX_SEQUENCE {
      return Err("invalid sequence");
    }
    return Ok(());
  }

  method ValidateLocktimeAndSequence(tx: Tx, height: nat, time: nat) returns (r: Check)
    ensures r.Ok? <==> LockAndSequenceOk(tx, height, time)
  {
    if tx.coinbase { return Ok(()); }
    var enabled := exists i :: 0 <= i < |tx.inputs| && tx.inputs[i].sequence < 0xffff_fffe;
    if enabled && tx.lockTime > 0 {
      if tx.lockTime < LOCKTIME_THRESHOLD {
        if tx.lockTime > height % U32 { return Err("lock time not met"); }
      } else if tx.lockTime > time {
        return Err("lock time not met");
      }
    }
    return Ok(());
  }

  method ValidateTransaction(ctx: Context, tx: Tx, height: nat, time: nat) returns (r: Check)
    ensures r.Ok? <==> TransactionOk(ctx, tx, height, time)
  {
    if tx.inputs == [] && tx.outputs == [] { return Err("empty transaction"); }
    if tx.size > ctx.maxTxSize { return Err("transaction too large"); }
    if tx.coinbase {
      if tx.inputs != [] { return Err("coinbase has inputs"); }
    } else {
      if tx.inputs == [] { return Err("non-coinbase has no inputs"); }
      var seen: set<OutPoint> := {};
      for i := 0 to |tx.inputs|
        invariant forall p :: p in seen <==> exists k :: 0 <= k < i && tx.inputs[k].prev == p
        invariant forall j, k :: 0 <= j < k < i ==> tx.inputs[j].prev != tx.inputs[k].prev
        invariant forall k :: 0 <= k < i ==> tx.inputs[k].prev in ctx.entries && ctx.scriptOk(tx, k)
        invariant forall k :: 0 <= k < i ==> MatureAtU32(ctx.entries[tx.inputs[k].prev], height, ctx.maturity)
      {
        var prev := tx.inputs[i].prev;
        if prev in seen {
          assert Prevs(tx.inputs)[i] == prev;
          return Err("duplicate input");
        }
        seen := seen + {prev};
        if prev !in ctx.entries { return Err("missing input"); }
        var entry := ctx.entries[prev];
        if entry.coinbase && height % U32 < (entry.height % U32 + ctx.maturity) % U32 {
          return Err("coinbase not mature");
        }
        if !ctx.scriptOk(tx, i) { return Err("invalid script"); }
      }
      r := CheckFee(ctx, tx);
      if r.Err? { return r; }
      r := ValidateLocktimeAndSequence(tx, height, time);
      if r.Err? { return r; }
    }
    for i := 0 to |tx.outputs|
      invariant forall k :: 0 <= k < i ==>
        (tx.outputs[k].opReturn || tx.outputs[k].value >= ctx.dustLimit) && ctx.pubkeyOk(tx.outputs[k])
    {
      if !tx.outputs[i].opReturn && tx.outputs[i].value < ctx.dustLimit { return Err("dust output"); }
      if !ctx.pubkeyOk(tx.outputs[i]) { return Err("invalid script pubkey"); }
    }
    return Ok(());
  }

  /** The body of the block loop for one transaction: `spent` and `fees` are its running state. */
  method SpendTransaction(ctx: Context, tx: Tx, height: nat, time: nat, spent: set<OutPoint>, fees: nat)
    returns (r: Option<(set<OutPoint>, nat)>)
    requires fees < U64
    ensures r.Some? <==>
      && SpendOk(ctx, tx, height, time)
      && NoDuplicates(Prevs(tx.inputs)) && Elements(Prevs(tx.inputs)) !! spent
      && fees + Fee(ctx.entries, tx) < U64
    ensures r.Some? ==> r.value == (spent + Elements(Prevs(tx.inputs)), fees + Fee(ctx.entries, tx))
  {
    ghost var prevs := Prevs(tx.inputs);
    var now := spent;
    for i := 0 to |tx.inputs|
      invariant now == spent + Elements(prevs[..i])
      invariant NoDuplicates(prevs[..i]) && Elements(prevs[..i]) !! spent
      invariant forall k :: 0 <= k < i ==> tx.inputs[k].prev in ctx.entries
      invariant forall k :: 0 <= k < i && ctx.entries[tx.inputs[k].prev].coinbase ==>
        height >= ctx.entries[tx.inputs[k].prev].height + ctx.maturity
    {
      var prev := tx.inputs[i].prev;
      if prev !in ctx.entries { return None; }
      var entry := ctx.entries[prev];
      if entry.coinbase && height < entry.height + ctx.maturity { return None; }
      if prev in now {
        RepeatFound(prevs, i, spent);
        return None;
      }
      assert prevs[..i + 1] == prevs[..i] + [prev];
      now := now + {prev};
    }
    assert prevs[..|prevs|] == prevs;
    var input := CheckedInputSum(ctx.entries, tx.inputs);
    if input.None? { return None; }
    var output := CheckedOutputSum(tx.outputs);
    if output.None? { return None; }
    var total := fees;
    if !tx.coinbase {
      if input.value < output.value { return None; }
      var fee := input.value - output.value;
      if fee < MIN_RELAY_FEE_PER_BYTE * tx.size { return None; }
      if total + fee >= U64 { return None; }
      total := total + fee;
    }
    if tx.lockTime != 0 {
      if tx.lockTime < LOCKTIME_THRESHOLD {
        if tx.lockTime > height { return None; }
      } else if tx.lockTime > time {
        return None;
      }
    }
    return Some((now, total));
  }

  lemma RepeatFound(prevs: seq<OutPoint>, i: nat, spent: set<OutPoint>)
    requires i < |prevs| && prevs[i] in spent + Elements(prevs[..i])
    ensures !(NoDuplicates(prevs) && Elements(prevs) !! spent)
  {
    if prevs[i] in prevs[..i] {
      var j :| 0 <= j < i && prevs[..i][j] == prevs[i];
      assert prevs[j] == prevs[i];
    } else {
      assert prevs[i] in Elements(prevs);
    }
  }

  // prefixes of an acceptable list are acceptable as far as inputs and fees go

  lemma {:induction false} AllInputsPrefix(txs: seq<Tx>, n: nat)
    requires n <= |txs|
    ensures AllInputs(txs[..n]) <= AllInputs(txs)
  {
    if n < |txs| {
      var init := txs[..|txs| - 1];
      AllInputsPrefix(init, n);
      assert init[..n] == txs[..n];
    } else {
      assert txs[..n] == txs;
    }
  }

  lemma {:induction false} FeesPrefix(m: Entries, txs: seq<Tx>, n: nat)
    requires n <= |txs| && Payable(m, txs)
    ensures Payable(m, txs[..n]) && Fees(m, txs[..n]) <= Fees(m, txs)
  {
    if n < |txs| {
      var init := txs[..|txs| - 1];
      assert Payable(m, init);
      FeesPrefix(m, init, n);
      assert init[..n] == txs[..n];
    } else {
      assert txs[..n] == txs;
    }
  }

  lemma FeesSnoc(m: Entries, txs: seq<Tx>, n: nat)
    requires n < |txs| && Payable(m, txs)
    ensures Payable(m, txs[..n]) && Payable(m, txs[..n + 1])
    ensures Fees(m, txs[..n + 1]) == Fees(m, txs[..n]) + Fee(m, txs[n])
    ensures Fee(m, txs[n]) == if txs[n].coinbase then 0 else InputSum(m, txs[n].inputs) - OutputSum(txs[n].outputs)
  {
    assert txs[..n + 1][..n] == txs[..n];
  }

  lemma FeesOfNone(m: Entries)
    ensures Payable(m, []) && Fees(m, []) == 0
  {
  }

  lemma NoDuplicatesPrefix<T>(s: seq<T>, t: seq<T>)
    requires NoDuplicates(t) && s <= t
    ensures NoDuplicates(s)
  {
  }

  lemma NoDuplicatesConcat<T>(s: seq<T>, t: seq<T>)
    ensures NoDuplicates(s + t) <==> NoDuplicates(s) && NoDuplicates(t) && Elements(s) !! Elements(t)
  {
    if NoDuplicates(s + t) {
      forall i, j | 0 <= i < j < |t| ensures t[i] != t[j] {
        assert (s + t)[|s| + i] != (s + t)[|s| + j];
      }
      forall i, j | 0 <= i < |s| && 0 <= j < |t| ensures s[i] != t[j] {
        assert (s + t)[i] != (s + t)[|s| + j];
      }
      forall i, j | 0 <= i < j < |s| ensures s[i] != s[j] {
        assert (s + t)[i] != (s + t)[j];
      }
    }
    if NoDuplicates(s) && NoDuplicates(t) && Elements(s) !! Elements(t) {
      forall i, j | 0 <= i < j < |s + t| ensures (s + t)[i] != (s + t)[j] {
        if i < |s| <= j {
          assert s[i] in Elements(s) && t[j - |s|] in Elements(t);
        }
      }
    }
  }

  lemma SpendIsPayable(ctx: Context, tx: Tx, height: nat, time: nat)
    requires SpendOk(ctx, tx, height, time)
    ensures AllExist(ctx.entries, tx.inputs)
    ensures InputSum(ctx.entries, tx.inputs) < U64 && OutputSum(tx.outputs) < U64
    ensures !tx.coinbase ==> InputSum(ctx.entries, tx.inputs) >= OutputSum(tx.outputs)
  {
  }

  /** What acceptance of the whole list says about its n-th transaction. */
  lemma AcceptedStep(ctx: Context, txs: seq<Tx>, height: nat, time: nat, n: nat)
    requires TransactionsOk(ctx, txs, height, time) && n < |txs|
    ensures ItemOk(ctx, txs[n], height, time) && (n > 0 ==> !txs[n].coinbase)
    ensures NoDuplicates(Prevs(txs[n].inputs)) && Elements(Prevs(txs[n].inputs)) !! Elements(AllInputs(txs[..n]))
    ensures Payable(ctx.entries, txs[..n])
    ensures Fees(ctx.entries, txs[..n]) + Fee(ctx.entries, txs[n]) < U64
  {
    assert txs[..n + 1][..n] == txs[..n];
    AllInputsPrefix(txs, n + 1);
    NoDuplicatesPrefix(AllInputs(txs[..n + 1]), AllInputs(txs));
    NoDuplicatesConcat(AllInputs(txs[..n]), Prevs(txs[n].inputs));
    FeesPrefix(ctx.entries, txs, n + 1);
    FeesPrefix(ctx.entries, txs, n);
  }

  method ValidateTransactions(ctx: Context, txs: seq<Tx>, height: nat, time: nat) returns (r: Check)
    ensures r.Ok? <==> TransactionsOk(ctx, txs, height, time)
  {
    hide StructureOk, SpendOk, InputSum, OutputSum;
    if txs == [] { return Err("empty transaction list"); }
    if !txs[0].coinbase { return Err("no coinbase transaction"); }
    var spent: set<OutPoint> := {};
    var fees := 0;
    for i := 0 to |txs|
      invariant forall k :: 0 <= k < i ==> (k > 0 ==> !txs[k].coinbase) && ItemOk(ctx, txs[k], height, time)
      invariant NoDuplicates(AllInputs(txs[..i])) && spent == Elements(AllInputs(txs[..i]))
      invariant Payable(ctx.entries, txs[..i]) && fees == Fees(ctx.entries, txs[..i]) < U64
    {
      if TransactionsOk(ctx, txs, height, time) { AcceptedStep(ctx, txs, height, time, i); }
      if i > 0 && txs[i].coinbase { return Err("invalid coinbase input"); }
      var structure := ValidateStructure(ctx, txs[i]);
      if structure.Err? { return structure; }
      if !ctx.typeOk(txs[i]) { return Err("type-specific validation failed"); }
      var step := SpendTransaction(ctx, txs[i], height, time, spent, fees);
      if step.None? { return Err("spend check failed"); }
      SpendIsPayable(ctx, txs[i], height, time);
      assert txs[..i + 1][..i] == txs[..i];
      NoDuplicatesConcat(AllInputs(txs[..i]), Prevs(txs[i].inputs));
      spent, fees := step.value.0, step.value.1;
    }
    assert txs[..|txs|] == txs;
    return Ok(());
  }

  /** The fee loop and reward check of validate_block_comprehensive. The subtraction that computes
      each fee is unchecked in the source; here it must be shown not to underflow. */
  method ValidateBlockAccounting(ctx: Context, txs: seq<Tx>, height: nat, time: nat) returns (r: Check)
    ensures r.Ok? <==> BlockOk(ctx, txs, height, time)
  {
    hide StructureOk, SpendOk, InputSum, OutputSum, TransactionOk, AllInputs, Fees, Fee, Payable;
    r := ValidateTransactions(ctx, txs, height, time);
    if r.Err? { return r; }
    var txids: set<int> := {};
    var fees := 0;
    FeesOfNone(ctx.entries);
    assert txs[..0] == [];
    for i := 0 to |txs|
      invariant forall x :: x in txids <==> exists k :: 0 <= k < i && txs[k].txid == x
      invariant forall j, k :: 0 <= j < k < i ==> txs[j].txid != txs[k].txid
      invariant forall k :: 1 <= k < i ==> TransactionOk(ctx, txs[k], height, time)
      invariant Payable(ctx.entries, txs[..i]) && fees == Fees(ctx.entries, txs[..i]) < U64
    {
      AcceptedStep(ctx, txs, height, time, i);
      SpendIsPayable(ctx, txs[i], height, time);
      if txs[i].txid in txids {
        assert Txids(txs)[i] == txs[i].txid;
        return Err("duplicate transaction");
      }
      txids := txids + {txs[i].txid};
      FeesSnoc(ctx.entries, txs, i);
      if i > 0 {
        var one := ValidateTransaction(ctx, txs[i], height, time);
        if one.Err? { return one; }
        var input := CheckedInputSum(ctx.entries, txs[i].inputs);
        var output := CheckedOutputSum(txs[i].outputs);
        var fee: nat := input.value - output.value;
        fees := fees + fee;
      }
    }
    assert txs[..|txs|] == txs;
    SpendIsPayable(ctx, txs[0], height, time);
    var actual := CheckedOutputSum(txs[0].outputs);
    if actual.value > (ctx.blockReward + fees) % U64 { return Err("block reward invalid"); }
    return Ok(());
  }

  // ------------------------------------------------------------------ applying a block

  function DeleteOps(inputs: seq<Input>): (r: seq<WriteOp>)
    ensures |r| == |inputs| && forall i :: 0 <= i < |r| ==> r[i] == Delete(inputs[i].prev)
  {
    seq(|inputs|, i requires 0 <= i < |inputs| => Delete(inputs[i].prev))
  }

  function PutOps(tx: Tx, height: nat): (r: seq<WriteOp>)
    ensures |r| == |tx.outputs|
    ensures forall j :: 0 <= j < |r| ==> r[j] == PutOp(tx, height, j)
  {
    seq(|tx.outputs|, j requires 0 <= j < |tx.outputs| => PutOp(tx, height, j))
  }

  /** The write that creates output j; the index is cast to u32. */
  function PutOp(tx: Tx, height: nat, j: nat): WriteOp
    requires j < |tx.outputs|
  {
    Put(OutPoint(tx.txid, j % U32), Entry(tx.outputs[j], height, tx.coinbase))
  }

  function TxBatch(tx: Tx, height: nat): seq<WriteOp> {
    (if tx.coinbase then [] else DeleteOps(tx.inputs)) + PutOps(tx, height)
  }

  function BlockBatch(txs: seq<Tx>, height: nat): seq<WriteOp> {
    if txs == [] then [] else BlockBatch(txs[..|txs| - 1], height) + TxBatch(txs[|txs| - 1], height)
  }

  /** The writes of one transaction appended to a batch: deletions first, then new outputs. */
  method AppendTx(batch: seq<WriteOp>, tx: Tx, height: nat) returns (r: seq<WriteOp>)
    ensures r == batch + TxBatch(tx, height)
  {
    r := batch;
    ghost var deletes := if tx.coinbase then [] else DeleteOps(tx.inputs);
    if !tx.coinbase {
      for k := 0 to |tx.inputs|
        invariant r == batch + deletes[..k]
      {
        r := r + [Delete(tx.inputs[k].prev)];
      }
    }
    assert r == batch + deletes;
    for vout := 0 to |tx.outputs|
      invariant r == batch + deletes + PutOps(tx, height)[..vout]
    {
      r := r + [Put(OutPoint(tx.txid, vout % U32), Entry(tx.outputs[vout], height, tx.coinbase))];
    }
    assert PutOps(tx, height)[..|tx.outputs|] == PutOps(tx, height);
    assert (batch + deletes) + PutOps(tx, height) == batch + (deletes + PutOps(tx, height));
  }

  /** apply_block_to_utxo_set. */
  method ApplyBlockToUtxoSet(txs: seq<Tx>, utxoSet: UtxoSet, height: nat)
    modifies utxoSet
    ensures utxoSet.entries == WriteAll(old(utxoSet.entries), BlockBatch(txs, height))
  {
    var batch: seq<WriteOp> := [];
    for i := 0 to |txs|
      invariant batch == BlockBatch(txs[..i], height)
      invariant utxoSet.entries == old(utxoSet.entries)
    {
      batch := AppendTx(batch, txs[i], height);
      assert txs[..i + 1][..i] == txs[..i];
    }
    assert txs[..|txs|] == txs;
    utxoSet.ApplyBatch(batch);
  }
}
