/** Conservation of value: what applying an accepted block does to the coins in existence. */
module Conservation {
  import opened Arithmetic
  import opened Utxo
  import opened Ledger
  import opened Sorting

  /** The outpoints the batch of a block deletes: the inputs of its non-coinbase transactions. */
  function Spent(txs: seq<Tx>): seq<OutPoint> {
    if txs == [] then []
    else
      var tx := txs[|txs| - 1];
      Spent(txs[..|txs| - 1]) + (if tx.coinbase then [] else Prevs(tx.inputs))
  }

  function OutputTotal(txs: seq<Tx>): nat {
    if txs == [] then 0 else OutputTotal(txs[..|txs| - 1]) + OutputSum(txs[|txs| - 1].outputs)
  }

  /** What the coinbase transactions of a list pay out. */
  function Minted(txs: seq<Tx>): nat {
    if txs == [] then 0
    else
      var tx := txs[|txs| - 1];
      Minted(txs[..|txs| - 1]) + (if tx.coinbase then OutputSum(tx.outputs) else 0)
  }

  /** What the accounting checks establish: spent outputs exist and are spent once, every
      transaction pays for its outputs, and the coinbase takes at most reward plus fees. */
  ghost predicate Accounted(m: Entries, reward: nat, txs: seq<Tx>) {
    Payable(m, txs) && NoDuplicates(Spent(txs)) && Minted(txs) <= reward + Fees(m, txs)
  }

  // ---------------------------------------------------- accepted blocks are accounted for

  lemma {:induction false} InputsSplit(txs: seq<Tx>)
    requires txs != [] && txs[0].coinbase && forall i :: 1 <= i < |txs| ==> !txs[i].coinbase
    ensures AllInputs(txs) == Prevs(txs[0].inputs) + Spent(txs)
  {
    var init := txs[..|txs| - 1];
    if init == [] {
      assert AllInputs(init) == [] && Spent(init) == [];
    } else {
      InputsSplit(init);
      AppendAssociates(Prevs(txs[0].inputs), Spent(init), Prevs(txs[|txs| - 1].inputs));
    }
  }

  lemma AppendAssociates<T>(a: seq<T>, b: seq<T>, c: seq<T>)
    ensures (a + b) + c == a + (b + c)
  {
  }

  lemma {:induction false} MintedByCoinbase(txs: seq<Tx>)
    requires txs != [] && txs[0].coinbase && forall i :: 1 <= i < |txs| ==> !txs[i].coinbase
    ensures Minted(txs) == OutputSum(txs[0].outputs)
  {
    hide OutputSum;
    var init := txs[..|txs| - 1];
    if init == [] {
      assert Minted(init) == 0;
    } else {
      MintedByCoinbase(init);
    }
  }

  lemma AcceptedIsAccounted(ctx: Context, txs: seq<Tx>, height: nat, time: nat)
    requires BlockOk(ctx, txs, height, time)
    ensures Accounted(ctx.entries, ctx.blockReward, txs)
  {
    hide StructureOk, SpendOk, TransactionOk, ItemOk;
    InputsSplit(txs);
    MintedByCoinbase(txs);
    NoDuplicatesConcat(Prevs(txs[0].inputs), Spent(txs));
    WrappedBelow(ctx.blockReward + Fees(ctx.entries, txs));
  }

  lemma WrappedBelow(n: nat)
    ensures n % U64 <= n
  {
  }

  // ------------------------------------------------------------------- no inflation

  lemma {:induction false} PutValueOfPuts(tx: Tx, height: nat, n: nat)
    requires n <= |tx.outputs|
    ensures PutValue(PutOps(tx, height)[n..]) == OutputSum(tx.outputs[n..])
    decreases |tx.outputs| - n
  {
    if n < |tx.outputs| {
      assert PutOps(tx, height)[n..][1..] == PutOps(tx, height)[n + 1..];
      assert tx.outputs[n..][1..] == tx.outputs[n + 1..];
      PutValueOfPuts(tx, height, n + 1);
    }
  }

  lemma {:induction false} PutValueOfDeletes(inputs: seq<Input>, n: nat)
    requires n <= |inputs|
    ensures PutValue(DeleteOps(inputs)[n..]) == 0
    decreases |inputs| - n
  {
    if n < |inputs| {
      assert DeleteOps(inputs)[n..][1..] == DeleteOps(inputs)[n + 1..];
      PutValueOfDeletes(inputs, n + 1);
    }
  }

  lemma PutValueOfTx(tx: Tx, height: nat)
    ensures PutValue(TxBatch(tx, height)) == OutputSum(tx.outputs)
  {
    var deletes := if tx.coinbase then [] else DeleteOps(tx.inputs);
    PutValueConcat(deletes, PutOps(tx, height));
    PutValueOfPuts(tx, height, 0);
    assert PutOps(tx, height)[0..] == PutOps(tx, height) && tx.outputs[0..] == tx.outputs;
    PutValueOfDeletes(tx.inputs, 0);
    assert DeleteOps(tx.inputs)[0..] == DeleteOps(tx.inputs);
  }

  lemma {:induction false} PutValueOfBlock(txs: seq<Tx>, height: nat)
    ensures PutValue(BlockBatch(txs, height)) == OutputTotal(txs)
  {
    if txs != [] {
      var init, tx := txs[..|txs| - 1], txs[|txs| - 1];
      PutValueOfBlock(init, height);
      PutValueOfTx(tx, height);
      PutValueConcat(BlockBatch(init, height), TxBatch(tx, height));
    }
  }

  lemma {:induction false} SpentIsTouched(txs: seq<Tx>, height: nat)
    ensures Elements(Spent(txs)) <= Touched(BlockBatch(txs, height))
  {
    if txs != [] {
      var init, tx := txs[..|txs| - 1], txs[|txs| - 1];
      SpentIsTouched(init, height);
      TouchedConcat(BlockBatch(init, height), TxBatch(tx, height));
      if !tx.coinbase {
        TouchedConcat(DeleteOps(tx.inputs), PutOps(tx, height));
        forall p | p in Prevs(tx.inputs) ensures p in Touched(DeleteOps(tx.inputs)) {
          var i :| 0 <= i < |tx.inputs| && Prevs(tx.inputs)[i] == p;
          assert DeleteOps(tx.inputs)[i].key == p;
        }
      }
    }
  }

  /** The value a list of outpoints holds. */
  function ListValue(m: Entries, list: seq<OutPoint>): nat
    requires forall i :: 0 <= i < |list| ==> list[i] in m
  {
    if list == [] then 0 else ListValue(m, list[..|list| - 1]) + m[list[|list| - 1]].output.value
  }

  lemma {:induction false} TotalMinusList(m: Entries, list: seq<OutPoint>)
    requires NoDuplicates(list) && forall i :: 0 <= i < |list| ==> list[i] in m
    ensures Total(m) == Total(m - Elements(list)) + ListValue(m, list)
  {
    if list == [] {
      assert m - Elements(list) == m;
    } else {
      var init, k := list[..|list| - 1], list[|list| - 1];
      TotalMinusList(m, init);
      assert k !in init;
      TotalRemove(m - Elements(init), k);
      assert list == init + [k];
      assert m - Elements(init) - {k} == m - Elements(list);
    }
  }

  lemma {:induction false} ListValueConcat(m: Entries, a: seq<OutPoint>, b: seq<OutPoint>)
    requires forall i :: 0 <= i < |a| ==> a[i] in m
    requires forall i :: 0 <= i < |b| ==> b[i] in m
    ensures ListValue(m, a + b) == ListValue(m, a) + ListValue(m, b)
  {
    if b == [] {
      assert a + b == a;
    } else {
      assert (a + b)[..|a + b| - 1] == a + b[..|b| - 1];
      ListValueConcat(m, a, b[..|b| - 1]);
    }
  }

  lemma {:induction false} ListValueOfInputs(m: Entries, inputs: seq<Input>)
    requires AllExist(m, inputs)
    ensures ListValue(m, Prevs(inputs)) == InputSum(m, inputs)
  {
    if inputs != [] {
      var head, tail := [inputs[0].prev], Prevs(inputs[1..]);
      assert Prevs(inputs) == head + tail;
      ListValueConcat(m, head, tail);
      assert head[..0] == [];
      assert ListValue(m, head) == m[inputs[0].prev].output.value;
      ListValueOfInputs(m, inputs[1..]);
    }
  }

  /** Spent value plus minted value is output value plus fees. */
  lemma {:induction false} SpentValue(m: Entries, txs: seq<Tx>)
    requires Payable(m, txs)
    ensures forall i :: 0 <= i < |Spent(txs)| ==> Spent(txs)[i] in m
    ensures ListValue(m, Spent(txs)) + Minted(txs) == OutputTotal(txs) + Fees(m, txs)
  {
    if txs != [] {
      var init, tx := txs[..|txs| - 1], txs[|txs| - 1];
      assert Payable(m, init);
      SpentValue(m, init);
      if !tx.coinbase {
        ListValueOfInputs(m, tx.inputs);
        ListValueConcat(m, Spent(init), Prevs(tx.inputs));
      } else {
        assert Spent(txs) == Spent(init);
      }
    }
  }

  /** Applying a block that passed the accounting checks never adds more than the block reward to
      the coins in existence, even if its transaction ids collide with old ones or each other. */
  lemma NoInflation(m: Entries, reward: nat, txs: seq<Tx>, height: nat)
    requires Accounted(m, reward, txs)
    ensures Total(WriteAll(m, BlockBatch(txs, height))) <= Total(m) + reward
  {
    var batch := BlockBatch(txs, height);
    BatchValueBound(m, batch);
    PutValueOfBlock(txs, height);
    SpentIsTouched(txs, height);
    TotalSubset(m, Elements(Spent(txs)), Touched(batch));
    SpentValue(m, txs);
    TotalMinusList(m, Spent(txs));
  }

  // ------------------------------------------------------------------ exact effect

  /** The outputs a block creates. */
  function CreatedBy(tx: Tx, height: nat, n: nat): Entries
    requires n <= |tx.outputs|
  {
    if n == 0 then map[]
    else CreatedBy(tx, height, n - 1)[OutPoint(tx.txid, n - 1) := Entry(tx.outputs[n - 1], height, tx.coinbase)]
  }

  function Created(txs: seq<Tx>, height: nat): Entries {
    if txs == [] then map[]
    else
      var tx := txs[|txs| - 1];
      Created(txs[..|txs| - 1], height) + CreatedBy(tx, height, |tx.outputs|)
  }

  /** Transaction ids are new, distinct, and outputs are few enough to be numbered by a u32. */
  ghost predicate FreshIds(m: Entries, txs: seq<Tx>) {
    && (forall k, i :: k in m && 0 <= i < |txs| ==> k.txid != txs[i].txid)
    && NoDuplicates(Txids(txs))
    && forall i :: 0 <= i < |txs| ==> |txs[i].outputs| <= U32
  }

  lemma {:induction false} CreatedByKeys(tx: Tx, height: nat, n: nat, k: OutPoint)
    requires n <= |tx.outputs|
    ensures k in CreatedBy(tx, height, n) <==> k.txid == tx.txid && k.vout < n
    ensures k in CreatedBy(tx, height, n) ==>
      CreatedBy(tx, height, n)[k] == Entry(tx.outputs[k.vout], height, tx.coinbase)
  {
    if n > 0 { CreatedByKeys(tx, height, n - 1, k); }
  }

  lemma {:induction false} CreatedTxid(txs: seq<Tx>, height: nat, k: OutPoint)
    requires k in Created(txs, height)
    ensures exists i :: 0 <= i < |txs| && txs[i].txid == k.txid
  {
    var init, tx := txs[..|txs| - 1], txs[|txs| - 1];
    CreatedByKeys(tx, height, |tx.outputs|, k);
    if k in CreatedBy(tx, height, |tx.outputs|) {
      assert txs[|txs| - 1].txid == k.txid;
    } else {
      CreatedTxid(init, height, k);
      var i :| 0 <= i < |init| && init[i].txid == k.txid;
      assert txs[i].txid == k.txid;
    }
  }

  lemma NotCreated(txs: seq<Tx>, height: nat, k: OutPoint)
    requires forall n :: 0 <= n < |txs| ==> txs[n].txid != k.txid
    ensures k !in Created(txs, height)
  {
    if k in Created(txs, height) { CreatedTxid(txs, height, k); }
  }

  /** An output is created exactly for every index of every transaction of the block. */
  lemma {:induction false} CreatedExactly(txs: seq<Tx>, height: nat, i: nat, j: nat)
    requires NoDuplicates(Txids(txs)) && i < |txs|
    ensures var k := OutPoint(txs[i].txid, j);
      (k in Created(txs, height) <==> j < |txs[i].outputs|)
      && (j < |txs[i].outputs| ==> Created(txs, height)[k] == Entry(txs[i].outputs[j], height, txs[i].coinbase))
  {
    var init, tx := txs[..|txs| - 1], txs[|txs| - 1];
    var k := OutPoint(txs[i].txid, j);
    CreatedByKeys(tx, height, |tx.outputs|, k);
    if i < |init| {
      assert Txids(init) == Txids(txs)[..|init|];
      assert Txids(txs)[i] != Txids(txs)[|txs| - 1];
      CreatedExactly(init, height, i, j);
    } else {
      assert forall n :: 0 <= n < |init| ==> Txids(txs)[n] != Txids(txs)[i];
      NotCreated(init, height, k);
    }
  }

  lemma {:induction false} WriteDeletes(m: Entries, inputs: seq<Input>, n: nat)
    requires n <= |inputs|
    ensures WriteAll(m, DeleteOps(inputs)[..n]) == m - Elements(Prevs(inputs)[..n])
  {
    if n == 0 {
      assert DeleteOps(inputs)[..0] == [];
      assert m - Elements(Prevs(inputs)[..0]) == m;
    } else {
      WriteDeletes(m, inputs, n - 1);
      var ops := DeleteOps(inputs);
      assert ops[..n] == ops[..n - 1] + [Delete(inputs[n - 1].prev)];
      WriteAllConcat(m, ops[..n - 1], [Delete(inputs[n - 1].prev)]);
      WriteOne(WriteAll(m, ops[..n - 1]), Delete(inputs[n - 1].prev));
      assert Prevs(inputs)[..n] == Prevs(inputs)[..n - 1] + [inputs[n - 1].prev];
      assert m - Elements(Prevs(inputs)[..n - 1]) - {inputs[n - 1].prev} == m - Elements(Prevs(inputs)[..n]);
    }
  }

  lemma WriteOne(m: Entries, op: WriteOp)
    ensures WriteAll(m, [op]) == Write(m, op)
  {
    assert [op][1..] == [];
    assert WriteAll(Write(m, op), []) == Write(m, op);
  }

  lemma {:induction false} WritePuts(m: Entries, tx: Tx, height: nat, n: nat)
    requires n <= |tx.outputs| <= U32
    ensures WriteAll(m, PutOps(tx, height)[..n]) == m + CreatedBy(tx, height, n)
  {
    if n == 0 {
      assert PutOps(tx, height)[..0] == [];
      assert m + map[] == m;
    } else {
      WritePuts(m, tx, height, n - 1);
      var ops := PutOps(tx, height);
      var op := PutOp(tx, height, n - 1);
      assert ops[..n] == ops[..n - 1] + [op];
      WriteAllConcat(m, ops[..n - 1], [op]);
      WriteOne(WriteAll(m, ops[..n - 1]), op);
      assert (n - 1) % U32 == n - 1;
      assert (m + CreatedBy(tx, height, n - 1))[op.key := op.entry] == m + CreatedBy(tx, height, n);
    }
  }

  lemma WriteTx(m: Entries, tx: Tx, height: nat)
    requires |tx.outputs| <= U32
    ensures var gone := if tx.coinbase then {} else Elements(Prevs(tx.inputs));
      WriteAll(m, TxBatch(tx, height)) == (m - gone) + CreatedBy(tx, height, |tx.outputs|)
  {
    var deletes := if tx.coinbase then [] else DeleteOps(tx.inputs);
    var gone := if tx.coinbase then {} else Elements(Prevs(tx.inputs));
    WriteAllConcat(m, deletes, PutOps(tx, height));
    WriteDeletes(m, tx.inputs, |tx.inputs|);
    assert DeleteOps(tx.inputs)[..|tx.inputs|] == DeleteOps(tx.inputs);
    assert Prevs(tx.inputs)[..|tx.inputs|] == Prevs(tx.inputs);
    assert tx.coinbase ==> m - gone == m;
    WritePuts(m - gone, tx, height, |tx.outputs|);
    assert PutOps(tx, height)[..|tx.outputs|] == PutOps(tx, height);
  }

  /** The batch of a payable block with fresh ids leaves exactly the unspent old outputs and the
      newly created ones. */
  lemma {:induction false} BatchIsSpendAndCreate(m: Entries, txs: seq<Tx>, height: nat)
    requires Payable(m, txs) && FreshIds(m, txs)
    ensures WriteAll(m, BlockBatch(txs, height)) == (m - Elements(Spent(txs))) + Created(txs, height)
  {
    if txs == [] {
      assert m - Elements(Spent(txs)) == m && m + Created(txs, height) == m;
    } else {
      var init, tx := txs[..|txs| - 1], txs[|txs| - 1];
      assert Txids(init) == Txids(txs)[..|init|];
      BatchIsSpendAndCreate(m, init, height);
      WriteAllConcat(m, BlockBatch(init, height), TxBatch(tx, height));
      var m1 := (m - Elements(Spent(init))) + Created(init, height);
      WriteTx(m1, tx, height);
      var gone := if tx.coinbase then {} else Elements(Prevs(tx.inputs));
      CreatedIsFresh(m, txs, init, height);
      assert Elements(Spent(txs)) == Elements(Spent(init)) + gone;
      MergeStep(m, Elements(Spent(init)), Created(init, height), gone, CreatedBy(tx, height, |tx.outputs|));
    }
  }

  lemma CreatedIsFresh(m: Entries, txs: seq<Tx>, init: seq<Tx>, height: nat)
    requires FreshIds(m, txs) && init <= txs
    ensures Created(init, height).Keys !! m.Keys
  {
    forall k | k in Created(init, height) ensures k !in m {
      CreatedTxid(init, height, k);
      var i :| 0 <= i < |init| && init[i].txid == k.txid;
      assert txs[i].txid == k.txid;
    }
  }

  lemma MergeStep(m: Entries, s: set<OutPoint>, c: Entries, gone: set<OutPoint>, n: Entries)
    requires c.Keys !! gone
    ensures (((m - s) + c) - gone) + n == (m - (s + gone)) + (c + n)
  {
  }

  lemma {:induction false} TotalCreatedBy(tx: Tx, height: nat, n: nat)
    requires n <= |tx.outputs|
    ensures Total(CreatedBy(tx, height, n)) == OutputSum(tx.outputs[..n])
  {
    if n == 0 {
      assert tx.outputs[..0] == [];
    } else {
      TotalCreatedBy(tx, height, n - 1);
      var k := OutPoint(tx.txid, n - 1);
      CreatedByKeys(tx, height, n - 1, k);
      TotalPut(CreatedBy(tx, height, n - 1), k, Entry(tx.outputs[n - 1], height, tx.coinbase));
      assert CreatedBy(tx, height, n - 1) - {k} == CreatedBy(tx, height, n - 1);
      assert tx.outputs[..n] == tx.outputs[..n - 1] + [tx.outputs[n - 1]];
      OutputSumConcat(tx.outputs[..n - 1], [tx.outputs[n - 1]]);
      assert [tx.outputs[n - 1]][1..] == [];
    }
  }

  lemma {:induction false} OutputSumConcat(a: seq<Output>, b: seq<Output>)
    ensures OutputSum(a + b) == OutputSum(a) + OutputSum(b)
  {
    if a == [] {
      assert a + b == b;
    } else {
      assert (a + b)[1..] == a[1..] + b;
      OutputSumConcat(a[1..], b);
    }
  }

  lemma {:induction false} TotalCreated(txs: seq<Tx>, height: nat)
    requires NoDuplicates(Txids(txs))
    ensures Total(Created(txs, height)) == OutputTotal(txs)
  {
    if txs != [] {
      var init, tx := txs[..|txs| - 1], txs[|txs| - 1];
      assert Txids(init) == Txids(txs)[..|init|];
      TotalCreated(init, height);
      TotalCreatedBy(tx, height, |tx.outputs|);
      assert tx.outputs[..|tx.outputs|] == tx.outputs;
      forall k | k in Created(init, height) ensures k !in CreatedBy(tx, height, |tx.outputs|) {
        CreatedTxid(init, height, k);
        CreatedByKeys(tx, height, |tx.outputs|, k);
        var i :| 0 <= i < |init| && init[i].txid == k.txid;
        assert Txids(txs)[i] != Txids(txs)[|txs| - 1];
      }
      TotalUnion(Created(init, height), CreatedBy(tx, height, |tx.outputs|));
    }
  }

  /** With fresh ids the coins in existence change by exactly what was minted less the fees. */
  lemma ExactConservation(m: Entries, txs: seq<Tx>, height: nat)
    requires Payable(m, txs) && NoDuplicates(Spent(txs)) && FreshIds(m, txs)
    ensures Total(WriteAll(m, BlockBatch(txs, height))) + Fees(m, txs) == Total(m) + Minted(txs)
  {
    BatchIsSpendAndCreate(m, txs, height);
    CreatedIsFresh(m, txs, txs, height);
    TotalUnion(m - Elements(Spent(txs)), Created(txs, height));
    TotalCreated(txs, height);
    SpentValue(m, txs);
    TotalMinusList(m, Spent(txs));
  }

  // --------------------------------------------------------------------- whole runs

  /** A block as applied: its transactions, its height and the reward it was checked against. */
  datatype Step = Step(txs: seq<Tx>, height: nat, reward: nat)

  function After(m: Entries, steps: seq<Step>): Entries {
    if steps == [] then m
    else
      var last := steps[|steps| - 1];
      WriteAll(After(m, steps[..|steps| - 1]), BlockBatch(last.txs, last.height))
  }

  /** The blocks of a run, applied one after another to the stored set. */
  method ApplyRun(steps: seq<Step>, utxoSet: UtxoSet)
    modifies utxoSet
    ensures utxoSet.entries == After(old(utxoSet.entries), steps)
  {
    for i := 0 to |steps|
      invariant utxoSet.entries == After(old(utxoSet.entries), steps[..i])
    {
      assert steps[..i + 1][..i] == steps[..i];
      ApplyBlockToUtxoSet(steps[i].txs, utxoSet, steps[i].height);
    }
    assert steps[..|steps|] == steps;
  }

  ghost predicate AccountedRun(m: Entries, steps: seq<Step>) {
    steps == []
    || (var init, last := steps[..|steps| - 1], steps[|steps| - 1];
        AccountedRun(m, init) && Accounted(After(m, init), last.reward, last.txs))
  }

  function Rewards(steps: seq<Step>): nat {
    if steps == [] then 0 else Rewards(steps[..|steps| - 1]) + steps[|steps| - 1].reward
  }

  /** Over any run of accounted blocks, supply grows by at most the sum of the rewards. */
  lemma {:induction false} SupplyBoundedByRewards(m: Entries, steps: seq<Step>)
    requires AccountedRun(m, steps)
    ensures Total(After(m, steps)) <= Total(m) + Rewards(steps)
  {
    if steps != [] {
      var init, last := steps[..|steps| - 1], steps[|steps| - 1];
      SupplyBoundedByRewards(m, init);
      NoInflation(After(m, init), last.reward, last.txs, last.height);
    }
  }

  // ------------------------------------------------------- the coinbase input lookup

  /** The set holds the null outpoint as something a block may spend. */
  predicate NullSpendable(ctx: Context, height: nat) {
    && NULL_OUTPOINT in ctx.entries
    && var e := ctx.entries[NULL_OUTPOINT];
      (e.coinbase ==> height >= e.height + ctx.maturity) && e.output.value < U64
  }

  /** The block loop looks the coinbase's null input up in the UTXO set like any other. */
  lemma AcceptanceNeedsNullOutpoint(ctx: Context, txs: seq<Tx>, height: nat, time: nat)
    requires TransactionsOk(ctx, txs, height, time)
    ensures NullSpendable(ctx, height)
  {
    assert ItemOk(ctx, txs[0], height, time);
    assert txs[0].inputs == [txs[0].inputs[0]];
    OneInput(ctx.entries, txs[0].inputs[0]);
  }

  predicate NeverPuts(batch: seq<WriteOp>, k: OutPoint) {
    forall i :: 0 <= i < |batch| ==> batch[i].Delete? || batch[i].key != k
  }

  lemma {:induction false} WriteKeepsAbsent(m: Entries, batch: seq<WriteOp>, k: OutPoint)
    requires k !in m && NeverPuts(batch, k)
    ensures k !in WriteAll(m, batch)
    decreases |batch|
  {
    if batch != [] { WriteKeepsAbsent(Write(m, batch[0]), batch[1..], k); }
  }

  lemma NullNotWrittenByTx(tx: Tx, height: nat)
    requires |tx.outputs| < U32
    ensures NeverPuts(TxBatch(tx, height), NULL_OUTPOINT)
  {
    forall j | 0 <= j < |tx.outputs| ensures PutOp(tx, height, j).key != NULL_OUTPOINT {
      assert j % U32 == j;
    }
  }

  lemma {:induction false} NullNotWritten(txs: seq<Tx>, height: nat)
    requires forall i :: 0 <= i < |txs| ==> |txs[i].outputs| < U32
    ensures NeverPuts(BlockBatch(txs, height), NULL_OUTPOINT)
  {
    if txs != [] {
      NullNotWritten(txs[..|txs| - 1], height);
      NullNotWrittenByTx(txs[|txs| - 1], height);
    }
  }

  lemma {:induction false} NullNeverCreated(m: Entries, steps: seq<Step>)
    requires NULL_OUTPOINT !in m
    requires forall i, t :: 0 <= i < |steps| && 0 <= t < |steps[i].txs| ==> |steps[i].txs[t].outputs| < U32
    ensures NULL_OUTPOINT !in After(m, steps)
  {
    if steps != [] {
      var init, last := steps[..|steps| - 1], steps[|steps| - 1];
      NullNeverCreated(m, init);
      NullNotWritten(last.txs, last.height);
      WriteKeepsAbsent(After(m, init), BlockBatch(last.txs, last.height), NULL_OUTPOINT);
    }
  }

  /** So no block at all is accepted against a set that grew from an empty one, whatever was applied
      to it: the checks above constrain accounting, but block acceptance as written is empty. */
  lemma {:induction false} NothingAcceptedFromGenesis(ctx: Context, steps: seq<Step>, txs: seq<Tx>,
                                                      height: nat, time: nat)
    requires forall i, t :: 0 <= i < |steps| && 0 <= t < |steps[i].txs| ==> |steps[i].txs[t].outputs| < U32
    requires ctx.entries == After(map[], steps)
    ensures !TransactionsOk(ctx, txs, height, time)
  {
    NullNeverCreated(map[], steps);
    if TransactionsOk(ctx, txs, height, time) {
      AcceptanceNeedsNullOutpoint(ctx, txs, height, time);
    }
  }

  /** A reward that can be paid out, a coinbase that fits, and no objection to its type. */
  ghost predicate CanPayReward(ctx: Context, size: nat) {
    && 0 < ctx.blockReward < U64 && ctx.dustLimit <= ctx.blockReward && size <= ctx.maxTxSize
    && forall tx: Tx :: tx.coinbase ==> ctx.typeOk(tx)
  }

  function CoinbaseTx(value: nat, size: nat): Tx {
    Tx(0, true, [Input(NULL_OUTPOINT, 0)], [Output(value, false, 0)], 0, size)
  }

  /** Whether any block at all is accepted against a set is decided by the null outpoint. */
  lemma AcceptanceIff(ctx: Context, height: nat, time: nat, size: nat)
    requires CanPayReward(ctx, size)
    ensures (exists txs :: BlockOk(ctx, txs, height, time)) <==> NullSpendable(ctx, height)
  {
    if NullSpendable(ctx, height) {
      CoinbaseAlone(ctx, height, time, size);
    }
    forall txs: seq<Tx> | BlockOk(ctx, txs, height, time) ensures NullSpendable(ctx, height) {
      AcceptanceNeedsNullOutpoint(ctx, txs, height, time);
    }
  }

  lemma CoinbaseItem(ctx: Context, value: nat, height: nat, time: nat, size: nat)
    requires NullSpendable(ctx, height) && 0 < value < U64 && ctx.dustLimit <= value && size <= ctx.maxTxSize
    requires ctx.typeOk(CoinbaseTx(value, size))
    ensures ItemOk(ctx, CoinbaseTx(value, size), height, time)
    ensures AllInputs([CoinbaseTx(value, size)]) == [NULL_OUTPOINT]
    ensures OutputSum(CoinbaseTx(value, size).outputs) == value
    ensures Payable(ctx.entries, [CoinbaseTx(value, size)]) && Fees(ctx.entries, [CoinbaseTx(value, size)]) == 0
  {
    var tx := CoinbaseTx(value, size);
    OneInput(ctx.entries, tx.inputs[0]);
    OneOutput(tx.outputs[0]);
    assert [tx][..0] == [];
  }

  lemma CoinbaseAlone(ctx: Context, height: nat, time: nat, size: nat)
    requires CanPayReward(ctx, size) && NullSpendable(ctx, height)
    ensures BlockOk(ctx, [CoinbaseTx(ctx.blockReward, size)], height, time)
  {
    hide ItemOk;
    CoinbaseItem(ctx, ctx.blockReward, height, time, size);
  }

  function SpendTx(prev: OutPoint, value: nat, size: nat): Tx {
    Tx(1, false, [Input(prev, MAX_SEQUENCE)], [Output(value, false, 0)], 0, size)
  }

  /** An output that can be spent with this fee in a transaction of this size. */
  ghost predicate CanSpend(ctx: Context, prev: OutPoint, fee: nat, size: nat, height: nat) {
    && prev != NULL_OUTPOINT && prev in ctx.entries
    && (ctx.entries[prev].coinbase ==> height >= ctx.entries[prev].height + ctx.maturity)
    && MatureAtU32(ctx.entries[prev], height, ctx.maturity)
    && var value := ctx.entries[prev].output.value;
      && value < U64 && MIN_RELAY_FEE_PER_BYTE * size <= fee < value && ctx.dustLimit <= value - fee
      && ctx.typeOk(SpendTx(prev, value - fee, size)) && ctx.scriptOk(SpendTx(prev, value - fee, size), 0)
      && ctx.pubkeyOk(Output(value - fee, false, 0))
  }

  lemma SpendItem(ctx: Context, prev: OutPoint, fee: nat, size: nat, height: nat, time: nat)
    requires CanSpend(ctx, prev, fee, size, height) && size <= ctx.maxTxSize
    ensures var tx := SpendTx(prev, ctx.entries[prev].output.value - fee, size);
      && ItemOk(ctx, tx, height, time) && TransactionOk(ctx, tx, height, time)
      && AllExist(ctx.entries, tx.inputs) && InputSum(ctx.entries, tx.inputs) == OutputSum(tx.outputs) + fee
  {
    var tx := SpendTx(prev, ctx.entries[prev].output.value - fee, size);
    OneInput(ctx.entries, tx.inputs[0]);
    OneOutput(tx.outputs[0]);
  }

  /** Then every spendable output can be spent in a block whose coinbase takes reward and fee in full. */
  lemma SpendAccepted(ctx: Context, prev: OutPoint, fee: nat, size: nat, height: nat, time: nat)
    requires CanPayReward(ctx, size) && NullSpendable(ctx, height)
    requires CanSpend(ctx, prev, fee, size, height) && ctx.blockReward + fee < U64
    ensures var spend := SpendTx(prev, ctx.entries[prev].output.value - fee, size);
      var txs := [CoinbaseTx(ctx.blockReward + fee, size), spend];
      && BlockOk(ctx, txs, height, time) && Fees(ctx.entries, txs) == fee
      && OutputSum(txs[0].outputs) == ctx.blockReward + fee
  {
    hide ItemOk, TransactionOk;
    var coinbase := CoinbaseTx(ctx.blockReward + fee, size);
    var spend := SpendTx(prev, ctx.entries[prev].output.value - fee, size);
    var txs := [coinbase, spend];
    CoinbaseItem(ctx, ctx.blockReward + fee, height, time, size);
    SpendItem(ctx, prev, fee, size, height, time);
    assert txs[..1] == [coinbase];
    assert AllInputs(txs) == [NULL_OUTPOINT, prev];
  }

  lemma OneInput(m: Entries, i: Input)
    requires i.prev in m
    ensures AllExist(m, [i]) && InputSum(m, [i]) == m[i.prev].output.value
  {
    assert [i][1..] == [];
  }

  lemma OneOutput(o: Output)
    ensures OutputSum([o]) == o.value
  {
    assert [o][1..] == [];
  }
}
