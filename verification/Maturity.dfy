/** Coinbase maturity and lock times (rusty-consensus/src/validation.rs): what acceptance of a list of
    transactions says about heights and times, over one list and over whole runs. */
module Maturity {
  import opened Arithmetic
  import opened Utxo
  import opened Ledger
  import opened Conservation
  import opened Sorting

  /** No accepted list spends a coinbase output that is not `maturity` blocks old. */
  lemma AcceptedIsMature(ctx: Context, txs: seq<Tx>, height: nat, time: nat, i: nat, j: nat)
    requires TransactionsOk(ctx, txs, height, time) && i < |txs| && j < |txs[i].inputs|
    ensures txs[i].inputs[j].prev in ctx.entries
    ensures var e := ctx.entries[txs[i].inputs[j].prev]; !(e.coinbase && height < e.height + ctx.maturity)
  {
    assert ItemOk(ctx, txs[i], height, time);
  }

  /** Nor a transaction before its lock time: a height below 500 million, a time from there on. */
  lemma AcceptedIsUnlocked(ctx: Context, txs: seq<Tx>, height: nat, time: nat, i: nat)
    requires TransactionsOk(ctx, txs, height, time) && i < |txs|
    ensures txs[i].lockTime == 0
      || (txs[i].lockTime < 500_000_000 && txs[i].lockTime <= height)
      || (500_000_000 <= txs[i].lockTime <= time)
  {
    assert ItemOk(ctx, txs[i], height, time);
  }

  /** Every accepted transaction but the coinbase leaves a fee of at least one unit per byte. */
  lemma AcceptedPaysFee(ctx: Context, txs: seq<Tx>, height: nat, time: nat, i: nat)
    requires TransactionsOk(ctx, txs, height, time) && 1 <= i < |txs|
    ensures AllExist(ctx.entries, txs[i].inputs)
    ensures InputSum(ctx.entries, txs[i].inputs) >= OutputSum(txs[i].outputs) + txs[i].size
  {
    assert ItemOk(ctx, txs[i], height, time);
  }

  /** The second test of the block, in u32 arithmetic, agrees with the first exactly where the sum of height
      and maturity does not wrap, or the current height is below what it wraps to. */
  lemma WrappedMaturityIff(e: Entry, height: nat, maturity: nat)
    requires e.height < U32 && height < U32 && maturity < U32
    ensures (MatureAtU32(e, height, maturity) <==> (e.coinbase ==> height >= e.height + maturity))
      <==> !e.coinbase || e.height + maturity < U32 || height < e.height + maturity - U32
  {
  }

  /** Alone it would accept a spend in the very next block: here of a coinbase output at height 2^32 - 2. */
  lemma WrappedMaturityPasses(o: Output)
    ensures var e := Entry(o, U32 - 2, true); MatureAtU32(e, U32 - 1, 100) && !(U32 - 1 >= e.height + 100)
  {
  }

  // --------------------------------------------------------------------- whole runs

  /** The entry under k is an output of transaction t, as a block of this height stores it. */
  ghost predicate MadeIn(txs: seq<Tx>, height: nat, k: OutPoint, e: Entry, t: nat) {
    && t < |txs| && k.txid == txs[t].txid && k.vout < |txs[t].outputs|
    && e == Entry(txs[t].outputs[k.vout], height, txs[t].coinbase)
  }

  ghost predicate MadeBy(steps: seq<Step>, k: OutPoint, e: Entry, i: nat, t: nat) {
    i < |steps| && MadeIn(steps[i].txs, steps[i].height, k, e, t)
  }

  /** Outputs are few enough to be numbered by a u32. */
  ghost predicate Numbered(steps: seq<Step>) {
    forall i, t :: 0 <= i < |steps| && 0 <= t < |steps[i].txs| ==> |steps[i].txs[t].outputs| <= U32
  }

  lemma {:induction false} BlockProvenance(m: Entries, txs: seq<Tx>, height: nat, k: OutPoint)
    requires forall t :: 0 <= t < |txs| ==> |txs[t].outputs| <= U32
    requires k in WriteAll(m, BlockBatch(txs, height))
    ensures var e := WriteAll(m, BlockBatch(txs, height))[k];
      (k in m && m[k] == e) || exists t :: MadeIn(txs, height, k, e, t)
  {
    if txs != [] {
      var init, tx := txs[..|txs| - 1], txs[|txs| - 1];
      var before := WriteAll(m, BlockBatch(init, height));
      WriteAllConcat(m, BlockBatch(init, height), TxBatch(tx, height));
      WriteTx(before, tx, height);
      CreatedByKeys(tx, height, |tx.outputs|, k);
      var e := WriteAll(m, BlockBatch(txs, height))[k];
      if k in CreatedBy(tx, height, |tx.outputs|) {
        assert MadeIn(txs, height, k, e, |txs| - 1);
      } else {
        BlockProvenance(m, init, height, k);
        if t :| MadeIn(init, height, k, e, t) {
          assert MadeIn(txs, height, k, e, t);
        }
      }
    }
  }

  /** Every entry was there from the start or is an output of some transaction applied since, stored with
      its block's height and whether a coinbase made it. */
  lemma {:induction false} Provenance(m: Entries, steps: seq<Step>, k: OutPoint)
    requires Numbered(steps) && k in After(m, steps)
    ensures (k in m && m[k] == After(m, steps)[k]) || exists i, t :: MadeBy(steps, k, After(m, steps)[k], i, t)
  {
    if steps != [] {
      var init, last := steps[..|steps| - 1], steps[|steps| - 1];
      var e := After(m, steps)[k];
      BlockProvenance(After(m, init), last.txs, last.height, k);
      if t :| MadeIn(last.txs, last.height, k, e, t) {
        assert MadeBy(steps, k, e, |steps| - 1, t);
      } else {
        assert Numbered(init);
        Provenance(m, init, k);
        if i, t :| MadeBy(init, k, e, i, t) {
          assert MadeBy(steps, k, e, i, t);
        }
      }
    }
  }

  /** No two transactions of the run share an identifier, and none has one that is already in the set. */
  ghost predicate FreshRun(m: Entries, steps: seq<Step>) {
    && Numbered(steps)
    && (forall i, t, k :: 0 <= i < |steps| && 0 <= t < |steps[i].txs| && k in m ==> k.txid != steps[i].txs[t].txid)
    && forall i, t, j, u ::
      0 <= i < |steps| && 0 <= t < |steps[i].txs| && 0 <= j < |steps| && 0 <= u < |steps[j].txs| ==>
        steps[i].txs[t].txid == steps[j].txs[u].txid ==> i == j && t == u
  }

  /** Coinbase maturity over runs: an output that a coinbase created at some height is an input of no list
      accepted below that height plus the maturity, at whatever point of the run the list is checked. */
  lemma CoinbaseMaturity(m: Entries, steps: seq<Step>, i: nat, t: nat, vout: nat, n: nat,
                         ctx: Context, txs: seq<Tx>, height: nat, time: nat)
    requires FreshRun(m, steps) && i < |steps| && t < |steps[i].txs| && steps[i].txs[t].coinbase
    requires vout < |steps[i].txs[t].outputs|
    requires n <= |steps| && ctx.entries == After(m, steps[..n]) && TransactionsOk(ctx, txs, height, time)
    requires height < steps[i].height + ctx.maturity
    ensures OutPoint(steps[i].txs[t].txid, vout) !in AllInputs(txs)
  {
    hide TransactionsOk;
    var k := OutPoint(steps[i].txs[t].txid, vout);
    if k in AllInputs(txs) {
      var a, b := InputOf(txs, k);
      AcceptedIsMature(ctx, txs, height, time, a, b);
      StoredAsCreated(m, steps, i, t, n, k);
    }
  }

  /** What is stored under a transaction's outpoint is what that transaction created. */
  lemma StoredAsCreated(m: Entries, steps: seq<Step>, i: nat, t: nat, n: nat, k: OutPoint)
    requires FreshRun(m, steps) && i < |steps| && t < |steps[i].txs| && n <= |steps|
    requires k.txid == steps[i].txs[t].txid && k in After(m, steps[..n])
    ensures After(m, steps[..n])[k].height == steps[i].height
    ensures After(m, steps[..n])[k].coinbase == steps[i].txs[t].coinbase
    ensures i < n
  {
    assert Numbered(steps[..n]);
    Provenance(m, steps[..n], k);
    var j: nat, u: nat :| MadeBy(steps[..n], k, After(m, steps[..n])[k], j, u);
    assert steps[..n][j] == steps[j];
  }

  lemma {:induction false} InputOf(txs: seq<Tx>, k: OutPoint) returns (a: nat, b: nat)
    requires k in AllInputs(txs)
    ensures a < |txs| && b < |txs[a].inputs| && txs[a].inputs[b].prev == k
  {
    var init, tx := txs[..|txs| - 1], txs[|txs| - 1];
    if k in AllInputs(init) {
      a, b := InputOf(init, k);
    } else {
      var j :| 0 <= j < |Prevs(tx.inputs)| && Prevs(tx.inputs)[j] == k;
      a, b := |txs| - 1, j;
    }
  }
}
