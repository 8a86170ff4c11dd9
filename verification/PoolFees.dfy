/** Whether a transaction the pool accepts really pays its fee (rusty-core/src/mempool.rs). The fee check
    adds outputs up modulo 2^64 and adds an outpoint that is listed twice twice; the order of the block
    template uses the fee a transaction declares. Block validation (rusty-consensus/src/validation.rs)
    catches what the pool lets through. */
module PoolFees {
  import opened Arithmetic
  import opened Wrappers
  import opened Sorting
  import opened Sums
  import opened Mempool
  import Ledger
  import Utxo

  /** What the transaction takes out of the chain: every outpoint once. */
  ghost function Consumed(chain: Chain, inputs: seq<OutPoint>): nat {
    Sum(map o | o in inputs :: ValueOf(chain, o))
  }

  ghost predicate FeeIsReal(tx: Tx, chain: Chain) {
    Consumed(chain, tx.inputs) >= OutputTotal(tx.outputs) + MIN_FEE
  }

  lemma ConsumedStep(chain: Chain, inputs: seq<OutPoint>)
    requires inputs != []
    ensures Consumed(chain, inputs)
      == Consumed(chain, inputs[1..]) + if inputs[0] in inputs[1..] then 0 else ValueOf(chain, inputs[0])
  {
    hide Sum, ValueOf;
    var first, rest := inputs[0], inputs[1..];
    assert inputs == [first] + rest;
    var few := map o | o in rest :: ValueOf(chain, o);
    var all := map o | o in inputs :: ValueOf(chain, o);
    if first in rest {
      assert all == few;
    } else {
      assert all == few[first := ValueOf(chain, first)];
      SumAdd(few, first, ValueOf(chain, first));
    }
  }

  lemma ConsumedNone(chain: Chain)
    ensures Consumed(chain, []) == 0
  {
    var none: seq<OutPoint> := [];
    var values := map o | o in none :: ValueOf(chain, o);
    assert values == map[];
    SumEmpty(values);
  }

  /** Counting inputs one by one never undercounts, and is exact when none repeats. */
  lemma {:induction false} ConsumedAtMost(chain: Chain, inputs: seq<OutPoint>)
    ensures Consumed(chain, inputs) <= InputTotal(chain, inputs)
    ensures NoDuplicates(inputs) ==> Consumed(chain, inputs) == InputTotal(chain, inputs)
  {
    hide Consumed;
    if inputs == [] {
      ConsumedNone(chain);
    } else {
      ConsumedStep(chain, inputs);
      ConsumedAtMost(chain, inputs[1..]);
    }
  }

  /** Without a repeated input, and with coins in existence below 2^64, an accepted transaction leaves the
      minimum fee exactly when its outputs do not overflow 64 bits. */
  lemma FeeIsRealIff(tx: Tx, chain: Chain)
    requires FeeOk(tx, chain) && NoDuplicates(tx.inputs) && Consumed(chain, tx.inputs) < U64
    ensures FeeIsReal(tx, chain) <==> OutputTotal(tx.outputs) < U64
  {
    hide Consumed;
    ConsumedAtMost(chain, tx.inputs);
  }

  /** A second failing input: one outpoint of 1000, listed twice, is accepted as paying 1000 to its only
      output and 1000 in fees. */
  lemma RepeatedInputPasses(tx: Tx, chain: Chain)
    requires !tx.coinbase && tx.inputs == [7, 7] && tx.outputs == [Output(1000, 0)] && tx.bytes == Some(200)
    requires chain.utxos == map[7 := 1000] && SignaturesOk(tx, chain) && chain.transactionOk(tx)
    ensures Acceptable(map[], tx, chain) && OutputTotal(tx.outputs) == Consumed(chain, tx.inputs) == 1000
    ensures !FeeIsReal(tx, chain)
  {
    assert tx.inputs[1..] == [7] && tx.inputs[1..][1..] == [] && tx.outputs[1..] == [];
    assert InputTotal(chain, [7]) == 1000;
    ConsumedStep(chain, tx.inputs);
    ConsumedStep(chain, [7]);
    ConsumedNone(chain);
  }

  // ------------------------------------------------------------------ the exact condition

  /** How often an outpoint is listed. */
  ghost function Times(inputs: seq<OutPoint>, x: OutPoint): nat {
    if inputs == [] then 0 else Times(inputs[1..], x) + if inputs[0] == x then 1 else 0
  }

  lemma {:induction false} TimesBounds(inputs: seq<OutPoint>, x: OutPoint)
    ensures Times(inputs, x) <= |inputs| && (Times(inputs, x) > 0 <==> x in inputs)
  {
    if inputs != [] {
      TimesBounds(inputs[1..], x);
      assert inputs == [inputs[0]] + inputs[1..];
    }
  }

  lemma {:induction false} RepeatedTwice(inputs: seq<OutPoint>) returns (x: OutPoint)
    requires !NoDuplicates(inputs)
    ensures Times(inputs, x) >= 2
  {
    var rest := inputs[1..];
    FirstRepeats(inputs);
    if inputs[0] in rest {
      x := inputs[0];
      TimesBounds(rest, x);
    } else {
      x := RepeatedTwice(rest);
    }
  }

  lemma FirstRepeats(inputs: seq<OutPoint>)
    ensures NoDuplicates(inputs) <==> inputs == [] || (inputs[0] !in inputs[1..] && NoDuplicates(inputs[1..]))
  {
    if inputs != [] {
      assert inputs == [inputs[0]] + inputs[1..];
    }
  }

  /** All the value is in one outpoint. */
  ghost predicate OnlyValue(chain: Chain, inputs: seq<OutPoint>, x: OutPoint, v: nat) {
    forall o :: o in inputs ==> ValueOf(chain, o) == if o == x then v else 0
  }

  lemma {:induction false} OneValued(chain: Chain, inputs: seq<OutPoint>, x: OutPoint, v: nat)
    requires OnlyValue(chain, inputs, x, v)
    ensures InputTotal(chain, inputs) == Times(inputs, x) * v
    ensures Consumed(chain, inputs) == if x in inputs then v else 0
  {
    hide Consumed;
    if inputs == [] {
      ConsumedNone(chain);
    } else {
      var rest := inputs[1..];
      assert inputs == [inputs[0]] + rest;
      OneValued(chain, rest, x, v);
      ConsumedStep(chain, inputs);
      OneMoreTime(Times(rest, x), v);
    }
  }

  lemma OneMoreTime(n: nat, v: nat)
    ensures (n + 1) * v == n * v + v
  {
  }

  /** The least value that, taken m times, reaches n. */
  lemma EnoughEach(n: nat, m: nat) returns (v: nat)
    requires 0 < m && 0 < n
    ensures n <= m * v < n + m && (m >= 2 && n >= 2 ==> v < n)
  {
    v := (n + m - 1) / m;
    DivBounds(n + m - 1, m);
    assert v * m <= n + m - 1 < (v + 1) * m;
    assert (v + 1) * m == v * m + m;
    if m >= 2 && n >= 2 {
      ProductAtLeastSum(n, m);
      MulOrder(v, n - 1, m);
    }
  }

  lemma ProductAtLeastSum(n: nat, m: nat)
    requires n >= 2 && m >= 2
    ensures n * m >= n + m
  {
    assert (n - 1) * (m - 1) == n * m - n - m + 1;
  }

  /** A chain that accepts everything but looks at values. */
  ghost function OpenChain(inputs: seq<OutPoint>, x: OutPoint, v: nat): Chain {
    Chain(map o | o in inputs :: if o == x then v else 0, (_, _) => false, (_, _) => true, _ => true)
  }

  /** The transaction's own shape, and room for the rounding of a fee and of a sum. */
  ghost predicate Ordinary(tx: Tx) {
    && StructureOk(tx) && PolicyOk(tx)
    && MIN_FEE + |tx.inputs| <= tx.bytes.value * MAX_FEE_RATE
    && OutputTotal(tx.outputs) % U64 + MIN_FEE + |tx.inputs| < U64
  }

  /** The chain accepts the transaction, and holds less than 2^64 coins in its inputs. */
  ghost predicate AcceptedOn(tx: Tx, chain: Chain) {
    Acceptable(map[], tx, chain) && Consumed(chain, tx.inputs) < U64
  }

  lemma OpenChainAccepts(tx: Tx, x: OutPoint, v: nat)
    requires Ordinary(tx) && x in tx.inputs
    requires var wrapped := OutputTotal(tx.outputs) % U64;
      wrapped + MIN_FEE <= Times(tx.inputs, x) * v < wrapped + MIN_FEE + |tx.inputs|
    ensures var chain := OpenChain(tx.inputs, x, v); AcceptedOn(tx, chain) && Consumed(chain, tx.inputs) == v
  {
    hide Consumed, OutputTotal, InputTotal, Times, StructureOk, PolicyOk, OpenChain;
    var chain := OpenChain(tx.inputs, x, v);
    OpenChainOpen(tx, x, v);
    OneValued(chain, tx.inputs, x, v);
    ConsumedAtMost(chain, tx.inputs);
    StructureBytes(tx);
    assert FeeOk(tx, chain);
  }

  lemma StructureBytes(tx: Tx)
    requires StructureOk(tx)
    ensures tx.bytes.Some?
  {
  }

  lemma OpenChainOpen(tx: Tx, x: OutPoint, v: nat)
    ensures var chain := OpenChain(tx.inputs, x, v);
      && OnlyValue(chain, tx.inputs, x, v) && InputsExist(chain, tx) && SignaturesOk(tx, chain)
      && chain.transactionOk(tx) && NoConflict(map[], tx)
  {
  }

  /** What a caller can check beforehand: an ordinary transaction leaves its fee on every chain that
      accepts it if and only if it repeats no input and its outputs stay below 2^64. */
  lemma FeeAlwaysRealIff(tx: Tx)
    requires Ordinary(tx)
    ensures (forall chain :: AcceptedOn(tx, chain) ==> FeeIsReal(tx, chain))
      <==> NoDuplicates(tx.inputs) && OutputTotal(tx.outputs) < U64
  {
    hide Consumed, OutputTotal, InputTotal, OpenChain;
    if NoDuplicates(tx.inputs) && OutputTotal(tx.outputs) < U64 {
      forall chain | AcceptedOn(tx, chain) ensures FeeIsReal(tx, chain) {
        FeeIsRealIff(tx, chain);
      }
    } else {
      var x := tx.inputs[0];
      if !NoDuplicates(tx.inputs) { x := RepeatedTwice(tx.inputs); }
      TimesBounds(tx.inputs, x);
      var v := EnoughEach(OutputTotal(tx.outputs) % U64 + MIN_FEE, Times(tx.inputs, x));
      OpenChainAccepts(tx, x, v);
    }
  }

  // ------------------------------------------------------------------------ in a block

  /** The same transaction as block validation reads it. */
  ghost predicate Spells(tx: Tx, item: Ledger.Tx, spell: OutPoint -> Utxo.OutPoint) {
    && |item.inputs| == |tx.inputs| && (forall i :: 0 <= i < |tx.inputs| ==> item.inputs[i].prev == spell(tx.inputs[i]))
    && |item.outputs| == |tx.outputs|
    && (forall i :: 0 <= i < |tx.outputs| ==> item.outputs[i].value == tx.outputs[i].value)
  }

  lemma {:induction false} SameOutputs(a: seq<Output>, b: seq<Utxo.Output>)
    requires |a| == |b| && forall i :: 0 <= i < |a| ==> b[i].value == a[i].value
    ensures Ledger.OutputSum(b) == OutputTotal(a)
  {
    if a != [] { SameOutputs(a[1..], b[1..]); }
  }

  /** A transaction with a repeated input or overflowing outputs, which the pool may accept, is refused by
      block validation, and with it every block that contains it. */
  lemma UnrealFeeRefused(tx: Tx, ctx: Ledger.Context, txs: seq<Ledger.Tx>, k: nat, spell: OutPoint -> Utxo.OutPoint,
                         height: nat, time: nat)
    requires k < |txs| && Spells(tx, txs[k], spell)
    requires !NoDuplicates(tx.inputs) || OutputTotal(tx.outputs) >= U64
    ensures !Ledger.TransactionsOk(ctx, txs, height, time)
  {
    if Ledger.TransactionsOk(ctx, txs, height, time) {
      AcceptedItemIsReal(tx, ctx, txs, k, spell, height, time);
    }
  }

  lemma AcceptedItemIsReal(tx: Tx, ctx: Ledger.Context, txs: seq<Ledger.Tx>, k: nat, spell: OutPoint -> Utxo.OutPoint,
                           height: nat, time: nat)
    requires k < |txs| && Spells(tx, txs[k], spell) && Ledger.TransactionsOk(ctx, txs, height, time)
    ensures NoDuplicates(tx.inputs) && OutputTotal(tx.outputs) < U64
  {
    assert Ledger.ItemOk(ctx, txs[k], height, time);
    SameOutputs(tx.outputs, txs[k].outputs);
    Ledger.AcceptedStep(ctx, txs, height, time, k);
    var prevs := Ledger.Prevs(txs[k].inputs);
    forall i, j | 0 <= i < j < |tx.inputs| ensures tx.inputs[i] != tx.inputs[j] {
      assert prevs[i] != prevs[j];
    }
  }

  // --------------------------------------------------------------------- the declared fee

  /** The script engine does not look at the declared fee. */
  ghost predicate FeeBlind(chain: Chain, tx: Tx, fee: nat) {
    var other := tx.(fee := fee);
    && (forall i :: chain.hasScript(other, i) == chain.hasScript(tx, i))
    && (forall i :: chain.scriptOk(other, i) == chain.scriptOk(tx, i))
    && chain.transactionOk(other) == chain.transactionOk(tx)
  }

  /** No check looks at the declared fee: whatever is declared, the verdict is the same. */
  lemma DeclaredFeeUnchecked(pool: Pool, tx: Tx, fee: nat, chain: Chain)
    requires FeeBlind(chain, tx, fee)
    ensures Acceptable(pool, tx.(fee := fee), chain) <==> Acceptable(pool, tx, chain)
  {
    var other := tx.(fee := fee);
    assert StructureOk(other) <==> StructureOk(tx);
    assert SignaturesOk(other, chain) <==> SignaturesOk(tx, chain);
    assert PolicyOk(other) <==> PolicyOk(tx);
    assert NoConflict(pool, other) <==> NoConflict(pool, tx);
  }

  /** So two accepted transactions of one size can be ordered against the fees they leave: here one leaves
      5000 and declares nothing, the other leaves 1000 and declares 1000. */
  lemma OrderAgainstRealFees(generous: Tx, stingy: Tx, chain: Chain)
    requires generous == Tx(1, false, [7], [Output(1000, 0)], 0, Some(200))
    requires stingy == Tx(2, false, [8], [Output(1000, 0)], 1000, Some(200))
    requires chain.utxos == map[7 := 6000, 8 := 2000]
    requires SignaturesOk(generous, chain) && SignaturesOk(stingy, chain)
    requires chain.transactionOk(generous) && chain.transactionOk(stingy)
    ensures Acceptable(map[], generous, chain) && Acceptable(map[1 := generous], stingy, chain)
    ensures Consumed(chain, generous.inputs) == OutputTotal(generous.outputs) + 5000
    ensures Consumed(chain, stingy.inputs) == OutputTotal(stingy.outputs) + 1000
    ensures !FeeOrder(map[1 := generous, 2 := stingy])(1, 2)
  {
    hide Consumed;
    assert [Output(1000, 0)][1..] == [] && OutputTotal([Output(1000, 0)]) == 1000;
    assert [7][1..] == [] && [8][1..] == [];
    assert InputTotal(chain, [7]) == 6000 && InputTotal(chain, [8]) == 2000;
    ConsumedAtMost(chain, [7]);
    ConsumedAtMost(chain, [8]);
    assert NoConflict(map[1 := generous], stingy);
    var pool := map[1 := generous, 2 := stingy];
    assert FeeRate(pool, 1) == 0 && FeeRate(pool, 2) == 5000;
  }
}
