/** The transaction pool and its block template (rusty-core/src/mempool.rs). */
module Mempool {
  import opened Arithmetic
  import opened Wrappers
  import opened Sorting

  type TxId = nat
  type OutPoint = nat

  datatype Output = Output(value: nat, scriptLength: nat)

  /** `bytes` is the length of the serialized transaction, if it can be serialized. */
  datatype Tx = Tx(txid: TxId, coinbase: bool, inputs: seq<OutPoint>, outputs: seq<Output>, fee: nat,
                   bytes: Option<nat>) {
    function Size(): nat {
      if bytes.Some? then bytes.value else 0
    }
  }

  /** The unspent outputs by value, and the script engine: whether an input carries a script, whether
      it satisfies the output it spends, and the verdict on the whole transaction. */
  datatype Chain = Chain(utxos: map<OutPoint, nat>, hasScript: (Tx, nat) -> bool, scriptOk: (Tx, nat) -> bool,
                         transactionOk: Tx -> bool)

  const MAX_TX_SIZE: nat := 100_000
  const DUST: nat := 546
  const MIN_FEE: nat := 1000
  const MAX_FEE_RATE: nat := 10_000
  const MAX_SCRIPT: nat := 10_000

  datatype AddResult = Added | AlreadyThere | Invalid(reason: string)

  type Pool = map<TxId, Tx>

  ghost predicate Filed(pool: Pool) {
    forall id :: id in pool ==> pool[id].txid == id
  }

  ghost predicate Apart(a: Tx, b: Tx) {
    forall o :: o in a.inputs ==> o !in b.inputs
  }

  /** Distinct transactions spend disjoint outpoints. */
  ghost predicate Disjoint(pool: Pool) {
    forall i, j :: i in pool && j in pool && i != j ==> Apart(pool[i], pool[j])
  }

  ghost predicate SpentIn(pool: Pool, o: OutPoint) {
    exists id :: id in pool && o in pool[id].inputs
  }

  ghost predicate NoConflict(pool: Pool, tx: Tx) {
    forall o :: o in tx.inputs ==> !SpentIn(pool, o)
  }

  /** Adding a transaction to a disjoint pool keeps it disjoint exactly when it conflicts with nothing there. */
  lemma DisjointAfterAdd(pool: Pool, tx: Tx)
    requires Disjoint(pool) && tx.txid !in pool
    ensures Disjoint(pool[tx.txid := tx]) <==> NoConflict(pool, tx)
  {
    var after := pool[tx.txid := tx];
    if NoConflict(pool, tx) {
      forall i, j | i in after && j in after && i != j ensures Apart(after[i], after[j]) {
        assert i in pool && j in pool ==> Apart(pool[i], pool[j]);
      }
    } else {
      var o :| o in tx.inputs && SpentIn(pool, o);
      var id :| id in pool && o in pool[id].inputs;
      assert !Apart(after[tx.txid], after[id]);
    }
  }

  lemma DisjointAfterRemove(pool: Pool, ids: set<TxId>)
    requires Disjoint(pool)
    ensures Disjoint(pool - ids)
  {
    forall i, j | i in pool - ids && j in pool - ids && i != j ensures Apart((pool - ids)[i], (pool - ids)[j]) {
      assert Apart(pool[i], pool[j]);
    }
  }

  class TransactionPool {
    var transactions: Pool

    ghost predicate Valid()
      reads this
    {
      Filed(transactions)
    }

    constructor ()
      ensures Valid() && Disjoint(transactions) && transactions == map[]
    {
      transactions := map[];
    }

    /** add_transaction validates nothing: it keeps the pool disjoint exactly when there is no conflict. */
    method AddTransaction(tx: Tx) returns (added: bool)
      requires Valid()
      modifies this
      ensures Valid()
      ensures added <==> tx.txid !in old(transactions)
      ensures transactions == if added then old(transactions)[tx.txid := tx] else old(transactions)
      ensures old(Disjoint(transactions)) && added ==> (Disjoint(transactions) <==> NoConflict(old(transactions), tx))
    {
      if tx.txid in transactions { return false; }
      if Disjoint(transactions) { DisjointAfterAdd(transactions, tx); }
      transactions := transactions[tx.txid := tx];
      return true;
    }

    method RemoveTransaction(id: TxId)
      requires Valid()
      modifies this
      ensures Valid()
      ensures transactions == old(transactions) - {id}
      ensures old(Disjoint(transactions)) ==> Disjoint(transactions)
    {
      if Disjoint(transactions) { DisjointAfterRemove(transactions, {id}); }
      transactions := transactions - {id};
    }

    /** Whether some pooled transaction already spends the outpoint. */
    method IsSpent(o: OutPoint) returns (spent: bool)
      ensures spent <==> SpentIn(transactions, o)
    {
      var order := Enumerate(transactions.Keys);
      for i := 0 to |order|
        invariant forall k :: 0 <= k < i ==> order[k] in transactions && o !in transactions[order[k]].inputs
      {
        assert order[i] in order;
        var inputs := transactions[order[i]].inputs;
        for j := 0 to |inputs|
          invariant forall k :: 0 <= k < j ==> inputs[k] != o
        {
          if inputs[j] == o { return true; }
        }
      }
      assert forall id :: id in transactions ==> id in order;
      return false;
    }

    method ValidateTransactionInputs(tx: Tx, chain: Chain) returns (ok: bool)
      ensures ok <==> InputsExist(chain, tx) && NoConflict(transactions, tx)
    {
      for i := 0 to |tx.inputs|
        invariant forall k :: 0 <= k < i ==> tx.inputs[k] in chain.utxos && !SpentIn(transactions, tx.inputs[k])
      {
        var o := tx.inputs[i];
        assert o in tx.inputs;
        if o !in chain.utxos { return false; }
        var spent := IsSpent(o);
        if spent { return false; }
      }
      return true;
    }

    method ValidateNoConflicts(tx: Tx) returns (ok: bool)
      ensures ok <==> NoConflict(transactions, tx)
    {
      for i := 0 to |tx.inputs|
        invariant forall k :: 0 <= k < i ==> !SpentIn(transactions, tx.inputs[k])
      {
        assert tx.inputs[i] in tx.inputs;
        var spent := IsSpent(tx.inputs[i]);
        if spent { return false; }
      }
      return true;
    }

    /** validate_and_add_transaction: its seven checks in order. Only validated adds keep the pool
        disjoint unconditionally. */
    method ValidateAndAddTransaction(tx: Tx, chain: Chain) returns (r: AddResult)
      requires Valid()
      modifies this
      ensures Valid()
      ensures r == AlreadyThere <==> tx.txid in old(transactions)
      ensures r == Added <==> tx.txid !in old(transactions) && Acceptable(old(transactions), tx, chain)
      ensures transactions == if r == Added then old(transactions)[tx.txid := tx] else old(transactions)
      ensures old(Disjoint(transactions)) ==> Disjoint(transactions)
    {
      if tx.txid in transactions { return AlreadyThere; }
      var ok := ValidateStructure(tx);
      if !ok { return Invalid("structure validation failed"); }
      ok := ValidateSignatures(tx, chain);
      if !ok { return Invalid("signature validation failed"); }
      ok := ValidateTransactionInputs(tx, chain);
      if !ok { return Invalid("input validation failed"); }
      ok := ValidateFees(tx, chain);
      if !ok { return Invalid("fee validation failed"); }
      if !chain.transactionOk(tx) { return Invalid("script validation failed"); }
      ok := ValidatePolicy(tx);
      if !ok { return Invalid("policy validation failed"); }
      ok := ValidateNoConflicts(tx);
      if !ok { return Invalid("conflicts"); }
      if Disjoint(transactions) { DisjointAfterAdd(transactions, tx); }
      transactions := transactions[tx.txid := tx];
      return Added;
    }

    /** get_transactions_for_block_template. The candidates come out of the map in an arbitrary order. */
    method GetTransactionsForBlockTemplate(maxSize: nat) returns (ids: seq<TxId>, selected: seq<Tx>)
      requires Valid()
      ensures IsTemplate(transactions, maxSize, ids)
      ensures |selected| == |ids| && forall i :: 0 <= i < |ids| ==> selected[i].txid == ids[i]
      ensures forall i :: 0 <= i < |ids| ==> ids[i] in transactions && selected[i] == transactions[ids[i]]
    {
      hide FeeRate, FeeOrder, TotalOrder, Sorted, TotalSize;
      var pool := transactions;
      NoSize(pool);
      var candidates := Enumerate(pool.Keys);
      FeeOrderTotal(pool);
      SortListing(FeeOrder(pool), pool.Keys, candidates);
      var sorted := SortBy(FeeOrder(pool), candidates);
      var size := 0;
      ids, selected := [], [];
      var i := 0;
      while i < |sorted|
        invariant 0 <= i <= |sorted| && ids == sorted[..i] && |selected| == i
        invariant forall k :: 0 <= k < i ==> ids[k] in pool && selected[k] == pool[ids[k]]
        invariant size == TotalSize(pool, ids) <= maxSize
      {
        assert sorted[i] in sorted && sorted[i] in pool;
        var tx := pool[sorted[i]];
        assert sorted[..i + 1] == sorted[..i] + [sorted[i]];
        TotalSizeStep(pool, ids, sorted[i]);
        if size + tx.Size() > maxSize {
          assert IsTemplateOf(pool, maxSize, sorted, ids);
          return;
        }
        ids, selected := ids + [sorted[i]], selected + [tx];
        size := size + tx.Size();
        i := i + 1;
      }
      assert ids == sorted;
      assert IsTemplateOf(pool, maxSize, sorted, ids);
    }
  }

  // --------------------------------------------------- checks that do not look at the pool

  ghost predicate StructureOk(tx: Tx) {
    && !tx.coinbase && tx.inputs != [] && tx.outputs != []
    && tx.bytes.Some? && tx.bytes.value <= MAX_TX_SIZE
    && forall i :: 0 <= i < |tx.outputs| ==> tx.outputs[i].value >= DUST
  }

  ghost predicate SignaturesOk(tx: Tx, chain: Chain) {
    forall i :: 0 <= i < |tx.inputs| && chain.hasScript(tx, i) ==> tx.inputs[i] in chain.utxos && chain.scriptOk(tx, i)
  }

  ghost predicate InputsExist(chain: Chain, tx: Tx) {
    forall o :: o in tx.inputs ==> o in chain.utxos
  }

  ghost predicate PolicyOk(tx: Tx) {
    forall i :: 0 <= i < |tx.outputs| ==> tx.outputs[i].scriptLength <= MAX_SCRIPT
  }

  function ValueOf(chain: Chain, o: OutPoint): nat {
    if o in chain.utxos then chain.utxos[o] else 0
  }

  ghost function InputTotal(chain: Chain, inputs: seq<OutPoint>): nat {
    if inputs == [] then 0 else ValueOf(chain, inputs[0]) + InputTotal(chain, inputs[1..])
  }

  ghost function OutputTotal(outputs: seq<Output>): nat {
    if outputs == [] then 0 else outputs[0].value + OutputTotal(outputs[1..])
  }

  function Saturated(n: nat): nat {
    if n < U64 then n else U64 - 1
  }

  /** Inputs are added up with saturation, outputs with wrap-around; the difference is the fee. */
  ghost predicate FeeOk(tx: Tx, chain: Chain) {
    && InputsExist(chain, tx) && tx.bytes.Some?
    && var paid, spent := Saturated(InputTotal(chain, tx.inputs)), OutputTotal(tx.outputs) % U64;
      MIN_FEE <= paid - spent <= tx.bytes.value * MAX_FEE_RATE
  }

  /** What the seven checks amount to. */
  ghost predicate Acceptable(pool: Pool, tx: Tx, chain: Chain) {
    && StructureOk(tx) && SignaturesOk(tx, chain) && InputsExist(chain, tx) && NoConflict(pool, tx)
    && FeeOk(tx, chain) && chain.transactionOk(tx) && PolicyOk(tx)
  }

  /** The checks in numbers. */
  lemma ChecksInNumbers(tx: Tx, chain: Chain)
    ensures StructureOk(tx) <==>
      && !tx.coinbase && |tx.inputs| > 0 && |tx.outputs| > 0 && tx.bytes.Some? && tx.bytes.value <= 100_000
      && forall i :: 0 <= i < |tx.outputs| ==> tx.outputs[i].value >= 546
    ensures PolicyOk(tx) <==> forall i :: 0 <= i < |tx.outputs| ==> tx.outputs[i].scriptLength <= 10_000
    ensures FeeOk(tx, chain) <==>
      && InputsExist(chain, tx) && tx.bytes.Some?
      && var fee := Saturated(InputTotal(chain, tx.inputs)) - OutputTotal(tx.outputs) % 0x1_0000_0000_0000_0000;
        1000 <= fee <= 10_000 * tx.bytes.value
  {
  }

  method ValidateStructure(tx: Tx) returns (ok: bool)
    ensures ok <==> StructureOk(tx)
  {
    if tx.coinbase || tx.inputs == [] || tx.outputs == [] { return false; }
    if tx.bytes.None? || tx.bytes.value > MAX_TX_SIZE { return false; }
    for i := 0 to |tx.outputs|
      invariant forall k :: 0 <= k < i ==> tx.outputs[k].value >= DUST
    {
      if tx.outputs[i].value == 0 { return false; }
      if tx.outputs[i].value < DUST { return false; }
    }
    return true;
  }

  method ValidateSignatures(tx: Tx, chain: Chain) returns (ok: bool)
    ensures ok <==> SignaturesOk(tx, chain)
  {
    for i := 0 to |tx.inputs|
      invariant forall k :: 0 <= k < i && chain.hasScript(tx, k) ==>
        tx.inputs[k] in chain.utxos && chain.scriptOk(tx, k)
    {
      if chain.hasScript(tx, i) {
        if tx.inputs[i] !in chain.utxos { return false; }
        if !chain.scriptOk(tx, i) { return false; }
      }
    }
    return true;
  }

  method ValidatePolicy(tx: Tx) returns (ok: bool)
    ensures ok <==> PolicyOk(tx)
  {
    for i := 0 to |tx.outputs|
      invariant forall k :: 0 <= k < i ==> tx.outputs[k].scriptLength <= MAX_SCRIPT
    {
      if tx.outputs[i].scriptLength > MAX_SCRIPT { return false; }
    }
    return true;
  }

  /** The saturating sum of the input values; none if an input does not exist. */
  method SumInputs(tx: Tx, chain: Chain) returns (r: Option<nat>)
    ensures r == if InputsExist(chain, tx) then Some(Saturated(InputTotal(chain, tx.inputs))) else None
  {
    var paid: nat := 0;
    for i := 0 to |tx.inputs|
      invariant forall k :: 0 <= k < i ==> tx.inputs[k] in chain.utxos
      invariant Saturated(paid + InputTotal(chain, tx.inputs[i..])) == Saturated(InputTotal(chain, tx.inputs))
      invariant paid < U64
    {
      assert tx.inputs[i] in tx.inputs;
      if tx.inputs[i] !in chain.utxos { return None; }
      paid := Saturated(paid + chain.utxos[tx.inputs[i]]);
    }
    return Some(paid);
  }

  /** The wrapping sum of the output values. */
  method SumOutputs(tx: Tx) returns (spent: nat)
    ensures spent == OutputTotal(tx.outputs) % U64
  {
    spent := 0;
    for i := 0 to |tx.outputs|
      invariant (spent + OutputTotal(tx.outputs[i..])) % U64 == OutputTotal(tx.outputs) % U64
      invariant spent < U64
    {
      WrapStep(spent, tx.outputs[i].value, OutputTotal(tx.outputs[i + 1..]));
      spent := (spent + tx.outputs[i].value) % U64;
    }
  }

  method ValidateFees(tx: Tx, chain: Chain) returns (ok: bool)
    ensures ok <==> FeeOk(tx, chain)
  {
    var paid := SumInputs(tx, chain);
    if paid.None? { return false; }
    var spent := SumOutputs(tx);
    if paid.value < spent { return false; }
    var fee := paid.value - spent;
    if fee < MIN_FEE { return false; }
    if tx.bytes.None? { return false; }
    if fee > tx.bytes.value * MAX_FEE_RATE { return false; }
    return true;
  }

  lemma WrapStep(a: nat, b: nat, c: nat)
    ensures ((a + b) % U64 + c) % U64 == (a + (b + c)) % U64
  {
    var q := (a + b) / U64;
    ModUnique(U64, (a + b) % U64 + c, ((a + b) % U64 + c) / U64, ((a + b) % U64 + c) % U64);
    ModUnique(U64, a + (b + c), ((a + b) % U64 + c) / U64 + q, ((a + b) % U64 + c) % U64);
  }

  /** Outputs of 2000 and 2^64 - 2000 pass the fee check on an input of 1000: their sum wraps to zero. */
  lemma WrappedOutputsPass(tx: Tx, chain: Chain)
    requires tx.inputs == [7] && tx.outputs == [Output(2000, 0), Output(U64 - 2000, 0)] && tx.bytes == Some(200)
    requires chain.utxos == map[7 := 1000]
    ensures FeeOk(tx, chain) && StructureOk(tx.(coinbase := false))
  {
    var last := tx.outputs[1..];
    assert last == [Output(U64 - 2000, 0)] && last[1..] == [];
    assert OutputTotal(last) == U64 - 2000;
    assert OutputTotal(tx.outputs) == U64;
    assert tx.inputs[1..] == [];
  }

  // ------------------------------------------------------------------------- template

  /** Fee per thousand bytes, with the 64-bit product of the program. */
  function FeeRate(pool: Pool, id: TxId): nat {
    if id in pool && pool[id].Size() > 0 then pool[id].fee * 1000 % U64 / pool[id].Size() else 0
  }

  /** Higher fee rate first, ties by transaction identifier. */
  function FeeOrder(pool: Pool): (TxId, TxId) -> bool {
    (a: TxId, b: TxId) => FeeRate(pool, a) > FeeRate(pool, b) || (FeeRate(pool, a) == FeeRate(pool, b) && a <= b)
  }

  lemma FeeOrderTotal(pool: Pool)
    ensures TotalOrder(FeeOrder(pool))
  {
    hide FeeRate;
  }

  function SizeOf(pool: Pool, id: TxId): nat {
    if id in pool then pool[id].Size() else 0
  }

  ghost function TotalSize(pool: Pool, ids: seq<TxId>): nat {
    if ids == [] then 0 else TotalSize(pool, ids[..|ids| - 1]) + SizeOf(pool, ids[|ids| - 1])
  }

  lemma NoSize(pool: Pool)
    ensures TotalSize(pool, []) == 0
  {
  }

  lemma TotalSizeStep(pool: Pool, ids: seq<TxId>, id: TxId)
    ensures TotalSize(pool, ids + [id]) == TotalSize(pool, ids) + SizeOf(pool, id)
  {
    assert (ids + [id])[..|ids|] == ids;
  }

  /** A prefix of the sorted candidates that fits, and that the next candidate would not. */
  ghost predicate IsTemplateOf(pool: Pool, maxSize: nat, sorted: seq<TxId>, ids: seq<TxId>) {
    && |ids| <= |sorted| && ids == sorted[..|ids|]
    && TotalSize(pool, ids) <= maxSize
    && (|ids| < |sorted| ==> TotalSize(pool, sorted[..|ids| + 1]) > maxSize)
  }

  ghost predicate IsTemplate(pool: Pool, maxSize: nat, ids: seq<TxId>) {
    exists sorted :: SortedListing(FeeOrder(pool), pool.Keys, sorted) && IsTemplateOf(pool, maxSize, sorted, ids)
  }

  /** Longer prefixes are at least as big. */
  lemma {:induction false} PrefixSizes(pool: Pool, sorted: seq<TxId>, i: nat, j: nat)
    requires i <= j <= |sorted|
    ensures TotalSize(pool, sorted[..i]) <= TotalSize(pool, sorted[..j])
    decreases j
  {
    if i < j {
      PrefixSizes(pool, sorted, i, j - 1);
      assert sorted[..j] == sorted[..j - 1] + [sorted[j - 1]];
      TotalSizeStep(pool, sorted[..j - 1], sorted[j - 1]);
    }
  }

  /** The template is the longest prefix of the fee order that fits: every fitting prefix is a prefix of it. */
  lemma TemplateLongest(pool: Pool, maxSize: nat, ids: seq<TxId>, sorted: seq<TxId>, k: nat)
    requires IsTemplate(pool, maxSize, ids) && SortedListing(FeeOrder(pool), pool.Keys, sorted)
    requires k <= |sorted|
    ensures |ids| <= |sorted| && ids == sorted[..|ids|]
    ensures TotalSize(pool, sorted[..k]) <= maxSize <==> k <= |ids|
  {
    hide FeeOrder, FeeRate, TotalOrder, Sorted, Lists, TotalSize;
    var s :| SortedListing(FeeOrder(pool), pool.Keys, s) && IsTemplateOf(pool, maxSize, s, ids);
    FeeOrderTotal(pool);
    SortedListingUnique(FeeOrder(pool), pool.Keys, s, sorted);
    if k <= |ids| {
      PrefixSizes(pool, sorted, k, |ids|);
    } else {
      PrefixSizes(pool, sorted, |ids| + 1, k);
    }
  }

  /** There is exactly one template: it cannot depend on the iteration order of the map. */
  lemma TemplateUnique(pool: Pool, maxSize: nat, a: seq<TxId>, b: seq<TxId>)
    requires IsTemplate(pool, maxSize, a) && IsTemplate(pool, maxSize, b)
    ensures a == b
  {
    var s :| SortedListing(FeeOrder(pool), pool.Keys, s) && IsTemplateOf(pool, maxSize, s, a);
    TemplateLongest(pool, maxSize, b, s, |a|);
    TemplateLongest(pool, maxSize, a, s, |b|);
  }

  /** Against a transaction that can be serialized: the fee per thousand bytes, rounded up, exceeds the
      other's; what cannot be serialized beats only what pays no unit. */
  ghost predicate PaysAtLeast(first: Tx, second: Tx)
    requires second.bytes.Some?
  {
    var n := second.bytes.value;
    if first.bytes == None || first.bytes == Some(0) then 1000 * second.fee < n
    else var m := first.bytes.value; 1000 * first.fee * n + m * n > 1000 * second.fee * m
  }

  /** The very same fee per byte. */
  ghost predicate SameRate(first: Tx, second: Tx)
    requires second.bytes.Some?
  {
    first.bytes.Some? && first.bytes.value > 0 && first.fee * second.bytes.value == second.fee * first.bytes.value
  }

  /** The template is ordered by fee per size: whatever comes after a listed transaction, or is left out, pays
      no more per byte, and with the very same rate has the larger identifier. The 64-bit products of the two
      are taken not to wrap. */
  lemma TemplateByFeeRate(pool: Pool, maxSize: nat, ids: seq<TxId>, i: nat, b: TxId)
    requires IsTemplate(pool, maxSize, ids) && i < |ids| && b in pool && b !in ids[..i + 1]
    requires forall id :: id in pool && id in {ids[i], b} ==> 1000 * pool[id].fee < U64
    requires pool[b].bytes.Some? && pool[b].bytes.value > 0
    ensures ids[i] in pool && PaysAtLeast(pool[ids[i]], pool[b])
    ensures SameRate(pool[ids[i]], pool[b]) ==> ids[i] < b
  {
    hide PaysAtLeast, SameRate, IsTemplate;
    TemplateOrdered(pool, maxSize, ids, i, b);
    OrderMeaning(pool, ids[i], b);
  }

  lemma OrderMeaning(pool: Pool, a: TxId, b: TxId)
    requires a in pool && b in pool && a != b && FeeOrder(pool)(a, b)
    requires 1000 * pool[a].fee < U64 && 1000 * pool[b].fee < U64
    requires pool[b].bytes.Some? && pool[b].bytes.value > 0
    ensures PaysAtLeast(pool[a], pool[b])
    ensures SameRate(pool[a], pool[b]) ==> a < b
  {
    hide PaysAtLeast, SameRate, FeeRate;
    var first, second := pool[a], pool[b];
    RateOf(pool, a);
    RateOf(pool, b);
    if first.Size() > 0 {
      RatesInOrder(first, second);
      if SameRate(first, second) { EqualRates(first, second); }
    } else {
      NoRate(first, second);
    }
  }

  lemma RateOf(pool: Pool, id: TxId)
    requires id in pool && 1000 * pool[id].fee < U64
    ensures FeeRate(pool, id) == if pool[id].Size() > 0 then pool[id].fee * 1000 / pool[id].Size() else 0
  {
  }

  lemma NoRate(first: Tx, second: Tx)
    requires first.Size() == 0 && second.bytes.Some? && second.bytes.value > 0
    ensures !SameRate(first, second)
    ensures second.fee * 1000 / second.Size() == 0 ==> PaysAtLeast(first, second)
  {
    DivBounds(second.fee * 1000, second.Size());
  }

  lemma TemplateOrdered(pool: Pool, maxSize: nat, ids: seq<TxId>, i: nat, b: TxId)
    requires IsTemplate(pool, maxSize, ids) && i < |ids| && b in pool && b !in ids[..i + 1]
    ensures ids[i] in pool && ids[i] != b && FeeOrder(pool)(ids[i], b)
  {
    hide FeeOrder, FeeRate, TotalSize;
    var s :| SortedListing(FeeOrder(pool), pool.Keys, s) && IsTemplateOf(pool, maxSize, s, ids);
    assert s[i] in s && b in s;
    var j :| 0 <= j < |s| && s[j] == b;
    forall k | 0 <= k <= i ensures s[k] != b {
      assert ids[..i + 1][k] == s[k];
    }
  }

  lemma RatesInOrder(first: Tx, second: Tx)
    requires first.Size() > 0 && second.bytes.Some? && second.Size() > 0
    requires first.fee * 1000 / first.Size() >= second.fee * 1000 / second.Size()
    ensures PaysAtLeast(first, second)
  {
    var f, m, g, n := first.fee * 1000, first.Size(), second.fee * 1000, second.Size();
    DivBounds(f, m);
    DivBounds(g, n);
    CrossRates(f, m, f / m, g, n, g / n);
  }

  lemma CrossRates(f: nat, m: nat, x: nat, g: nat, n: nat, y: nat)
    requires 0 < m && y <= x && x * m <= f && g < (y + 1) * n
    ensures f * n + m * n > g * m
  {
    MulLe(g + 1, (y + 1) * n, m);
    MulLe(y + 1, x + 1, n * m);
    MulLe(x * m, f, n);
    assert (y + 1) * n * m == (y + 1) * (n * m) && (x + 1) * (n * m) == x * m * n + m * n;
  }

  lemma EqualRates(first: Tx, second: Tx)
    requires second.bytes.Some? && second.Size() > 0 && SameRate(first, second)
    ensures first.fee * 1000 / first.Size() == second.fee * 1000 / second.Size()
  {
    EqualQuotients(first.fee, first.Size(), second.fee, second.Size());
  }

  lemma EqualQuotients(f: nat, m: nat, g: nat, n: nat)
    requires 0 < m && 0 < n && f * n == g * m
    ensures f * 1000 / m == g * 1000 / n
  {
    var x := f * 1000 / m;
    DivBounds(f * 1000, m);
    Thousandfold(f, m, g, n);
    CrossBelow(f * 1000, m, g * 1000, n, x);
    CrossAbove(f * 1000, m, g * 1000, n, x + 1);
    DivUnique(g * 1000, n, x);
  }

  lemma Thousandfold(f: nat, m: nat, g: nat, n: nat)
    requires f * n == g * m
    ensures (f * 1000) * n == (g * 1000) * m
  {
    assert (f * 1000) * n == 1000 * (f * n) && (g * 1000) * m == 1000 * (g * m);
  }

  lemma CrossBelow(f: nat, m: nat, g: nat, n: nat, x: nat)
    requires 0 < m && f * n == g * m && x * m <= f
    ensures x * n <= g
  {
    MulLe(x * m, f, n);
    assert x * m * n == x * n * m;
    MulOrder(x * n, g, m);
  }

  lemma CrossAbove(f: nat, m: nat, g: nat, n: nat, x: nat)
    requires 0 < n && f * n == g * m && f < x * m
    ensures g < x * n
  {
    MulLe(f + 1, x * m, n);
    assert x * m * n == x * n * m;
    if x * n <= g { MulLe(x * n, g, m); }
  }

  /** The rate is the fee per thousand bytes exactly as long as the 64-bit product does not wrap. */
  lemma RateExactIff(pool: Pool, id: TxId)
    requires id in pool && 0 < pool[id].Size() < U64
    ensures FeeRate(pool, id) == 1000 * pool[id].fee / pool[id].Size() <==> 1000 * pool[id].fee < U64
  {
    var n, k := 1000 * pool[id].fee, pool[id].Size();
    if n >= U64 {
      DivBounds(n % U64, k);
      DivBounds(n, k);
      assert n % U64 <= n - U64;
    }
  }

  /** The failing input: a fee whose product wraps to 384 is listed after one of a single unit. */
  lemma WrappedRateGoesLast(pool: Pool)
    requires 1 in pool && pool[1].fee == 18_446_744_073_709_552 && pool[1].bytes == Some(200)
    requires 2 in pool && pool[2].fee == 1 && pool[2].bytes == Some(200)
    ensures !FeeOrder(pool)(1, 2)
  {
    assert pool[1].fee * 1000 % U64 == 384;
    assert pool[2].fee * 1000 % U64 == 1000;
  }

  /** The template of a disjoint pool fits the block and spends no outpoint twice across transactions. */
  lemma TemplateSpendsOnce(pool: Pool, maxSize: nat, ids: seq<TxId>)
    requires Disjoint(pool) && IsTemplate(pool, maxSize, ids)
    ensures TotalSize(pool, ids) <= maxSize
    ensures forall i :: 0 <= i < |ids| ==> ids[i] in pool
    ensures forall i, j :: 0 <= i < j < |ids| ==> Apart(pool[ids[i]], pool[ids[j]])
  {
    var s :| SortedListing(FeeOrder(pool), pool.Keys, s) && IsTemplateOf(pool, maxSize, s, ids);
    forall i | 0 <= i < |ids| ensures ids[i] in pool { assert s[i] in s; }
  }
}
