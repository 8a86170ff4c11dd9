/** Exactly which nonces mining can return before its counter wraps (OxideHasher::mine_block,
    rusty-consensus/src/pow.rs): the winning ones that fewer winning ones precede than there are threads. */
module MinedNonces {
  import opened Arithmetic
  import opened Wrappers
  import opened Mining
  import opened Sorting

  /** The nonce makes the input's hash fall below the target. */
  predicate Wins(hash: PowHash, target: nat, input: Block, n: nat) {
    hash(input.header.(nonce := 0), n) < target
  }

  /** How many nonces below n win. */
  function Winners(hash: PowHash, target: nat, input: Block, n: nat): nat {
    if n == 0 then 0 else Winners(hash, target, input, n - 1) + if Wins(hash, target, input, n - 1) then 1 else 0
  }

  ghost predicate SameUpToNonce(a: Block, b: Block) {
    a.(header := a.header.(nonce := 0)) == b.(header := b.header.(nonce := 0))
  }

  lemma WinsIsHash(hash: PowHash, target: nat, input: Block, block: Block)
    requires SameUpToNonce(block, input)
    ensures BlockHash(hash, block) < target <==> Wins(hash, target, input, block.header.nonce)
  {
    assert block.header.(nonce := 0) == input.header.(nonce := 0);
  }

  // -------------------------------------------------- what testing a nonce decides

  /** A thread stops on a nonce exactly when verification would accept the block and its hash is not
      the target itself: the two comparisons differ in that one case. */
  lemma StopsIff(hash: PowHash, target: nat, s: State, t: nat)
    requires Enabled(s, TestNonce(t))
    ensures Apply(hash, target, s, TestNonce(t)).threads[t].pc.Storing?
      <==> Verify(hash, target, s.threads[t].block) && BlockHash(hash, s.threads[t].block) != target
  {
  }

  /** The failing input: with a hash equal to the target the block verifies and is passed over. */
  lemma ExactTargetPassedOver(hash: PowHash, s: State, t: nat)
    requires Enabled(s, TestNonce(t))
    ensures var target := BlockHash(hash, s.threads[t].block);
      && Verify(hash, target, s.threads[t].block)
      && Apply(hash, target, s, TestNonce(t)).threads[t].pc == InRound(s.threads[t].pc.tried + 1)
  {
  }

  // ------------------------------------------------------------------- necessity

  /** The thread has taken the nonce and will not let go of it unless it loses. */
  predicate Occupies(thread: Thread, m: nat) {
    thread.block.header.nonce == m && (thread.pc.Holding? || thread.pc.Storing? || HasSolution(thread))
  }

  /** Until the counter has wrapped, no thread that works on a nonce has changed the timestamp. */
  ghost predicate EarlyThread(input: Block, s: State, thread: Thread) {
    && (|s.handed| < U64 ==> SameUpToNonce(thread.block, input))
    && (thread.pc.Holding? || thread.pc.Storing? || HasSolution(thread) ==> SameUpToNonce(thread.block, input))
    && (thread.pc.Holding? || thread.pc.Storing? || HasSolution(thread) ==> thread.block.header.nonce < |s.handed|)
    && (thread.pc.InRound? && thread.pc.tried > 0 ==> thread.block.header.nonce < |s.handed|)
    && (HasSolution(thread) ==> thread.pc.solution == Some(thread.block))
  }

  /** Every winning nonce handed out is occupied. */
  ghost predicate WinnersOccupied(hash: PowHash, target: nat, input: Block, s: State) {
    forall m :: 0 <= m < |s.handed| && Wins(hash, target, input, m) ==>
      exists t :: 0 <= t < |s.threads| && Occupies(s.threads[t], m)
  }

  ghost predicate Early(hash: PowHash, target: nat, input: Block, s: State) {
    |s.handed| <= U64 ==>
      && s.counter == |s.handed| % U64
      && (forall t :: 0 <= t < |s.threads| ==> EarlyThread(input, s, s.threads[t]))
      && WinnersOccupied(hash, target, input, s)
  }

  lemma StepKeepsThreads(hash: PowHash, target: nat, input: Block, s: State, a: Action)
    requires Early(hash, target, input, s) && Enabled(s, a) && |Apply(hash, target, s, a).handed| <= U64
    ensures var s' := Apply(hash, target, s, a);
      && |s'.threads| == |s.threads| && s'.counter == |s'.handed| % U64
      && forall t :: 0 <= t < |s'.threads| ==> EarlyThread(input, s', s'.threads[t])
  {
    var s' := Apply(hash, target, s, a);
    if a.NextNonce? { NextResidue(|s.handed|); }
    forall t | 0 <= t < |s'.threads| ensures EarlyThread(input, s', s'.threads[t]) {
      assert EarlyThread(input, s, s.threads[t]);
    }
  }

  lemma StepKeepsOccupied(hash: PowHash, target: nat, input: Block, s: State, a: Action)
    requires Early(hash, target, input, s) && Enabled(s, a) && |Apply(hash, target, s, a).handed| <= U64
    ensures WinnersOccupied(hash, target, input, Apply(hash, target, s, a))
  {
    var s' := Apply(hash, target, s, a);
    forall m | 0 <= m < |s'.handed| && Wins(hash, target, input, m)
      ensures exists t :: 0 <= t < |s'.threads| && Occupies(s'.threads[t], m)
    {
      if m == |s.handed| {
        assert a.NextNonce? && Occupies(s'.threads[a.thread], m);
      } else {
        var t :| 0 <= t < |s.threads| && Occupies(s.threads[t], m);
        assert EarlyThread(input, s, s.threads[t]);
        WinsIsHash(hash, target, input, s.threads[t].block);
        assert Occupies(s'.threads[t], m);
      }
    }
  }

  lemma {:induction false} RunKeepsEarly(hash: PowHash, target: nat, input: Block, s: State, actions: seq<Action>)
    requires Early(hash, target, input, s) && Run(hash, target, s, actions).Some?
    ensures var s' := Run(hash, target, s, actions).value; Early(hash, target, input, s') && |s'.threads| == |s.threads|
    decreases |actions|
  {
    if actions != [] {
      var s' := Apply(hash, target, s, actions[0]);
      if |s'.handed| <= U64 {
        StepKeepsThreads(hash, target, input, s, actions[0]);
        StepKeepsOccupied(hash, target, input, s, actions[0]);
      }
      RunKeepsEarly(hash, target, input, s', actions[1..]);
    }
  }

  ghost function WinnerSet(hash: PowHash, target: nat, input: Block, n: nat): set<nat> {
    set m | 0 <= m < n && Wins(hash, target, input, m)
  }

  lemma {:induction false} WinnersCounted(hash: PowHash, target: nat, input: Block, n: nat)
    ensures |WinnerSet(hash, target, input, n)| == Winners(hash, target, input, n)
  {
    if n > 0 {
      WinnersCounted(hash, target, input, n - 1);
      var rest, all := WinnerSet(hash, target, input, n - 1), WinnerSet(hash, target, input, n);
      assert all == if Wins(hash, target, input, n - 1) then rest + {n - 1} else rest;
    } else {
      assert WinnerSet(hash, target, input, n) == {};
    }
  }

  ghost function NoncesOf(threads: seq<Thread>): set<nat> {
    set t | 0 <= t < |threads| :: threads[t].block.header.nonce
  }

  lemma {:induction false} FewNonces(threads: seq<Thread>)
    ensures |NoncesOf(threads)| <= |threads|
  {
    if threads == [] {
      assert NoncesOf(threads) == {};
    } else {
      var rest, last := threads[..|threads| - 1], threads[|threads| - 1];
      FewNonces(rest);
      assert forall t :: 0 <= t < |rest| ==> rest[t] == threads[t];
      assert NoncesOf(threads) == NoncesOf(rest) + {last.block.header.nonce};
    }
  }

  /** The nonce a run returned, if it has returned a block. */
  ghost predicate Returns(hash: PowHash, target: nat, input: Block, threads: nat, actions: seq<Action>, n: nat) {
    var s := Run(hash, target, Init(input, threads), actions);
    && s.Some? && |s.value.handed| <= U64
    && s.value.result.Some? && s.value.result.value.Some? && s.value.result.value.value.header.nonce == n
  }

  lemma ReturnedNonceWins(hash: PowHash, target: nat, input: Block, threads: nat, actions: seq<Action>, n: nat)
    requires Returns(hash, target, input, threads, actions, n)
    ensures n < U64 && Wins(hash, target, input, n) && Winners(hash, target, input, n) < threads
  {
    var init := Init(input, threads);
    RunKeepsInv(hash, target, input, init, actions);
    RunKeepsEarly(hash, target, input, init, actions);
    hide Inv, Early, Run;
    ReturnedStateWins(hash, target, input, Run(hash, target, init, actions).value, n);
  }

  lemma ReturnedStateWins(hash: PowHash, target: nat, input: Block, s: State, n: nat)
    requires Inv(hash, target, input, s) && Early(hash, target, input, s) && |s.handed| <= U64
    requires s.result.Some? && s.result.value.Some? && s.result.value.value.header.nonce == n
    ensures n < U64 && Wins(hash, target, input, n) && Winners(hash, target, input, n) < |s.threads|
  {
    hide Winners;
    var thread := s.threads[s.joined];
    assert GoodThread(hash, target, input, s, thread) && EarlyThread(input, s, thread);
    WinsIsHash(hash, target, input, thread.block);
    WinnersAmongThreads(hash, target, input, s, n + 1);
    OneWinnerMore(hash, target, input, n);
  }

  lemma OneWinnerMore(hash: PowHash, target: nat, input: Block, n: nat)
    requires Wins(hash, target, input, n)
    ensures Winners(hash, target, input, n + 1) == Winners(hash, target, input, n) + 1
  {
  }

  lemma WinnersAmongThreads(hash: PowHash, target: nat, input: Block, s: State, n: nat)
    requires WinnersOccupied(hash, target, input, s) && n <= |s.handed|
    ensures Winners(hash, target, input, n) <= |s.threads|
  {
    var winners := WinnerSet(hash, target, input, n);
    forall m | m in winners ensures m in NoncesOf(s.threads) {
      var t :| 0 <= t < |s.threads| && Occupies(s.threads[t], m);
    }
    SubsetSize(winners, NoncesOf(s.threads));
    FewNonces(s.threads);
    WinnersCounted(hash, target, input, n);
  }

  // ------------------------------------------------------------------- sufficiency

  lemma {:induction false} RunAppend(hash: PowHash, target: nat, s: State, actions: seq<Action>, a: Action)
    requires Run(hash, target, s, actions).Some? && Enabled(Run(hash, target, s, actions).value, a)
    ensures Run(hash, target, s, actions + [a]) == Some(Apply(hash, target, Run(hash, target, s, actions).value, a))
    decreases |actions|
  {
    if actions == [] {
      assert ([] + [a])[1..] == [];
    } else {
      RunAppend(hash, target, Apply(hash, target, s, actions[0]), actions[1..], a);
      assert (actions + [a])[1..] == actions[1..] + [a];
    }
  }

  /** Some run leads here. */
  ghost predicate Reachable(hash: PowHash, target: nat, input: Block, threads: nat, s: State) {
    exists actions :: Run(hash, target, Init(input, threads), actions) == Some(s)
  }

  lemma ReachNext(hash: PowHash, target: nat, input: Block, threads: nat, s: State, a: Action)
    requires Reachable(hash, target, input, threads, s) && Enabled(s, a)
    ensures Reachable(hash, target, input, threads, Apply(hash, target, s, a))
  {
    var actions :| Run(hash, target, Init(input, threads), actions) == Some(s);
    RunAppend(hash, target, Init(input, threads), actions, a);
  }

  /** Thread 0 is kept back for the nonce wanted; before it, threads 1, 2, ... take turns, each stopping
      at the winning nonce it is handed. */
  function Worker(parked: nat, all: nat): nat {
    if parked < all then parked + 1 else 0
  }

  /** The schedule after k nonces: as many threads hold a winning nonce as there were winners, one
      works, and the others have not begun. */
  ghost predicate Schedule(input: Block, s: State, threads: nat, k: nat, parked: nat, all: nat) {
    && Working(input, s, threads, k, parked, all)
    && s.threads[Worker(parked, all)].pc.tried < NONCES_PER_ROUND
  }

  ghost predicate Working(input: Block, s: State, threads: nat, k: nat, parked: nat, all: nat) {
    && parked <= all < threads == |s.threads| && k < U64
    && s.counter == k == |s.handed| && !s.found && s.joined == 0 && s.result == None
    && (forall t :: 0 <= t < threads ==> SameUpToNonce(s.threads[t].block, input))
    && (forall t :: 0 <= t < threads && t != Worker(parked, all) && !(1 <= t <= parked) ==> s.threads[t].pc == Top)
    && s.threads[Worker(parked, all)].pc.InRound? && s.threads[Worker(parked, all)].pc.tried <= NONCES_PER_ROUND
  }

  lemma ScheduleStart(hash: PowHash, target: nat, input: Block, threads: nat, all: nat) returns (s: State)
    requires all < threads
    ensures Reachable(hash, target, input, threads, s) && Schedule(input, s, threads, 0, 0, all)
  {
    var init, w := Init(input, threads), Worker(0, all);
    assert Run(hash, target, init, []) == Some(init);
    ReachNext(hash, target, input, threads, init, LoadFound(w, false));
    s := Apply(hash, target, init, LoadFound(w, false));
  }

  /** The worker is handed a winning nonce and holds on to it; the next thread begins. */
  lemma ScheduleWin(hash: PowHash, target: nat, input: Block, threads: nat, s: State, k: nat, parked: nat, all: nat)
    returns (r: State)
    requires Reachable(hash, target, input, threads, s) && Schedule(input, s, threads, k, parked, all)
    requires k + 1 < U64 && parked < all
    ensures Reachable(hash, target, input, threads, r) && Schedule(input, r, threads, k + 1, parked + 1, all)
  {
    var w, next := Worker(parked, all), Worker(parked + 1, all);
    ReachNext(hash, target, input, threads, s, NextNonce(w));
    var s1 := Apply(hash, target, s, NextNonce(w));
    ReachNext(hash, target, input, threads, s1, LoadFound(next, false));
    r := Apply(hash, target, s1, LoadFound(next, false));
  }

  /** The worker is handed a losing nonce and goes on, into a new round if need be. */
  lemma ScheduleLoss(hash: PowHash, target: nat, input: Block, threads: nat, s: State, k: nat, parked: nat, all: nat)
    returns (r: State)
    requires Reachable(hash, target, input, threads, s) && Schedule(input, s, threads, k, parked, all)
    requires k + 1 < U64 && !Wins(hash, target, input, k)
    ensures Reachable(hash, target, input, threads, r) && Schedule(input, r, threads, k + 1, parked, all)
  {
    hide Reachable;
    r := NonceLost(hash, target, input, threads, s, k, parked, all);
    if r.threads[Worker(parked, all)].pc.tried == NONCES_PER_ROUND {
      r := NewRound(hash, target, input, threads, r, k + 1, parked, all);
    }
  }

  lemma NonceLost(hash: PowHash, target: nat, input: Block, threads: nat, s: State, k: nat, parked: nat, all: nat)
    returns (r: State)
    requires Reachable(hash, target, input, threads, s) && Schedule(input, s, threads, k, parked, all)
    requires k + 1 < U64 && !Wins(hash, target, input, k)
    ensures Reachable(hash, target, input, threads, r) && Working(input, r, threads, k + 1, parked, all)
    ensures r.threads[Worker(parked, all)].block.header.nonce == k
  {
    hide Reachable;
    var w := Worker(parked, all);
    ReachNext(hash, target, input, threads, s, NextNonce(w));
    var s1 := Apply(hash, target, s, NextNonce(w));
    WinsIsHash(hash, target, input, s1.threads[w].block);
    ReachNext(hash, target, input, threads, s1, TestNonce(w));
    r := Apply(hash, target, s1, TestNonce(w));
  }

  lemma NewRound(hash: PowHash, target: nat, input: Block, threads: nat, s: State, k: nat, parked: nat, all: nat)
    returns (r: State)
    requires Reachable(hash, target, input, threads, s) && Working(input, s, threads, k, parked, all)
    requires s.threads[Worker(parked, all)].pc.tried == NONCES_PER_ROUND
    requires s.threads[Worker(parked, all)].block.header.nonce < U64 - 1
    ensures Reachable(hash, target, input, threads, r) && Schedule(input, r, threads, k, parked, all)
  {
    hide Reachable;
    var w := Worker(parked, all);
    ReachNext(hash, target, input, threads, s, EndRound(w));
    var s1 := Apply(hash, target, s, EndRound(w));
    ReachNext(hash, target, input, threads, s1, LoadFound(w, false));
    r := Apply(hash, target, s1, LoadFound(w, false));
  }

  lemma {:induction false} WinnersMonotone(hash: PowHash, target: nat, input: Block, k: nat, n: nat)
    requires k <= n
    ensures Winners(hash, target, input, k) <= Winners(hash, target, input, n)
    decreases n
  {
    if k < n { WinnersMonotone(hash, target, input, k, n - 1); }
  }

  lemma {:induction false} ScheduleReaches(hash: PowHash, target: nat, input: Block, threads: nat, n: nat,
                                           k: nat) returns (s: State)
    requires n < U64 && Winners(hash, target, input, n) < threads && k <= n
    ensures Reachable(hash, target, input, threads, s)
    ensures Schedule(input, s, threads, k, Winners(hash, target, input, k), Winners(hash, target, input, n))
    decreases k
  {
    hide Schedule, Reachable;
    var all := Winners(hash, target, input, n);
    if k == 0 {
      s := ScheduleStart(hash, target, input, threads, all);
    } else {
      var s0 := ScheduleReaches(hash, target, input, threads, n, k - 1);
      var parked := Winners(hash, target, input, k - 1);
      if Wins(hash, target, input, k - 1) {
        WinnersMonotone(hash, target, input, k, n);
        s := ScheduleWin(hash, target, input, threads, s0, k - 1, parked, all);
      } else {
        s := ScheduleLoss(hash, target, input, threads, s0, k - 1, parked, all);
      }
    }
  }

  lemma WinningNonceReturned(hash: PowHash, target: nat, input: Block, threads: nat,
                             n: nat) returns (actions: seq<Action>)
    requires n < U64 && Wins(hash, target, input, n) && Winners(hash, target, input, n) < threads
    ensures Returns(hash, target, input, threads, actions, n)
  {
    var s := ScheduleReaches(hash, target, input, threads, n, n);
    ReachNext(hash, target, input, threads, s, NextNonce(0));
    var s1 := Apply(hash, target, s, NextNonce(0));
    WinsIsHash(hash, target, input, s1.threads[0].block);
    ReachNext(hash, target, input, threads, s1, TestNonce(0));
    var s2 := Apply(hash, target, s1, TestNonce(0));
    ReachNext(hash, target, input, threads, s2, StoreFound(0));
    var s3 := Apply(hash, target, s2, StoreFound(0));
    ReachNext(hash, target, input, threads, s3, Join);
    var s4 := Apply(hash, target, s3, Join);
    actions :| Run(hash, target, Init(input, threads), actions) == Some(s4);
  }

  /** Before the counter wraps, some run returns the nonce n if and only if it wins and fewer smaller
      nonces win than there are threads. In particular a hash equal to the target is never returned. */
  lemma MinedNonceIff(hash: PowHash, target: nat, input: Block, threads: nat, n: nat)
    ensures (exists actions :: Returns(hash, target, input, threads, actions, n))
      <==> n < U64 && Wins(hash, target, input, n) && Winners(hash, target, input, n) < threads
  {
    hide Returns;
    if n < U64 && Wins(hash, target, input, n) && Winners(hash, target, input, n) < threads {
      var actions := WinningNonceReturned(hash, target, input, threads, n);
    }
    forall actions | Returns(hash, target, input, threads, actions, n)
      ensures n < U64 && Wins(hash, target, input, n) && Winners(hash, target, input, n) < threads
    {
      ReturnedNonceWins(hash, target, input, threads, actions, n);
    }
  }
}
