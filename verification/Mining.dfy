/** Multi-threaded mining (OxideHasher::mine_block, rusty-consensus/src/pow.rs): worker threads
    share a nonce counter and a `found` flag and are joined in order by the caller. The protocol
    is a state machine; a run is any interleaving of thread steps and joins. */
module Mining {
  import opened Arithmetic
  import opened Wrappers

  const NONCES_PER_ROUND: nat := 10_000

  datatype Header = Header(version: nat, height: nat, previousHash: int, merkleRoot: int, stateRoot: int,
                           timestamp: nat, bits: nat, nonce: nat)

  datatype Block = Block(header: Header, votes: seq<int>, transactions: seq<int>)

  /** The proof-of-work hash of a header with its nonce zeroed, and a nonce, as a 256-bit number. */
  type PowHash = (Header, nat) -> nat

  function BlockHash(hash: PowHash, block: Block): nat {
    hash(block.header.(nonce := 0), block.header.nonce)
  }

  /** OxideHasher::verify. */
  predicate Verify(hash: PowHash, target: nat, block: Block) {
    !(BlockHash(hash, block) > target)
  }

  ghost predicate SameUpToNonceAndTime(a: Block, b: Block) {
    a.(header := a.header.(nonce := 0, timestamp := 0)) == b.(header := b.header.(nonce := 0, timestamp := 0))
  }

  // ------------------------------------------------------------------- the protocol

  /** Where a worker is: at the top of its loop, about to take the (tried+1)-th nonce of a round,
      holding the nonce handed out as number `ticket`, about to store the flag, or returned. */
  datatype Pc =
    | Top
    | InRound(tried: nat)
    | Holding(tried: nat, ticket: nat)
    | Storing
    | Returned(solution: Option<Block>)

  datatype Thread = Thread(pc: Pc, block: Block)

  /** `handed` is the history of values returned by the counter; `joined` and `result` are the
      caller's join loop. */
  datatype State = State(counter: nat, found: bool, threads: seq<Thread>, handed: seq<nat>,
                         joined: nat, result: Option<Option<Block>>)

  /** The flag is loaded with relaxed ordering: a load may miss a store, but never invents one. */
  datatype Action =
    | LoadFound(thread: nat, seen: bool)
    | NextNonce(thread: nat)
    | TestNonce(thread: nat)
    | EndRound(thread: nat)
    | StoreFound(thread: nat)
    | Join

  function Init(block: Block, threads: nat): State {
    State(0, false, seq(threads, _ => Thread(Top, block)), [], 0, None)
  }

  predicate Enabled(s: State, a: Action) {
    match a
    case LoadFound(t, seen) => t < |s.threads| && s.threads[t].pc.Top? && (seen ==> s.found)
    case NextNonce(t) => t < |s.threads| && s.threads[t].pc.InRound? && s.threads[t].pc.tried < NONCES_PER_ROUND
    case TestNonce(t) => t < |s.threads| && s.threads[t].pc.Holding?
    case EndRound(t) => t < |s.threads| && s.threads[t].pc == InRound(NONCES_PER_ROUND)
    case StoreFound(t) => t < |s.threads| && s.threads[t].pc.Storing?
    case Join => s.result.None? && (s.joined < |s.threads| ==> s.threads[s.joined].pc.Returned?)
  }

  function Update(s: State, t: nat, thread: Thread): State
    requires t < |s.threads|
  {
    s.(threads := s.threads[t := thread])
  }

  function Apply(hash: PowHash, target: nat, s: State, a: Action): State
    requires Enabled(s, a)
  {
    match a
    case LoadFound(t, seen) =>
      Update(s, t, s.threads[t].(pc := if seen then Returned(None) else InRound(0)))
    case NextNonce(t) =>
      var nonce := s.counter;
      var block := s.threads[t].block;
      Update(s, t, Thread(Holding(s.threads[t].pc.tried, |s.handed|), block.(header := block.header.(nonce := nonce))))
        .(counter := (s.counter + 1) % U64, handed := s.handed + [nonce])
    case TestNonce(t) =>
      var thread := s.threads[t];
      Update(s, t, thread.(pc := if BlockHash(hash, thread.block) < target then Storing
                                 else InRound(thread.pc.tried + 1)))
    case EndRound(t) =>
      var block := s.threads[t].block;
      var next := if block.header.nonce == U64 - 1
                  then block.(header := block.header.(timestamp := (block.header.timestamp + 1) % U64, nonce := 0))
                  else block;
      Update(s, t, Thread(Top, next))
    case StoreFound(t) =>
      Update(s, t, s.threads[t].(pc := Returned(Some(s.threads[t].block)))).(found := true)
    case Join =>
      if s.joined == |s.threads| then s.(result := Some(None))
      else if s.joined < |s.threads| && s.threads[s.joined].pc.solution.Some? then
        s.(result := Some(s.threads[s.joined].pc.solution))
      else s.(joined := s.joined + 1)
  }

  /** The state after a list of actions, if each is enabled in turn. */
  function Run(hash: PowHash, target: nat, s: State, actions: seq<Action>): Option<State>
    decreases |actions|
  {
    if actions == [] then Some(s)
    else if !Enabled(s, actions[0]) then None
    else Run(hash, target, Apply(hash, target, s, actions[0]), actions[1..])
  }

  // ------------------------------------------------------------------- the invariant

  ghost predicate GoodThread(hash: PowHash, target: nat, input: Block, s: State, thread: Thread) {
    && SameUpToNonceAndTime(thread.block, input)
    && (thread.pc.InRound? ==> thread.pc.tried <= NONCES_PER_ROUND)
    && (thread.pc.Holding? ==> thread.pc.tried < NONCES_PER_ROUND)
    && (thread.pc.Holding? ==> thread.pc.ticket < |s.handed|)
    && (thread.pc.Holding? ==> thread.block.header.nonce == s.handed[thread.pc.ticket])
    && (thread.pc.Storing? ==> BlockHash(hash, thread.block) < target)
    && (thread.pc.Returned? ==> match thread.pc.solution
        case Some(b) => b == thread.block && BlockHash(hash, b) < target
        case None => s.found)
  }

  /** The counter hands out 0, 1, 2, ... modulo 2^64. */
  ghost predicate CounterInv(s: State) {
    && s.counter == |s.handed| % U64
    && forall i :: 0 <= i < |s.handed| ==> s.handed[i] == i % U64
  }

  ghost predicate TicketsDistinct(s: State) {
    forall t, u :: 0 <= t < u < |s.threads| && s.threads[t].pc.Holding? && s.threads[u].pc.Holding?
      ==> s.threads[t].pc.ticket != s.threads[u].pc.ticket
  }

  predicate HasSolution(thread: Thread) { thread.pc.Returned? && thread.pc.solution.Some? }

  /** The flag is set exactly when some thread has returned a solution. */
  ghost predicate FoundInv(s: State) {
    s.found <==> exists t :: 0 <= t < |s.threads| && HasSolution(s.threads[t])
  }

  ghost predicate JoinInv(s: State) {
    && s.joined <= |s.threads|
    && (forall t :: 0 <= t < s.joined ==> s.threads[t].pc == Returned(None))
    && (s.result.Some? ==> match s.result.value
        case None => s.joined == |s.threads|
        case Some(b) => s.joined < |s.threads| && s.threads[s.joined].pc == Returned(Some(b)))
  }

  ghost predicate Inv(hash: PowHash, target: nat, input: Block, s: State) {
    && (forall t :: 0 <= t < |s.threads| ==> GoodThread(hash, target, input, s, s.threads[t]))
    && CounterInv(s) && TicketsDistinct(s) && FoundInv(s) && JoinInv(s)
  }

  lemma ApplyKeepsThreads(hash: PowHash, target: nat, input: Block, s: State, a: Action)
    requires Inv(hash, target, input, s) && Enabled(s, a)
    ensures var s' := Apply(hash, target, s, a);
      |s'.threads| == |s.threads|
      && forall t :: 0 <= t < |s'.threads| ==> GoodThread(hash, target, input, s', s'.threads[t])
  {
    var s' := Apply(hash, target, s, a);
    forall t | 0 <= t < |s'.threads| ensures GoodThread(hash, target, input, s', s'.threads[t]) {
      assert GoodThread(hash, target, input, s, s.threads[t]);
    }
  }

  lemma ApplyKeepsCounter(hash: PowHash, target: nat, s: State, a: Action)
    requires CounterInv(s) && Enabled(s, a)
    ensures CounterInv(Apply(hash, target, s, a))
  {
    if a.NextNonce? {
      NextResidue(|s.handed|);
    }
  }

  lemma NextResidue(n: nat)
    ensures (n % U64 + 1) % U64 == (n + 1) % U64
  {
  }

  lemma ApplyKeepsTickets(hash: PowHash, target: nat, input: Block, s: State, a: Action)
    requires Inv(hash, target, input, s) && Enabled(s, a)
    ensures TicketsDistinct(Apply(hash, target, s, a))
  {
    assert forall t :: 0 <= t < |s.threads| ==> GoodThread(hash, target, input, s, s.threads[t]);
  }

  lemma ApplyKeepsFound(hash: PowHash, target: nat, s: State, a: Action)
    requires FoundInv(s) && Enabled(s, a)
    ensures FoundInv(Apply(hash, target, s, a))
  {
    var s' := Apply(hash, target, s, a);
    if s.found {
      var t :| 0 <= t < |s.threads| && HasSolution(s.threads[t]);
      assert HasSolution(s'.threads[t]);
    } else if a.StoreFound? {
      assert HasSolution(s'.threads[a.thread]);
    } else {
      forall t | 0 <= t < |s'.threads| ensures !HasSolution(s'.threads[t]) {
        assert !HasSolution(s.threads[t]);
      }
    }
  }

  lemma ApplyKeepsJoin(hash: PowHash, target: nat, s: State, a: Action)
    requires JoinInv(s) && Enabled(s, a)
    ensures JoinInv(Apply(hash, target, s, a))
  {
  }

  lemma {:induction false} RunKeepsInv(hash: PowHash, target: nat, input: Block, s: State, actions: seq<Action>)
    requires Inv(hash, target, input, s) && Run(hash, target, s, actions).Some?
    ensures var s' := Run(hash, target, s, actions).value;
      Inv(hash, target, input, s') && |s'.threads| == |s.threads|
    decreases |actions|
  {
    if actions != [] {
      var a := actions[0];
      ApplyKeepsThreads(hash, target, input, s, a);
      ApplyKeepsCounter(hash, target, s, a);
      ApplyKeepsTickets(hash, target, input, s, a);
      ApplyKeepsFound(hash, target, s, a);
      ApplyKeepsJoin(hash, target, s, a);
      RunKeepsInv(hash, target, input, Apply(hash, target, s, a), actions[1..]);
    }
  }

  // --------------------------------------------------------------------- theorems

  /** Whatever the interleaving: if mine_block returns, it returns no block only when it was given
      no threads; a block it returns is accepted by verify and differs from the input only in
      nonce and timestamp. */
  lemma MinedBlockVerifies(hash: PowHash, target: nat, input: Block, threads: nat, actions: seq<Action>)
    requires Run(hash, target, Init(input, threads), actions).Some?
    requires Run(hash, target, Init(input, threads), actions).value.result.Some?
    ensures var result := Run(hash, target, Init(input, threads), actions).value.result.value;
      && (result.None? <==> threads == 0)
      && (result.Some? ==> Verify(hash, target, result.value) && SameUpToNonceAndTime(result.value, input))
  {
    var s := Run(hash, target, Init(input, threads), actions).value;
    RunKeepsInv(hash, target, input, Init(input, threads), actions);
    if threads > 0 { assert GoodThread(hash, target, input, s, s.threads[0]); }
    if s.result.value.Some? {
      assert GoodThread(hash, target, input, s, s.threads[s.joined]);
    }
  }

  /** In every run the i-th and j-th nonces handed out are equal exactly when j - i is a multiple of
      2^64, so none is handed out twice before the counter wraps. */
  lemma NoncesRepeatOnlyByWrapping(hash: PowHash, target: nat, input: Block, threads: nat, actions: seq<Action>,
                                   i: nat, j: nat)
    requires Run(hash, target, Init(input, threads), actions).Some?
    requires i < j < |Run(hash, target, Init(input, threads), actions).value.handed|
    ensures var handed := Run(hash, target, Init(input, threads), actions).value.handed;
      handed[i] == handed[j] <==> (j - i) % U64 == 0
  {
    RunKeepsInv(hash, target, input, Init(input, threads), actions);
    SameResidue(i, j);
  }

  lemma SameResidue(i: nat, j: nat)
    requires i < j
    ensures i % U64 == j % U64 <==> (j - i) % U64 == 0
  {
    assert j - i == (j / U64 - i / U64) * U64 + (j % U64 - i % U64);
  }

  /** Before the counter wraps, no two threads ever hold the same nonce at once. */
  lemma NoSharedNonce(hash: PowHash, target: nat, input: Block, threads: nat, actions: seq<Action>, t: nat, u: nat)
    requires Run(hash, target, Init(input, threads), actions).Some?
    requires var s := Run(hash, target, Init(input, threads), actions).value;
      |s.handed| <= U64 && t < u < |s.threads| && s.threads[t].pc.Holding? && s.threads[u].pc.Holding?
    ensures var s := Run(hash, target, Init(input, threads), actions).value;
      s.threads[t].block.header.nonce != s.threads[u].block.header.nonce
  {
    var s := Run(hash, target, Init(input, threads), actions).value;
    RunKeepsInv(hash, target, input, Init(input, threads), actions);
    assert GoodThread(hash, target, input, s, s.threads[t]);
    assert GoodThread(hash, target, input, s, s.threads[u]);
  }

  /** No run gets stuck: until mine_block has its result, a thread can move or the caller can join. */
  lemma NeverStuck(hash: PowHash, target: nat, input: Block, threads: nat, actions: seq<Action>) returns (a: Action)
    requires Run(hash, target, Init(input, threads), actions).Some?
    requires Run(hash, target, Init(input, threads), actions).value.result.None?
    ensures Enabled(Run(hash, target, Init(input, threads), actions).value, a)
  {
    var s := Run(hash, target, Init(input, threads), actions).value;
    RunKeepsInv(hash, target, input, Init(input, threads), actions);
    var t := s.joined;
    if t == |s.threads| { return Join; }
    assert GoodThread(hash, target, input, s, s.threads[t]);
    match s.threads[t].pc {
      case Top => a := LoadFound(t, false);
      case InRound(tried) => a := if tried < NONCES_PER_ROUND then NextNonce(t) else EndRound(t);
      case Holding(_, _) => a := TestNonce(t);
      case Storing => a := StoreFound(t);
      case Returned(_) => a := Join;
    }
  }

  /** Once every thread has returned, joining alone ends the call, with the first thread's solution if it has
      one, else the next one's, and so on. */
  lemma {:induction false} JoiningEnds(hash: PowHash, target: nat, s: State) returns (joins: seq<Action>)
    requires s.result.None? && JoinInv(s) && forall t :: 0 <= t < |s.threads| ==> s.threads[t].pc.Returned?
    ensures |joins| <= |s.threads| - s.joined + 1 && forall i :: 0 <= i < |joins| ==> joins[i] == Join
    ensures Run(hash, target, s, joins).Some?
    ensures var end := Run(hash, target, s, joins).value; end.result.Some? && JoinInv(end) && end.threads == s.threads
    decreases |s.threads| - s.joined
  {
    var next := Apply(hash, target, s, Join);
    ApplyKeepsJoin(hash, target, s, Join);
    var rest := [];
    if next.result.None? {
      rest := JoiningEnds(hash, target, next);
    } else {
      assert Run(hash, target, next, rest) == Some(next);
    }
    joins := [Join] + rest;
    assert joins[1..] == rest;
  }

  /** How often a thread ended a round on the last nonce there is. */
  ghost function LastNonces(hash: PowHash, target: nat, s: State, actions: seq<Action>, t: nat): nat
    requires Run(hash, target, s, actions).Some? && t < |s.threads|
    decreases |actions|
  {
    if actions == [] then 0
    else
      (if actions[0] == EndRound(t) && s.threads[t].block.header.nonce == 0xffff_ffff_ffff_ffff then 1 else 0)
      + LastNonces(hash, target, Apply(hash, target, s, actions[0]), actions[1..], t)
  }

  /** In every run a thread's timestamp is the one it started with, moved on a second each time it ended a
      round on the last nonce, and nothing else moves it. */
  lemma {:induction false} TimestampCounts(hash: PowHash, target: nat, s: State, actions: seq<Action>, t: nat)
    requires Run(hash, target, s, actions).Some? && t < |s.threads|
    requires s.threads[t].block.header.timestamp < U64
    ensures t < |Run(hash, target, s, actions).value.threads|
    ensures Run(hash, target, s, actions).value.threads[t].block.header.timestamp
      == (s.threads[t].block.header.timestamp + LastNonces(hash, target, s, actions, t)) % U64
    decreases |actions|
  {
    if actions != [] {
      var next := Apply(hash, target, s, actions[0]);
      TimestampCounts(hash, target, next, actions[1..], t);
      LaterSeconds(s.threads[t].block.header.timestamp, LastNonces(hash, target, next, actions[1..], t));
    }
  }

  lemma LaterSeconds(time: nat, n: nat)
    ensures ((time + 1) % U64 + n) % U64 == (time + (1 + n)) % U64
  {
  }

  /** The nonce starts over with the new second. */
  lemma RoundStartsOver(hash: PowHash, target: nat, s: State, t: nat)
    requires Enabled(s, EndRound(t))
    ensures var before, after := s.threads[t].block.header, Apply(hash, target, s, EndRound(t)).threads[t].block.header;
      after.nonce == if before.nonce == 0xffff_ffff_ffff_ffff then 0 else before.nonce
  {
  }

  /** Mining is strict where verification is not: a block whose hash equals the target verifies, but
      no run ever returns it. */
  lemma ExactTargetIsNeverMined(hash: PowHash, target: nat, input: Block, threads: nat, actions: seq<Action>)
    requires Run(hash, target, Init(input, threads), actions).Some?
    requires var r := Run(hash, target, Init(input, threads), actions).value.result; r.Some? && r.value.Some?
    ensures BlockHash(hash, Run(hash, target, Init(input, threads), actions).value.result.value.value) != target
  {
    var s := Run(hash, target, Init(input, threads), actions).value;
    RunKeepsInv(hash, target, input, Init(input, threads), actions);
    assert GoodThread(hash, target, input, s, s.threads[s.joined]);
  }
}
