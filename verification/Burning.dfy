/** Stake burning for governance proposals (rusty-governance/src/stake_burning.rs). Percentages and
    rates are `f64` in the program and real numbers here. */
module Burning {
  import opened Arithmetic
  import opened Wrappers
  import opened Sorting
  import opened Sums

  type ProposalId = nat
  type OutPoint = nat

  datatype ProposalType = ProtocolUpgrade | ParameterChange | TreasurySpend | BugFix | CommunityFund

  /** `malicious` and `poorTitle` are the verdicts of the checks on the title and the new value's text. */
  datatype Proposal = Proposal(id: ProposalId, kind: ProposalType, start: nat, end: nat, malicious: bool,
                               poorTitle: bool,
                               descriptionHash: nat, hasCodeHash: bool, hasTarget: bool, inputs: seq<OutPoint>)

  datatype Reason = ProposalRejected | InsufficientParticipation | MaliciousProposal | InsufficientDocumentation
                  | ProtocolViolation | SpamProposal

  datatype Config = Config(rejection: real, malicious: real, participation: real, violation: real,
                           minParticipation: real, gracePeriod: nat)

  /** The governance part of ConsensusParams. */
  datatype Params = Params(stake: nat, approval: ProposalType -> real, posQuorum: real, mnQuorum: real,
                           posApproval: real, mnApproval: real)

  datatype PendingBurn = PendingBurn(id: ProposalId, stake: nat, burn: nat, reason: Reason, scheduled: nat,
                                     collateral: OutPoint)

  datatype ExecutedBurn = ExecutedBurn(id: ProposalId, burn: nat, reason: Reason)

  datatype Output = BurnOutput(value: nat) | StakeReturn(value: nat)

  datatype BurnTx = BurnTx(id: ProposalId, collateral: OutPoint, outputs: seq<Output>)

  datatype Evaluation = Scheduled(burn: PendingBurn) | NoBurn | Failed(reason: string)

  type Pending = map<ProposalId, PendingBurn>
  type Executed = map<ProposalId, ExecutedBurn>

  /** No share is more than the whole. */
  predicate SaneConfig(c: Config) {
    c.rejection <= 1.0 && c.malicious <= 1.0 && c.participation <= 1.0 && c.violation <= 1.0
  }

  function Percentage(c: Config, reason: Reason): real {
    match reason
    case ProposalRejected => c.rejection
    case InsufficientParticipation => c.participation
    case MaliciousProposal => c.malicious
    case InsufficientDocumentation => c.rejection
    case ProtocolViolation => c.violation
    case SpamProposal => c.malicious
  }

  function OtherBurns(executed: Executed, id: ProposalId): set<ProposalId> {
    set k | k in executed && executed[k].id != id
  }

  predicate IsSpam(p: Proposal, executed: Executed) {
    p.poorTitle || |OtherBurns(executed, p.id)| > 5
  }

  predicate ViolatesRules(p: Proposal) {
    p.end <= p.start || p.end - p.start < 1000 || p.end - p.start > 100000
  }

  predicate Undocumented(p: Proposal) {
    || p.descriptionHash == 0
    || (p.kind == ProtocolUpgrade && !p.hasCodeHash)
    || (p.kind == ParameterChange && !p.hasTarget)
  }

  /** part/whole, zero when there is no whole. */
  function Rate(part: nat, whole: nat): real {
    if whole > 0 then part as real / whole as real else 0.0
  }

  /** Why, if at all, a proposal is burned. */
  function BurnReason(p: Proposal, height: nat, c: Config, executed: Executed, power: nat, yes: nat, cast: nat,
                      params: Params)
    : Option<Reason>
  {
    if height <= p.end then None
    else if p.malicious then Some(MaliciousProposal)
    else if Rate(cast, power) < c.minParticipation then
      if height >= p.end + c.gracePeriod then Some(InsufficientParticipation) else None
    else if IsSpam(p, executed) then Some(SpamProposal)
    else if ViolatesRules(p) then Some(ProtocolViolation)
    else if Undocumented(p) then Some(InsufficientDocumentation)
    else if Rate(yes, cast) < params.approval(p.kind) then Some(ProposalRejected)
    else None
  }

  /** `(stake as f64 * percentage) as u64`: truncated, and never negative. */
  function BurnAmount(stake: nat, percentage: real): nat {
    var x := (stake as real * percentage).Floor;
    if x < 0 then 0 else x
  }

  function Evaluate(p: Proposal, height: nat, c: Config, executed: Executed, power: nat, yes: nat, cast: nat,
                    params: Params)
    : Evaluation
  {
    match BurnReason(p, height, c, executed, power, yes, cast, params)
    case None => NoBurn
    case Some(reason) =>
      if p.inputs == [] then Failed("no collateral input found")
      else Scheduled(PendingBurn(p.id, params.stake, BurnAmount(params.stake, Percentage(c, reason)), reason,
                                 height + 10, p.inputs[0]))
  }

  function BurnTransaction(b: PendingBurn): BurnTx {
    BurnTx(b.id, b.collateral, [BurnOutput(b.burn)] + if b.burn < b.stake then [StakeReturn(b.stake - b.burn)] else [])
  }

  ghost function OutputTotal(outputs: seq<Output>): nat {
    if outputs == [] then 0 else outputs[0].value + OutputTotal(outputs[1..])
  }

  /** The burn transaction pays out exactly the stake, if and only if no more than the stake is burned. */
  lemma BurnConservesStake(b: PendingBurn)
    ensures OutputTotal(BurnTransaction(b).outputs) == b.stake <==> b.burn <= b.stake
  {
    TotalOfOne(BurnOutput(b.burn));
    if b.burn < b.stake {
      TotalOfOne(StakeReturn(b.stake - b.burn));
      var outputs := [BurnOutput(b.burn)] + [StakeReturn(b.stake - b.burn)];
      assert outputs[1..] == [StakeReturn(b.stake - b.burn)];
    } else {
      assert [BurnOutput(b.burn)] + [] == [BurnOutput(b.burn)];
    }
  }

  lemma TotalOfOne(o: Output)
    ensures OutputTotal([o]) == o.value
  {
    assert [o][1..] == [];
  }

  /** With percentages between zero and one nothing beyond the stake is ever scheduled for burning. */
  lemma BurnWithinStake(p: Proposal, height: nat, c: Config, executed: Executed, power: nat, yes: nat, cast: nat,
                        params: Params)
    requires SaneConfig(c)
    ensures var e := Evaluate(p, height, c, executed, power, yes, cast, params);
      e.Scheduled? ==> e.burn.burn <= e.burn.stake && e.burn.id == p.id && e.burn.scheduled == height + 10
  {
    hide BurnAmount, BurnReason;
    var e := Evaluate(p, height, c, executed, power, yes, cast, params);
    if e.Scheduled? {
      AmountWithinStake(params.stake, Percentage(c, e.burn.reason));
    }
  }

  lemma AmountWithinStake(stake: nat, share: real)
    requires share <= 1.0
    ensures BurnAmount(stake, share) <= stake
  {
    ProductNonNegative(stake as real, 1.0 - share);
    assert stake as real - stake as real * share == stake as real * (1.0 - share);
    FloorWithin(stake as real * share, stake);
  }

  lemma FloorWithin(x: real, n: nat)
    requires x <= n as real
    ensures x.Floor <= n
  {
  }

  /** And only then: any share above the whole burns more than some stake. */
  lemma SaneIff(c: Config)
    ensures SaneConfig(c) <==> forall stake, reason :: BurnAmount(stake, Percentage(c, reason)) <= stake
  {
    hide BurnAmount;
    forall stake: nat, reason | SaneConfig(c) ensures BurnAmount(stake, Percentage(c, reason)) <= stake {
      AmountWithinStake(stake, Percentage(c, reason));
    }
    if reason :| Percentage(c, reason) > 1.0 {
      var stake := TooMuch(Percentage(c, reason));
    } else {
      assert Percentage(c, ProposalRejected) <= 1.0 && Percentage(c, MaliciousProposal) <= 1.0;
      assert Percentage(c, InsufficientParticipation) <= 1.0 && Percentage(c, ProtocolViolation) <= 1.0;
    }
  }

  lemma TooMuch(share: real) returns (stake: nat)
    requires share > 1.0
    ensures BurnAmount(stake, share) > stake
  {
    var excess := share - 1.0;
    stake := (1.0 / excess).Floor + 1;
    if stake as real * excess <= 1.0 { QuotientBound(stake as real, excess); }
    Distributed(stake as real, excess);
    FloorBeyond(stake as real * share, stake + 1);
  }

  lemma Distributed(x: real, y: real)
    ensures x * (1.0 + y) == x + x * y
  {
  }

  lemma FloorBeyond(x: real, n: nat)
    requires x >= n as real
    ensures x.Floor >= n
  {
  }

  lemma QuotientBound(x: real, y: real)
    requires y > 0.0 && x * y <= 1.0
    ensures x <= 1.0 / y
  {
  }

  /** When all power that counts towards the total was cast as some vote, a burn for insufficient
      participation happens exactly to harmless proposals on which nobody voted, after the grace period. */
  lemma ParticipationBurnIff(p: Proposal, height: nat, c: Config, executed: Executed, power: nat, yes: nat, cast: nat,
                             params: Params)
    requires cast == power && 0.0 < c.minParticipation <= 1.0
    ensures BurnReason(p, height, c, executed, power, yes, cast, params) == Some(InsufficientParticipation)
      <==> height > p.end && height >= p.end + c.gracePeriod && !p.malicious && power == 0
  {
    if power > 0 {
      assert power as real / power as real == 1.0;
    }
  }

  /** A share of the whole is below a threshold; nothing of nothing counts as zero. */
  ghost predicate ShareBelow(part: nat, whole: nat, threshold: real) {
    if whole == 0 then 0.0 < threshold else part as real < threshold * whole as real
  }

  lemma RateBelow(part: nat, whole: nat, threshold: real)
    ensures Rate(part, whole) < threshold <==> ShareBelow(part, whole, threshold)
  {
    if whole > 0 {
      var q, w := part as real / whole as real, whole as real;
      assert q * w == part as real;
      if q < threshold {
        ProductPositive(threshold - q, w);
        assert (threshold - q) * w == threshold * w - q * w;
      } else {
        ProductNonNegative(q - threshold, w);
        assert (q - threshold) * w == q * w - threshold * w;
      }
    }
  }

  lemma ProductPositive(a: real, b: real)
    requires 0.0 < a && 0.0 < b
    ensures 0.0 < a * b
  {
  }

  /** Which reason a proposal past its end is burned for: the first of six that applies, each stated over the
      proposal, the votes and the burns of other proposals. */
  lemma BurnReasonMeaning(p: Proposal, height: nat, c: Config, executed: Executed, power: nat, yes: nat, cast: nat,
                          params: Params)
    ensures var r := BurnReason(p, height, c, executed, power, yes, cast, params);
      var absent := ShareBelow(cast, power, c.minParticipation);
      var others := set k | k in executed && executed[k].id != p.id;
      var spam := p.poorTitle || |others| >= 6;
      var wrongLength := p.end < p.start + 1000 || p.end > p.start + 100000;
      var undocumented := p.descriptionHash == 0 || (p.kind == ProtocolUpgrade && !p.hasCodeHash)
                          || (p.kind == ParameterChange && !p.hasTarget);
      && (height <= p.end ==> r == None)
      && (height > p.end && p.malicious ==> r == Some(MaliciousProposal))
      && (height > p.end && !p.malicious && absent ==>
            r == if height < p.end + c.gracePeriod then None else Some(InsufficientParticipation))
      && (height > p.end && !p.malicious && !absent && spam ==> r == Some(SpamProposal))
      && (height > p.end && !p.malicious && !absent && !spam && wrongLength ==> r == Some(ProtocolViolation))
      && (height > p.end && !p.malicious && !absent && !spam && !wrongLength && undocumented ==>
            r == Some(InsufficientDocumentation))
      && (height > p.end && !p.malicious && !absent && !spam && !wrongLength && !undocumented ==>
            r == if ShareBelow(yes, cast, params.approval(p.kind)) then Some(ProposalRejected) else None)
  {
    hide Rate, ShareBelow;
    RateBelow(cast, power, c.minParticipation);
    RateBelow(yes, cast, params.approval(p.kind));
    assert OtherBurns(executed, p.id) == set k | k in executed && executed[k].id != p.id;
  }

  /** n is the share of the stake, rounded down; a negative share counts as zero. */
  ghost predicate ShareOf(n: nat, stake: nat, share: real) {
    var exact := stake as real * share;
    if exact < 0.0 then n == 0 else n as real <= exact < n as real + 1.0
  }

  /** What is scheduled: nothing without a reason, nothing but an error without collateral, and otherwise a burn
      ten blocks later of the reason's share of the stake. */
  lemma BurnShares(p: Proposal, height: nat, c: Config, executed: Executed, power: nat, yes: nat, cast: nat,
                   params: Params)
    ensures var e, reason := Evaluate(p, height, c, executed, power, yes, cast, params),
                             BurnReason(p, height, c, executed, power, yes, cast, params);
      && (e == NoBurn <==> reason == None) && (e.Failed? <==> reason.Some? && p.inputs == [])
    ensures var e := Evaluate(p, height, c, executed, power, yes, cast, params);
      e.Scheduled? ==>
        && e.burn.id == p.id && e.burn.scheduled == height + 10
        && BurnReason(p, height, c, executed, power, yes, cast, params) == Some(e.burn.reason)
        && e.burn.stake == params.stake && p.inputs != [] && e.burn.collateral == p.inputs[0]
        && (e.burn.reason in {MaliciousProposal, SpamProposal} ==> ShareOf(e.burn.burn, params.stake, c.malicious))
        && (e.burn.reason in {ProposalRejected, InsufficientDocumentation} ==>
              ShareOf(e.burn.burn, params.stake, c.rejection))
        && (e.burn.reason == InsufficientParticipation ==> ShareOf(e.burn.burn, params.stake, c.participation))
        && (e.burn.reason == ProtocolViolation ==> ShareOf(e.burn.burn, params.stake, c.violation))
  {
    hide BurnReason, BurnAmount, ShareOf;
    AmountIsShare(params.stake, c.malicious);
    AmountIsShare(params.stake, c.rejection);
    AmountIsShare(params.stake, c.participation);
    AmountIsShare(params.stake, c.violation);
  }

  lemma AmountIsShare(stake: nat, share: real)
    ensures ShareOf(BurnAmount(stake, share), stake, share)
  {
  }

  /** Every pending burn is filed under its own proposal and, with sane percentages, stays within its stake. */
  ghost predicate PendingOk(pending: Pending, c: Config) {
    forall id :: id in pending ==> pending[id].id == id && (SaneConfig(c) ==> pending[id].burn <= pending[id].stake)
  }

  ghost function Ready(pending: Pending, height: nat): set<ProposalId> {
    set id | id in pending && height >= pending[id].scheduled
  }

  ghost function Execution(b: PendingBurn): ExecutedBurn {
    ExecutedBurn(b.id, b.burn, b.reason)
  }

  /** The amounts behind the statistics. */
  ghost function Amounts(executed: Executed): map<ProposalId, nat> {
    map id | id in executed :: executed[id].burn
  }

  ghost function AmountsFor(executed: Executed, reason: Reason): map<ProposalId, nat> {
    map id | id in executed && executed[id].reason == reason :: executed[id].burn
  }

  /** What the burn outputs of one transaction destroy. */
  ghost function Burned(outputs: seq<Output>): nat {
    if outputs == [] then 0 else (if outputs[0].BurnOutput? then outputs[0].value else 0) + Burned(outputs[1..])
  }

  ghost function BurnedBy(txs: seq<BurnTx>): nat {
    if txs == [] then 0 else BurnedBy(txs[..|txs| - 1]) + Burned(txs[|txs| - 1].outputs)
  }

  /** A burn transaction spends the proposal's collateral and destroys the amount scheduled. */
  lemma BurnDestroys(b: PendingBurn)
    ensures BurnTransaction(b).collateral == b.collateral && BurnTransaction(b).id == b.id
    ensures Burned(BurnTransaction(b).outputs) == b.burn
  {
    var outputs := BurnTransaction(b).outputs;
    if b.burn < b.stake {
      assert outputs[1..] == [StakeReturn(b.stake - b.burn)] && outputs[1..][1..] == [];
      assert Burned(outputs[1..]) == 0;
    } else {
      assert outputs[1..] == [];
    }
  }

  class StakeBurningManager {
    const config: Config
    var pending: Pending
    var executed: Executed

    ghost predicate Valid()
      reads this
    {
      PendingOk(pending, config)
    }

    constructor (config: Config)
      ensures Valid() && pending == map[] && executed == map[] && this.config == config
    {
      this.config := config;
      pending, executed := map[], map[];
    }

    method EvaluateProposalForBurning(p: Proposal, height: nat, power: nat, yes: nat, cast: nat, params: Params)
      returns (r: Evaluation)
      requires Valid()
      modifies this`pending
      ensures Valid()
      ensures r == Evaluate(p, height, config, executed, power, yes, cast, params)
      ensures pending == if r.Scheduled? then old(pending)[p.id := r.burn] else old(pending)
    {
      if SaneConfig(config) { BurnWithinStake(p, height, config, executed, power, yes, cast, params); }
      var reason := BurnReason(p, height, config, executed, power, yes, cast, params);
      if reason == None { return NoBurn; }
      if p.inputs == [] { return Failed("no collateral input found"); }
      var burn := PendingBurn(p.id, params.stake, BurnAmount(params.stake, Percentage(config, reason.value)),
                              reason.value, height + 10, p.inputs[0]);
      pending := pending[p.id := burn];
      return Scheduled(burn);
    }

    /** Every burn that is due moves from pending to executed and yields one transaction, whatever the
        order in which the map is visited; each transaction pays out exactly the proposal's stake, and
        for burns not seen before the statistics grow by exactly what the transactions destroy. */
    method ExecutePendingBurns(height: nat) returns (txs: seq<BurnTx>)
      requires Valid()
      modifies this
      ensures Valid()
      ensures pending == old(pending) - Ready(old(pending), height)
      ensures executed == old(executed) + map id | id in Ready(old(pending), height) :: Execution(old(pending)[id])
      ensures |txs| == |Ready(old(pending), height)|
      ensures forall id :: id in Ready(old(pending), height) ==> BurnTransaction(old(pending)[id]) in txs
      ensures forall tx :: tx in txs ==> tx.id in Ready(old(pending), height)
      ensures forall tx :: tx in txs ==> tx == BurnTransaction(old(pending)[tx.id])
      ensures SaneConfig(config) ==> forall tx :: tx in txs ==> OutputTotal(tx.outputs) == old(pending)[tx.id].stake
      ensures Ready(old(pending), height) !! old(executed).Keys ==>
        Sum(Amounts(executed)) == Sum(Amounts(old(executed))) + BurnedBy(txs)
    {
      hide OutputTotal, Sum, Amounts, BurnedBy, BurnTransaction, ExecutedWith, TxsOf, Firsts;
      ghost var before, earlier := pending, executed;
      var due: set<ProposalId> := set id | id in pending && height >= pending[id].scheduled;
      var ready := Enumerate(due);
      ghost var unseen := due !! earlier.Keys;
      txs := [];
      ExecuteStart(before, earlier, ready);
      for i := 0 to |ready|
        invariant pending == before - Firsts(ready, i)
        invariant executed == ExecutedWith(earlier, before, Firsts(ready, i))
        invariant TxsOf(txs, before, Firsts(ready, i))
        invariant unseen ==> Sum(Amounts(executed)) == Sum(Amounts(earlier)) + BurnedBy(txs)
      {
        var id := ready[i];
        NextFirst(ready, i);
        assert id in ready && id in due;
        var burn := pending[id];
        assert burn == before[id];
        ExecuteStep(before, earlier, Firsts(ready, i), id, txs);
        var done := ExecutedBurn(burn.id, burn.burn, burn.reason);
        if unseen { ExecutedGrows(executed, id, done); }
        pending := pending - {id};
        executed := executed[id := done];
        txs := txs + [BurnTransaction(burn)];
      }
      AllFirsts(ready, due);
      ExecuteEnd(before, earlier, due, txs, config);
    }

    /** The reasons partition the total. */
    method GetBurnStatistics() returns (total: nat, byReason: map<Reason, nat>)
      ensures total == Sum(Amounts(executed)) == Sum(byReason)
      ensures forall reason :: reason in byReason ==> byReason[reason] == Sum(AmountsFor(executed, reason))
      ensures forall id :: id in executed ==> executed[id].reason in byReason
    {
      hide Sum;
      var order := Enumerate(executed.Keys);
      total, byReason := 0, map[];
      ghost var seen: Executed := map[];
      SumEmpty(Amounts(seen));
      SumEmpty(byReason);
      for i := 0 to |order|
        invariant seen.Keys == Firsts(order, i)
        invariant forall id :: id in seen ==> id in executed && seen[id] == executed[id]
        invariant total == Sum(Amounts(seen)) == Sum(byReason)
        invariant Grouped(seen, byReason)
      {
        NextFirst(order, i);
        var id := order[i];
        assert id in order;
        GroupStep(seen, byReason, id, executed[id]);
        total := total + executed[id].burn;
        byReason := Grown(byReason, executed[id]);
        seen := seen[id := executed[id]];
      }
      AllFirsts(order, executed.Keys);
      assert seen == executed;
    }
  }

  // ----------------------------------------------------------------- the loops' lemmas

  ghost function Firsts(s: seq<ProposalId>, i: nat): set<ProposalId>
    requires i <= |s|
  {
    set x | x in s[..i]
  }

  lemma NextFirst(s: seq<ProposalId>, i: nat)
    requires NoDuplicates(s) && i < |s|
    ensures s[i] !in Firsts(s, i) && Firsts(s, i + 1) == Firsts(s, i) + {s[i]}
  {
    assert s[..i + 1] == s[..i] + [s[i]];
  }

  lemma AllFirsts(s: seq<ProposalId>, all: set<ProposalId>)
    requires Lists(s, all)
    ensures Firsts(s, |s|) == all
  {
    assert s[..|s|] == s;
  }

  ghost function ExecutedWith(done: Executed, before: Pending, ids: set<ProposalId>): Executed {
    done + map id | id in ids && id in before :: Execution(before[id])
  }

  ghost predicate TxsOf(txs: seq<BurnTx>, before: Pending, ids: set<ProposalId>) {
    && (forall tx :: tx in txs ==> tx.id in ids && tx.id in before && tx == BurnTransaction(before[tx.id]))
    && (forall id :: id in ids && id in before ==> BurnTransaction(before[id]) in txs)
    && |txs| == |ids|
  }

  lemma ExecuteStart(before: Pending, done: Executed, ready: seq<ProposalId>)
    ensures before == before - Firsts(ready, 0) && done == ExecutedWith(done, before, Firsts(ready, 0))
    ensures TxsOf([], before, Firsts(ready, 0)) && BurnedBy([]) == 0
  {
  }

  lemma ExecuteStep(before: Pending, done: Executed, ids: set<ProposalId>, id: ProposalId, txs: seq<BurnTx>)
    requires id in before && id !in ids && before[id].id == id && TxsOf(txs, before, ids)
    ensures before - (ids + {id}) == before - ids - {id}
    ensures id !in done ==> id !in ExecutedWith(done, before, ids)
    ensures ExecutedWith(done, before, ids + {id}) == ExecutedWith(done, before, ids)[id := Execution(before[id])]
    ensures TxsOf(txs + [BurnTransaction(before[id])], before, ids + {id})
    ensures BurnedBy(txs + [BurnTransaction(before[id])]) == BurnedBy(txs) + before[id].burn
  {
    hide BurnTransaction, TxsOf, BurnedBy;
    TxsStep(before, ids, id, txs);
    BurnedStep(txs, before[id]);
  }

  lemma TxsStep(before: Pending, ids: set<ProposalId>, id: ProposalId, txs: seq<BurnTx>)
    requires id in before && id !in ids && before[id].id == id && TxsOf(txs, before, ids)
    ensures TxsOf(txs + [BurnTransaction(before[id])], before, ids + {id})
  {
    assert BurnTransaction(before[id]).id == id;
    hide BurnTransaction;
  }

  lemma BurnedStep(txs: seq<BurnTx>, b: PendingBurn)
    ensures BurnedBy(txs + [BurnTransaction(b)]) == BurnedBy(txs) + b.burn
  {
    assert (txs + [BurnTransaction(b)])[..|txs|] == txs;
    BurnDestroys(b);
  }

  lemma ExecuteEnd(before: Pending, done: Executed, due: set<ProposalId>, txs: seq<BurnTx>, c: Config)
    requires due <= before.Keys && PendingOk(before, c) && TxsOf(txs, before, due)
    ensures ExecutedWith(done, before, due) == done + map id | id in due :: Execution(before[id])
    ensures |txs| == |due|
    ensures forall tx :: tx in txs ==> tx.id in due && tx == BurnTransaction(before[tx.id])
    ensures forall id :: id in due ==> BurnTransaction(before[id]) in txs
    ensures SaneConfig(c) ==> forall tx :: tx in txs ==> OutputTotal(tx.outputs) == before[tx.id].stake
  {
    forall tx | SaneConfig(c) && tx in txs ensures OutputTotal(tx.outputs) == before[tx.id].stake {
      BurnConservesStake(before[tx.id]);
    }
  }

  lemma ExecutedGrows(executed: Executed, id: ProposalId, e: ExecutedBurn)
    requires id !in executed
    ensures Sum(Amounts(executed[id := e])) == Sum(Amounts(executed)) + e.burn
  {
    assert Amounts(executed[id := e]) == Amounts(executed)[id := e.burn];
    SumAdd(Amounts(executed), id, e.burn);
  }

  /** The fold's accumulator after one more burn. */
  function Grown(byReason: map<Reason, nat>, e: ExecutedBurn): map<Reason, nat> {
    byReason[e.reason := (if e.reason in byReason then byReason[e.reason] else 0) + e.burn]
  }

  ghost predicate Grouped(seen: Executed, byReason: map<Reason, nat>) {
    && (forall reason :: reason in byReason ==> byReason[reason] == Sum(AmountsFor(seen, reason)))
    && (forall id :: id in seen ==> seen[id].reason in byReason)
  }

  lemma GroupStep(seen: Executed, byReason: map<Reason, nat>, id: ProposalId, e: ExecutedBurn)
    requires id !in seen && Grouped(seen, byReason)
    ensures Grouped(seen[id := e], Grown(byReason, e))
    ensures Sum(Amounts(seen[id := e])) == Sum(Amounts(seen)) + e.burn
    ensures Sum(Grown(byReason, e)) == Sum(byReason) + e.burn
  {
    hide Sum;
    ExecutedGrows(seen, id, e);
    if e.reason in byReason {
      SumReplace(byReason, e.reason, byReason[e.reason] + e.burn);
    } else {
      SumAdd(byReason, e.reason, e.burn);
      SumEmpty(AmountsFor(seen, e.reason));
    }
    forall reason | reason in Grown(byReason, e)
      ensures Grown(byReason, e)[reason] == Sum(AmountsFor(seen[id := e], reason))
    {
      if reason == e.reason {
        assert AmountsFor(seen[id := e], reason) == AmountsFor(seen, reason)[id := e.burn];
        SumAdd(AmountsFor(seen, reason), id, e.burn);
      } else {
        assert AmountsFor(seen[id := e], reason) == AmountsFor(seen, reason);
      }
    }
  }
}
