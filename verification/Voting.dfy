/** Bicameral voting on governance proposals (rusty-governance/src/voting_coordinator.rs). */
module Voting {
  import opened Wrappers
  import opened Sorting
  import opened Burning

  type Voter = nat

  datatype Chamber = PosTicket | Masternode

  datatype Choice = Yes | No | Abstain

  datatype Ballot = Ballot(proposal: ProposalId, voter: Voter, chamber: Chamber, choice: Choice)

  datatype Outcome = Approved | Rejected | Expired | QuorumMissed

  datatype Tally = Tally(yes: nat, no: nat, abstain: nat, total: nat)

  datatype VotingState = VotingState(proposal: Proposal, votes: map<Voter, Ballot>, power: Tally, pos: Tally, mn: Tally,
                                     isActive: bool, outcome: Option<Outcome>)

  const EMPTY_TALLY := Tally(0, 0, 0, 0)

  // -------------------------------------------------------------------------- tallies

  function Add(t: Tally, choice: Choice, amount: nat): Tally {
    match choice
    case Yes => t.(yes := t.yes + amount, total := t.total + amount)
    case No => t.(no := t.no + amount, total := t.total + amount)
    case Abstain => t.(abstain := t.abstain + amount, total := t.total + amount)
  }

  function NewState(p: Proposal): VotingState {
    VotingState(p, map[], EMPTY_TALLY, EMPTY_TALLY, EMPTY_TALLY, true, None)
  }

  /** The state after one more vote: power is added to the combined tally, one vote to the chamber's. */
  function Recorded(s: VotingState, b: Ballot, power: nat): VotingState {
    s.(votes := s.votes[b.voter := b],
       power := Add(s.power, b.choice, power),
       pos := if b.chamber == PosTicket then Add(s.pos, b.choice, 1) else s.pos,
       mn := if b.chamber == Masternode then Add(s.mn, b.choice, 1) else s.mn)
  }

  /** The distinct voters of one chamber that made one choice. */
  ghost function Voters(votes: map<Voter, Ballot>, chamber: Chamber, choice: Choice): set<Voter> {
    set v | v in votes && votes[v].chamber == chamber && votes[v].choice == choice
  }

  ghost predicate Balanced(t: Tally) {
    t.total == t.yes + t.no + t.abstain
  }

  /** A chamber's counters count the stored votes of that chamber. */
  ghost predicate Counts(t: Tally, votes: map<Voter, Ballot>, chamber: Chamber) {
    && t.yes == |Voters(votes, chamber, Yes)|
    && t.no == |Voters(votes, chamber, No)|
    && t.abstain == |Voters(votes, chamber, Abstain)|
    && Balanced(t)
  }

  /** Counters count stored votes, and no power is outside the three choices. */
  ghost predicate Tallied(s: VotingState) {
    && Balanced(s.power)
    && Counts(s.pos, s.votes, PosTicket) && Counts(s.mn, s.votes, Masternode)
    && FiledUnderVoter(s.votes, s.proposal.id)
  }

  ghost predicate FiledUnderVoter(votes: map<Voter, Ballot>, id: ProposalId) {
    forall v :: v in votes ==> votes[v].voter == v && votes[v].proposal == id
  }

  lemma NoVoters(chamber: Chamber, choice: Choice)
    ensures |Voters(map[], chamber, choice)| == 0
  {
    assert Voters(map[], chamber, choice) == {};
  }

  lemma NothingCounted(chamber: Chamber)
    ensures Counts(EMPTY_TALLY, map[], chamber)
  {
    hide Voters;
    NoVoters(chamber, Yes);
    NoVoters(chamber, No);
    NoVoters(chamber, Abstain);
  }

  lemma NothingFiled(id: ProposalId)
    ensures FiledUnderVoter(map[], id)
  {
  }

  lemma NewStateTallied(p: Proposal)
    ensures Tallied(NewState(p))
  {
    hide Counts, FiledUnderVoter;
    NothingFiled(p.id);
    NothingCounted(PosTicket);
    NothingCounted(Masternode);
  }

  lemma OneMoreVoter(votes: map<Voter, Ballot>, b: Ballot, chamber: Chamber, choice: Choice)
    requires b.voter !in votes
    ensures |Voters(votes[b.voter := b], chamber, choice)|
      == |Voters(votes, chamber, choice)| + if b.chamber == chamber && b.choice == choice then 1 else 0
  {
    var before, after := Voters(votes, chamber, choice), Voters(votes[b.voter := b], chamber, choice);
    if b.chamber == chamber && b.choice == choice {
      assert after == before + {b.voter};
    } else {
      assert after == before;
    }
  }

  lemma CountsStep(t: Tally, votes: map<Voter, Ballot>, b: Ballot, chamber: Chamber)
    requires Counts(t, votes, chamber) && b.voter !in votes
    ensures Counts(if b.chamber == chamber then Add(t, b.choice, 1) else t, votes[b.voter := b], chamber)
  {
    hide Voters;
    OneMoreVoter(votes, b, chamber, Yes);
    OneMoreVoter(votes, b, chamber, No);
    OneMoreVoter(votes, b, chamber, Abstain);
  }

  lemma RecordedTallied(s: VotingState, b: Ballot, power: nat)
    requires Tallied(s) && b.voter !in s.votes && b.proposal == s.proposal.id
    ensures Tallied(Recorded(s, b, power))
  {
    hide Counts;
    CountsStep(s.pos, s.votes, b, PosTicket);
    CountsStep(s.mn, s.votes, b, Masternode);
  }

  /** A ballot and the power it was cast with. */
  datatype Cast = Cast(ballot: Ballot, power: nat)

  function RecordAll(s: VotingState, casts: seq<Cast>): VotingState {
    if casts == [] then s
    else
      var last := casts[|casts| - 1];
      Recorded(RecordAll(s, casts[..|casts| - 1]), last.ballot, last.power)
  }

  ghost function PowerFor(casts: seq<Cast>, choice: Choice): nat {
    if casts == [] then 0
    else
      var last := casts[|casts| - 1];
      PowerFor(casts[..|casts| - 1], choice) + if last.ballot.choice == choice then last.power else 0
  }

  ghost predicate OneVotePerVoter(p: Proposal, casts: seq<Cast>) {
    && (forall i :: 0 <= i < |casts| ==> casts[i].ballot.proposal == p.id)
    && (forall i, j :: 0 <= i < j < |casts| ==> casts[i].ballot.voter != casts[j].ballot.voter)
  }

  ghost predicate Stored(votes: map<Voter, Ballot>, b: Ballot) {
    b.voter in votes && votes[b.voter] == b
  }

  /** Exactly the ballots cast are stored, each under its voter. */
  ghost predicate Stores(votes: map<Voter, Ballot>, casts: seq<Cast>) {
    && (forall v :: v in votes ==> exists i :: 0 <= i < |casts| && casts[i].ballot.voter == v)
    && (forall i :: 0 <= i < |casts| ==> Stored(votes, casts[i].ballot))
  }

  lemma StoresNone()
    ensures Stores(map[], [])
  {
  }

  lemma StoresStep(p: Proposal, votes: map<Voter, Ballot>, casts: seq<Cast>)
    requires casts != [] && OneVotePerVoter(p, casts) && Stores(votes, casts[..|casts| - 1])
    ensures casts[|casts| - 1].ballot.voter !in votes
    ensures var last := casts[|casts| - 1].ballot; Stores(votes[last.voter := last], casts)
  {
    var init, last := casts[..|casts| - 1], casts[|casts| - 1].ballot;
    forall v | v in votes ensures exists i :: 0 <= i < |casts| && casts[i].ballot.voter == v {
      var i :| 0 <= i < |init| && init[i].ballot.voter == v;
      assert casts[i] == init[i];
    }
    forall i | 0 <= i < |init| ensures Stored(votes, casts[i].ballot) {
      assert init[i] == casts[i];
    }
  }

  /** After any sequence of first votes the state is tallied, stores exactly the ballots cast, and each
      choice has the power cast for it. */
  lemma {:induction false} VotesAddUp(p: Proposal, casts: seq<Cast>)
    requires OneVotePerVoter(p, casts)
    ensures var s := RecordAll(NewState(p), casts);
      && Tallied(s) && s.proposal == p && s.isActive && Stores(s.votes, casts)
      && s.power.yes == PowerFor(casts, Yes) && s.power.no == PowerFor(casts, No)
      && s.power.abstain == PowerFor(casts, Abstain)
  {
    hide Tallied, Stores;
    if casts == [] {
      NewStateTallied(p);
      StoresNone();
    } else {
      var init, last := casts[..|casts| - 1], casts[|casts| - 1];
      VotesAddUp(p, init);
      var s := RecordAll(NewState(p), init);
      StoresStep(p, s.votes, casts);
      RecordedTallied(s, last.ballot, last.power);
    }
  }

  // -------------------------------------------------------------------------- outcome

  /** `x.ceil() as u64`: negative numbers become zero. */
  function CeilU64(x: real): nat {
    var c := -(-x).Floor;
    if c < 0 then 0 else c
  }

  function QuorumRequired(eligible: nat, quorum: real): nat {
    CeilU64(eligible as real * quorum)
  }

  function ChamberApproves(t: Tally, threshold: real): bool {
    t.yes + t.no > 0 && t.yes as real / (t.yes + t.no) as real >= threshold
  }

  /** What one finalization pass is given. */
  datatype Round = Round(height: nat, params: Params, liveTickets: nat, masternodes: nat)

  /** determine_proposal_outcome. */
  function DetermineOutcome(s: VotingState, round: Round): Outcome {
    if round.height < s.proposal.end then Expired
    else if s.pos.yes + s.pos.no < QuorumRequired(round.liveTickets, round.params.posQuorum)
      || s.mn.yes + s.mn.no < QuorumRequired(round.masternodes, round.params.mnQuorum) then QuorumMissed
    else if ChamberApproves(s.pos, round.params.posApproval)
      && ChamberApproves(s.mn, round.params.mnApproval) then Approved
    else Rejected
  }

  /** A chamber's verdict over its distinct voters, without counters, rounding or division. */
  ghost predicate Quorum(votes: map<Voter, Ballot>, chamber: Chamber, eligible: nat, quorum: real) {
    (|Voters(votes, chamber, Yes)| + |Voters(votes, chamber, No)|) as real >= eligible as real * quorum
  }

  ghost predicate Supermajority(votes: map<Voter, Ballot>, chamber: Chamber, approval: real) {
    var yes, no := |Voters(votes, chamber, Yes)|, |Voters(votes, chamber, No)|;
    yes + no > 0 && yes as real >= approval * (yes + no) as real
  }

  lemma CeilIsBound(n: nat, x: real)
    ensures n >= CeilU64(x) <==> n as real >= x
  {
  }

  lemma DivisionIsBound(yes: nat, all: nat, threshold: real)
    requires all > 0
    ensures yes as real / all as real >= threshold <==> yes as real >= threshold * all as real
  {
    var q := yes as real / all as real;
    assert q * all as real == yes as real;
    Scale(q, threshold, all as real);
  }

  lemma Scale(a: real, b: real, c: real)
    requires c > 0.0
    ensures a >= b <==> a * c >= b * c
  {
    if a >= b {
      assert (a - b) * c >= 0.0;
    } else {
      assert (b - a) * c > 0.0;
    }
  }

  ghost predicate BothQuorums(s: VotingState, round: Round) {
    && Quorum(s.votes, PosTicket, round.liveTickets, round.params.posQuorum)
    && Quorum(s.votes, Masternode, round.masternodes, round.params.mnQuorum)
  }

  ghost predicate BothApprove(s: VotingState, round: Round) {
    && Supermajority(s.votes, PosTicket, round.params.posApproval)
    && Supermajority(s.votes, Masternode, round.params.mnApproval)
  }

  /** In a tallied state the outcome is decided by the distinct voters alone: each outcome exactly
      when its bicameral condition holds. Voting power plays no part. */
  lemma OutcomeIff(s: VotingState, round: Round)
    requires Tallied(s)
    ensures var outcome, ended := DetermineOutcome(s, round), round.height >= s.proposal.end;
      && (outcome == Approved <==> ended && BothQuorums(s, round) && BothApprove(s, round))
      && (outcome == Rejected <==> ended && BothQuorums(s, round) && !BothApprove(s, round))
      && (outcome == QuorumMissed <==> ended && !BothQuorums(s, round))
      && (outcome == Expired <==> !ended)
  {
    hide QuorumRequired, Quorum, Supermajority, ChamberApproves, Voters;
    ChamberVerdict(s.pos, s.votes, PosTicket, round.liveTickets, round.params.posQuorum, round.params.posApproval);
    ChamberVerdict(s.mn, s.votes, Masternode, round.masternodes, round.params.mnQuorum, round.params.mnApproval);
  }

  lemma ChamberVerdict(t: Tally, votes: map<Voter, Ballot>, chamber: Chamber, eligible: nat, quorum: real,
                       approval: real)
    requires Counts(t, votes, chamber)
    ensures t.yes + t.no >= QuorumRequired(eligible, quorum) <==> Quorum(votes, chamber, eligible, quorum)
    ensures ChamberApproves(t, approval) <==> Supermajority(votes, chamber, approval)
  {
    hide QuorumRequired, Voters;
    QuorumIsBound(t.yes + t.no, eligible, quorum);
    ApprovalVerdict(t, approval);
  }

  lemma QuorumIsBound(n: nat, eligible: nat, quorum: real)
    ensures n >= QuorumRequired(eligible, quorum) <==> n as real >= eligible as real * quorum
  {
    CeilIsBound(n, eligible as real * quorum);
  }

  lemma ApprovalVerdict(t: Tally, approval: real)
    ensures ChamberApproves(t, approval) <==> t.yes + t.no > 0 && t.yes as real >= approval * (t.yes + t.no) as real
  {
    if t.yes + t.no > 0 { DivisionIsBound(t.yes, t.yes + t.no, approval); }
  }

  // ---------------------------------------------------------------------- coordinator

  type States = map<ProposalId, VotingState>

  ghost predicate StatesOk(states: States) {
    forall id :: id in states ==> states[id].proposal.id == id && Tallied(states[id])
  }

  ghost function Ended(active: States, height: nat, grace: nat): set<ProposalId> {
    set id | id in active && height >= active[id].proposal.end + grace
  }

  function Finalize(s: VotingState, round: Round): VotingState {
    s.(outcome := Some(DetermineOutcome(s, round)), isActive := false)
  }

  predicate ShouldBurn(outcome: Outcome) {
    outcome == Rejected || outcome == QuorumMissed
  }

  /** The burn a finalized proposal leads to. */
  function BurnOf(s: VotingState, round: Round, c: Config, executed: Executed)
    : Evaluation
  {
    if ShouldBurn(DetermineOutcome(s, round)) then
      Evaluate(s.proposal, round.height, c, executed, s.power.total, s.power.yes,
               s.power.yes + s.power.no + s.power.abstain, round.params)
    else NoBurn
  }

  ghost function BurnsOf(active: States, ids: set<ProposalId>, round: Round, c: Config, executed: Executed): Pending
  {
    map id | id in ids && id in active && BurnOf(active[id], round, c, executed).Scheduled? ::
      BurnOf(active[id], round, c, executed).burn
  }

  ghost function FinalizedOf(active: States, ids: set<ProposalId>, round: Round)
    : States
  {
    map id | id in ids && id in active :: Finalize(active[id], round)
  }

  /** Which finalized proposals are evaluated for burning: those that missed a quorum or an approval of the
      two chambers, with all power cast counted as participation. */
  lemma BurnedIff(s: VotingState, round: Round, c: Config, executed: Executed)
    requires Tallied(s)
    ensures BurnOf(s, round, c, executed)
      == if round.height >= s.proposal.end && !(BothQuorums(s, round) && BothApprove(s, round)) then
           Evaluate(s.proposal, round.height, c, executed, s.power.total, s.power.yes, s.power.total, round.params)
         else NoBurn
  {
    hide DetermineOutcome, BothQuorums, BothApprove, Evaluate, Counts;
    OutcomeIff(s, round);
  }

  /** A burn for insufficient participation is only ever scheduled for a proposal on which no power was
      cast; a missed quorum alone never leads to one. */
  lemma ParticipationBurnOnlyWithoutPower(s: VotingState, round: Round, c: Config, executed: Executed)
    requires Tallied(s) && 0.0 < c.minParticipation <= 1.0
    ensures var e := BurnOf(s, round, c, executed);
      e.Scheduled? && e.burn.reason == InsufficientParticipation ==>
        s.power.total == 0 && round.height >= s.proposal.end + c.gracePeriod && !s.proposal.malicious
  {
    hide DetermineOutcome, IsSpam, ViolatesRules, Undocumented, Counts, BurnAmount;
    var cast := s.power.yes + s.power.no + s.power.abstain;
    ParticipationBurnIff(s.proposal, round.height, c, executed, s.power.total, s.power.yes, cast, round.params);
  }

  predicate CanVote(s: VotingState, voter: Voter, eligible: bool) {
    s.isActive && voter !in s.votes && eligible
  }

  class VotingCoordinator {
    const finalizationGrace: nat
    const burning: StakeBurningManager
    var active: States
    var finalized: States

    /** Holds in every reachable state: all operations keep it and it starts out true. */
    ghost predicate Valid()
      reads this, burning
    {
      StatesOk(active) && StatesOk(finalized) && burning.Valid()
    }

    constructor (grace: nat, manager: StakeBurningManager)
      requires manager.Valid()
      ensures Valid() && active == map[] && finalized == map[] && burning == manager && finalizationGrace == grace
    {
      finalizationGrace, burning := grace, manager;
      active, finalized := map[], map[];
    }

    method AddProposal(p: Proposal, height: nat) returns (r: Check)
      requires Valid()
      modifies this`active
      ensures Valid()
      ensures r.Ok? <==> p.id !in old(active) && height < p.end && height < p.start
      ensures active == if r.Ok? then old(active)[p.id := NewState(p)] else old(active)
    {
      hide Tallied;
      if p.id in active { return Err("proposal already exists"); }
      if height >= p.end { return Err("already ended"); }
      if height >= p.start { return Err("already started"); }
      NewStateTallied(p);
      active := active[p.id := NewState(p)];
      return Ok(());
    }

    /** record_vote; `eligible` is the verdict of the signature and eligibility check. A voter's first
        vote is never replaced. */
    method RecordVote(b: Ballot, power: nat, eligible: bool) returns (r: Check)
      requires Valid()
      modifies this`active
      ensures Valid()
      ensures r.Ok? <==> b.proposal in old(active) && CanVote(old(active)[b.proposal], b.voter, eligible)
      ensures r.Ok? ==> active == old(active)[b.proposal := Recorded(old(active)[b.proposal], b, power)]
      ensures r.Err? ==> active == old(active)
    {
      hide Tallied;
      if b.proposal !in active { return Err("proposal not found"); }
      var s := active[b.proposal];
      if !s.isActive { return Err("proposal is not active"); }
      if b.voter in s.votes { return Err("already voted"); }
      if !eligible { return Err("vote validation failed"); }
      RecordedTallied(s, b, power);
      match b.choice {
        case Yes => s := s.(power := s.power.(yes := s.power.yes + power));
        case No => s := s.(power := s.power.(no := s.power.no + power));
        case Abstain => s := s.(power := s.power.(abstain := s.power.abstain + power));
      }
      if b.chamber == PosTicket {
        s := s.(pos := Add(s.pos, b.choice, 1));
      } else {
        s := s.(mn := Add(s.mn, b.choice, 1));
      }
      s := s.(power := s.power.(total := s.power.total + power));
      s := s.(votes := s.votes[b.voter := b]);
      active := active[b.proposal := s];
      return Ok(());
    }

    /** One proposal leaves the active map, is finalized, and its burn, if any, becomes pending. */
    method FinalizeOne(id: ProposalId, round: Round)
      requires Valid() && id in active
      modifies this, burning`pending
      ensures Valid()
      ensures active == old(active) - {id}
      ensures finalized == old(finalized)[id := Finalize(old(active)[id], round)]
      ensures var e := BurnOf(old(active)[id], round, burning.config, burning.executed);
        burning.pending == if e.Scheduled? then old(burning.pending)[id := e.burn] else old(burning.pending)
    {
      hide Tallied, DetermineOutcome, Evaluate;
      var s := active[id];
      active := active - {id};
      var outcome := DetermineOutcome(s, round);
      FinalizeTallied(s, round);
      if ShouldBurn(outcome) {
        var _ := burning.EvaluateProposalForBurning(s.proposal, round.height, s.power.total, s.power.yes,
                                                    s.power.yes + s.power.no + s.power.abstain, round.params);
      }
      finalized := finalized[id := s.(outcome := Some(outcome), isActive := false)];
    }

    /** process_ended_proposals: whatever the map order, exactly the proposals past their grace period
        are finalized, each with the outcome its distinct voters decide, and exactly the burns their
        evaluations call for become pending. */
    method ProcessEndedProposals(round: Round) returns (done: seq<ProposalId>)
      requires Valid()
      modifies this, burning`pending
      ensures Valid()
      ensures var ended := Ended(old(active), round.height, finalizationGrace);
        && Lists(done, ended)
        && active == old(active) - ended
        && finalized == old(finalized) + FinalizedOf(old(active), ended, round)
        && burning.pending == old(burning.pending) + BurnsOf(old(active), ended, round, burning.config,
                                                             burning.executed)
    {
      hide StatesOk, Finalize, BurnOf, Firsts, FinalizedOf, BurnsOf;
      ghost var before, oldFinalized, oldPending := active, finalized, burning.pending;
      var ended: set<ProposalId> :=
        set id | id in active && round.height >= active[id].proposal.end + finalizationGrace;
      done := Enumerate(ended);
      ProcessStart(before, oldFinalized, oldPending, done, round, burning.config, burning.executed);
      for i := 0 to |done|
        invariant burning.executed == old(burning.executed)
        invariant Valid()
        invariant active == before - Firsts(done, i)
        invariant finalized == oldFinalized + FinalizedOf(before, Firsts(done, i), round)
        invariant burning.pending == oldPending + BurnsOf(before, Firsts(done, i), round, burning.config,
                                                          burning.executed)
      {
        var id := done[i];
        assert id in done && id in before;
        NextFirst(done, i);
        ProcessStep(before, oldFinalized, oldPending, Firsts(done, i), id, round, burning.config, burning.executed);
        FinalizeOne(id, round);
      }
      AllFirsts(done, ended);
    }
  }

  lemma FinalizeTallied(s: VotingState, round: Round)
    requires Tallied(s)
    ensures Tallied(Finalize(s, round))
  {
    hide Counts;
  }

  lemma ProcessStart(before: States, finalized: States, pending: Pending, done: seq<ProposalId>, round: Round,
                     c: Config, executed: Executed)
    ensures before == before - Firsts(done, 0)
    ensures finalized == finalized + FinalizedOf(before, Firsts(done, 0), round)
    ensures pending == pending + BurnsOf(before, Firsts(done, 0), round, c, executed)
  {
    hide BurnOf, Finalize;
  }

  lemma ProcessStep(before: States, finalized: States, pending: Pending, ids: set<ProposalId>, id: ProposalId,
                    round: Round, c: Config, executed: Executed)
    requires id in before && id !in ids
    ensures before - (ids + {id}) == before - ids - {id}
    ensures finalized + FinalizedOf(before, ids + {id}, round)
      == (finalized + FinalizedOf(before, ids, round))
         [id := Finalize(before[id], round)]
    ensures var e := BurnOf(before[id], round, c, executed);
      var burns := pending + BurnsOf(before, ids, round, c, executed);
      pending + BurnsOf(before, ids + {id}, round, c, executed)
        == if e.Scheduled? then burns[id := e.burn] else burns
  {
    hide BurnOf, Finalize;
  }
}
