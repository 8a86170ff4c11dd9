/** Block finality (is_block_final in rusty-consensus/src/pos_selection.rs) and the slashing of the
    tickets that break it (rusty-consensus/src/pos_slashing.rs). */
module Finality {
  import opened Arithmetic
  import opened Wrappers
  import opened Sorting
  import opened Tickets

  const MAX_POS_SLASHING_PROOF_SIZE: nat := 4096
  const POS_SLASHING_COOLDOWN_BLOCKS: nat := 10080

  // ------------------------------------------------------------------------- finality

  /** The votes that name a block, whatever they say of it. */
  ghost function VotesFor(hash: Hash, votes: seq<Vote>): nat {
    if votes == [] then 0 else (if votes[0].blockHash == hash then 1 else 0) + VotesFor(hash, votes[1..])
  }

  /** The votes naming the block are at least two thirds of the committee, rounded down. */
  ghost predicate Final(hash: Hash, votes: seq<Vote>, selected: seq<TicketId>) {
    selected != [] && 3 * VotesFor(hash, votes) + 2 >= 2 * |selected|
  }

  /** is_block_final: neither the choice, nor the voter's selection, nor repetition is looked at. */
  method IsBlockFinal(hash: Hash, votes: seq<Vote>, selected: seq<TicketId>) returns (final: bool)
    ensures final <==> selected != [] && 3 * VotesFor(hash, votes) + 2 >= 2 * |selected|
    ensures final <==> Final(hash, votes, selected)
  {
    if selected == [] { return false; }
    var count := 0;
    for i := 0 to |votes|
      invariant count + VotesFor(hash, votes[i..]) == VotesFor(hash, votes)
    {
      if votes[i].blockHash == hash { count := count + 1; }
    }
    return count >= |selected| * 2 / 3;
  }

  function Max(a: nat, b: nat): nat { if a <= b then b else a }

  /** At most one vote per ticket, all from the electorate. */
  ghost predicate DrawnFrom(votes: seq<Vote>, electorate: set<TicketId>) {
    && DistinctVoters(votes)
    && forall i :: 0 <= i < |votes| ==> votes[i].ticket in electorate
  }

  /** Everyone whose vote validate_ticket_votes lets through. */
  ghost function Electorate(pool: Pool, height: nat): set<TicketId> {
    set id | id in pool && pool[id].status == Live && !HasExpired(pool[id], height)
  }

  lemma CheckedVotesDrawn(pool: Pool, votes: seq<Vote>, height: nat)
    requires VotesOk(pool, votes, height)
    ensures DrawnFrom(votes, Electorate(pool, height))
  {
    forall i | 0 <= i < |votes| ensures votes[i].ticket in Electorate(pool, height) {
      assert VoteOk(pool, votes[i], height);
    }
  }

  /** The tickets whose vote names the block. */
  ghost function Voters(hash: Hash, votes: seq<Vote>): set<TicketId> {
    set i | 0 <= i < |votes| && votes[i].blockHash == hash :: votes[i].ticket
  }

  /** Distinct voters: votes and voters are equally many. */
  lemma {:induction false} VotersCounted(hash: Hash, votes: seq<Vote>)
    requires DistinctVoters(votes)
    ensures |Voters(hash, votes)| == VotesFor(hash, votes)
  {
    if votes == [] {
      assert Voters(hash, votes) == {};
    } else {
      var rest := votes[1..];
      VotersCounted(hash, rest);
      VotersStep(hash, votes);
    }
  }

  lemma VotersStep(hash: Hash, votes: seq<Vote>)
    requires votes != [] && DistinctVoters(votes)
    ensures votes[0].ticket !in Voters(hash, votes[1..])
    ensures Voters(hash, votes)
      == Voters(hash, votes[1..]) + (if votes[0].blockHash == hash then {votes[0].ticket} else {})
  {
    var rest := votes[1..];
    forall t | t in Voters(hash, votes)
      ensures t in Voters(hash, rest) || (votes[0].blockHash == hash && t == votes[0].ticket)
    {
      var i :| 0 <= i < |votes| && votes[i].blockHash == hash && votes[i].ticket == t;
      if i > 0 { assert rest[i - 1] == votes[i]; }
    }
    forall t | t in Voters(hash, rest) ensures t in Voters(hash, votes) && t != votes[0].ticket {
      var i :| 0 <= i < |rest| && rest[i].blockHash == hash && rest[i].ticket == t;
      assert votes[i + 1] == rest[i];
    }
  }

  /** The tickets that signed a vote naming either block. */
  ghost function DoubleVoters(first: Hash, firstVotes: seq<Vote>, second: Hash, secondVotes: seq<Vote>): set<TicketId> {
    Voters(first, firstVotes) * Voters(second, secondVotes)
  }

  lemma UnionBound(a: set<TicketId>, b: set<TicketId>, all: set<TicketId>)
    requires a <= all && b <= all
    ensures |a| + |b| <= |all| + |a * b|
  {
    assert |a + b| + |a * b| == |a| + |b|;
    SubsetSize(a + b, all);
  }

  /** Two blocks final over the same n selected tickets, by votes from the same electorate, share at
      least 2*floor(2n/3) - |electorate| tickets whose votes name both. */
  lemma ConflictingFinalityOverlap(electorate: set<TicketId>, selected: seq<TicketId>, first: Hash,
                                   firstVotes: seq<Vote>,
                                   second: Hash, secondVotes: seq<Vote>)
    requires DrawnFrom(firstVotes, electorate) && DrawnFrom(secondVotes, electorate)
    requires Final(first, firstVotes, selected) && Final(second, secondVotes, selected)
    ensures 2 * (2 * |selected| / 3) <= |electorate| + |DoubleVoters(first, firstVotes, second, secondVotes)|
  {
    VotersCounted(first, firstVotes);
    VotersCounted(second, secondVotes);
    UnionBound(Voters(first, firstVotes), Voters(second, secondVotes), electorate);
  }

  /** Both blocks are final, each by votes of at least `quota` tickets of the electorate, and no ticket's
      votes name both. */
  ghost predicate Split(electorate: set<TicketId>, quota: nat, selected: seq<TicketId>,
                        first: Hash, firstVotes: seq<Vote>, second: Hash, secondVotes: seq<Vote>)
  {
    && DrawnFrom(firstVotes, electorate) && DrawnFrom(secondVotes, electorate)
    && quota <= |firstVotes| && quota <= |secondVotes|
    && Final(first, firstVotes, selected) && Final(second, secondVotes, selected)
    && DoubleVoters(first, firstVotes, second, secondVotes) == {}
  }

  /** A split needs an electorate of the quota and of twice the threshold. */
  lemma SplitNeeds(electorate: set<TicketId>, quota: nat, selected: seq<TicketId>,
                   first: Hash, firstVotes: seq<Vote>, second: Hash, secondVotes: seq<Vote>)
    requires Split(electorate, quota, selected, first, firstVotes, second, secondVotes)
    ensures quota <= |electorate| && 2 * (2 * |selected| / 3) <= |electorate|
  {
    ConflictingFinalityOverlap(electorate, selected, first, firstVotes, second, secondVotes);
    DrawnAtMost(firstVotes, electorate);
  }

  lemma DrawnAtMost(votes: seq<Vote>, electorate: set<TicketId>)
    requires DrawnFrom(votes, electorate)
    ensures |votes| <= |electorate|
  {
    var tickets := seq(|votes|, i requires 0 <= i < |votes| => votes[i].ticket);
    var voters := set t | t in tickets;
    ListingLength(tickets, voters);
    SubsetSize(voters, electorate);
  }

  /** Everyone votes: tickets from..to for one block, the others for another. */
  function Ballots(tickets: seq<TicketId>, from: nat, to: nat, hash: Hash, other: Hash): seq<Vote> {
    seq(|tickets|, i requires 0 <= i < |tickets| => Vote(tickets[i], if from <= i < to then hash else other, 0, []))
  }

  lemma BallotsCounted(tickets: seq<TicketId>, from: nat, to: nat, hash: Hash, other: Hash)
    requires NoDuplicates(tickets) && from <= to <= |tickets| && hash != other
    ensures var votes := Ballots(tickets, from, to, hash, other);
      && DistinctVoters(votes) && VotesFor(hash, votes) == to - from
      && Voters(hash, votes) == set t | t in tickets[from..to]
  {
    var votes, range := Ballots(tickets, from, to, hash, other), tickets[from..to];
    forall t ensures t in Voters(hash, votes) <==> t in range {
      if t in range {
        var k :| 0 <= k < |range| && range[k] == t;
        assert votes[from + k].blockHash == hash && votes[from + k].ticket == t;
      }
      if t in Voters(hash, votes) {
        var i :| 0 <= i < |votes| && votes[i].blockHash == hash && votes[i].ticket == t;
        assert range[i - from] == t;
      }
    }
    VotersCounted(hash, votes);
    ListingLength(range, Voters(hash, votes));
  }

  /** And such an electorate suffices. */
  lemma SplitExists(electorate: set<TicketId>, quota: nat, selected: seq<TicketId>, first: Hash, second: Hash)
    returns (firstVotes: seq<Vote>, secondVotes: seq<Vote>)
    requires selected != [] && first != second
    requires quota <= |electorate| && 2 * (2 * |selected| / 3) <= |electorate|
    ensures Split(electorate, quota, selected, first, firstVotes, second, secondVotes)
    ensures forall i :: 0 <= i < |firstVotes| ==> firstVotes[i].choice == 0
    ensures forall i :: 0 <= i < |secondVotes| ==> secondVotes[i].choice == 0
  {
    hide VotesFor;
    var t := 2 * |selected| / 3;
    var tickets := SomeListing<TicketId>(electorate);
    ListingLength(tickets, electorate);
    firstVotes, secondVotes := Ballots(tickets, 0, t, first, second), Ballots(tickets, t, 2 * t, second, first);
    BallotsCounted(tickets, 0, t, first, second);
    BallotsCounted(tickets, t, 2 * t, second, first);
    ApartSlices(tickets, t);
  }

  lemma ApartSlices(tickets: seq<TicketId>, t: nat)
    requires NoDuplicates(tickets) && 2 * t <= |tickets|
    ensures (set x | x in tickets[0..t]) !! (set x | x in tickets[t..2 * t])
  {
  }

  /** Two different blocks can become final, by lists that pass validate_ticket_votes, without any
      ticket's votes naming both, exactly when there are three live tickets and twice the threshold: the
      votes of tickets that were not selected count. */
  lemma FinalityAccountableIff(pool: Pool, height: nat, selected: seq<TicketId>, first: Hash, second: Hash)
    requires selected != [] && first != second
    ensures (exists a, b :: CheckedSplit(pool, height, selected, first, a, second, b))
      <==> |Electorate(pool, height)| >= Max(MIN_VALID_VOTES_REQUIRED, 2 * (2 * |selected| / 3))
  {
    hide VotesFor, Split, Electorate;
    var electorate := Electorate(pool, height);
    if |electorate| >= MIN_VALID_VOTES_REQUIRED && |electorate| >= 2 * (2 * |selected| / 3) {
      var a, b := SplitExists(electorate, MIN_VALID_VOTES_REQUIRED, selected, first, second);
      SplitIsChecked(pool, height, selected, first, a, second, b);
    }
    forall a, b | CheckedSplit(pool, height, selected, first, a, second, b)
      ensures |electorate| >= MIN_VALID_VOTES_REQUIRED && |electorate| >= 2 * (2 * |selected| / 3)
    {
      CheckedIsSplit(pool, height, selected, first, a, second, b);
      SplitNeeds(electorate, MIN_VALID_VOTES_REQUIRED, selected, first, a, second, b);
    }
  }

  /** Both lists pass vote validation, both blocks are final, and no ticket's votes name both. */
  ghost predicate CheckedSplit(pool: Pool, height: nat, selected: seq<TicketId>,
                               first: Hash, firstVotes: seq<Vote>, second: Hash, secondVotes: seq<Vote>)
  {
    && VotesOk(pool, firstVotes, height) && VotesOk(pool, secondVotes, height)
    && Final(first, firstVotes, selected) && Final(second, secondVotes, selected)
    && DoubleVoters(first, firstVotes, second, secondVotes) == {}
  }

  lemma CheckedIsSplit(pool: Pool, height: nat, selected: seq<TicketId>, first: Hash, a: seq<Vote>, second: Hash,
                       b: seq<Vote>)
    requires CheckedSplit(pool, height, selected, first, a, second, b)
    ensures Split(Electorate(pool, height), MIN_VALID_VOTES_REQUIRED, selected, first, a, second, b)
  {
    CheckedVotesDrawn(pool, a, height);
    CheckedVotesDrawn(pool, b, height);
  }

  lemma SplitIsChecked(pool: Pool, height: nat, selected: seq<TicketId>, first: Hash, a: seq<Vote>, second: Hash,
                       b: seq<Vote>)
    requires Split(Electorate(pool, height), MIN_VALID_VOTES_REQUIRED, selected, first, a, second, b)
    requires forall i :: 0 <= i < |a| ==> a[i].choice == 0
    requires forall i :: 0 <= i < |b| ==> b[i].choice == 0
    ensures CheckedSplit(pool, height, selected, first, a, second, b)
  {
    forall i | 0 <= i < |a| ensures VoteOk(pool, a[i], height) { assert a[i].ticket in Electorate(pool, height); }
    forall i | 0 <= i < |b| ensures VoteOk(pool, b[i], height) { assert b[i].ticket in Electorate(pool, height); }
  }

  /** The failing input: a committee of five, six live tickets outside it, three for each block. */
  lemma UnselectedTicketsSplit(first: Hash, second: Hash)
    requires first != second
    ensures var pool := map id: TicketId | 1 <= id <= 11 :: Ticket(id, 0, 0, 1, Live);
      CheckedSplit(pool, 1, [7, 8, 9, 10, 11],
                   first, Unanimous([1, 2, 3], first, YES), second, Unanimous([4, 5, 6], second, YES))
  {
    var a, b := Unanimous([1, 2, 3], first, YES), Unanimous([4, 5, 6], second, YES);
    UnanimousCount([1, 2, 3], first, YES);
    UnanimousCount([4, 5, 6], second, YES);
    forall t ensures t in Voters(first, a) ==> 1 <= t <= 3 {
    }
    forall t ensures t in Voters(second, b) ==> 4 <= t <= 6 {
    }
    assert DoubleVoters(first, a, second, b) == {};
  }

  ghost function Members(selected: seq<TicketId>): set<TicketId> {
    set t | t in selected
  }

  /** For a caller that lets only the selected tickets vote, once each, the electorate is the committee:
      then blocks can split exactly in committees of one, two and four, and of these only the one of four
      can also produce the three votes that vote validation asks for. */
  lemma FilteredFinalityIff(selected: seq<TicketId>, first: Hash, second: Hash)
    requires NoDuplicates(selected) && selected != [] && first != second
    ensures (exists a, b :: Split(Members(selected), 0, selected, first, a, second, b)) <==> |selected| in {1, 2, 4}
    ensures (exists a, b :: Split(Members(selected), MIN_VALID_VOTES_REQUIRED, selected, first, a, second,
                                  b)) <==> |selected| == 4
  {
    hide Split;
    var committee := Members(selected);
    ListingLength(selected, committee);
    CommitteeSplitIff(selected, 0, first, second);
    CommitteeSplitIff(selected, MIN_VALID_VOTES_REQUIRED, first, second);
  }

  lemma CommitteeSplitIff(selected: seq<TicketId>, quota: nat, first: Hash, second: Hash)
    requires NoDuplicates(selected) && selected != [] && first != second
    ensures (exists a, b :: Split(Members(selected), quota, selected, first, a, second, b))
      <==> |selected| >= quota && |selected| >= 2 * (2 * |selected| / 3)
  {
    hide Split;
    var committee := Members(selected);
    ListingLength(selected, committee);
    if |selected| >= quota && |selected| >= 2 * (2 * |selected| / 3) {
      var a, b := SplitExists(committee, quota, selected, first, second);
    }
    forall a, b | Split(committee, quota, selected, first, a, second, b)
      ensures |selected| >= quota && |selected| >= 2 * (2 * |selected| / 3)
    {
      SplitNeeds(committee, quota, selected, first, a, second, b);
    }
  }

  // ------------------------------------------------------------------------ approval

  const YES: nat := 0
  const NO: nat := 1

  /** The tickets that said Yes to the block. */
  ghost function Approvers(hash: Hash, votes: seq<Vote>): set<TicketId> {
    set i | 0 <= i < |votes| && votes[i].blockHash == hash && votes[i].choice == YES :: votes[i].ticket
  }

  /** Both lists pass vote validation, both blocks are final, and no ticket said Yes to both. */
  ghost predicate ApprovalSplit(pool: Pool, height: nat, selected: seq<TicketId>,
                                first: Hash, firstVotes: seq<Vote>, second: Hash, secondVotes: seq<Vote>)
  {
    && VotesOk(pool, firstVotes, height) && VotesOk(pool, secondVotes, height)
    && Final(first, firstVotes, selected) && Final(second, secondVotes, selected)
    && Approvers(first, firstVotes) * Approvers(second, secondVotes) == {}
  }

  /** The tickets all make the same choice on one block. */
  function Unanimous(tickets: seq<TicketId>, hash: Hash, choice: nat): seq<Vote> {
    seq(|tickets|, i requires 0 <= i < |tickets| => Vote(tickets[i], hash, choice, []))
  }

  lemma {:induction false} UnanimousCount(tickets: seq<TicketId>, hash: Hash, choice: nat)
    ensures VotesFor(hash, Unanimous(tickets, hash, choice)) == |tickets|
  {
    if tickets != [] {
      UnanimousCount(tickets[1..], hash, choice);
      assert Unanimous(tickets, hash, choice)[1..] == Unanimous(tickets[1..], hash, choice);
    }
  }

  lemma UnanimousOk(pool: Pool, height: nat, tickets: seq<TicketId>, hash: Hash, choice: nat)
    requires NoDuplicates(tickets) && |tickets| >= MIN_VALID_VOTES_REQUIRED && choice <= 2
    requires forall t :: t in tickets ==> t in Electorate(pool, height)
    ensures VotesOk(pool, Unanimous(tickets, hash, choice), height)
  {
    var votes := Unanimous(tickets, hash, choice);
    forall i | 0 <= i < |votes| ensures VoteOk(pool, votes[i], height) {
      assert tickets[i] in tickets;
    }
  }

  /** The failing inputs: any three or more live tickets, as many as the threshold, all say Yes to one block
      and No to the other, and both are final. */
  lemma NoVotesFinalize(pool: Pool, height: nat, tickets: seq<TicketId>, selected: seq<TicketId>, first: Hash,
                        second: Hash)
    requires NoDuplicates(tickets) && |tickets| >= MIN_VALID_VOTES_REQUIRED && |tickets| >= 2 * |selected| / 3
    requires selected != [] && forall t :: t in tickets ==> t in Electorate(pool, height)
    ensures ApprovalSplit(pool, height, selected, first, Unanimous(tickets, first, YES), second,
                          Unanimous(tickets, second, NO))
  {
    hide VotesOk, VotesFor, Electorate;
    UnanimousOk(pool, height, tickets, first, YES);
    UnanimousOk(pool, height, tickets, second, NO);
    UnanimousCount(tickets, first, YES);
    UnanimousCount(tickets, second, NO);
    assert Approvers(second, Unanimous(tickets, second, NO)) == {};
  }

  /** So do the members of any live committee of three or more, even where they alone may vote. */
  lemma CommitteeNoVotesFinalize(pool: Pool, height: nat, selected: seq<TicketId>, first: Hash, second: Hash)
    requires NoDuplicates(selected) && |selected| >= MIN_VALID_VOTES_REQUIRED
    requires forall t :: t in selected ==> t in Electorate(pool, height)
    ensures var a, b := Unanimous(selected, first, YES), Unanimous(selected, second, NO);
      && ApprovalSplit(pool, height, selected, first, a, second, b)
      && DrawnFrom(a, Members(selected)) && DrawnFrom(b, Members(selected))
  {
    NoVotesFinalize(pool, height, selected, selected, first, second);
    var a, b := Unanimous(selected, first, YES), Unanimous(selected, second, NO);
    assert forall i :: 0 <= i < |selected| ==> a[i].ticket == b[i].ticket == selected[i];
  }

  /** Approval of finality is accountable exactly when too few tickets are live to make any block final:
      two lists that pass vote validation can make two blocks final with no ticket saying Yes to both
      whenever there are three live tickets and the threshold. */
  lemma ApprovalSplitIff(pool: Pool, height: nat, selected: seq<TicketId>, first: Hash, second: Hash)
    requires selected != []
    ensures (exists a, b :: ApprovalSplit(pool, height, selected, first, a, second, b))
      <==> |Electorate(pool, height)| >= Max(MIN_VALID_VOTES_REQUIRED, 2 * |selected| / 3)
  {
    hide VotesOk, VotesFor, Electorate;
    var electorate := Electorate(pool, height);
    if |electorate| >= MIN_VALID_VOTES_REQUIRED && |electorate| >= 2 * |selected| / 3 {
      var tickets := SomeListing<TicketId>(electorate);
      ListingLength(tickets, electorate);
      NoVotesFinalize(pool, height, tickets, selected, first, second);
    }
    forall a, b | ApprovalSplit(pool, height, selected, first, a, second, b)
      ensures |electorate| >= MIN_VALID_VOTES_REQUIRED && |electorate| >= 2 * |selected| / 3
    {
      FinalNeeds(pool, height, selected, first, a);
    }
  }

  lemma FinalNeeds(pool: Pool, height: nat, selected: seq<TicketId>, hash: Hash, votes: seq<Vote>)
    requires VotesOk(pool, votes, height) && Final(hash, votes, selected)
    ensures |Electorate(pool, height)| >= Max(MIN_VALID_VOTES_REQUIRED, 2 * |selected| / 3)
  {
    CheckedVotesDrawn(pool, votes, height);
    DrawnAtMost(votes, Electorate(pool, height));
    VotersCounted(hash, votes);
    SubsetSize(Voters(hash, votes), Electorate(pool, height));
  }

  /** Without the caller's checks a single ticket's repeated vote is enough. */
  lemma RepeatedVoteFinalizes(selected: seq<TicketId>, hash: Hash, ticket: TicketId)
    requires selected != []
    ensures Final(hash, Unanimous(seq(|selected|, _ => ticket), hash, YES), selected)
  {
    UnanimousCount(seq(|selected|, _ => ticket), hash, YES);
  }

  // ------------------------------------------------------------------------- slashing

  datatype MaliciousAction = DoubleVoting | InvalidVote | InvalidSignature

  datatype MaliciousProof = MaliciousProof(ticket: TicketId, detectionHeight: nat, action: MaliciousAction,
                                           data: seq<nat>, witnesses: seq<int>)

  datatype ProofResult = Proof(proof: MaliciousProof) | Rejected(reason: string)

  datatype SlashOutput = Burn(value: nat) | Change(value: nat)

  datatype SlashResult = Slash(outputs: seq<SlashOutput>, lockTime: nat) | NoSlash(reason: string)

  /** create_double_voting_proof; `bytes` spells a hash as its 32 bytes. */
  function CreateDoubleVotingProof(ticket: TicketId, first: Vote, second: Vote, height: nat, witnesses: seq<int>,
                                   bytes: Hash -> seq<nat>): (r: ProofResult)
    ensures r.Proof? <==> first.blockHash != second.blockHash
  {
    if first.blockHash == second.blockHash then Rejected("votes are not conflicting")
    else Proof(MaliciousProof(ticket, height, DoubleVoting,
                              first.signature + bytes(first.blockHash) + second.signature + bytes(second.blockHash),
                              witnesses))
  }

  function MinimumData(action: MaliciousAction): nat {
    match action
    case DoubleVoting => 128
    case InvalidVote => 64
    case InvalidSignature => 64
  }

  /** validate_ticket_malicious_behavior_slashing. */
  function ValidateMaliciousSlashing(ticket: TicketId, proof: MaliciousProof): (r: Check)
    ensures r.Ok? <==> proof.ticket == ticket && proof.witnesses != [] && |proof.data| >= MinimumData(proof.action)
  {
    if proof.ticket != ticket then Err("ticket id mismatch")
    else if proof.data == [] then Err("proof data is empty")
    else if proof.witnesses == [] then Err("no witness signatures")
    else match proof.action
      case DoubleVoting => if |proof.data| < 128 then Err("insufficient proof data") else Ok(())
      case InvalidVote => if |proof.data| < 64 then Err("insufficient proof data") else Ok(())
      case InvalidSignature => if |proof.data| < 64 then Err("insufficient proof data") else Ok(())
  }

  /** The verdict never depends on what the evidence says: any other bytes, at least as many, and any
      other witnesses convict the same ticket. */
  lemma EvidenceContentIgnored(ticket: TicketId, proof: MaliciousProof, data: seq<nat>, witnesses: seq<int>,
                               height: nat)
    requires |data| >= |proof.data| && witnesses != []
    ensures ValidateMaliciousSlashing(ticket, proof).Ok? ==>
      ValidateMaliciousSlashing(ticket, proof.(data := data, witnesses := witnesses, detectionHeight := height)).Ok?
  {
  }

  /** So accepted evidence proves no double vote: every ticket, whether it voted or not, is convicted by
      any 128 or more bytes and any witness, and slashed whole for up to 4096 of them. */
  lemma EvidenceIsNoProof(ticket: TicketId, data: seq<nat>, witnessed: int, detected: nat, value: nat, height: nat)
    requires 128 <= |data|
    ensures var proof := MaliciousProof(ticket, detected, DoubleVoting, data, [witnessed]);
      && ValidateMaliciousSlashing(ticket, proof).Ok?
      && var slash := SlashMalicious(proof, value, height);
        if |data| <= 4096 then slash == Slash([Burn(WholeTicket(value))], LockTime(height)) else slash.NoSlash?
  {
  }

  function LockTime(height: nat): nat {
    (height + POS_SLASHING_COOLDOWN_BLOCKS) % U64 % U32
  }

  /** The output is locked for 10080 blocks, as long as the height fits the 32-bit lock time. */
  lemma LockTimeIff(height: nat)
    requires height < U64
    ensures LockTime(height) == height + 10080 <==> height + 10080 < U32
  {
  }

  /** The distance between neighbouring `f64` numbers at n. */
  function Spacing(n: nat): (s: nat)
    ensures s > 0
  {
    if n < 0x20_0000_0000_0000 then 1 else 2 * Spacing(n / 2)
  }

  /** The nearest `f64`, ties to even. */
  function Rounded(n: nat): nat {
    var s := Spacing(n);
    var down := n / s * s;
    if 2 * (n - down) < s || (2 * (n - down) == s && n / s % 2 == 0) then down else down + s
  }

  /** The spacing is the power of two at which n has a significand of 53 bits, and 1 below that. */
  lemma {:induction false} SpacingMeaning(n: nat) returns (k: nat)
    ensures Spacing(n) == Pow2(k) && n < Spacing(n) * 0x20_0000_0000_0000
    ensures Spacing(n) > 1 ==> Spacing(n) * 0x10_0000_0000_0000 <= n
  {
    if n < 0x20_0000_0000_0000 {
      k := 0;
    } else {
      var j := SpacingMeaning(n / 2);
      k := j + 1;
    }
  }

  /** Rounding gives the nearest multiple of the spacing, and of two equally near ones the even one. */
  lemma RoundedMeaning(n: nat) returns (m: nat)
    ensures Rounded(n) == m * Spacing(n)
    ensures if Rounded(n) <= n then 2 * (n - Rounded(n)) <= Spacing(n) else 2 * (Rounded(n) - n) <= Spacing(n)
    ensures 2 * (n - Rounded(n)) == Spacing(n) || 2 * (Rounded(n) - n) == Spacing(n) ==> m % 2 == 0
  {
    hide Spacing, Rounded;
    var q, down := RoundedEither(n);
    NearestEven(n, Spacing(n), down, q, Rounded(n));
    m := if Rounded(n) == down then q else q + 1;
  }

  lemma RoundedEither(n: nat) returns (q: nat, down: nat)
    ensures down == q * Spacing(n) && down + Spacing(n) == (q + 1) * Spacing(n) && down <= n < down + Spacing(n)
    ensures Rounded(n) in {down, down + Spacing(n)}
    ensures Rounded(n) == down <==>
      2 * (n - down) < Spacing(n) || (2 * (n - down) == Spacing(n) && q % 2 == 0)
  {
    hide Spacing;
    var s := Spacing(n);
    q, down := n / s, n / s * s;
    DivBounds(n, s);
  }

  lemma NearestEven(n: nat, s: nat, down: nat, q: nat, r: nat)
    requires 0 < s && down <= n < down + s && r in {down, down + s}
    requires r == down <==> 2 * (n - down) < s || (2 * (n - down) == s && q % 2 == 0)
    ensures if r <= n then 2 * (n - r) <= s else 2 * (r - n) <= s
    ensures 2 * (n - r) == s || 2 * (r - n) == s ==> (if r == down then q else q + 1) % 2 == 0
  {
  }

  /** `(value as f64 * 1.0) as u64`; the conversion back saturates. */
  function WholeTicket(value: nat): nat {
    if Rounded(value) < U64 then Rounded(value) else U64 - 1
  }

  function SlashMalicious(proof: MaliciousProof, value: nat, height: nat): SlashResult {
    if |proof.data| > MAX_POS_SLASHING_PROOF_SIZE then NoSlash("proof data too large")
    else Slash([Burn(WholeTicket(value))], LockTime(height))
  }

  /** 0.01 as an `f64` is this many units of 2^-59. */
  const HUNDREDTH: nat := 5764607523034235
  const HUNDREDTH_UNITS: nat := 0x800_0000_0000_0000

  /** `(value as f64 * 0.01) as u64`. Scaling by a power of two does not change how a product rounds. */
  function OnePercent(value: nat): nat {
    Rounded(Rounded(value) * HUNDREDTH) / HUNDREDTH_UNITS
  }

  /** One hundredth is burned; the rest goes back to the ticket's script. */
  function SlashNonParticipation(witnesses: nat, value: nat, height: nat): SlashResult {
    if witnesses > MAX_POS_SLASHING_PROOF_SIZE then NoSlash("proof data too large")
    else
      var slashed := OnePercent(value);
      var remaining := if slashed <= value then value - slashed else 0;
      Slash([Burn(slashed)] + (if remaining > 0 then [Change(remaining)] else []), LockTime(height))
  }

  ghost function OutputTotal(outputs: seq<SlashOutput>): nat {
    if outputs == [] then 0 else outputs[0].value + OutputTotal(outputs[1..])
  }

  lemma TotalOfOne(o: SlashOutput)
    ensures OutputTotal([o]) == o.value
  {
    assert [o][1..] == [];
  }

  /** Slashing for absence neither creates nor loses value: burn and change add up to the ticket, for
      every value, however the hundredth is rounded. */
  lemma AbsenceSlashConserves(witnesses: nat, value: nat, height: nat)
    requires witnesses <= MAX_POS_SLASHING_PROOF_SIZE
    ensures OutputTotal(SlashNonParticipation(witnesses, value, height).outputs) == value
    ensures SlashNonParticipation(witnesses, value, height).outputs[0] == Burn(OnePercent(value))
    ensures forall i :: 1 <= i < |SlashNonParticipation(witnesses, value, height).outputs| ==>
      SlashNonParticipation(witnesses, value, height).outputs[i].Change?
  {
    var slashed := OnePercent(value);
    OnePercentWithin(value);
    hide OnePercent;
    TotalOfOne(Burn(slashed));
    if slashed < value {
      TotalOfOne(Change(value - slashed));
      var both := [Burn(slashed)] + [Change(value - slashed)];
      assert both[1..] == [Change(value - slashed)];
    } else {
      assert [Burn(slashed)] + [] == [Burn(slashed)];
    }
  }

  lemma {:induction false} SpacingBound(n: nat)
    requires n >= 0x20_0000_0000_0000
    ensures Spacing(n) * 0x10_0000_0000_0000 <= n
  {
    if n / 2 >= 0x20_0000_0000_0000 { SpacingBound(n / 2); }
  }

  /** Rounding is off by at most half the spacing. */
  lemma RoundedNear(n: nat)
    ensures n < 0x20_0000_0000_0000 ==> Rounded(n) == n
    ensures 2 * Rounded(n) <= 2 * n + Spacing(n) && 2 * n <= 2 * Rounded(n) + Spacing(n)
    ensures Rounded(n) <= 2 * n
  {
    var s := Spacing(n);
    assert n == n / s * s + n % s;
    if n >= 0x20_0000_0000_0000 { SpacingBound(n); }
  }

  lemma OnePercentWithin(value: nat)
    ensures OnePercent(value) <= value
  {
    hide Rounded;
    RoundedNear(value);
    RoundedNear(Rounded(value) * HUNDREDTH);
  }

  /** Rounding does not show in the slashed amount: below 2^52 it is the hundredth, rounded down. */
  lemma OnePercentExact(value: nat)
    requires value < 0x10_0000_0000_0000
    ensures OnePercent(value) == value / 100
  {
    var n, k := value * HUNDREDTH, value / 100;
    RoundedNear(value);
    HundredthBelow(value, k, n);
    HundredthAbove(value, k, n);
    hide Rounded;
    DivisionBetween(Rounded(n), k);
  }

  lemma DivisionBetween(n: nat, k: nat)
    requires k * HUNDREDTH_UNITS <= n < (k + 1) * HUNDREDTH_UNITS
    ensures n / HUNDREDTH_UNITS == k
  {
  }

  lemma HundredthAbove(value: nat, k: nat, n: nat)
    requires value < 0x10_0000_0000_0000 && k == value / 100 && n == value * HUNDREDTH
    ensures Rounded(n) < (k + 1) * HUNDREDTH_UNITS
  {
    RoundedNear(n);
    if n >= 0x20_0000_0000_0000 { SpacingBound(n); }
    hide Rounded, Spacing;
  }

  lemma HundredthBelow(value: nat, k: nat, n: nat)
    requires value < 0x10_0000_0000_0000 && k == value / 100 && n == value * HUNDREDTH
    ensures k * HUNDREDTH_UNITS <= Rounded(n)
  {
    hide Spacing, Rounded, Pow2;
    var s := Spacing(n);
    RoundedNotBelow(n);
    PowersOfTwo();
    SpacingDivides(n, 59);
    var d := HUNDREDTH_UNITS / s;
    Regroup(k, d, s);
    MultipleBelow(n, s, k * d);
  }

  lemma RoundedNotBelow(n: nat)
    ensures n / Spacing(n) * Spacing(n) <= Rounded(n)
  {
  }

  lemma Regroup(k: nat, d: nat, s: nat)
    ensures (k * d) * s == k * (d * s)
  {
  }

  lemma PowersOfTwo()
    ensures Pow2(53) == 0x20_0000_0000_0000 && Pow2(59) == HUNDREDTH_UNITS
    ensures Pow2(112) == 0x1_0000_0000_0000_0000_0000_0000_0000
  {
    assert Pow2(6) == 64;
    Pow2Add(6, 6);
    Pow2Add(12, 12);
    Pow2Add(24, 24);
    assert Pow2(5) == 32;
    Pow2Add(48, 5);
    Pow2Add(53, 6);
    Pow2Add(53, 59);
  }

  lemma MultipleBelow(n: nat, s: nat, m: nat)
    requires 0 < s && m * s <= n
    ensures m * s <= n / s * s
  {
    DivBounds(n, s);
    MulOrder(m, n / s, s);
    MulLe(m, n / s, s);
  }

  /** The spacing is a power of two that grows with the number. */
  lemma {:induction false} SpacingDivides(n: nat, j: nat)
    requires n < Pow2(53 + j)
    ensures Pow2(j) % Spacing(n) == 0
  {
    if n >= 0x20_0000_0000_0000 {
      if j == 0 {
        PowersOfTwo();
      } else {
        SpacingDivides(n / 2, j - 1);
        DoubleRemainder(Pow2(j - 1), Spacing(n / 2));
      }
    }
  }

  lemma DoubleRemainder(a: nat, b: nat)
    requires 0 < b && a % b == 0
    ensures (2 * a) % (2 * b) == 0
  {
    ModUnique(2 * b, 2 * a, a / b, 0);
  }

  /** The malicious-behaviour slash burns exactly the ticket if and only if the ticket's value is an `f64`
      number or the largest 64-bit one; so for every value up to 2^53. */
  lemma WholeTicketBurnedIff(proof: MaliciousProof, value: nat, height: nat)
    requires value < U64 && |proof.data| <= MAX_POS_SLASHING_PROOF_SIZE
    ensures OutputTotal(SlashMalicious(proof, value, height).outputs) == value
      <==> value % Spacing(value) == 0 || value == U64 - 1
    ensures value < 0x20_0000_0000_0000 ==> value % Spacing(value) == 0
  {
    TotalOfOne(Burn(WholeTicket(value)));
    RoundedIff(value, Spacing(value));
    LargestRounds();
    hide Spacing, Rounded;
  }

  lemma RoundedIff(n: nat, s: nat)
    requires s == Spacing(n)
    ensures Rounded(n) == n <==> n % s == 0
    ensures n < 0x20_0000_0000_0000 ==> n % s == 0
  {
    assert n == n / s * s + n % s;
  }

  lemma LargestRounds()
    ensures Rounded(U64 - 1) == U64
  {
    LargestSpacing();
    hide Spacing;
  }

  /** Just above 2^53 the burn can exceed the ticket. */
  lemma BurnMayExceedTicket(proof: MaliciousProof, height: nat)
    requires |proof.data| <= MAX_POS_SLASHING_PROOF_SIZE
    ensures var value := 0x20_0000_0000_0003;
      OutputTotal(SlashMalicious(proof, value, height).outputs) == value + 1
  {
    TotalOfOne(Burn(WholeTicket(0x20_0000_0000_0003)));
    assert Spacing(0x20_0000_0000_0003) == 2;
  }

  lemma LargestSpacing()
    ensures Spacing(U64 - 1) == 2048
  {
    assert Spacing(0x1f_ffff_ffff_ffff) == 1;
    assert Spacing(0x7f_ffff_ffff_ffff) == 4;
    assert Spacing(0x1ff_ffff_ffff_ffff) == 16;
    assert Spacing(0x7ff_ffff_ffff_ffff) == 64;
    assert Spacing(0x1fff_ffff_ffff_ffff) == 256;
    assert Spacing(0x7fff_ffff_ffff_ffff) == 1024;
  }

  /** The accountability theorem. When two different blocks become final over the same selection by
      votes from one electorate, at least 2*floor(2n/3) - |electorate| tickets of it named both, and
      the two votes of each yield evidence that the validator accepts and that slashes the whole ticket. */
  lemma ConflictIsSlashable(electorate: set<TicketId>, selected: seq<TicketId>,
                            first: Hash, firstVotes: seq<Vote>, second: Hash, secondVotes: seq<Vote>,
                            height: nat, witnesses: seq<int>, bytes: Hash -> seq<nat>, value: nat)
    returns (culprits: set<TicketId>)
    requires first != second && witnesses != []
    requires DrawnFrom(firstVotes, electorate) && DrawnFrom(secondVotes, electorate)
    requires Final(first, firstVotes, selected) && Final(second, secondVotes, selected)
    requires forall v :: v in firstVotes || v in secondVotes ==> |v.signature| == 64
    requires forall h: Hash :: |bytes(h)| == 32
    ensures 2 * (2 * |selected| / 3) - |electorate| <= |culprits|
    ensures culprits <= electorate
    ensures forall t :: t in culprits ==>
      exists v, w :: v in firstVotes && w in secondVotes && Evidence(t, v, w, height, witnesses, bytes, value)
  {
    hide Evidence, VotesFor;
    culprits := DoubleVoters(first, firstVotes, second, secondVotes);
    ConflictingFinalityOverlap(electorate, selected, first, firstVotes, second, secondVotes);
    forall t | t in culprits
      ensures t in electorate
      ensures exists v, w :: v in firstVotes && w in secondVotes && Evidence(t, v, w, height, witnesses, bytes, value)
    {
      var i :| 0 <= i < |firstVotes| && firstVotes[i].blockHash == first && firstVotes[i].ticket == t;
      var j :| 0 <= j < |secondVotes| && secondVotes[j].blockHash == second && secondVotes[j].ticket == t;
      EvidenceAccepted(t, firstVotes[i], secondVotes[j], height, witnesses, bytes, value);
    }
  }

  /** The same over the checks the program makes: the electorate is the live, unexpired tickets, so a
      culprit is certain exactly when they are fewer than twice the threshold. */
  lemma CheckedConflictIsSlashable(pool: Pool, selected: seq<TicketId>,
                                   first: Hash, firstVotes: seq<Vote>, second: Hash, secondVotes: seq<Vote>,
                                   height: nat, witnesses: seq<int>, bytes: Hash -> seq<nat>, value: nat)
    returns (culprits: set<TicketId>)
    requires first != second && witnesses != []
    requires VotesOk(pool, firstVotes, height) && VotesOk(pool, secondVotes, height)
    requires Final(first, firstVotes, selected) && Final(second, secondVotes, selected)
    requires forall v :: v in firstVotes || v in secondVotes ==> |v.signature| == 64
    requires forall h: Hash :: |bytes(h)| == 32
    ensures 2 * (2 * |selected| / 3) - |Electorate(pool, height)| <= |culprits|
    ensures |Electorate(pool, height)| < 2 * (2 * |selected| / 3) ==> culprits != {}
    ensures culprits <= Electorate(pool, height)
    ensures forall t :: t in culprits ==>
      exists v, w :: v in firstVotes && w in secondVotes && Evidence(t, v, w, height, witnesses, bytes, value)
  {
    hide Evidence, VotesFor;
    CheckedVotesDrawn(pool, firstVotes, height);
    CheckedVotesDrawn(pool, secondVotes, height);
    culprits := ConflictIsSlashable(Electorate(pool, height), selected, first, firstVotes, second, secondVotes,
                                    height, witnesses, bytes, value);
  }

  /** The two votes of a ticket convict it: the proof holds the signatures and hashes of both, is accepted, and
      the whole ticket is slashed. */
  ghost predicate Evidence(t: TicketId, v: Vote, w: Vote, height: nat, witnesses: seq<int>, bytes: Hash -> seq<nat>,
                           value: nat) {
    && v.ticket == t && w.ticket == t
    && var r := CreateDoubleVotingProof(t, v, w, height, witnesses, bytes);
      && r.Proof? && |r.proof.data| == 192
      && r.proof.data[..64] == v.signature && r.proof.data[64..96] == bytes(v.blockHash)
      && r.proof.data[96..160] == w.signature && r.proof.data[160..] == bytes(w.blockHash)
      && ValidateMaliciousSlashing(t, r.proof) == Ok(())
      && SlashMalicious(r.proof, value, height) == Slash([Burn(WholeTicket(value))], LockTime(height))
  }

  lemma EvidenceAccepted(t: TicketId, v: Vote, w: Vote, height: nat, witnesses: seq<int>, bytes: Hash -> seq<nat>,
                         value: nat)
    requires v.ticket == t && w.ticket == t && v.blockHash != w.blockHash && witnesses != []
    requires |v.signature| == 64 && |w.signature| == 64
    requires |bytes(v.blockHash)| == 32 && |bytes(w.blockHash)| == 32
    ensures Evidence(t, v, w, height, witnesses, bytes, value)
  {
    var data := v.signature + bytes(v.blockHash) + w.signature + bytes(w.blockHash);
    assert |data| == 192;
  }
}
