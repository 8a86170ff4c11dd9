/** Proof-of-stake tickets: the live pool and vote validation (rusty-consensus/src/pos.rs) and the
    lottery (rusty-consensus/src/pos_selection.rs). Identifiers, block hashes and lottery scores are
    32-byte strings; byte-wise comparison of such strings is comparison of the numbers they spell. */
module Tickets {
  import opened Arithmetic
  import opened Wrappers
  import opened Sorting

  const TICKET_EXPIRATION_BLOCKS: nat := 40960
  const POS_FINALITY_DEPTH: nat := 1
  const MIN_VALID_VOTES_REQUIRED: nat := 3

  type TicketId = nat
  type Hash = nat

  datatype Status = Pending | Live | Voted | Expired | Revoked

  datatype Ticket = Ticket(id: TicketId, owner: int, height: nat, value: nat, status: Status)

  datatype Vote = Vote(ticket: TicketId, blockHash: Hash, choice: nat, signature: seq<nat>)

  type Pool = map<TicketId, Ticket>

  predicate HasExpired(t: Ticket, height: nat) {
    height >= (t.height + TICKET_EXPIRATION_BLOCKS) % U64
  }

  /** Age in numbers: the wrapping test says that 40960 blocks have passed, exactly as long as the sum does not
      wrap or the current height is below what it wraps to. */
  lemma ExpiryIff(t: Ticket, height: nat)
    requires t.height < U64 && height < U64
    ensures (HasExpired(t, height) <==> height - t.height >= 40960)
      <==> t.height + 40960 < U64 || height < t.height + 40960 - U64
  {
  }

  /** How far a ticket is along its life; nothing but replacement moves it back. */
  function Stage(s: Status): nat {
    match s
    case Pending => 0
    case Live => 1
    case Voted => 2
    case Expired => 2
    case Revoked => 3
  }

  /** Same tickets, changed in status only, and only forward; voted tickets stay voted. */
  ghost predicate Advances(before: Pool, after: Pool) {
    && before.Keys == after.Keys
    && forall id :: id in before ==>
      && after[id] == before[id].(status := after[id].status)
      && (after[id].status == before[id].status || Stage(before[id].status) < Stage(after[id].status))
      && (before[id].status == Voted ==> after[id].status == Voted)
  }

  function Relabelled(t: Ticket, guard: Ticket -> bool, status: Status): Ticket {
    if guard(t) then t.(status := status) else t
  }

  /** The pool after every ticket satisfying the guard gets a new status. */
  function Relabel(pool: Pool, guard: Ticket -> bool, status: Status): Pool {
    map id | id in pool :: Relabelled(pool[id], guard, status)
  }

  ghost function RelabelIn(pool: Pool, done: seq<TicketId>, guard: Ticket -> bool, status: Status): Pool {
    map id | id in pool :: if id in done then Relabelled(pool[id], guard, status) else pool[id]
  }

  ghost predicate Swept(pool: Pool, done: seq<TicketId>, guard: Ticket -> bool, changed: seq<TicketId>) {
    NoDuplicates(changed) && forall id :: id in changed <==> id in done && id in pool && guard(pool[id])
  }

  lemma SweepStart(pool: Pool, guard: Ticket -> bool, status: Status)
    ensures RelabelIn(pool, [], guard, status) == pool && Swept(pool, [], guard, [])
  {
  }

  lemma SweepStep(pool: Pool, order: seq<TicketId>, i: nat, guard: Ticket -> bool, status: Status,
                  changed: seq<TicketId>)
    requires Lists(order, pool.Keys) && i < |order| && Swept(pool, order[..i], guard, changed)
    ensures order[i] in RelabelIn(pool, order[..i], guard, status)
    ensures var now := RelabelIn(pool, order[..i], guard, status);
      var id := order[i];
      var next := RelabelIn(pool, order[..i + 1], guard, status);
      && next == (if guard(now[id]) then now[id := now[id].(status := status)] else now)
      && Swept(pool, order[..i + 1], guard, if guard(now[id]) then changed + [id] else changed)
  {
    var id := order[i];
    assert id in order;
    assert order[..i + 1] == order[..i] + [id];
    assert id !in order[..i];
  }

  lemma SweepEnd(pool: Pool, order: seq<TicketId>, guard: Ticket -> bool, status: Status, changed: seq<TicketId>)
    requires Lists(order, pool.Keys) && Swept(pool, order[..|order|], guard, changed)
    ensures RelabelIn(pool, order[..|order|], guard, status) == Relabel(pool, guard, status)
    ensures Lists(changed, set id | id in pool && guard(pool[id]))
  {
    assert order[..|order|] == order;
  }

  function ExpiresAt(height: nat): Ticket -> bool {
    (t: Ticket) => t.status == Live && HasExpired(t, height)
  }

  function FinalAt(height: nat): Ticket -> bool {
    (t: Ticket) => t.status == Pending && height >= (t.height + POS_FINALITY_DEPTH) % U64
  }

  // ------------------------------------------------------------------------ the pool

  class LiveTicketsPool {
    var tickets: Pool
    var nonParticipation: map<TicketId, nat>
    var lastMissed: map<TicketId, nat>

    constructor ()
      ensures tickets == map[] && nonParticipation == map[] && lastMissed == map[]
    {
      tickets, nonParticipation, lastMissed := map[], map[], map[];
    }

    /** Removing a ticket forgets its misses with it. */
    method RemoveTicket(id: TicketId) returns (r: Option<Ticket>)
      modifies this
      ensures tickets == old(tickets) - {id}
      ensures r == if id in old(tickets) then Some(old(tickets)[id]) else None
      ensures r.Some? ==> nonParticipation == old(nonParticipation) - {id} && lastMissed == old(lastMissed) - {id}
      ensures r.None? ==> nonParticipation == old(nonParticipation) && lastMissed == old(lastMissed)
    {
      if id !in tickets {
        assert tickets == tickets - {id};
        return None;
      }
      r := Some(tickets[id]);
      tickets := tickets - {id};
      nonParticipation := nonParticipation - {id};
      lastMissed := lastMissed - {id};
    }

    method AddTicket(ticket: Ticket)
      modifies this`tickets
      ensures tickets == old(tickets)[ticket.id := ticket]
    {
      tickets := tickets[ticket.id := ticket];
    }

    method MarkTicketVoted(id: TicketId) returns (r: Check)
      modifies this`tickets
      ensures r.Ok? <==> id in old(tickets) && old(tickets)[id].status == Live
      ensures r.Ok? ==> tickets == old(tickets)[id := old(tickets)[id].(status := Voted)]
      ensures r.Err? ==> tickets == old(tickets)
      ensures Advances(old(tickets), tickets)
    {
      if id !in tickets { return Err("ticket not found"); }
      if tickets[id].status != Live { return Err("invalid status"); }
      tickets := tickets[id := tickets[id].(status := Voted)];
      return Ok(());
    }

    method RevokeTicket(id: TicketId) returns (r: Check)
      modifies this`tickets
      ensures r.Ok? <==> id in old(tickets) && old(tickets)[id].status in {Live, Expired}
      ensures r.Ok? ==> tickets == old(tickets)[id := old(tickets)[id].(status := Revoked)]
      ensures r.Err? ==> tickets == old(tickets)
      ensures Advances(old(tickets), tickets)
    {
      if id !in tickets { return Err("ticket not found"); }
      if tickets[id].status != Live && tickets[id].status != Expired { return Err("invalid status"); }
      tickets := tickets[id := tickets[id].(status := Revoked)];
      return Ok(());
    }

    method MarkTicketMissed(id: TicketId, height: nat)
      modifies this`nonParticipation, this`lastMissed
      ensures nonParticipation == old(nonParticipation)[id := (MissCount(old(nonParticipation), id) + 1) % U32]
      ensures lastMissed == old(lastMissed)[id := height]
    {
      nonParticipation := nonParticipation[id := (MissCount(nonParticipation, id) + 1) % U32];
      lastMissed := lastMissed[id := height];
    }

    /** Any history of additions, misses and removals, from an empty pool: the pool counts the misses
        since a ticket was last removed (in 32 bits) and remembers the height of the latest of them. */
    method Replay(events: seq<PoolEvent>)
      requires tickets == map[] && nonParticipation == map[] && lastMissed == map[]
      modifies this
      ensures Remembers(tickets, nonParticipation, lastMissed, events)
    {
      hide Remembers;
      NothingToRemember();
      for i := 0 to |events|
        invariant Remembers(tickets, nonParticipation, lastMissed, events[..i])
      {
        assert events[..i + 1] == events[..i] + [events[i]];
        match events[i] {
          case Added(ticket) =>
            RememberAdded(tickets, nonParticipation, lastMissed, events[..i], ticket);
            AddTicket(ticket);
          case Missed(id, height) =>
            RememberMissed(tickets, nonParticipation, lastMissed, events[..i], id, height);
            MarkTicketMissed(id, height);
          case Removed(id) =>
            RememberRemoved(tickets, nonParticipation, lastMissed, events[..i], id);
            var _ := RemoveTicket(id);
        }
      }
      assert events[..|events|] == events;
    }

    /** The loop of both status sweeps: tickets are visited in an arbitrary order. */
    method Sweep(guard: Ticket -> bool, status: Status) returns (changed: seq<TicketId>)
      modifies this`tickets
      ensures tickets == Relabel(old(tickets), guard, status)
      ensures Lists(changed, set id | id in old(tickets) && guard(old(tickets)[id]))
    {
      hide RelabelIn, Relabel, Lists, Swept;
      changed := [];
      var order := Enumerate(tickets.Keys);
      ghost var before := tickets;
      SweepStart(before, guard, status);
      for i := 0 to |order|
        invariant tickets == RelabelIn(before, order[..i], guard, status)
        invariant Swept(before, order[..i], guard, changed)
      {
        var id := order[i];
        SweepStep(before, order, i, guard, status, changed);
        if guard(tickets[id]) {
          tickets := tickets[id := tickets[id].(status := status)];
          changed := changed + [id];
        }
      }
      SweepEnd(before, order, guard, status, changed);
    }

    /** Exactly the live tickets of age expire; below 2^64 - 40960 the age is counted in blocks. */
    method ProcessTicketExpiration(height: nat) returns (expired: seq<TicketId>)
      modifies this`tickets
      ensures tickets == Relabel(old(tickets), ExpiresAt(height), Expired)
      ensures Lists(expired, set id | id in old(tickets) && ExpiresAt(height)(old(tickets)[id]))
      ensures Advances(old(tickets), tickets)
      ensures forall id :: id in tickets && tickets[id].status == Live ==> !HasExpired(tickets[id], height)
      ensures forall id :: id in old(tickets) && old(tickets)[id].height + 40960 < U64 ==>
        tickets[id].status == (if old(tickets)[id].status == Live && height >= old(tickets)[id].height + 40960
                               then Expired else old(tickets)[id].status)
    {
      expired := Sweep(ExpiresAt(height), Expired);
    }

    method ProcessTicketFinality(height: nat) returns (live: seq<TicketId>)
      modifies this`tickets
      ensures tickets == Relabel(old(tickets), FinalAt(height), Live)
      ensures Lists(live, set id | id in old(tickets) && FinalAt(height)(old(tickets)[id]))
      ensures Advances(old(tickets), tickets)
      ensures forall id :: id in old(tickets) && old(tickets)[id].height + 1 < U64 ==>
        tickets[id].status == (if old(tickets)[id].status == Pending && height > old(tickets)[id].height
                               then Live else old(tickets)[id].status)
    {
      live := Sweep(FinalAt(height), Live);
    }
  }

  function MissCount(counts: map<TicketId, nat>, id: TicketId): nat {
    if id in counts then counts[id] else 0
  }

  datatype PoolEvent = Added(ticket: Ticket) | Missed(id: TicketId, height: nat) | Removed(id: TicketId)

  /** Whether a ticket was added and not removed since. */
  ghost predicate Present(events: seq<PoolEvent>, id: TicketId) {
    if events == [] then false
    else
      match events[|events| - 1]
      case Added(ticket) => ticket.id == id || Present(events[..|events| - 1], id)
      case Missed(_, _) => Present(events[..|events| - 1], id)
      case Removed(other) => other != id && Present(events[..|events| - 1], id)
  }

  /** How often a ticket missed since it was last removed; removing an absent ticket forgets nothing. */
  ghost function Misses(events: seq<PoolEvent>, id: TicketId): nat {
    if events == [] then 0
    else
      var before := events[..|events| - 1];
      match events[|events| - 1]
      case Added(_) => Misses(before, id)
      case Missed(other, _) => Misses(before, id) + if other == id then 1 else 0
      case Removed(other) => if other == id && Present(before, id) then 0 else Misses(before, id)
  }

  ghost function LatestMiss(events: seq<PoolEvent>, id: TicketId): nat {
    if events == [] then 0
    else
      match events[|events| - 1]
      case Missed(other, height) => if other == id then height else LatestMiss(events[..|events| - 1], id)
      case _ => LatestMiss(events[..|events| - 1], id)
  }

  /** The pool holds the ticket if present, counts its misses (in 32 bits) and knows the latest. */
  ghost predicate RemembersOne(tickets: Pool, counts: map<TicketId, nat>, last: map<TicketId, nat>,
                               events: seq<PoolEvent>,
                               id: TicketId)
  {
    && (id in tickets <==> Present(events, id))
    && MissCount(counts, id) == Misses(events, id) % U32
    && (id in last <==> Misses(events, id) > 0)
    && (id in last ==> last[id] == LatestMiss(events, id))
  }

  ghost predicate Remembers(tickets: Pool, counts: map<TicketId, nat>, last: map<TicketId, nat>,
                            events: seq<PoolEvent>) {
    forall id :: RemembersOne(tickets, counts, last, events, id)
  }

  lemma NothingToRemember()
    ensures Remembers(map[], map[], map[], [])
  {
  }

  lemma OneMore(n: nat)
    ensures (n % U32 + 1) % U32 == (n + 1) % U32
  {
  }

  lemma RememberAdded(tickets: Pool, counts: map<TicketId, nat>, last: map<TicketId, nat>, events: seq<PoolEvent>,
                      ticket: Ticket)
    requires Remembers(tickets, counts, last, events)
    ensures Remembers(tickets[ticket.id := ticket], counts, last, events + [Added(ticket)])
  {
    var more, now := tickets[ticket.id := ticket], events + [Added(ticket)];
    assert now[..|events|] == events;
    forall id ensures RemembersOne(more, counts, last, now, id) {
      assert RemembersOne(tickets, counts, last, events, id);
    }
  }

  lemma RememberMissed(tickets: Pool, counts: map<TicketId, nat>, last: map<TicketId, nat>, events: seq<PoolEvent>,
                       missed: TicketId, height: nat)
    requires Remembers(tickets, counts, last, events)
    ensures Remembers(tickets, counts[missed := (MissCount(counts, missed) + 1) % U32], last[missed := height],
                      events + [Missed(missed, height)])
  {
    var counted, latest := counts[missed := (MissCount(counts, missed) + 1) % U32], last[missed := height];
    var now := events + [Missed(missed, height)];
    assert now[..|events|] == events;
    OneMore(Misses(events, missed));
    forall id ensures RemembersOne(tickets, counted, latest, now, id) {
      assert RemembersOne(tickets, counts, last, events, id);
    }
  }

  lemma RememberRemoved(tickets: Pool, counts: map<TicketId, nat>, last: map<TicketId, nat>, events: seq<PoolEvent>,
                        gone: TicketId)
    requires Remembers(tickets, counts, last, events)
    ensures gone in tickets ==> Remembers(tickets - {gone}, counts - {gone}, last - {gone}, events + [Removed(gone)])
    ensures gone !in tickets ==> Remembers(tickets - {gone}, counts, last, events + [Removed(gone)])
  {
    assert (events + [Removed(gone)])[..|events|] == events;
    forall id
      ensures gone in tickets ==> RemembersOne(tickets - {gone}, counts - {gone}, last - {gone},
                                               events + [Removed(gone)], id)
      ensures gone !in tickets ==> RemembersOne(tickets - {gone}, counts, last, events + [Removed(gone)], id)
    {
      assert RemembersOne(tickets, counts, last, events, id);
      assert RemembersOne(tickets, counts, last, events, gone);
    }
  }

  /** Any number of status changes in a row is still forward only. */
  lemma AdvancesTransitive(a: Pool, b: Pool, c: Pool)
    requires Advances(a, b) && Advances(b, c)
    ensures Advances(a, c)
  {
    forall id | id in a
      ensures c[id] == a[id].(status := c[id].status)
      ensures c[id].status == a[id].status || Stage(a[id].status) < Stage(c[id].status)
    {
      assert id in b && id in c;
    }
  }

  /** What forward only means: voted and revoked tickets stay so, expired ones can only be revoked, and a
      ticket that has been live is never pending again. */
  lemma StatusNeverReturns(before: Pool, after: Pool, id: TicketId)
    requires Advances(before, after) && id in before
    ensures id in after && after[id].height == before[id].height && after[id].value == before[id].value
    ensures before[id].status == Voted ==> after[id].status == Voted
    ensures before[id].status == Revoked ==> after[id].status == Revoked
    ensures before[id].status == Expired ==> after[id].status in {Expired, Revoked}
    ensures before[id].status == Live ==> after[id].status != Pending
  {
  }

  // --------------------------------------------------------------------- the lottery

  ghost function LiveIds(pool: Pool): set<TicketId> {
    set id | id in pool && pool[id].status == Live
  }

  /** Lower score first, ties by identifier. */
  function LotteryOrder(score: TicketId -> nat): (TicketId, TicketId) -> bool {
    (a: TicketId, b: TicketId) => score(a) < score(b) || (score(a) == score(b) && a <= b)
  }

  /** The winners: the first k of the live tickets in lottery order. */
  ghost predicate IsSelection(pool: Pool, score: TicketId -> nat, k: nat, selected: seq<TicketId>) {
    exists all ::
      SortedListing(LotteryOrder(score), LiveIds(pool), all) && selected == if k < |all| then all[..k] else all
  }

  /** select_tickets_for_voting; `dprf(seed, id)` is the lottery hash. The candidates come out of a
      hash map in an arbitrary order. */
  method SelectTicketsForVoting(pool: Pool, seed: Hash, dprf: (Hash, TicketId) -> nat, required: nat)
    returns (selected: seq<TicketId>)
    ensures IsSelection(pool, id => dprf(seed, id), required, selected)
  {
    var score := (id: TicketId) => dprf(seed, id);
    var live := set id | id in pool && pool[id].status == Live;
    if live == {} {
      assert live == LiveIds(pool);
      assert SortedListing(LotteryOrder(score), LiveIds(pool), []);
      return [];
    }
    var candidates := Enumerate(live);
    LotteryOrderTotal(score);
    SortListing(LotteryOrder(score), live, candidates);
    var sorted := SortBy(LotteryOrder(score), candidates);
    var count := if required <= |sorted| then required else |sorted|;
    selected := sorted[..count];
  }

  lemma LotteryOrderTotal(score: TicketId -> nat)
    ensures TotalOrder(LotteryOrder(score))
  {
  }

  /** There is exactly one selection: the result cannot depend on the iteration order of the map. */
  lemma SelectionUnique(pool: Pool, score: TicketId -> nat, k: nat, r: seq<TicketId>, s: seq<TicketId>)
    requires IsSelection(pool, score, k, r) && IsSelection(pool, score, k, s)
    ensures r == s
  {
    var order := LotteryOrder(score);
    var a :| SortedListing(order, LiveIds(pool), a) && r == if k < |a| then a[..k] else a;
    var b :| SortedListing(order, LiveIds(pool), b) && s == if k < |b| then b[..k] else b;
    LotteryOrderTotal(score);
    SortedListingUnique(order, LiveIds(pool), a, b);
  }

  lemma NotTaken(all: seq<TicketId>, n: nat, l: TicketId, j: nat)
    requires n <= |all| && j < |all| && all[j] == l && l !in all[..n]
    ensures n <= j
  {
  }

  /** What a selection means: min(k, live) distinct live tickets, none beaten by one left out. */
  lemma SelectionMeaning(pool: Pool, score: TicketId -> nat, k: nat, selected: seq<TicketId>)
    requires IsSelection(pool, score, k, selected)
    ensures |selected| == (if k < |LiveIds(pool)| then k else |LiveIds(pool)|) && NoDuplicates(selected)
    ensures forall id :: id in selected ==> id in LiveIds(pool)
    ensures forall w, l :: w in selected && l in LiveIds(pool) && l !in selected ==>
      score(w) < score(l) || (score(w) == score(l) && w < l)
  {
    var order := LotteryOrder(score);
    var all :| SortedListing(order, LiveIds(pool), all) && selected == if k < |all| then all[..k] else all;
    ListingLength(all, LiveIds(pool));
    forall id | id in selected ensures id in LiveIds(pool) { assert id in all; }
    forall w, l | w in selected && l in LiveIds(pool) && l !in selected
      ensures score(w) < score(l) || (score(w) == score(l) && w < l)
    {
      var i :| 0 <= i < |selected| && selected[i] == w;
      assert l in all;
      var j :| 0 <= j < |all| && all[j] == l;
      NotTaken(all, |selected|, l, j);
      assert order(all[i], all[j]);
    }
  }

  /** A ticket that has voted is never drawn again, however its pool advances. */
  lemma VotedNeverSelected(before: Pool, after: Pool, id: TicketId, score: TicketId -> nat, k: nat,
                           selected: seq<TicketId>)
    requires Advances(before, after) && id in before && before[id].status in {Voted, Revoked}
    requires IsSelection(after, score, k, selected)
    ensures id !in selected
  {
    SelectionMeaning(after, score, k, selected);
    assert after[id].status in {Voted, Revoked};
  }

  // ------------------------------------------------------------------ vote validation

  predicate VoteOk(pool: Pool, v: Vote, height: nat) {
    v.ticket in pool && pool[v.ticket].status == Live && !HasExpired(pool[v.ticket], height) && v.choice <= 2
  }

  ghost predicate DistinctVoters(votes: seq<Vote>) {
    forall i, j :: 0 <= i < j < |votes| ==> votes[i].ticket != votes[j].ticket
  }

  ghost predicate VotesOk(pool: Pool, votes: seq<Vote>, height: nat) {
    && MIN_VALID_VOTES_REQUIRED <= |votes|
    && DistinctVoters(votes)
    && forall i :: 0 <= i < |votes| ==> VoteOk(pool, votes[i], height)
  }

  /** validate_ticket_votes. */
  method ValidateTicketVotes(pool: Pool, votes: seq<Vote>, height: nat) returns (r: Check)
    ensures r.Ok? <==> VotesOk(pool, votes, height)
  {
    if votes == [] { return Err("no ticket votes"); }
    var valid := 0;
    var seen: set<TicketId> := {};
    for i := 0 to |votes|
      invariant valid == i
      invariant forall t :: t in seen <==> exists k :: 0 <= k < i && votes[k].ticket == t
      invariant forall j, k :: 0 <= j < k < i ==> votes[j].ticket != votes[k].ticket
      invariant forall k :: 0 <= k < i ==> VoteOk(pool, votes[k], height)
    {
      var v := votes[i];
      if v.ticket in seen { return Err("duplicate ticket vote"); }
      seen := seen + {v.ticket};
      if v.ticket !in pool { return Err("invalid ticket id"); }
      if pool[v.ticket].status != Live { return Err("invalid ticket status"); }
      if HasExpired(pool[v.ticket], height) { return Err("expired ticket"); }
      if v.choice > 2 { return Err("invalid vote type"); }
      valid := valid + 1;
    }
    if valid < MIN_VALID_VOTES_REQUIRED { return Err("insufficient ticket votes"); }
    return Ok(());
  }

  /** Once expired tickets have been swept at a height, votes by selected tickets are valid at that
      height whenever there are three of them, from distinct tickets, with a known choice. */
  lemma SelectedVotesAreValid(before: Pool, height: nat, score: TicketId -> nat, k: nat,
                              selected: seq<TicketId>, votes: seq<Vote>)
    requires IsSelection(Relabel(before, ExpiresAt(height), Expired), score, k, selected)
    requires MIN_VALID_VOTES_REQUIRED <= |votes| && DistinctVoters(votes)
    requires forall i :: 0 <= i < |votes| ==> votes[i].ticket in selected && votes[i].choice <= 2
    ensures VotesOk(Relabel(before, ExpiresAt(height), Expired), votes, height)
  {
    var pool := Relabel(before, ExpiresAt(height), Expired);
    SelectionMeaning(pool, score, k, selected);
    forall i | 0 <= i < |votes| ensures VoteOk(pool, votes[i], height) {
      assert votes[i].ticket in LiveIds(pool);
    }
  }
}
