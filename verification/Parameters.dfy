/** Governed consensus parameters: validation, scheduling, application and rollback of changes
    (rusty-governance/src/parameter_manager.rs). The parameter record is a map from the names of its
    settable fields; names are an enumeration, one constructor per known string. */
module Parameters {
  import opened Wrappers
  import opened Sorting

  datatype Kind = KindU64 | KindU32 | KindF64 | KindBool | KindString | KindBytes

  datatype Value = U64(n: nat) | U32(n: nat) | F64(x: real) | Bool(b: bool) | Text(s: string) | Bytes(bytes: seq<nat>)

  datatype Name =
    | MinBlockTime | DifficultyAdjustmentWindow | HalvingInterval | MaxBlockSize | MaxTxSize | CoinbaseMaturity
    | DustLimit | GracePeriodBlocks | SlashForgivenessPeriod | MaliciousBehaviorSlashPercentage | TicketPrice | MinStake
    | PosRewardRatio
    | InitialBlockReward | TicketMaturity | TicketExpiry | MaxTicketPrice | MinTicketPrice | ProposalStakeAmount
    | VotingPeriodBlocks | ActivationDelayBlocks | PosVotingQuorum | MnVotingQuorum | PosApproval | MnApproval
    | PoseChallengePeriodBlocks | MaxPoseFailures | MaxConnections | Other(text: string)

  type ProposalId = nat

  datatype Change = Change(name: Name, oldValue: Value, newValue: Value, id: ProposalId, activation: nat)

  datatype Metadata = Metadata(kind: Kind, min: Value, max: Value)

  type Params = map<Name, Value>

  function KindOf(v: Value): Kind {
    match v
    case U64(_) => KindU64
    case U32(_) => KindU32
    case F64(_) => KindF64
    case Bool(_) => KindBool
    case Text(_) => KindString
    case Bytes(_) => KindBytes
  }

  /** The arms of apply_parameter_change and of the getter. */
  function SettableKind(n: Name): Option<Kind> {
    match n
    case DifficultyAdjustmentWindow | CoinbaseMaturity | TicketMaturity | TicketExpiry | MaxPoseFailures =>
      Some(KindU32)
    case MaliciousBehaviorSlashPercentage | PosRewardRatio | PosVotingQuorum | MnVotingQuorum | PosApproval
       | MnApproval => Some(KindF64)
    case MaxConnections | Other(_) => None
    case _ => Some(KindU64)
  }

  /** The registry filled by the constructor. */
  function Registered(n: Name): Option<Metadata> {
    match n
    case MinBlockTime => Some(Metadata(KindU64, U64(30), U64(3600)))
    case DifficultyAdjustmentWindow => Some(Metadata(KindU32, U32(10), U32(10000)))
    case HalvingInterval => Some(Metadata(KindU64, U64(50000), U64(1000000)))
    case MaxBlockSize => Some(Metadata(KindU64, U64(1_000_000), U64(100_000_000)))
    case MaxTxSize => Some(Metadata(KindU64, U64(1000), U64(10_000_000)))
    case CoinbaseMaturity => Some(Metadata(KindU32, U32(1), U32(1000)))
    case DustLimit => Some(Metadata(KindU64, U64(1), U64(100_000)))
    case GracePeriodBlocks => Some(Metadata(KindU64, U64(10), U64(10000)))
    case SlashForgivenessPeriod => Some(Metadata(KindU64, U64(100), U64(100000)))
    case MaliciousBehaviorSlashPercentage => Some(Metadata(KindF64, F64(0.1), F64(1.0)))
    case TicketPrice => Some(Metadata(KindU64, U64(100_000), U64(1_000_000_000_000)))
    case MinStake => Some(Metadata(KindU64, U64(100_000_000), U64(100_000_000_000)))
    case PosRewardRatio => Some(Metadata(KindF64, F64(0.1), F64(0.9)))
    case InitialBlockReward => Some(Metadata(KindU64, U64(1_000_000), U64(100_000_000_000)))
    case TicketMaturity => Some(Metadata(KindU32, U32(1), U32(1000)))
    case TicketExpiry => Some(Metadata(KindU32, U32(1000), U32(100000)))
    case MaxTicketPrice => Some(Metadata(KindU64, U64(1_000_000), U64(10_000_000_000_000)))
    case MinTicketPrice => Some(Metadata(KindU64, U64(1000), U64(1_000_000_000)))
    case ProposalStakeAmount => Some(Metadata(KindU64, U64(1_000_000_000), U64(100_000_000_000)))
    case VotingPeriodBlocks => Some(Metadata(KindU64, U64(1000), U64(100000)))
    case ActivationDelayBlocks => Some(Metadata(KindU64, U64(100), U64(10000)))
    case PosVotingQuorum => Some(Metadata(KindF64, F64(0.1), F64(1.0)))
    case MnVotingQuorum => Some(Metadata(KindF64, F64(0.1), F64(1.0)))
    case PosApproval => Some(Metadata(KindF64, F64(0.5), F64(1.0)))
    case MnApproval => Some(Metadata(KindF64, F64(0.5), F64(1.0)))
    case PoseChallengePeriodBlocks => Some(Metadata(KindU64, U64(10), U64(1000)))
    case MaxPoseFailures => Some(Metadata(KindU32, U32(1), U32(10)))
    case MaxConnections => Some(Metadata(KindU32, U32(8), U32(1000)))
    case Other(_) => None
  }

  predicate AtLeast(v: Value, min: Value) {
    match (v, min)
    case (U64(a), U64(b)) => a >= b
    case (U32(a), U32(b)) => a >= b
    case (F64(a), F64(b)) => a >= b
    case _ => false
  }

  predicate AtMost(v: Value, max: Value) {
    match (v, max)
    case (U64(a), U64(b)) => a <= b
    case (U32(a), U32(b)) => a <= b
    case (F64(a), F64(b)) => a <= b
    case _ => false
  }

  /** What the record's type guarantees: every settable field is there, with its type. */
  ghost predicate WellTyped(params: Params) {
    forall n :: SettableKind(n).Some? ==> n in params && KindOf(params[n]) == SettableKind(n).value
  }

  // ----------------------------------------------------------------------- validation

  datatype Proposal = Proposal(id: ProposalId, isParameterChange: bool, target: Option<Name>, newValue: Option<string>)

  /** Text to value; parsing yields a value of the requested type. */
  ghost predicate Parses(parse: (string, Kind) -> Option<Value>) {
    forall s, k :: parse(s, k).Some? ==> KindOf(parse(s, k).value) == k
  }

  /** validate_parameter_change. */
  function ValidateParameterChange(p: Proposal, params: Params,
                                   parse: (string, Kind) -> Option<Value>): (r: Result<Change>)
    requires WellTyped(params)
  {
    if !p.isParameterChange then Err("not a parameter change proposal")
    else if p.target.None? then Err("missing target parameter")
    else if p.newValue.None? then Err("missing new value")
    else
      var name := p.target.value;
      if Registered(name).None? then Err("unknown parameter")
      else
        var meta := Registered(name).value;
        var parsed := parse(p.newValue.value, meta.kind);
        if parsed.None? then Err("invalid value")
        else if !AtLeast(parsed.value, meta.min) then Err("below minimum")
        else if !AtMost(parsed.value, meta.max) then Err("above maximum")
        else if SettableKind(name).None? then Err("unknown parameter")
        else Ok(Change(name, params[name], parsed.value, p.id, 0))
  }

  /** A change that can be applied, and one that can be reverted. */
  predicate Applicable(c: Change) {
    SettableKind(c.name) == Some(KindOf(c.newValue))
  }

  predicate Revertible(c: Change) {
    SettableKind(c.name) == Some(KindOf(c.oldValue))
  }

  const COUNTS := {DifficultyAdjustmentWindow, CoinbaseMaturity, TicketMaturity, TicketExpiry, MaxPoseFailures}
  const FRACTIONS := {MaliciousBehaviorSlashPercentage, PosRewardRatio, PosVotingQuorum, MnVotingQuorum, PosApproval,
                      MnApproval}

  /** A value of the type its parameter has: five are 32-bit, six are fractions, the others 64-bit. */
  ghost predicate Fits(n: Name, v: Value) {
    && n != MaxConnections && !n.Other?
    && (if n in COUNTS then v.U32? else if n in FRACTIONS then v.F64? else v.U64?)
  }

  lemma ApplicableIff(c: Change)
    ensures Applicable(c) <==> Fits(c.name, c.newValue)
    ensures Revertible(c) <==> Fits(c.name, c.oldValue)
  {
  }

  /** Applying changes keeps the record well typed, and for a parameter of the record only a change of its type
      does. */
  lemma {:induction false} TypesKept(params: Params, cs: seq<Change>)
    requires WellTyped(params) && forall c :: c in cs ==> Fits(c.name, c.newValue)
    ensures WellTyped(SetAll(params, cs))
  {
    if cs != [] {
      var rest, last := cs[..|cs| - 1], cs[|cs| - 1];
      assert last in cs;
      TypesKept(params, rest);
      ApplicableIff(last);
    }
  }

  lemma TypeKeptIff(params: Params, c: Change)
    requires WellTyped(params) && c.name != MaxConnections && !c.name.Other?
    ensures WellTyped(Set(params, c)) <==> Fits(c.name, c.newValue)
  {
    ApplicableIff(c);
    if WellTyped(Set(params, c)) {
      assert KindOf(Set(params, c)[c.name]) == SettableKind(c.name).value;
    }
  }

  /** The range a governed parameter may be set to. */
  ghost predicate InRange(n: Name, v: Value) {
    match n
    case MinBlockTime => v.U64? && 30 <= v.n <= 3_600
    case DifficultyAdjustmentWindow => v.U32? && 10 <= v.n <= 10_000
    case HalvingInterval => v.U64? && 50_000 <= v.n <= 1_000_000
    case MaxBlockSize => v.U64? && 1_000_000 <= v.n <= 100_000_000
    case MaxTxSize => v.U64? && 1_000 <= v.n <= 10_000_000
    case CoinbaseMaturity => v.U32? && 1 <= v.n <= 1_000
    case DustLimit => v.U64? && 1 <= v.n <= 100_000
    case GracePeriodBlocks => v.U64? && 10 <= v.n <= 10_000
    case SlashForgivenessPeriod => v.U64? && 100 <= v.n <= 100_000
    case MaliciousBehaviorSlashPercentage => v.F64? && 0.1 <= v.x <= 1.0
    case TicketPrice => v.U64? && 100_000 <= v.n <= 1_000_000_000_000
    case MinStake => v.U64? && 100_000_000 <= v.n <= 100_000_000_000
    case PosRewardRatio => v.F64? && 0.1 <= v.x <= 0.9
    case InitialBlockReward => v.U64? && 1_000_000 <= v.n <= 100_000_000_000
    case TicketMaturity => v.U32? && 1 <= v.n <= 1_000
    case TicketExpiry => v.U32? && 1_000 <= v.n <= 100_000
    case MaxTicketPrice => v.U64? && 1_000_000 <= v.n <= 10_000_000_000_000
    case MinTicketPrice => v.U64? && 1_000 <= v.n <= 1_000_000_000
    case ProposalStakeAmount => v.U64? && 1_000_000_000 <= v.n <= 100_000_000_000
    case VotingPeriodBlocks => v.U64? && 1_000 <= v.n <= 100_000
    case ActivationDelayBlocks => v.U64? && 100 <= v.n <= 10_000
    case PosVotingQuorum => v.F64? && 0.1 <= v.x <= 1.0
    case MnVotingQuorum => v.F64? && 0.1 <= v.x <= 1.0
    case PosApproval => v.F64? && 0.5 <= v.x <= 1.0
    case MnApproval => v.F64? && 0.5 <= v.x <= 1.0
    case PoseChallengePeriodBlocks => v.U64? && 10 <= v.n <= 1_000
    case MaxPoseFailures => v.U32? && 1 <= v.n <= 10
    case MaxConnections => false
    case Other(_) => false
  }

  /** The type a text is parsed as. */
  function ParsedAs(n: Name): Kind {
    if n in COUNTS then KindU32 else if n in FRACTIONS then KindF64 else KindU64
  }

  /** A proposal is valid exactly when it names a parameter and a text that parses, as the parameter's type, to
      a value in its range; the change then takes the parameter from its current value to that one. */
  lemma ValidIff(p: Proposal, params: Params, parse: (string, Kind) -> Option<Value>)
    requires WellTyped(params) && Parses(parse)
    ensures ValidateParameterChange(p, params, parse).Ok?
      <==> (&& p.isParameterChange && p.target.Some? && p.newValue.Some?
            && var v := parse(p.newValue.value, ParsedAs(p.target.value));
              v.Some? && InRange(p.target.value, v.value))
    ensures ValidateParameterChange(p, params, parse).Ok? ==>
      && p.target.value in params
      && var n, c := p.target.value, ValidateParameterChange(p, params, parse).value;
        c == Change(n, params[n], parse(p.newValue.value, ParsedAs(n)).value, p.id, 0)
  {
    if p.target.Some? && p.newValue.Some? {
      KindsAgree(p.target.value);
      RangeIff(p.target.value, parse(p.newValue.value, ParsedAs(p.target.value)));
    }
    hide InRange, Registered, AtLeast, AtMost, ParsedAs;
  }

  lemma KindsAgree(n: Name)
    ensures Registered(n).Some? && n != MaxConnections ==>
      Registered(n).value.kind == ParsedAs(n) && SettableKind(n) == Some(ParsedAs(n))
    ensures SettableKind(n).Some? <==> Registered(n).Some? && n != MaxConnections
  {
  }

  lemma RangeIff(n: Name, v: Option<Value>)
    requires v.Some? ==> KindOf(v.value) == ParsedAs(n)
    ensures (v.Some? && InRange(n, v.value))
      <==> (&& v.Some? && Registered(n).Some? && n != MaxConnections
            && AtLeast(v.value, Registered(n).value.min) && AtMost(v.value, Registered(n).value.max))
  {
  }

  /** A validated change can be applied and reverted, records the current value, and is in range. */
  lemma ValidatedChange(p: Proposal, params: Params, parse: (string, Kind) -> Option<Value>)
    requires WellTyped(params) && Parses(parse) && ValidateParameterChange(p, params, parse).Ok?
    ensures var c := ValidateParameterChange(p, params, parse).value;
      && Applicable(c) && Revertible(c) && c.name in params && c.oldValue == params[c.name] && c.id == p.id
      && Registered(c.name).Some?
      && AtLeast(c.newValue, Registered(c.name).value.min) && AtMost(c.newValue, Registered(c.name).value.max)
  {
    SettableIff(p.target.value);
  }

  /** Every registered parameter can be changed but one: the connection limit is registered, yet no
      proposal for it is ever valid. */
  lemma SettableIff(n: Name)
    requires Registered(n).Some?
    ensures SettableKind(n).Some? <==> n != MaxConnections
    ensures SettableKind(n).Some? ==> SettableKind(n).value == Registered(n).value.kind
  {
  }

  lemma ConnectionLimitNeverValid(p: Proposal, params: Params, parse: (string, Kind) -> Option<Value>)
    requires WellTyped(params) && p.target == Some(MaxConnections)
    ensures ValidateParameterChange(p, params, parse).Err?
  {
  }

  // ------------------------------------------------------------------ lists of changes

  function Set(params: Params, c: Change): Params {
    params[c.name := c.newValue]
  }

  /** The parameters after all changes, first to last. */
  function SetAll(params: Params, cs: seq<Change>): Params {
    if cs == [] then params else Set(SetAll(params, cs[..|cs| - 1]), cs[|cs| - 1])
  }

  function Names(cs: seq<Change>): set<Name> {
    set c | c in cs :: c.name
  }

  ghost predicate DistinctNames(cs: seq<Change>) {
    forall i, j :: 0 <= i < j < |cs| ==> cs[i].name != cs[j].name
  }

  lemma SetAllStep(params: Params, cs: seq<Change>, c: Change)
    ensures SetAll(params, cs + [c]) == Set(SetAll(params, cs), c)
  {
    assert (cs + [c])[..|cs|] == cs;
  }

  lemma {:induction false} SetAllKeys(params: Params, cs: seq<Change>)
    ensures SetAll(params, cs).Keys == params.Keys + Names(cs)
  {
    if cs != [] {
      var rest := cs[..|cs| - 1];
      SetAllKeys(params, rest);
      assert cs == rest + [cs[|cs| - 1]];
    }
  }

  lemma {:induction false} Untouched(params: Params, cs: seq<Change>, n: Name)
    requires n !in Names(cs) && n in params
    ensures n in SetAll(params, cs) && SetAll(params, cs)[n] == params[n]
  {
    if cs != [] {
      var rest := cs[..|cs| - 1];
      assert cs[|cs| - 1] in cs;
      assert Names(rest) <= Names(cs);
      Untouched(params, rest, n);
    }
  }

  /** If all changes to a parameter agree, that is its value afterwards. */
  lemma {:induction false} Agreed(params: Params, cs: seq<Change>, n: Name, v: Value)
    requires n in Names(cs)
    requires forall c :: c in cs && c.name == n ==> c.newValue == v
    ensures n in SetAll(params, cs) && SetAll(params, cs)[n] == v
  {
    var rest, last := cs[..|cs| - 1], cs[|cs| - 1];
    if last.name != n {
      assert cs == rest + [last];
      Agreed(params, rest, n, v);
    } else {
      assert last in cs;
    }
  }

  lemma LastWins(params: Params, cs: seq<Change>, c: Change)
    ensures c.name in SetAll(params, cs + [c]) && SetAll(params, cs + [c])[c.name] == c.newValue
  {
    SetAllStep(params, cs, c);
  }

  // -------------------------------------------------------- order of application

  /** No two changes disagree about a parameter. */
  ghost predicate Consistent(ready: set<Change>) {
    forall c, d :: c in ready && d in ready && c.name == d.name ==> c.newValue == d.newValue
  }

  ghost predicate OrderIndependent(params: Params, ready: set<Change>) {
    forall a, b :: Lists(a, ready) && Lists(b, ready) ==> SetAll(params, a) == SetAll(params, b)
  }

  /** The result of applying a set of changes is independent of the order in which the map yields them
      exactly when no two of them disagree about a parameter. */
  lemma OrderIndependentIff(params: Params, ready: set<Change>)
    ensures OrderIndependent(params, ready) <==> Consistent(ready)
  {
    hide SetAll, Lists;
    if Consistent(ready) {
      forall a, b | Lists(a, ready) && Lists(b, ready) ensures SetAll(params, a) == SetAll(params, b) {
        ConsistentOrders(params, ready, a, b);
      }
    } else {
      var c, d :| c in ready && d in ready && c.name == d.name && c.newValue != d.newValue;
      var a := SomeListing(ready - {c});
      var b := SomeListing(ready - {d});
      LastWins(params, a, c);
      LastWins(params, b, d);
      ListsSnoc(a, ready, c);
      ListsSnoc(b, ready, d);
    }
  }

  lemma ListsSnoc<T(!new)>(s: seq<T>, elements: set<T>, x: T)
    requires x in elements && Lists(s, elements - {x})
    ensures Lists(s + [x], elements)
  {
  }

  lemma ConsistentOrders(params: Params, ready: set<Change>, a: seq<Change>, b: seq<Change>)
    requires Consistent(ready) && Lists(a, ready) && Lists(b, ready)
    ensures SetAll(params, a) == SetAll(params, b)
  {
    SetAllKeys(params, a);
    SetAllKeys(params, b);
    assert Names(a) == Names(b);
    forall n | n in SetAll(params, a) ensures SetAll(params, a)[n] == SetAll(params, b)[n] {
      if n in Names(a) {
        var c :| c in a && c.name == n;
        Agreed(params, a, n, c.newValue);
        Agreed(params, b, n, c.newValue);
      } else {
        Untouched(params, a, n);
        Untouched(params, b, n);
      }
    }
  }

  // -------------------------------------------------------------------------- rollback

  type Index = map<nat, seq<Change>>

  function Flip(c: Change): Change {
    c.(oldValue := c.newValue, newValue := c.oldValue)
  }

  function FlipAll(cs: seq<Change>): seq<Change> {
    seq(|cs|, i requires 0 <= i < |cs| => Flip(cs[i]))
  }

  /** Every change takes its parameter back to the recorded old value, first to last. */
  function RevertAll(params: Params, cs: seq<Change>): Params {
    SetAll(params, FlipAll(cs))
  }

  function From(index: Index, from: nat): set<nat> {
    set h | h in index && h >= from
  }

  /** The changes of the given heights, heights in the given order. */
  function Flatten(index: Index, heights: seq<nat>): seq<Change> {
    if heights == [] then []
    else
      var last := heights[|heights| - 1];
      Flatten(index, heights[..|heights| - 1]) + if last in index then index[last] else []
  }

  /** The changes recorded at or above a height. */
  ghost predicate Recorded(index: Index, from: nat, c: Change) {
    exists h :: h in index && h >= from && c in index[h]
  }

  /** Rolling back to `from` gives these parameters, in whatever order the heights come. */
  ghost predicate Restores(index: Index, from: nat, after: Params, before: Params) {
    forall order :: Lists(order, From(index, from)) ==> RevertAll(after, Flatten(index, order)) == before
  }

  /** The two parameter sets differ at most where a change was recorded. */
  ghost predicate DifferOnlyWhereRecorded(index: Index, from: nat, before: Params, after: Params) {
    && before.Keys == after.Keys
    && forall n :: n in before ==> before[n] == after[n] || exists c :: Recorded(index, from, c) && c.name == n
  }

  /** No later change in the list is of the same parameter. */
  ghost predicate IsLast(cs: seq<Change>, i: nat)
    requires i < |cs|
  {
    forall j :: i < j < |cs| ==> cs[j].name != cs[i].name
  }

  /** At every height, the last change of each parameter recorded the value from before. */
  ghost predicate OldValuesHeld(index: Index, from: nat, before: Params) {
    forall h :: h in index && h >= from ==> LastOldValuesHeld(index[h], before)
  }

  ghost predicate LastOldValuesHeld(cs: seq<Change>, before: Params) {
    forall i :: 0 <= i < |cs| && IsLast(cs, i) ==> cs[i].name in before && cs[i].oldValue == before[cs[i].name]
  }

  /** Rolling back restores the parameters for every order of the heights exactly when, at every height,
      the last change of each parameter recorded the value from before the rolled-back range: rollback
      reverts the changes of a height first to last. */
  lemma RestoresIff(index: Index, from: nat, before: Params, after: Params)
    requires DifferOnlyWhereRecorded(index, from, before, after)
    ensures Restores(index, from, after, before) <==> OldValuesHeld(index, from, before)
  {
    if OldValuesHeld(index, from, before) {
      forall order | Lists(order, From(index, from)) ensures RevertAll(after, Flatten(index, order)) == before {
        OldValuesRestore(index, from, before, after, order);
      }
    } else {
      var h :| h in index && h >= from && !LastOldValuesHeld(index[h], before);
      var i :| 0 <= i < |index[h]| && IsLast(index[h], i)
        && !(index[h][i].name in before && index[h][i].oldValue == before[index[h][i].name]);
      var rest: seq<nat> := SomeListing<nat>(From(index, from) - {h});
      ListsSnoc(rest, From(index, from), h);
      LastHeightWins(index, rest, h, i, after);
    }
  }

  lemma FlipNames(cs: seq<Change>)
    ensures Names(FlipAll(cs)) == Names(cs)
  {
    forall c | c in cs ensures c.name in Names(FlipAll(cs)) {
      var i :| 0 <= i < |cs| && cs[i] == c;
      assert FlipAll(cs)[i] in FlipAll(cs);
    }
    forall d | d in FlipAll(cs) ensures d.name in Names(cs) {
      var i :| 0 <= i < |cs| && FlipAll(cs)[i] == d;
      assert cs[i] in cs;
    }
  }

  lemma {:induction false} FlattenContains(index: Index, heights: seq<nat>, c: Change)
    ensures c in Flatten(index, heights) <==> exists h :: h in heights && h in index && c in index[h]
  {
    if heights != [] {
      var rest, last := heights[..|heights| - 1], heights[|heights| - 1];
      FlattenContains(index, rest, c);
      assert heights == rest + [last];
    }
  }

  lemma {:induction false} LastExists(cs: seq<Change>, n: Name) returns (i: nat)
    requires n in Names(cs)
    ensures i < |cs| && cs[i].name == n && IsLast(cs, i)
  {
    var rest, last := cs[..|cs| - 1], |cs| - 1;
    if cs[last].name == n {
      i := last;
    } else {
      assert cs == rest + [cs[last]];
      i := LastExists(rest, n);
      assert forall j :: i < j < |rest| ==> rest[j].name != rest[i].name;
    }
  }

  /** The last change of a parameter decides what it is reverted to. */
  lemma LastDecides(params: Params, cs: seq<Change>, i: nat)
    requires i < |cs| && IsLast(cs, i)
    ensures var r := RevertAll(params, cs); cs[i].name in r && r[cs[i].name] == cs[i].oldValue
  {
    var upTo, beyond := FlipAll(cs[..i]), FlipAll(cs[i + 1..]);
    assert FlipAll(cs) == upTo + [Flip(cs[i])] + beyond;
    LastWins(params, upTo, Flip(cs[i]));
    FlipNames(cs[i + 1..]);
    SetAllConcat(params, upTo + [Flip(cs[i])], beyond);
    Untouched(SetAll(params, upTo + [Flip(cs[i])]), beyond, cs[i].name);
  }

  lemma RevertConcat(params: Params, a: seq<Change>, b: seq<Change>)
    ensures RevertAll(params, a + b) == RevertAll(RevertAll(params, a), b)
  {
    assert FlipAll(a + b) == FlipAll(a) + FlipAll(b);
    SetAllConcat(params, FlipAll(a), FlipAll(b));
  }

  lemma RevertUntouched(params: Params, cs: seq<Change>, n: Name)
    requires n !in Names(cs) && n in params
    ensures n in RevertAll(params, cs) && RevertAll(params, cs)[n] == params[n]
  {
    FlipNames(cs);
    Untouched(params, FlipAll(cs), n);
  }

  lemma NamesConcat(a: seq<Change>, b: seq<Change>)
    ensures Names(a + b) == Names(a) + Names(b)
  {
    forall c | c in a ensures c.name in Names(a + b) { assert c in a + b; }
    forall c | c in b ensures c.name in Names(a + b) { assert c in a + b; }
  }

  /** Reverting heights in any order, a parameter changed at one of them gets its value from before. */
  lemma {:induction false} RevertedValue(index: Index, from: nat, before: Params, after: Params, order: seq<nat>,
                                         n: Name)
    requires OldValuesHeld(index, from, before) && n in before && n in after
    requires forall h :: h in order ==> h in index && h >= from
    ensures var r := RevertAll(after, Flatten(index, order));
      n in r && r[n] == if n in Names(Flatten(index, order)) then before[n] else after[n]
    decreases |order|
  {
    hide SetAll, Names, RevertAll;
    if order == [] {
      RevertNothing(after);
    } else {
      var rest, h := order[..|order| - 1], order[|order| - 1];
      assert order == rest + [h];
      assert forall k :: k in rest ==> k in order;
      RevertedValue(index, from, before, after, rest, n);
      RevertConcat(after, Flatten(index, rest), index[h]);
      NamesConcat(Flatten(index, rest), index[h]);
      var r := RevertAll(after, Flatten(index, rest));
      if n in Names(index[h]) {
        var i := LastExists(index[h], n);
        assert LastOldValuesHeld(index[h], before);
        LastDecides(r, index[h], i);
      } else {
        RevertUntouched(r, index[h], n);
      }
    }
  }

  lemma RevertNothing(params: Params)
    ensures RevertAll(params, []) == params && Names([]) == {}
  {
    assert FlipAll([]) == [];
  }

  lemma OldValuesRestore(index: Index, from: nat, before: Params, after: Params, order: seq<nat>)
    requires DifferOnlyWhereRecorded(index, from, before, after) && OldValuesHeld(index, from, before)
    requires Lists(order, From(index, from))
    ensures RevertAll(after, Flatten(index, order)) == before
  {
    var cs := Flatten(index, order);
    RecordedInOrder(index, from, order);
    RevertKeys(index, from, before, after, order);
    hide RevertAll, Flatten, OldValuesHeld;
    forall n | n in before ensures RevertAll(after, cs)[n] == before[n] {
      RevertedValue(index, from, before, after, order, n);
    }
  }

  lemma RecordedInOrder(index: Index, from: nat, order: seq<nat>)
    requires Lists(order, From(index, from))
    ensures forall c :: Recorded(index, from, c) ==> c.name in Names(Flatten(index, order))
  {
    forall c | Recorded(index, from, c) ensures c.name in Names(Flatten(index, order)) {
      FlattenContains(index, order, c);
    }
  }

  lemma RevertKeys(index: Index, from: nat, before: Params, after: Params, order: seq<nat>)
    requires OldValuesHeld(index, from, before) && before.Keys == after.Keys && Lists(order, From(index, from))
    ensures RevertAll(after, Flatten(index, order)).Keys == before.Keys
  {
    var cs := Flatten(index, order);
    FlipNames(cs);
    SetAllKeys(after, FlipAll(cs));
    forall c | c in cs ensures c.name in before {
      FlattenContains(index, order, c);
      var h :| h in order && h in index && c in index[h];
      assert c.name in Names(index[h]);
      var i := LastExists(index[h], c.name);
      assert LastOldValuesHeld(index[h], before);
    }
  }

  /** The height reverted last decides the parameters it changed. */
  lemma LastHeightWins(index: Index, rest: seq<nat>, h: nat, i: nat, after: Params)
    requires h in index && i < |index[h]| && IsLast(index[h], i)
    ensures var r := RevertAll(after, Flatten(index, rest + [h]));
      index[h][i].name in r && r[index[h][i].name] == index[h][i].oldValue
  {
    assert (rest + [h])[..|rest|] == rest;
    RevertConcat(after, Flatten(index, rest), index[h]);
    LastDecides(RevertAll(after, Flatten(index, rest)), index[h], i);
  }

  lemma {:induction false} SetAllConcat(params: Params, a: seq<Change>, b: seq<Change>)
    ensures SetAll(params, a + b) == SetAll(SetAll(params, a), b)
    decreases |b|
  {
    if b == [] {
      assert a + b == a;
    } else {
      var rest, last := b[..|b| - 1], b[|b| - 1];
      SetAllConcat(params, a, rest);
      assert a + b == (a + rest) + [last];
      SetAllStep(params, a + rest, last);
    }
  }

  // ---------------------------------------------------------------------------- runs

  function Concat(run: seq<seq<Change>>): seq<Change> {
    if run == [] then [] else Concat(run[..|run| - 1]) + run[|run| - 1]
  }

  /** The height index after the changes of a run, one list per consecutive height, were applied. */
  function IndexAfter(index: Index, from: nat, run: seq<seq<Change>>): Index {
    if run == [] then index
    else
      var i := |run| - 1;
      var prior := IndexAfter(index, from, run[..i]);
      if run[i] == [] then prior else prior[from + i := run[i]]
  }

  function Retain(history: seq<Change>, from: nat): seq<Change> {
    if history == [] then []
    else
      var last := history[|history| - 1];
      Retain(history[..|history| - 1], from) + if last.activation < from then [last] else []
  }

  /** At each height a run applies changes due at that height, to distinct parameters. */
  ghost predicate RunOk(from: nat, run: seq<seq<Change>>) {
    forall i :: 0 <= i < |run| ==> DistinctNames(run[i]) && DueAt(run[i], from + i)
  }

  ghost predicate DueAt(cs: seq<Change>, height: nat) {
    forall c :: c in cs ==> c.activation == height
  }

  /** Each change records the value it replaces. */
  ghost predicate Faithful(params: Params, cs: seq<Change>) {
    cs != [] ==>
      var rest, last := cs[..|cs| - 1], cs[|cs| - 1];
      && Faithful(params, rest)
      && last.name in SetAll(params, rest)
      && last.oldValue == SetAll(params, rest)[last.name]
  }

  /** What was there before a run: changes and heights below its start. */
  ghost predicate Earlier(index: Index, history: seq<Change>, from: nat) {
    && (forall h :: h in index ==> h < from)
    && (forall c :: c in history ==> c.activation < from)
  }

  /** Rolling back a run of any length restores the height index; it restores the history exactly when
      every change applied in the run was due in it, and the parameters, whatever the map order, exactly
      when the last change of each parameter at each height recorded the value from before the run. That
      is so when every change recorded the value it replaced and no parameter changed twice. */
  lemma DeepRollback(index: Index, history: seq<Change>, params: Params, from: nat, run: seq<seq<Change>>)
    requires Earlier(index, history, from) && Names(Concat(run)) <= params.Keys
    ensures var now := IndexAfter(index, from, run);
      && now - From(now, from) == index
      && (Retain(history + Concat(run), from) == history <==> forall c :: c in Concat(run) ==> c.activation >= from)
      && (Restores(now, from, SetAll(params, Concat(run)), params) <==> OldValuesHeld(now, from, params))
    ensures Faithful(params, Concat(run)) && DistinctNames(Concat(run)) ==>
      Restores(IndexAfter(index, from, run), from, SetAll(params, Concat(run)), params)
  {
    hide Restores, OldValuesHeld;
    var now, cs, after := IndexAfter(index, from, run), Concat(run), SetAll(params, Concat(run));
    IndexBelow(index, from, run);
    RetainIff(history, Concat(run), from);
    RunDiffers(index, params, from, run);
    RestoresIff(now, from, params, after);
    if Faithful(params, cs) && DistinctNames(cs) {
      FaithfulHeld(index, params, from, run);
    }
  }

  /** Undoing a single height. */
  lemma RollbackOneHeight(index: Index, history: seq<Change>, params: Params, height: nat, applied: seq<Change>)
    requires Earlier(index, history, height) && applied != [] && Names(applied) <= params.Keys
    ensures var now := index[height := applied];
      && now - From(now, height) == index
      && (Retain(history + applied, height) == history <==> forall c :: c in applied ==> c.activation >= height)
      && (Restores(now, height, SetAll(params, applied), params) <==> LastOldValuesHeld(applied, params))
  {
    hide Restores, OldValuesHeld, LastOldValuesHeld, From, Retain;
    OneHeightRun(index, height, applied);
    DeepRollback(index, history, params, height, [applied]);
    HeldAtOneHeight(index, params, height, applied);
  }

  lemma OneHeightRun(index: Index, height: nat, applied: seq<Change>)
    requires applied != []
    ensures Concat([applied]) == applied && IndexAfter(index, height, [applied]) == index[height := applied]
  {
    var run := [applied];
    assert run[..0] == [];
    assert Concat([]) + applied == applied;
  }

  lemma HeldAtOneHeight(index: Index, params: Params, height: nat, applied: seq<Change>)
    requires forall h :: h in index ==> h < height
    ensures OldValuesHeld(index[height := applied], height, params) <==> LastOldValuesHeld(applied, params)
  {
    hide LastOldValuesHeld;
    var now := index[height := applied];
    assert height in now && now[height] == applied;
  }

  /** With distinct parameters every change is the last of its own. */
  lemma LastOfDistinct(cs: seq<Change>, params: Params)
    requires DistinctNames(cs) && Names(cs) <= params.Keys
    ensures forall c :: c in cs ==> c.name in params
    ensures LastOldValuesHeld(cs, params) <==> forall c :: c in cs ==> c.oldValue == params[c.name]
  {
    NamesHeld(cs, params);
    if LastOldValuesHeld(cs, params) {
      forall c | c in cs ensures c.oldValue == params[c.name] {
        var i :| 0 <= i < |cs| && cs[i] == c;
        assert IsLast(cs, i);
      }
    }
  }

  lemma NamesHeld(cs: seq<Change>, params: Params)
    requires Names(cs) <= params.Keys
    ensures forall c :: c in cs ==> c.name in params
  {
    forall c | c in cs ensures c.name in params { assert c.name in Names(cs); }
  }

  lemma {:induction false} IndexBelow(index: Index, from: nat, run: seq<seq<Change>>)
    requires forall h :: h in index ==> h < from
    ensures var now := IndexAfter(index, from, run);
      && (forall h :: h in index ==> h in now && now[h] == index[h])
      && (forall h :: h in now && h < from ==> h in index)
      && (forall h :: h in now && h >= from ==> h - from < |run| && now[h] == run[h - from])
      && (forall i :: 0 <= i < |run| && run[i] != [] ==> from + i in now)
      && now - From(now, from) == index
  {
    if run != [] {
      var i := |run| - 1;
      IndexBelow(index, from, run[..i]);
    }
  }

  lemma {:induction false} RetainNone(history: seq<Change>, cs: seq<Change>, from: nat)
    requires forall c :: c in cs ==> c.activation >= from
    ensures Retain(history + cs, from) == Retain(history, from)
    decreases |cs|
  {
    if cs == [] {
      assert history + cs == history;
    } else {
      var rest, last := cs[..|cs| - 1], cs[|cs| - 1];
      assert cs == rest + [last];
      assert history + cs == (history + rest) + [last];
      assert (history + cs)[..|history + rest|] == history + rest;
      RetainNone(history, rest, from);
    }
  }

  lemma {:induction false} RetainAll(history: seq<Change>, from: nat)
    requires forall c :: c in history ==> c.activation < from
    ensures Retain(history, from) == history
  {
    if history != [] {
      var rest, last := history[..|history| - 1], history[|history| - 1];
      assert history == rest + [last];
      RetainAll(rest, from);
    }
  }

  lemma {:induction false} InConcat(run: seq<seq<Change>>, c: Change)
    ensures c in Concat(run) <==> exists i :: 0 <= i < |run| && c in run[i]
  {
    if run != [] {
      var rest, last := run[..|run| - 1], run[|run| - 1];
      InConcat(rest, c);
      if i :| 0 <= i < |rest| && c in rest[i] { assert c in run[i]; }
      if i :| 0 <= i < |run| && c in run[i] && i < |rest| { assert c in rest[i]; }
    }
  }

  /** The history is cut back to what it was exactly when nothing appended was due earlier. */
  lemma RetainIff(history: seq<Change>, cs: seq<Change>, from: nat)
    requires forall c :: c in history ==> c.activation < from
    ensures Retain(history + cs, from) == history <==> forall c :: c in cs ==> c.activation >= from
  {
    RetainAll(history, from);
    if forall c :: c in cs ==> c.activation >= from {
      RetainNone(history, cs, from);
    } else {
      RetainMore(history, cs, from);
    }
  }

  lemma {:induction false} RetainMore(history: seq<Change>, cs: seq<Change>, from: nat)
    requires exists c :: c in cs && c.activation < from
    ensures |Retain(history + cs, from)| > |Retain(history, from)|
    decreases |cs|
  {
    var rest, last := cs[..|cs| - 1], cs[|cs| - 1];
    assert cs == rest + [last];
    assert (history + cs)[..|history + rest|] == history + rest;
    if exists c :: c in rest && c.activation < from {
      RetainMore(history, rest, from);
    } else {
      RetainNone(history, rest, from);
    }
  }

  lemma DueInRun(from: nat, run: seq<seq<Change>>)
    requires RunOk(from, run)
    ensures forall c :: c in Concat(run) ==> c.activation >= from
  {
    forall c | c in Concat(run) ensures c.activation >= from {
      InConcat(run, c);
    }
  }

  lemma RecordedInRun(index: Index, from: nat, run: seq<seq<Change>>, c: Change)
    requires forall h :: h in index ==> h < from
    ensures Recorded(IndexAfter(index, from, run), from, c) <==> c in Concat(run)
  {
    var now := IndexAfter(index, from, run);
    IndexBelow(index, from, run);
    InConcat(run, c);
    if i :| 0 <= i < |run| && c in run[i] {
      assert from + i in now && c in now[from + i];
    }
  }

  lemma RunDiffers(index: Index, params: Params, from: nat, run: seq<seq<Change>>)
    requires (forall h :: h in index ==> h < from) && Names(Concat(run)) <= params.Keys
    ensures DifferOnlyWhereRecorded(IndexAfter(index, from, run), from, params, SetAll(params, Concat(run)))
  {
    var now, cs := IndexAfter(index, from, run), Concat(run);
    SetAllKeys(params, cs);
    forall n | n in params && params[n] != SetAll(params, cs)[n]
      ensures exists c :: Recorded(now, from, c) && c.name == n
    {
      if n !in Names(cs) { Untouched(params, cs, n); }
      var c :| c in cs && c.name == n;
      RecordedInRun(index, from, run, c);
    }
  }

  lemma {:induction false} FaithfulOld(params: Params, cs: seq<Change>, c: Change)
    requires Faithful(params, cs) && DistinctNames(cs) && c in cs
    requires Names(cs) <= params.Keys
    ensures c.oldValue == params[c.name]
  {
    var rest, last := cs[..|cs| - 1], cs[|cs| - 1];
    assert cs == rest + [last];
    assert Names(rest) <= Names(cs);
    if c in rest {
      FaithfulOld(params, rest, c);
    } else {
      assert c == last && last.name in Names(cs);
      Untouched(params, rest, last.name);
    }
  }

  lemma FaithfulHeld(index: Index, params: Params, from: nat, run: seq<seq<Change>>)
    requires forall h :: h in index ==> h < from
    requires Names(Concat(run)) <= params.Keys && Faithful(params, Concat(run)) && DistinctNames(Concat(run))
    ensures OldValuesHeld(IndexAfter(index, from, run), from, params)
  {
    NamesHeld(Concat(run), params);
    var now := IndexAfter(index, from, run);
    forall h | h in now && h >= from ensures LastOldValuesHeld(now[h], params) {
      forall i | 0 <= i < |now[h]| && IsLast(now[h], i)
        ensures now[h][i].name in params && now[h][i].oldValue == params[now[h][i].name]
      {
        assert Recorded(now, from, now[h][i]);
        RecordedInRun(index, from, run, now[h][i]);
        FaithfulOld(params, Concat(run), now[h][i]);
      }
    }
  }

  /** A parameter changed at two heights: each change records the value it replaces, and yet the
      rolled-back value depends on which height the map yields last. */
  lemma ChangedTwiceDependsOnOrder(params: Params, n: Name, v: Value, w: Value, h: nat, first: ProposalId,
                                   second: ProposalId)
    requires n in params && params[n] != v
    ensures var c, d := Change(n, params[n], v, first, h), Change(n, v, w, second, h + 1);
      var index := map[h := [c], h + 1 := [d]];
      var after := SetAll(params, [c, d]);
      && Faithful(params, [c, d])
      && RevertAll(after, Flatten(index, [h + 1, h])) == params
      && RevertAll(after, Flatten(index, [h, h + 1])) == params[n := v]
      && !Restores(index, h, after, params)
  {
    var c, d := Change(n, params[n], v, first, h), Change(n, v, w, second, h + 1);
    var index := map[h := [c], h + 1 := [d]];
    var after := SetAll(params, [c, d]);
    hide SetAll, RevertAll, Faithful, Flatten;
    TwoFaithful(params, c, d);
    TwoHeights(index, h, h + 1);
    TwoHeights(index, h + 1, h);
    RevertTwo(after, d, c);
    RevertTwo(after, c, d);
    assert [d] + [c] == [d, c] && [c] + [d] == [c, d];
    assert Lists([h, h + 1], From(index, h));
  }

  /** Late application: two changes of one parameter, due at successive heights, each recording the value
      it replaces, are both applied at the second. Rolling that height back leaves the first change in
      force and in the history. */
  lemma LateChangesStay(params: Params, n: Name, v: Value, w: Value, h: nat, first: ProposalId, second: ProposalId)
    requires n in params && params[n] != v
    ensures var c, d := Change(n, params[n], v, first, h), Change(n, v, w, second, h + 1);
      var index := map[h + 1 := [c, d]];
      var after := SetAll(params, [c, d]);
      && Faithful(params, [c, d])
      && RevertAll(after, Flatten(index, [h + 1])) == params[n := v]
      && !Restores(index, h + 1, after, params)
      && Retain([c, d], h + 1) == [c]
  {
    hide SetAll, RevertAll, Retain, Faithful, From, Flatten;
    var c, d := Change(n, params[n], v, first, h), Change(n, v, w, second, h + 1);
    TwoFaithful(params, c, d);
    RevertTwo(SetAll(params, [c, d]), c, d);
    RetainFirst(c, d, h + 1);
    OneHeight(h + 1, [c, d]);
  }

  lemma OneHeight(h: nat, cs: seq<Change>)
    ensures Flatten(map[h := cs], [h]) == cs && Lists([h], From(map[h := cs], h))
  {
    assert [h][..0] == [] && [] + cs == cs;
  }

  lemma RetainFirst(c: Change, d: Change, from: nat)
    requires c.activation < from <= d.activation
    ensures Retain([c, d], from) == [c]
  {
    assert [c, d][..1] == [c] && [c][..0] == [];
    assert Retain([c], from) == [] + [c] == [c];
  }

  lemma TwoFaithful(params: Params, c: Change, d: Change)
    requires c.name == d.name && c.name in params && c.oldValue == params[c.name] && d.oldValue == c.newValue
    ensures Faithful(params, [c, d]) && SetAll(params, [c, d]) == params[c.name := d.newValue]
  {
    assert [c, d][..1] == [c] && [c][..0] == [];
    assert SetAll(params, [c]) == params[c.name := c.newValue];
  }

  lemma TwoHeights(index: Index, h: nat, k: nat)
    requires h in index && k in index
    ensures Flatten(index, [h, k]) == index[h] + index[k]
  {
    assert [h, k][..1] == [h] && [h][..0] == [];
    assert Flatten(index, [h]) == index[h];
  }

  lemma RevertTwo(params: Params, a: Change, b: Change)
    ensures RevertAll(params, [a, b]) == params[a.name := a.oldValue][b.name := b.oldValue]
  {
    assert FlipAll([a, b]) == [Flip(a)] + [Flip(b)];
    SetAllStep(params, [], Flip(a));
    assert [] + [Flip(a)] == [Flip(a)];
    SetAllStep(params, [Flip(a)], Flip(b));
  }
}
