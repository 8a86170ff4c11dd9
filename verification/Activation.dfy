/** Activation of approved proposals and the treasury and community fund balances they move
    (rusty-governance/src/proposal_activation.rs). Balances live as decimal text in the same key-value
    store as the flags other proposals set under keys of their own making. */
module Activation {
  import opened Arithmetic
  import opened Wrappers
  import opened Decimal

  type Hash32 = s: seq<nat> | |s| == 32 && forall i :: 0 <= i < 32 ==> s[i] < 256 witness seq(32, _ => 0)

  datatype Kind = ProtocolUpgrade | ParameterChange | TreasurySpend | BugFix | CommunityFund

  datatype Proposal = Proposal(id: Hash32, kind: Kind, end: nat, target: Option<string>, newValue: Option<string>,
                               bugDescription: Option<string>, recipient: Option<seq<nat>>, amount: Option<nat>)

  datatype ApprovalProof = ApprovalProof(yes: nat, no: nat, abstain: nat, approvalBp: nat, thresholdBp: nat,
                                         votingEnd: nat)

  /** Stored bytes: text, or a little-endian number. */
  datatype Stored = Text(s: string) | Word(n: nat)

  type Flags = map<string, Stored>

  const TREASURY := "treasury_balance"
  const FUND := "community_fund_balance"

  /** A missing or unreadable balance counts as zero. */
  function Balance(flags: Flags, key: string): nat {
    if key in flags && flags[key].Text? then
      var parsed := ParseU64(flags[key].s);
      if parsed.Some? then parsed.value else 0
    else 0
  }

  function WithBalance(flags: Flags, key: string, n: nat): Flags {
    flags[key := Text(ToText(n))]
  }

  function HexDigit(n: nat): char {
    "0123456789abcdef"[n % 16]
  }

  function Hex(bytes: seq<nat>): string {
    if bytes == [] then "" else [HexDigit(bytes[0] / 16), HexDigit(bytes[0])] + Hex(bytes[1..])
  }

  function Parsed(s: Option<string>): Option<nat> {
    if s.Some? then ParseU64(s.value) else None
  }

  // ------------------------------------------------------------- what each kind does

  /** Whether the proposal took effect, and the flags afterwards; a failure can leave a record behind. */
  datatype Applied = Applied(ok: bool, flags: Flags)

  /** parse::<u32> */
  function ParsedU32(s: Option<string>): Option<nat> {
    var n := Parsed(s);
    if n.Some? && n.value < 0x1_0000_0000 then n else None
  }

  function ApplyProtocolUpgrade(p: Proposal, flags: Flags): Applied {
    if p.target == Some("soft_fork_activation") then
      if p.newValue.None? then Applied(false, flags)
      else Applied(true, flags["soft_fork_" + p.newValue.value := Text("activated")])
    else if p.target == Some("hard_fork_activation") then
      if Parsed(p.newValue).None? then Applied(false, flags)
      else Applied(true, flags["hard_fork_height" := Word(Parsed(p.newValue).value)])
    else if p.target == Some("protocol_version") then
      if ParsedU32(p.newValue).None? then Applied(false, flags)
      else Applied(true, flags["protocol_version" := Word(ParsedU32(p.newValue).value)])
    else Applied(false, flags)
  }

  function SpendKey(p: Proposal): string {
    "treasury_spend_" + Hex(p.id)
  }

  function ApplyTreasurySpend(p: Proposal, flags: Flags): Applied {
    var amount := Parsed(p.newValue);
    if amount.None? || p.recipient.None? || |p.recipient.value| < 20 then Applied(false, flags)
    else
      var recorded := flags[SpendKey(p) := Text(Hex(p.recipient.value) + ":" + ToText(amount.value))];
      var balance := Balance(recorded, TREASURY);
      if balance < amount.value then Applied(false, recorded)
      else Applied(true, WithBalance(recorded, TREASURY, balance - amount.value))
  }

  function ApplyBugFix(p: Proposal, flags: Flags): Applied {
    if p.newValue.None? then Applied(false, flags)
    else if p.target == Some("emergency_patch") then
      Applied(true, flags["emergency_patch_" + p.newValue.value := Text("active")])
    else if p.target == Some("disable_feature") then
      Applied(true, flags["feature_" + p.newValue.value + "_disabled" := Text("true")])
    else if p.target == Some("enable_feature") then
      Applied(true, flags["feature_" + p.newValue.value + "_disabled" := Text("false")])
    else if p.target == Some("consensus_rule_override") then
      Applied(true, flags["consensus_override_" + p.newValue.value :=
                          Text(if p.bugDescription.Some? then p.bugDescription.value else "No description")])
    else Applied(false, flags)
  }

  function AllocationKey(p: Proposal): string {
    "community_fund_allocation_" + Hex(p.id[..8])
  }

  function ApplyCommunityFund(p: Proposal, flags: Flags): Applied {
    if p.target == Some("fund_allocation") then
      if p.amount.None? || p.recipient.None? then Applied(false, flags)
      else
        var record := Text(Hex(p.recipient.value) + ":" + ToText(p.amount.value) + ":" + Hex(p.id));
        var recorded := flags[AllocationKey(p) := record];
        var balance := Balance(recorded, FUND);
        if balance < p.amount.value then Applied(false, recorded)
        else Applied(true, WithBalance(recorded, FUND, balance - p.amount.value))
    else if p.target == Some("fund_deposit") then
      if p.amount.None? then Applied(false, flags)
      else Applied(true, WithBalance(flags, FUND, (Balance(flags, FUND) + p.amount.value) % U64))
    else Applied(false, flags)
  }

  function Apply(p: Proposal, flags: Flags): Applied {
    match p.kind
    case ProtocolUpgrade => ApplyProtocolUpgrade(p, flags)
    case ParameterChange => Applied(true, flags)
    case TreasurySpend => ApplyTreasurySpend(p, flags)
    case BugFix => ApplyBugFix(p, flags)
    case CommunityFund => ApplyCommunityFund(p, flags)
  }

  // ------------------------------------------------------------------- the balances

  /** Keys made from a proposal's own text. */
  lemma FlagKeysApart(x: string)
    ensures "soft_fork_" + x !in {TREASURY, FUND, "current_height"}
    ensures "emergency_patch_" + x !in {TREASURY, FUND, "current_height"}
    ensures "feature_" + x + "_disabled" !in {TREASURY, FUND, "current_height"}
    ensures "consensus_override_" + x !in {TREASURY, FUND, "current_height"}
    ensures "treasury_spend_" + x !in {TREASURY, FUND, "current_height"}
    ensures "community_fund_allocation_" + x !in {TREASURY, FUND, "current_height"}
  {
    assert ("soft_fork_" + x)[0] == 's';
    assert ("emergency_patch_" + x)[0] == 'e';
    assert ("feature_" + x + "_disabled")[0] == 'f';
    assert ("consensus_override_" + x)[2] == 'n' && FUND[2] == 'm' && "current_height"[2] == 'r';
    assert ("treasury_spend_" + x)[9] == 's' && TREASURY[9] == 'b';
    assert ("community_fund_allocation_" + x)[15] == 'a' && FUND[15] == 'b' && FUND[0] == 'c' && TREASURY[0] == 't';
    assert ("community_fund_allocation_" + x)[1] == 'o' && "current_height"[1] == 'u' && "current_height"[0] == 'c';
    assert ("treasury_spend_" + x)[0] == 't' && ("community_fund_allocation_" + x)[0] == 'c';
    assert ("consensus_override_" + x)[0] == 'c';
  }

  /** What an effective proposal takes out of the treasury and the fund, and puts into the fund. */
  function Spend(p: Proposal): nat {
    if p.kind == TreasurySpend && Parsed(p.newValue).Some? then Parsed(p.newValue).value else 0
  }

  function Allocation(p: Proposal): nat {
    if p.kind == CommunityFund && p.target == Some("fund_allocation") && p.amount.Some? then p.amount.value else 0
  }

  function Deposit(p: Proposal): nat {
    if p.kind == CommunityFund && p.target == Some("fund_deposit") && p.amount.Some? then p.amount.value else 0
  }

  lemma BalanceAfterWrite(flags: Flags, key: string, n: nat)
    requires n < U64
    ensures Balance(WithBalance(flags, key, n), key) == n
  {
    RoundTrip(n);
  }

  lemma OtherKeepsBalance(flags: Flags, key: string, other: string, v: Stored)
    requires other != key
    ensures Balance(flags[other := v], key) == Balance(flags, key)
  {
  }

  lemma FlagKeepsBalances(flags: Flags, key: string, v: Stored)
    requires key !in {TREASURY, FUND}
    ensures Balance(flags[key := v], TREASURY) == Balance(flags, TREASURY)
    ensures Balance(flags[key := v], FUND) == Balance(flags, FUND)
  {
  }

  /** What a balance is: the number its text reads as; zero if there is no text, or none that reads as a number. */
  lemma BalanceMeaning(flags: Flags, key: string)
    ensures forall n: nat :: key in flags && flags[key].Text? && Reads(flags[key].s, n) ==> Balance(flags, key) == n
    ensures (key in flags && flags[key].Text? ==> forall n: nat :: !Reads(flags[key].s, n)) ==> Balance(flags, key) == 0
  {
    if key in flags && flags[key].Text? {
      var parsed := ParseU64(flags[key].s);
      forall n: nat ensures parsed == Some(n) <==> Reads(flags[key].s, n) { ParseIff(flags[key].s, n); }
      if parsed.Some? { assert Reads(flags[key].s, parsed.value); }
    }
  }

  /** A proposal's text that reads as n. */
  ghost predicate Amounts(s: Option<string>, n: nat) {
    s.Some? && Reads(s.value, n)
  }

  lemma ParsedIff(s: Option<string>, n: nat)
    ensures Parsed(s) == Some(n) <==> Amounts(s, n)
    ensures ParsedU32(s) == Some(n) <==> Amounts(s, n) && n < 0x1_0000_0000
  {
    if s.Some? { ParseIff(s.value, n); }
  }

  /** The law of both balances, for every proposal and every store: an effective proposal moves exactly
      its own amounts, never more than is there, and a failed one moves nothing. */
  lemma BalancesMove(p: Proposal, flags: Flags)
    ensures var r := Apply(p, flags);
      && (r.ok ==> Spend(p) <= Balance(flags, TREASURY) && Allocation(p) <= Balance(flags, FUND))
      && (r.ok ==> Balance(r.flags, TREASURY) == Balance(flags, TREASURY) - Spend(p))
      && (r.ok ==> Balance(r.flags, FUND) == (Balance(flags, FUND) - Allocation(p) + Deposit(p)) % U64)
      && (!r.ok ==> Balance(r.flags, TREASURY) == Balance(flags, TREASURY))
      && (!r.ok ==> Balance(r.flags, FUND) == Balance(flags, FUND))
  {
    hide Balance, Parsed, Spend, Allocation, Deposit, ApplyProtocolUpgrade, ApplyTreasurySpend, ApplyBugFix,
         ApplyCommunityFund;
    OnlyOwnAmounts(p);
    FundBelow(flags);
    match p.kind
    case ProtocolUpgrade => UpgradeKeepsBalances(p, flags);
    case ParameterChange =>
    case TreasurySpend => SpendMoves(p, flags);
    case BugFix => BugFixKeepsBalances(p, flags);
    case CommunityFund => FundMoves(p, flags);
  }

  lemma OnlyOwnAmounts(p: Proposal)
    ensures p.kind != TreasurySpend ==> Spend(p) == 0
    ensures p.kind != CommunityFund ==> Allocation(p) == 0 && Deposit(p) == 0
  {
  }

  lemma FundBelow(flags: Flags)
    ensures Balance(flags, FUND) < U64 && Balance(flags, TREASURY) < U64
  {
  }

  lemma UpgradeKeepsBalances(p: Proposal, flags: Flags)
    ensures var r := ApplyProtocolUpgrade(p, flags);
      Balance(r.flags, TREASURY) == Balance(flags, TREASURY) && Balance(r.flags, FUND) == Balance(flags, FUND) < U64
  {
    hide Balance, ParseU64;
    if p.newValue.Some? { FlagKeysApart(p.newValue.value); }
    assert "hard_fork_height"[0] == 'h' && "protocol_version"[0] == 'p' && TREASURY[0] == 't' && FUND[0] == 'c';
    FundBelow(flags);
    if p.newValue.Some? { FlagKeepsBalances(flags, "soft_fork_" + p.newValue.value, Text("activated")); }
    if Parsed(p.newValue).Some? {
      FlagKeepsBalances(flags, "hard_fork_height", Word(Parsed(p.newValue).value));
      FlagKeepsBalances(flags, "protocol_version", Word(Parsed(p.newValue).value));
    }
  }

  lemma BugFixKeepsBalances(p: Proposal, flags: Flags)
    ensures var r := ApplyBugFix(p, flags);
      Balance(r.flags, TREASURY) == Balance(flags, TREASURY) && Balance(r.flags, FUND) == Balance(flags, FUND) < U64
  {
    hide Balance, ParseU64;
    if p.newValue.Some? { FlagKeysApart(p.newValue.value); }
    FundBelow(flags);
    if p.newValue.Some? {
      var x := p.newValue.value;
      FlagKeepsBalances(flags, "emergency_patch_" + x, Text("active"));
      FlagKeepsBalances(flags, "feature_" + x + "_disabled", Text("true"));
      FlagKeepsBalances(flags, "feature_" + x + "_disabled", Text("false"));
      var why := if p.bugDescription.Some? then p.bugDescription.value else "No description";
      FlagKeepsBalances(flags, "consensus_override_" + x, Text(why));
    }
  }

  lemma BalanceKeysApart()
    ensures TREASURY != FUND
  {
    assert TREASURY[0] == 't' && FUND[0] == 'c';
  }

  lemma SpendMoves(p: Proposal, flags: Flags)
    requires p.kind == TreasurySpend
    ensures var r := ApplyTreasurySpend(p, flags);
      && (r.ok ==> Spend(p) <= Balance(flags, TREASURY))
      && (r.ok ==> Balance(r.flags, TREASURY) == Balance(flags, TREASURY) - Spend(p))
      && (!r.ok ==> Balance(r.flags, TREASURY) == Balance(flags, TREASURY))
      && Balance(r.flags, FUND) == Balance(flags, FUND) < U64
  {
    hide Balance, ParseU64, ToText, Hex;
    FlagKeysApart(Hex(p.id));
    BalanceKeysApart();
    FundBelow(flags);
    var amount := Parsed(p.newValue);
    if amount.Some? && p.recipient.Some? && |p.recipient.value| >= 20 {
      var record := Text(Hex(p.recipient.value) + ":" + ToText(amount.value));
      var recorded := flags[SpendKey(p) := record];
      OtherKeepsBalance(flags, TREASURY, SpendKey(p), record);
      OtherKeepsBalance(flags, FUND, SpendKey(p), record);
      var balance := Balance(recorded, TREASURY);
      if balance >= amount.value {
        BalanceAfterWrite(recorded, TREASURY, balance - amount.value);
        OtherKeepsBalance(recorded, FUND, TREASURY, Text(ToText(balance - amount.value)));
      }
    }
  }

  lemma FundMoves(p: Proposal, flags: Flags)
    requires p.kind == CommunityFund
    ensures var r := ApplyCommunityFund(p, flags);
      && (r.ok ==> Allocation(p) <= Balance(flags, FUND))
      && (r.ok ==> Balance(r.flags, FUND) == (Balance(flags, FUND) - Allocation(p) + Deposit(p)) % U64)
      && (!r.ok ==> Balance(r.flags, FUND) == Balance(flags, FUND))
      && Balance(r.flags, TREASURY) == Balance(flags, TREASURY)
  {
    hide Balance, ParseU64, ToText, Hex;
    BalanceKeysApart();
    FundBelow(flags);
    if p.target == Some("fund_allocation") {
      assert "fund_allocation"[5] == 'a' && "fund_deposit"[5] == 'd';
      if p.amount.Some? && p.recipient.Some? {
        FlagKeysApart(Hex(p.id[..8]));
        var record := Text(Hex(p.recipient.value) + ":" + ToText(p.amount.value) + ":" + Hex(p.id));
        var recorded := flags[AllocationKey(p) := record];
        OtherKeepsBalance(flags, TREASURY, AllocationKey(p), record);
        OtherKeepsBalance(flags, FUND, AllocationKey(p), record);
        var balance := Balance(recorded, FUND);
        if balance >= p.amount.value {
          BalanceAfterWrite(recorded, FUND, balance - p.amount.value);
          OtherKeepsBalance(recorded, TREASURY, FUND, Text(ToText(balance - p.amount.value)));
        }
      }
    } else if p.target == Some("fund_deposit") && p.amount.Some? {
      var sum := (Balance(flags, FUND) + p.amount.value) % U64;
      BalanceAfterWrite(flags, FUND, sum);
      OtherKeepsBalance(flags, TREASURY, FUND, Text(ToText(sum)));
    }
  }

  // ------------------------------------------------------- what else a proposal writes

  lemma HexDigitApart(a: nat, b: nat)
    requires a < 16 && b < 16 && HexDigit(a) == HexDigit(b)
    ensures a == b
  {
    assert forall i, j :: 0 <= i < j < 16 ==> "0123456789abcdef"[i] != "0123456789abcdef"[j];
  }

  /** Two hexadecimal digits spell a byte. */
  lemma HexByteApart(a: nat, b: nat)
    requires a < 256 && b < 256 && HexDigit(a / 16) == HexDigit(b / 16) && HexDigit(a) == HexDigit(b)
    ensures a == b
  {
    hide HexDigit;
    HexDigitModulo(a);
    HexDigitModulo(b);
    HexDigitApart(a / 16, b / 16);
    HexDigitApart(a % 16, b % 16);
  }

  lemma HexDigitModulo(n: nat)
    ensures HexDigit(n) == HexDigit(n % 16)
  {
  }

  /** Hexadecimal text determines the bytes. */
  lemma {:induction false} HexApart(a: seq<nat>, b: seq<nat>)
    requires (forall i :: 0 <= i < |a| ==> a[i] < 256) && (forall i :: 0 <= i < |b| ==> b[i] < 256)
    requires Hex(a) == Hex(b)
    ensures a == b
    decreases |a|
  {
    if a != [] && b != [] {
      var x, y := Hex(a), Hex(b);
      assert x[0] == y[0] && x[1] == y[1] && x[2..] == y[2..];
      assert x[2..] == Hex(a[1..]) && y[2..] == Hex(b[1..]);
      HexByteApart(a[0], b[0]);
      HexApart(a[1..], b[1..]);
    }
  }

  /** A spend is recorded under a key of its own. An allocation is recorded under the first eight bytes of its
      identifier only, so it replaces the record of another allocation exactly when those agree. */
  lemma RecordKeysIff(p: Proposal, q: Proposal)
    ensures SpendKey(p) == SpendKey(q) <==> p.id == q.id
    ensures AllocationKey(p) == AllocationKey(q) <==> p.id[..8] == q.id[..8]
  {
    hide Hex;
    if SpendKey(p) == SpendKey(q) {
      SameSuffix("treasury_spend_", Hex(p.id), Hex(q.id));
      HexApart(p.id, q.id);
    }
    if AllocationKey(p) == AllocationKey(q) {
      SameSuffix("community_fund_allocation_", Hex(p.id[..8]), Hex(q.id[..8]));
      HexApart(p.id[..8], q.id[..8]);
    }
  }

  lemma SameSuffix(prefix: string, a: string, b: string)
    requires prefix + a == prefix + b
    ensures a == b
  {
    assert (prefix + a)[|prefix|..] == a && (prefix + b)[|prefix|..] == b;
  }

  /** A protocol upgrade sets one flag or fails and changes nothing. */
  lemma UpgradeEffect(p: Proposal, flags: Flags)
    ensures var r := ApplyProtocolUpgrade(p, flags);
      && (p.target == Some("soft_fork_activation") && p.newValue.Some? ==>
            r == Applied(true, flags["soft_fork_" + p.newValue.value := Text("activated")]))
      && (forall n: nat :: p.target == Some("hard_fork_activation") && Amounts(p.newValue, n) ==>
            r == Applied(true, flags["hard_fork_height" := Word(n)]))
      && (forall n: nat :: p.target == Some("protocol_version") && Amounts(p.newValue, n) && n < 0x1_0000_0000 ==>
            r == Applied(true, flags["protocol_version" := Word(n)]))
      && (!r.ok ==> r.flags == flags)
      && (r.ok ==>
            || (p.target == Some("soft_fork_activation") && p.newValue.Some?)
            || (p.target == Some("hard_fork_activation") && exists n: nat :: Amounts(p.newValue, n))
            || (p.target == Some("protocol_version") && exists n: nat :: Amounts(p.newValue, n) && n < 0x1_0000_0000))
  {
    hide Parsed, ParsedU32, Amounts;
    var r := ApplyProtocolUpgrade(p, flags);
    UpgradeTargetsApart();
    forall n: nat ensures Parsed(p.newValue) == Some(n) <==> Amounts(p.newValue, n) { ParsedIff(p.newValue, n); }
    forall n: nat ensures ParsedU32(p.newValue) == Some(n) <==> Amounts(p.newValue, n) && n < 0x1_0000_0000 {
      ParsedIff(p.newValue, n);
    }
    NothingParsed(p.newValue);
    if Parsed(p.newValue).Some? { assert Amounts(p.newValue, Parsed(p.newValue).value); }
    if ParsedU32(p.newValue).Some? { assert Amounts(p.newValue, ParsedU32(p.newValue).value); }
  }

  lemma NothingParsed(s: Option<string>)
    ensures s.None? ==> Parsed(s).None? && ParsedU32(s).None?
  {
  }

  lemma UpgradeTargetsApart()
    ensures "soft_fork_activation" != "hard_fork_activation" && "soft_fork_activation" != "protocol_version"
    ensures "hard_fork_activation" != "protocol_version"
  {
    assert "soft_fork_activation"[0] == 's' && "hard_fork_activation"[0] == 'h' && "protocol_version"[0] == 'p';
  }

  /** A bug fix sets one flag, made from its own text, or fails and changes nothing. */
  lemma BugFixEffect(p: Proposal, flags: Flags)
    ensures var r := ApplyBugFix(p, flags);
      && (r.ok <==> p.newValue.Some? && p.target.Some?
                    && p.target.value in {"emergency_patch", "disable_feature", "enable_feature",
                                          "consensus_rule_override"})
      && (!r.ok ==> r.flags == flags)
      && (r.ok ==>
            var x := p.newValue.value;
            && (p.target.value == "emergency_patch" ==> r.flags == flags["emergency_patch_" + x := Text("active")])
            && (p.target.value == "disable_feature" ==> r.flags == flags["feature_" + x + "_disabled" := Text("true")])
            && (p.target.value == "enable_feature" ==> r.flags == flags["feature_" + x + "_disabled" := Text("false")])
            && (p.target.value == "consensus_rule_override" && p.bugDescription.Some? ==>
                  r.flags == flags["consensus_override_" + x := Text(p.bugDescription.value)])
            && (p.target.value == "consensus_rule_override" && p.bugDescription.None? ==>
                  r.flags == flags["consensus_override_" + x := Text("No description")]))
  {
    BugFixTargetsApart();
  }

  lemma BugFixTargetsApart()
    ensures "emergency_patch" != "disable_feature" && "emergency_patch" != "enable_feature"
    ensures "emergency_patch" != "consensus_rule_override" && "disable_feature" != "enable_feature"
    ensures "disable_feature" != "consensus_rule_override" && "enable_feature" != "consensus_rule_override"
  {
    assert "emergency_patch"[1] == 'm' && "enable_feature"[1] == 'n' && "emergency_patch"[0] == 'e';
    assert "enable_feature"[0] == 'e' && "disable_feature"[0] == 'd' && "consensus_rule_override"[0] == 'c';
  }

  /** An allocation takes effect exactly when amount and recipient are given and the fund holds the amount; a
      deposit whenever an amount is given. */
  lemma FundTakesEffectIff(p: Proposal, flags: Flags)
    ensures ApplyCommunityFund(p, flags).ok
      <==> (|| (&& p.target == Some("fund_allocation") && p.amount.Some? && p.recipient.Some?
                && p.amount.value <= Balance(flags, FUND))
            || (p.target == Some("fund_deposit") && p.amount.Some?))
  {
    hide Balance, ParseU64, ToText, Hex;
    assert "fund_allocation"[5] == 'a' && "fund_deposit"[5] == 'd';
    if p.amount.Some? && p.recipient.Some? {
      FlagKeysApart(Hex(p.id[..8]));
      var record := Text(Hex(p.recipient.value) + ":" + ToText(p.amount.value) + ":" + Hex(p.id));
      OtherKeepsBalance(flags, FUND, AllocationKey(p), record);
    }
  }

  // ---------------------------------------------------------------------- activation

  datatype PendingActivation = PendingActivation(proposal: Proposal, proof: ApprovalProof, earliest: nat, latest: nat)

  /** validate_approval_proof; with only abstentions the recomputed rate is not a number and reads as zero. */
  function ApprovalBp(proof: ApprovalProof): nat {
    if proof.yes + proof.no == 0 then 0 else proof.yes * 10000 / (proof.yes + proof.no)
  }

  predicate ProofOk(p: Proposal, proof: ApprovalProof) {
    && proof.approvalBp >= proof.thresholdBp
    && proof.votingEnd >= p.end
    && proof.yes + proof.no + proof.abstain > 0
    && -10 <= ApprovalBp(proof) - proof.approvalBp <= 10
  }

  /** What an accepted proof says, in numbers: voting lasted to the proposal's end, somebody voted, and the
      declared percentage reaches the threshold and is within ten basis points of the true one. */
  lemma ProofOkIff(p: Proposal, proof: ApprovalProof)
    ensures ProofOk(p, proof) <==>
      && proof.thresholdBp <= proof.approvalBp && proof.votingEnd >= p.end
      && proof.yes + proof.no + proof.abstain > 0
      && (if proof.yes + proof.no == 0 then proof.approvalBp <= 10
          else && 10000 * proof.yes >= (proof.approvalBp - 10) * (proof.yes + proof.no)
               && 10000 * proof.yes < (proof.approvalBp + 11) * (proof.yes + proof.no))
  {
    hide ApprovalBp;
    TruePercentage(proof, proof.approvalBp - 10);
    TruePercentage(proof, proof.approvalBp + 11);
    NoPercentage(proof);
  }

  lemma NoPercentage(proof: ApprovalProof)
    ensures proof.yes + proof.no == 0 ==> ApprovalBp(proof) == 0
  {
  }

  /** So votes can be presented as an approval, by some declared percentage, if and only if the true approval is
      at most ten basis points, a tenth of a percent, below the threshold. */
  lemma PresentableIff(p: Proposal, proof: ApprovalProof)
    ensures (exists bp :: ProofOk(p, proof.(approvalBp := bp)))
      <==> (&& proof.yes + proof.no + proof.abstain > 0 && proof.votingEnd >= p.end
            && (proof.yes + proof.no == 0 ==> proof.thresholdBp <= 10)
            && 10000 * proof.yes >= (proof.thresholdBp - 10) * (proof.yes + proof.no))
  {
    var approval := ApprovalBp(proof);
    var best := proof.(approvalBp := approval + 10);
    TruePercentage(proof, proof.thresholdBp - 10);
    assert ApprovalBp(best) == approval;
    forall bp | ProofOk(p, proof.(approvalBp := bp)) ensures ProofOk(p, best) {
      assert ApprovalBp(proof.(approvalBp := bp)) == approval;
    }
  }

  lemma TruePercentage(proof: ApprovalProof, t: int)
    ensures proof.yes + proof.no > 0 ==>
      (ApprovalBp(proof) >= t <==> 10000 * proof.yes >= t * (proof.yes + proof.no))
  {
    var all := proof.yes + proof.no;
    if all > 0 {
      DivBounds(proof.yes * 10000, all);
      QuotientAtLeast(proof.yes * 10000, all, ApprovalBp(proof), t);
    }
  }

  lemma QuotientAtLeast(x: nat, all: nat, q: nat, t: int)
    requires q * all <= x < (q + 1) * all
    ensures q >= t <==> x >= t * all
  {
    if x >= t * all { MulOrder(t, q, all); }
    if 0 <= t <= q { MulLe(t, q, all); }
  }

  /** So an accepted proof need not reach its threshold: 499 of 1000 votes pass a threshold of one half. */
  lemma MinorityPasses(p: Proposal)
    ensures ProofOk(p, ApprovalProof(499, 501, 0, 5000, 5000, p.end))
  {
  }

  class BlockchainState {
    var flags: Flags
    var height: nat

    constructor (flags: Flags, height: nat)
      ensures this.flags == flags && this.height == height
    {
      this.flags, this.height := flags, height;
    }
  }

  /** One proposal taking effect: which scheduling it came from, when, and the window it had. */
  datatype Effect = Effect(serial: nat, proposal: Proposal, height: nat, earliest: nat, latest: nat)

  ghost function Spent(effects: seq<Effect>): nat {
    if effects == [] then 0 else Spent(effects[..|effects| - 1]) + Spend(effects[|effects| - 1].proposal)
  }

  ghost function Allocated(effects: seq<Effect>): nat {
    if effects == [] then 0 else Allocated(effects[..|effects| - 1]) + Allocation(effects[|effects| - 1].proposal)
  }

  ghost function Deposited(effects: seq<Effect>): nat {
    if effects == [] then 0 else Deposited(effects[..|effects| - 1]) + Deposit(effects[|effects| - 1].proposal)
  }

  /** The balances are the initial ones moved by the effects so far; the fund's deposits wrap at 64 bits. */
  ghost predicate Accounted(treasury: nat, fund: nat, effects: seq<Effect>, flags: Flags) {
    && Balance(flags, TREASURY) + Spent(effects) == treasury
    && (Balance(flags, FUND) + Allocated(effects)) % U64 == (fund + Deposited(effects)) % U64
  }

  /** No scheduling took effect twice, and each within its window. */
  ghost predicate OncePerScheduling(effects: seq<Effect>) {
    && (forall i, j :: 0 <= i < j < |effects| ==> effects[i].serial != effects[j].serial)
    && (forall i :: 0 <= i < |effects| ==> effects[i].earliest <= effects[i].height <= effects[i].latest)
  }

  /** Every pending entry is one scheduling, filed under its proposal, that has not taken effect. */
  ghost predicate SerialsOk(pending: map<Hash32, PendingActivation>, serials: map<Hash32, nat>, schedulings: nat,
                            effects: seq<Effect>) {
    && serials.Keys == pending.Keys
    && (forall id :: id in pending ==> pending[id].proposal.id == id && serials[id] < schedulings)
    && (forall i, j :: i in serials && j in serials && i != j ==> serials[i] != serials[j])
    && (forall k :: 0 <= k < |effects| ==> effects[k].serial < schedulings)
    && (forall k, id :: 0 <= k < |effects| && id in serials ==> effects[k].serial != serials[id])
  }

  lemma SerialTakesEffect(pending: map<Hash32, PendingActivation>, serials: map<Hash32, nat>, schedulings: nat,
                          effects: seq<Effect>, id: Hash32, e: Effect)
    requires SerialsOk(pending, serials, schedulings, effects) && id in pending && e.serial == serials[id]
    ensures SerialsOk(pending - {id}, serials - {id}, schedulings, effects + [e])
    ensures forall i :: 0 <= i < |effects| ==> effects[i].serial != e.serial
    ensures pending[id].proposal.id == id
  {
  }

  lemma SerialOf(pending: map<Hash32, PendingActivation>, serials: map<Hash32, nat>, schedulings: nat,
                 effects: seq<Effect>)
    requires SerialsOk(pending, serials, schedulings, effects)
    ensures serials.Keys == pending.Keys
  {
  }

  // ------------------------------------------------------------------- being activated again

  /** The successful calls on a manager. */
  datatype Event = Scheduled(id: Hash32) | Activated(id: Hash32)

  /** Scheduled, and not activated since. */
  ghost predicate Waiting(trace: seq<Event>, id: Hash32) {
    if trace == [] then false
    else if trace[|trace| - 1].id == id then trace[|trace| - 1].Scheduled?
    else Waiting(trace[..|trace| - 1], id)
  }

  ghost function Activations(trace: seq<Event>, id: Hash32): nat {
    if trace == [] then 0
    else Activations(trace[..|trace| - 1], id) + if trace[|trace| - 1] == Activated(id) then 1 else 0
  }

  /** Only what is waiting is activated. */
  ghost predicate Alternates(trace: seq<Event>) {
    trace != [] ==>
      var before, last := trace[..|trace| - 1], trace[|trace| - 1];
      Alternates(before) && (last.Activated? ==> Waiting(before, last.id))
  }

  ghost function EffectsOf(effects: seq<Effect>, id: Hash32): nat {
    if effects == [] then 0
    else EffectsOf(effects[..|effects| - 1], id) + if effects[|effects| - 1].proposal.id == id then 1 else 0
  }

  /** The history of calls explains what is pending and what took effect. */
  ghost predicate TraceOk(trace: seq<Event>, pending: map<Hash32, PendingActivation>, effects: seq<Effect>) {
    && Alternates(trace)
    && (forall id :: id in pending <==> Waiting(trace, id))
    && (forall id :: EffectsOf(effects, id) == Activations(trace, id))
  }

  lemma TraceScheduled(trace: seq<Event>, pending: map<Hash32, PendingActivation>, effects: seq<Effect>, id: Hash32,
                       entry: PendingActivation)
    requires TraceOk(trace, pending, effects)
    ensures TraceOk(trace + [Scheduled(id)], pending[id := entry], effects)
  {
    assert (trace + [Scheduled(id)])[..|trace|] == trace;
  }

  lemma TraceActivated(trace: seq<Event>, pending: map<Hash32, PendingActivation>, effects: seq<Effect>, e: Effect)
    requires TraceOk(trace, pending, effects) && e.proposal.id in pending
    ensures TraceOk(trace + [Activated(e.proposal.id)], pending - {e.proposal.id}, effects + [e])
  {
    assert (trace + [Activated(e.proposal.id)])[..|trace|] == trace;
    assert (effects + [e])[..|effects|] == effects;
  }

  /** Scheduled again after having taken effect. */
  ghost predicate Rescheduled(trace: seq<Event>, id: Hash32) {
    exists i, k :: 0 <= i < k < |trace| && trace[i] == Activated(id) && trace[k] == Scheduled(id)
  }

  /** A proposal has taken, or is about to take, effect more than once if and only if it was scheduled
      again after taking effect. Nothing else can repeat it, and nothing prevents that. */
  lemma {:induction false} RepeatsIff(trace: seq<Event>, id: Hash32)
    requires Alternates(trace)
    ensures Activations(trace, id) + (if Waiting(trace, id) then 1 else 0) > 1 <==> Rescheduled(trace, id)
  {
    if trace != [] {
      var before, last := trace[..|trace| - 1], trace[|trace| - 1];
      RepeatsIff(before, id);
      ActivatedSomewhere(before, id);
      assert trace == before + [last];
      RescheduledStep(before, last, id);
    }
  }

  lemma {:induction false} ActivatedSomewhere(trace: seq<Event>, id: Hash32)
    ensures Activations(trace, id) > 0 <==> Activated(id) in trace
  {
    if trace != [] {
      ActivatedSomewhere(trace[..|trace| - 1], id);
      assert trace == trace[..|trace| - 1] + [trace[|trace| - 1]];
    }
  }

  lemma RescheduledStep(before: seq<Event>, last: Event, id: Hash32)
    ensures Rescheduled(before + [last], id)
      <==> Rescheduled(before, id) || (last == Scheduled(id) && Activated(id) in before)
  {
    var trace := before + [last];
    if Rescheduled(before, id) {
      var i, k :| 0 <= i < k < |before| && before[i] == Activated(id) && before[k] == Scheduled(id);
      assert trace[i] == Activated(id) && trace[k] == Scheduled(id);
    }
    if last == Scheduled(id) && Activated(id) in before {
      var i :| 0 <= i < |before| && before[i] == Activated(id);
      assert trace[i] == Activated(id) && trace[|before|] == Scheduled(id);
    }
    if i, k :| 0 <= i < k < |trace| && trace[i] == Activated(id) && trace[k] == Scheduled(id) {
      if k < |before| {
        assert before[i] == Activated(id) && before[k] == Scheduled(id);
      } else {
        assert before[i] == Activated(id);
      }
    }
  }

  class ActivationManager {
    const delay: nat
    const window: nat
    var pending: map<Hash32, PendingActivation>
    var activated: map<Hash32, Proposal>

    // The history: how many schedulings there were, which one each pending entry is, and what took effect.
    ghost var schedulings: nat
    ghost var serials: map<Hash32, nat>
    ghost var effects: seq<Effect>
    ghost var trace: seq<Event>
    ghost const initialTreasury: nat
    ghost const initialFund: nat

    /** Holds in every reachable state. */
    ghost predicate Valid(state: BlockchainState)
      reads this, state
    {
      && SerialsOk(pending, serials, schedulings, effects)
      && OncePerScheduling(effects)
      && TraceOk(trace, pending, effects)
      && Accounted(initialTreasury, initialFund, effects, state.flags)
    }

    constructor (delay: nat, window: nat, state: BlockchainState)
      ensures Valid(state) && pending == map[] && activated == map[] && effects == []
      ensures this.delay == delay && this.window == window
      ensures initialTreasury == Balance(state.flags, TREASURY) && initialFund == Balance(state.flags, FUND)
    {
      this.delay, this.window := delay, window;
      pending, activated := map[], map[];
      schedulings, serials, effects, trace := 0, map[], [], [];
      initialTreasury, initialFund := Balance(state.flags, TREASURY), Balance(state.flags, FUND);
    }

    /** schedule_activation: an approval whose proof holds up gets a window; an earlier scheduling of the
        same proposal that has not taken effect is replaced. */
    method ScheduleActivation(p: Proposal, proof: ApprovalProof, height: nat, state: BlockchainState) returns (r: Check)
      requires Valid(state)
      modifies this
      ensures Valid(state)
      ensures r.Ok? <==> ProofOk(p, proof)
      ensures r.Ok? ==>
        pending == old(pending)[p.id := PendingActivation(p, proof, height + delay, height + delay + window)]
      ensures r.Err? ==> pending == old(pending)
      ensures activated == old(activated) && effects == old(effects)
      ensures trace == if r.Ok? then old(trace) + [Scheduled(p.id)] else old(trace)
    {
      hide Accounted, ProofOk, TraceOk;
      if !ProofOk(p, proof) { return Err("invalid approval proof"); }
      pending := pending[p.id := PendingActivation(p, proof, height + delay, height + delay + window)];
      TraceScheduled(trace, old(pending), effects, p.id, pending[p.id]);
      trace := trace + [Scheduled(p.id)];
      serials := serials[p.id := schedulings];
      schedulings := schedulings + 1;
      return Ok(());
    }

    /** process_activation: takes effect exactly when the proposal is pending, the height is in its window
        and its changes can be made; then it is no longer pending. Otherwise both balances are unchanged. */
    method ProcessActivation(id: Hash32, state: BlockchainState) returns (r: Check)
      requires Valid(state)
      modifies this, state`flags
      ensures Valid(state)
      ensures r.Ok? <==> id in old(pending) && old(pending)[id].earliest <= state.height <= old(pending)[id].latest
                         && Apply(old(pending)[id].proposal, old(state.flags)).ok
      ensures r.Ok? ==> pending == old(pending) - {id} && activated == old(activated)[id := old(pending)[id].proposal]
      ensures r.Ok? ==> state.flags == Apply(old(pending)[id].proposal, old(state.flags)).flags
      ensures r.Ok? ==> |effects| == |old(effects)| + 1 && effects[..|old(effects)|] == old(effects)
                        && effects[|old(effects)|].proposal == old(pending)[id].proposal
      ensures r.Err? ==> pending == old(pending) && activated == old(activated) && effects == old(effects)
      ensures trace == if r.Ok? then old(trace) + [Activated(id)] else old(trace)
      ensures r.Err? ==> Balance(state.flags, TREASURY) == old(Balance(state.flags, TREASURY))
                         && Balance(state.flags, FUND) == old(Balance(state.flags, FUND))
    {
      hide Accounted, Apply, OncePerScheduling, Balance, SerialsOk, TraceOk;
      if id !in pending { return Err("not found in pending activations"); }
      var entry := pending[id];
      if !(entry.earliest <= state.height <= entry.latest) { return Err("not within its activation window"); }
      var result := Apply(entry.proposal, state.flags);
      BalancesMove(entry.proposal, state.flags);
      if !result.ok {
        FailureAccounted(initialTreasury, initialFund, effects, state.flags, result.flags);
        state.flags := result.flags;
        return Err("could not be applied");
      }
      SerialOf(pending, serials, schedulings, effects);
      ghost var effect := Effect(serials[id], entry.proposal, state.height, entry.earliest, entry.latest);
      EffectAccounted(initialTreasury, initialFund, effects, effect, state.flags, result.flags);
      SerialTakesEffect(pending, serials, schedulings, effects, id, effect);
      EffectOnce(effects, effect);
      TraceActivated(trace, pending, effects, effect);
      trace := trace + [Activated(id)];
      state.flags := result.flags;
      effects := effects + [effect];
      serials := serials - {id};
      activated := activated[entry.proposal.id := entry.proposal];
      pending := pending - {id};
      return Ok(());
    }
  }

  /** A treasury spend takes effect exactly when its amount and recipient are well-formed and the
      treasury holds the amount. */
  lemma SpendTakesEffectIff(p: Proposal, flags: Flags)
    ensures ApplyTreasurySpend(p, flags).ok
      <==> (&& (exists n: nat :: Amounts(p.newValue, n) && n <= Balance(flags, TREASURY))
            && p.recipient.Some? && |p.recipient.value| >= 20)
    ensures ApplyTreasurySpend(p, flags).ok
      <==> (&& Parsed(p.newValue).Some? && p.recipient.Some? && |p.recipient.value| >= 20
            && Parsed(p.newValue).value <= Balance(flags, TREASURY))
  {
    hide Balance, ParseU64, ToText, Hex, Amounts;
    FlagKeysApart(Hex(p.id));
    forall n: nat ensures Parsed(p.newValue) == Some(n) <==> Amounts(p.newValue, n) { ParsedIff(p.newValue, n); }
    if Parsed(p.newValue).Some? { assert Amounts(p.newValue, Parsed(p.newValue).value); }
    if Parsed(p.newValue).Some? && p.recipient.Some? {
      var record := Text(Hex(p.recipient.value) + ":" + ToText(Parsed(p.newValue).value));
      OtherKeepsBalance(flags, TREASURY, SpendKey(p), record);
    }
  }

  /** The failing input: one approval, scheduled twice, spends the treasury twice. */
  method SpendTwice(manager: ActivationManager, p: Proposal, proof: ApprovalProof, state: BlockchainState)
    requires manager.Valid(state) && ProofOk(p, proof) && manager.delay <= state.height
    requires p.kind == TreasurySpend && Parsed(p.newValue).Some? && p.recipient.Some? && |p.recipient.value| >= 20
    requires 2 * Parsed(p.newValue).value <= Balance(state.flags, TREASURY)
    modifies manager, state`flags
    ensures manager.Valid(state)
    ensures |manager.effects| == |old(manager.effects)| + 2
    ensures manager.effects[|old(manager.effects)|].proposal == p
    ensures manager.effects[|old(manager.effects)| + 1].proposal == p
    ensures Balance(state.flags, TREASURY) == old(Balance(state.flags, TREASURY)) - 2 * Parsed(p.newValue).value
  {
    hide Accounted, ProofOk, TraceOk, SerialsOk, OncePerScheduling, Balance, ParseU64, ApplyTreasurySpend;
    var height := state.height - manager.delay;
    SpendTakesEffectIff(p, state.flags);
    SpendMoves(p, state.flags);
    var scheduled := manager.ScheduleActivation(p, proof, height, state);
    var processed := manager.ProcessActivation(p.id, state);
    SpendTakesEffectIff(p, state.flags);
    SpendMoves(p, state.flags);
    scheduled := manager.ScheduleActivation(p, proof, height, state);
    processed := manager.ProcessActivation(p.id, state);
  }

  lemma FailureAccounted(treasury: nat, fund: nat, effects: seq<Effect>, before: Flags, after: Flags)
    requires Accounted(treasury, fund, effects, before)
    requires Balance(after, TREASURY) == Balance(before, TREASURY) && Balance(after, FUND) == Balance(before, FUND)
    ensures Accounted(treasury, fund, effects, after)
  {
  }

  lemma EffectAccounted(treasury: nat, fund: nat, effects: seq<Effect>, e: Effect, before: Flags, after: Flags)
    requires Accounted(treasury, fund, effects, before)
    requires Spend(e.proposal) <= Balance(before, TREASURY) && Allocation(e.proposal) <= Balance(before, FUND)
    requires Balance(after, TREASURY) == Balance(before, TREASURY) - Spend(e.proposal)
    requires Balance(after, FUND) == (Balance(before, FUND) - Allocation(e.proposal) + Deposit(e.proposal)) % U64
    ensures Accounted(treasury, fund, effects + [e], after)
  {
    hide Balance, Spend, Allocation, Deposit;
    assert (effects + [e])[..|effects|] == effects;
    FundStep(Balance(before, FUND), Allocated(effects), fund, Deposited(effects), Allocation(e.proposal),
             Deposit(e.proposal));
  }

  lemma FundStep(balance: nat, paidOut: nat, fund: nat, paidIn: nat, a: nat, d: nat)
    requires a <= balance && (balance + paidOut) % U64 == (fund + paidIn) % U64
    ensures ((balance - a + d) % U64 + (paidOut + a)) % U64 == (fund + (paidIn + d)) % U64
  {
    var q := (balance - a + d) / U64;
    var k := (balance + paidOut) / U64 - (fund + paidIn) / U64;
    assert (balance - a + d) % U64 + (paidOut + a) == fund + (paidIn + d) + (k - q) * U64;
    ModShift(fund + (paidIn + d), k - q);
  }

  lemma ModShift(x: nat, k: int)
    ensures (x + k * U64) % U64 == x % U64
  {
  }

  lemma EffectOnce(effects: seq<Effect>, e: Effect)
    requires OncePerScheduling(effects) && e.earliest <= e.height <= e.latest
    requires forall i :: 0 <= i < |effects| ==> effects[i].serial != e.serial
    ensures OncePerScheduling(effects + [e])
  {
  }
}
