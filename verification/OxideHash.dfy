/** The OxideHash proof-of-work hash (rusty-crypto/src/hash.rs). BLAKE3 is any function from
    byte strings to 32-byte digests; feeding a hasher several updates hashes their concatenation. */
module OxideHash {
  import opened Arithmetic

  type Byte = b: nat | b < 256
  type Bytes = seq<Byte>
  type Digest = d: Bytes | |d| == 32 witness seq(32, _ => 0)

  const SCRATCHPAD_SIZE: nat := 0x4000_0000
  const ITERATIONS: nat := 0x10_0000

  /** The n low-order bytes of x, least significant first. */
  function LittleEndian(x: nat, n: nat): (r: Bytes)
    ensures |r| == n
  {
    if n == 0 then [] else [x % 256] + LittleEndian(x / 256, n - 1)
  }

  function FromLittleEndian(s: Bytes): nat {
    if s == [] then 0 else s[0] + 256 * FromLittleEndian(s[1..])
  }

  /** Exclusive or of the n low-order bits. */
  function XorBits(a: nat, b: nat, n: nat): (r: nat)
    ensures r < Pow2(n)
  {
    if n == 0 then 0 else (a + b) % 2 + 2 * XorBits(a / 2, b / 2, n - 1)
  }

  function XorByte(a: Byte, b: Byte): Byte {
    assert Pow2(8) == 256;
    XorBits(a, b, 8)
  }

  function Xor(a: Digest, b: Digest): Digest {
    seq(32, k requires 0 <= k < 32 => XorByte(a[k], b[k]))
  }

  // --------------------------------------------------------------- specification

  /** The first n 32-byte blocks of the initial scratchpad. */
  function InitialPad(blake3: Bytes -> Digest, seed: Digest, n: nat): (pad: Bytes)
    ensures |pad| == 32 * n
  {
    if n == 0 then [] else InitialPad(blake3, seed, n - 1) + blake3(seed + LittleEndian(32 * (n - 1) % U32, 4))
  }

  /** Where a digest points into the scratchpad; 32 bytes from there are always in bounds. */
  function Address(d: Digest): (a: nat)
    ensures a + 32 <= SCRATCHPAD_SIZE
  {
    FromLittleEndian(d[..8]) % (SCRATCHPAD_SIZE - 32)
  }

  function Overwrite(pad: Bytes, at: nat, data: Digest): (r: Bytes)
    requires at + 32 <= |pad|
    ensures |r| == |pad| && r[at..at + 32] == data
    ensures forall j :: 0 <= j < |pad| && !(at <= j < at + 32) ==> r[j] == pad[j]
  {
    pad[..at] + data + pad[at + 32..]
  }

  datatype State = State(hash: Digest, pad: Bytes)

  predicate FullSize(s: State) { |s.pad| == SCRATCHPAD_SIZE }

  /** One read/compute/write iteration. */
  function Round(blake3: Bytes -> Digest, s: State, i: nat): (r: State)
    requires FullSize(s) && i < ITERATIONS
    ensures FullSize(r)
  {
    var from := Address(blake3(s.hash + LittleEndian(i, 4)));
    var hash := blake3(Xor(s.hash, s.pad[from..from + 32]));
    var to := Address(blake3(hash + LittleEndian(U32 - 1 - i, 4)));
    State(hash, Overwrite(s.pad, to, hash))
  }

  function Rounds(blake3: Bytes -> Digest, s: State, n: nat): (r: State)
    requires FullSize(s) && n <= ITERATIONS
    ensures FullSize(r)
  {
    if n == 0 then s else Round(blake3, Rounds(blake3, s, n - 1), n - 1)
  }

  /** The state after all iterations. It is a function of the header alone. */
  function Finished(blake3: Bytes -> Digest, header: Bytes): (r: State)
    ensures FullSize(r)
  {
    var seed := blake3(header);
    Rounds(blake3, State(seed, InitialPad(blake3, seed, SCRATCHPAD_SIZE / 32)), ITERATIONS)
  }

  /** What the last BLAKE3 call is given. */
  function FinalInput(blake3: Bytes -> Digest, header: Bytes, nonce: nat): Bytes {
    var s := Finished(blake3, header);
    s.pad[..32] + s.hash + s.pad[32..] + LittleEndian(nonce, 8)
  }

  /** The hash a freshly allocated hasher computes. */
  function Hash(blake3: Bytes -> Digest, header: Bytes, nonce: nat): Digest {
    blake3(FinalInput(blake3, header, nonce))
  }

  // ------------------------------------------------------------------ the hasher

  class OxideHasher {
    const blake3: Bytes -> Digest
    const scratchpad: array<Byte>

    ghost predicate Valid() {
      scratchpad.Length == SCRATCHPAD_SIZE
    }

    constructor (blake3: Bytes -> Digest)
      ensures Valid() && this.blake3 == blake3 && fresh(scratchpad)
    {
      this.blake3 := blake3;
      scratchpad := new Byte[SCRATCHPAD_SIZE](_ => 0);
    }

    method CopyIntoScratchpad(at: nat, data: Digest)
      requires Valid() && at + 32 <= SCRATCHPAD_SIZE
      modifies scratchpad
      ensures scratchpad[..] == Overwrite(old(scratchpad[..]), at, data)
    {
      for k := 0 to 32
        invariant forall j :: 0 <= j < SCRATCHPAD_SIZE ==>
          scratchpad[j] == if at <= j < at + k then data[j - at] else old(scratchpad[j])
      {
        scratchpad[at + k] := data[k];
      }
    }

    /** Step 2 of the algorithm: every byte of the scratchpad is rewritten from the seed. */
    method InitializeScratchpad(seed: Digest)
      requires Valid()
      modifies scratchpad
      ensures scratchpad[..] == InitialPad(blake3, seed, SCRATCHPAD_SIZE / 32)
    {
      var i := 0;
      ghost var n := 0;
      while i < SCRATCHPAD_SIZE
        invariant i == 32 * n <= SCRATCHPAD_SIZE
        invariant scratchpad[..i] == InitialPad(blake3, seed, n)
      {
        var block := blake3(seed + LittleEndian(i % U32, 4));
        ghost var before := scratchpad[..];
        CopyIntoScratchpad(i, block);
        assert scratchpad[..i + 32] == before[..i] + block;
        assert before[..i] == InitialPad(blake3, seed, n);
        i := i + 32;
        n := n + 1;
      }
      assert scratchpad[..] == scratchpad[..i];
    }

    /** Step 3: one read/compute/write iteration. */
    method Iterate(current: Digest, i: nat) returns (next: Digest)
      requires Valid() && i < ITERATIONS
      modifies scratchpad
      ensures State(next, scratchpad[..]) == Round(blake3, State(current, old(scratchpad[..])), i)
    {
      var from := Address(blake3(current + LittleEndian(i, 4)));
      var readData := scratchpad[from..from + 32];
      assert readData == scratchpad[..][from..from + 32];
      next := blake3(Xor(current, readData));
      var to := Address(blake3(next + LittleEndian(U32 - 1 - i, 4)));
      CopyIntoScratchpad(to, next);
    }

    /** calculate_oxide_hash: whatever earlier calls left in the scratchpad, the result is that of
        a fresh hasher, and what is left behind depends on the header only, not on the nonce. */
    method CalculateOxideHash(header: Bytes, nonce: nat) returns (digest: Digest)
      requires Valid() && nonce < U64
      modifies scratchpad
      ensures digest == Hash(blake3, header, nonce)
      ensures scratchpad[..] == Finished(blake3, header).pad
    {
      hide InitialPad, LittleEndian, Round;
      var seed := blake3(header);
      InitializeScratchpad(seed);
      ghost var start := State(seed, scratchpad[..]);
      var current := seed;
      for i := 0 to ITERATIONS
        invariant State(current, scratchpad[..]) == Rounds(blake3, start, i)
      {
        current := Iterate(current, i);
      }
      assert scratchpad[..32] == scratchpad[..][..32] && scratchpad[32..] == scratchpad[..][32..];
      digest := blake3(scratchpad[..32] + current + scratchpad[32..] + LittleEndian(nonce, 8));
    }

    /** A hasher reused for a whole list of calls returns what fresh hashers would. */
    method CalculateAll(calls: seq<(Bytes, nat)>) returns (digests: seq<Digest>)
      requires Valid() && forall i :: 0 <= i < |calls| ==> calls[i].1 < U64
      modifies scratchpad
      ensures |digests| == |calls|
      ensures forall i :: 0 <= i < |calls| ==> digests[i] == Hash(blake3, calls[i].0, calls[i].1)
    {
      digests := [];
      for i := 0 to |calls|
        invariant |digests| == i
        invariant forall k :: 0 <= k < i ==> digests[k] == Hash(blake3, calls[k].0, calls[k].1)
      {
        var digest := CalculateOxideHash(calls[i].0, calls[i].1);
        digests := digests + [digest];
      }
    }
  }

  /** The little-endian encodings of indices and nonces are faithful. */
  lemma {:induction false} LittleEndianRoundTrip(x: nat, n: nat)
    requires x < Pow256(n)
    ensures FromLittleEndian(LittleEndian(x, n)) == x
  {
    if n > 0 {
      LittleEndianRoundTrip(x / 256, n - 1);
      assert LittleEndian(x, n)[1..] == LittleEndian(x / 256, n - 1);
    }
  }

  // ------------------------------------------------- what enters the calls of BLAKE3

  /** Bit i of a number. */
  function Bit(x: nat, i: nat): nat {
    x / Pow2(i) % 2
  }

  lemma XorStep(a: nat, b: nat, n: nat)
    requires n > 0
    ensures XorBits(a, b, n) % 2 == (a + b) % 2 && XorBits(a, b, n) / 2 == XorBits(a / 2, b / 2, n - 1)
  {
  }

  lemma {:induction false} XorBitsMeaning(a: nat, b: nat, n: nat, i: nat)
    requires i < n
    ensures Bit(XorBits(a, b, n), i) == 1 <==> Bit(a, i) != Bit(b, i)
  {
    hide XorBits, Bit, Pow2;
    var x := XorBits(a, b, n);
    XorStep(a, b, n);
    if i == 0 {
      LowestBit(a);
      LowestBit(b);
      LowestBit(x);
      Parity(a, b);
    } else {
      XorBitsMeaning(a / 2, b / 2, n - 1, i - 1);
      BitOfHalf(a, i);
      BitOfHalf(b, i);
      BitOfHalf(x, i);
    }
  }

  lemma Parity(a: nat, b: nat)
    ensures (a + b) % 2 == 1 <==> a % 2 != b % 2
  {
  }

  lemma LowestBit(x: nat)
    ensures Bit(x, 0) == x % 2
  {
  }

  lemma BitOfHalf(x: nat, i: nat)
    requires i > 0
    ensures Bit(x, i) == Bit(x / 2, i - 1)
  {
    QuotientOfHalf(x, Pow2(i - 1));
  }

  lemma QuotientOfHalf(x: nat, b: nat)
    requires 0 < b
    ensures x / (2 * b) == x / 2 / b
  {
    var q := x / 2 / b;
    DivBounds(x / 2, b);
    assert q * (2 * b) == 2 * (q * b) && (q + 1) * (2 * b) == 2 * ((q + 1) * b);
    DivUnique(x, 2 * b, q);
  }

  /** Exclusive or, bit by bit. */
  lemma XorByteMeaning(a: Byte, b: Byte, i: nat)
    requires i < 8
    ensures Bit(XorByte(a, b), i) == 1 <==> Bit(a, i) != Bit(b, i)
  {
    XorBitsMeaning(a, b, 8, i);
  }

  lemma {:induction false} XorBitsTwice(a: nat, b: nat, n: nat)
    requires a < Pow2(n)
    ensures XorBits(XorBits(a, b, n), b, n) == a
  {
    if n > 0 {
      var x := XorBits(a, b, n);
      XorStep(a, b, n);
      XorStep(x, b, n);
      hide XorBits;
      XorBitsTwice(a / 2, b / 2, n - 1);
      SumParity(x, a, b);
      Halves(XorBits(x, b, n), a);
    }
  }

  lemma SumParity(x: nat, a: nat, b: nat)
    requires x % 2 == (a + b) % 2
    ensures (x + b) % 2 == a % 2
  {
  }

  lemma Halves(x: nat, y: nat)
    requires x % 2 == y % 2 && x / 2 == y / 2
    ensures x == y
  {
  }

  lemma XorByteTwice(a: Byte, b: Byte)
    ensures XorByte(XorByte(a, b), b) == a
  {
    assert Pow2(8) == 256;
    XorBitsTwice(a, b, 8);
  }

  lemma {:induction false} XorBitsCommutes(a: nat, b: nat, n: nat)
    ensures XorBits(a, b, n) == XorBits(b, a, n)
  {
    if n > 0 { XorBitsCommutes(a / 2, b / 2, n - 1); }
  }

  /** The data read undoes itself. */
  lemma XorTwice(a: Digest, b: Digest)
    ensures Xor(Xor(a, b), b) == a && Xor(a, b) == Xor(b, a)
  {
    forall k | 0 <= k < 32 ensures Xor(Xor(a, b), b)[k] == a[k] && Xor(a, b)[k] == Xor(b, a)[k] {
      XorByteTwice(a[k], b[k]);
      XorBitsCommutes(a[k], b[k], 8);
    }
  }

  /** Eight bytes are the encoding of exactly one 64-bit number, so an address is that number reduced. */
  lemma {:induction false} LittleEndianInverse(s: Bytes)
    ensures FromLittleEndian(s) < Pow256(|s|) && LittleEndian(FromLittleEndian(s), |s|) == s
  {
    if s != [] {
      var rest := FromLittleEndian(s[1..]);
      LittleEndianInverse(s[1..]);
      ByteAndRest(s[0], rest, Pow256(|s| - 1));
      assert s == [s[0]] + s[1..];
    }
  }

  lemma ByteAndRest(b: Byte, rest: nat, bound: nat)
    ensures (b + 256 * rest) % 256 == b && (b + 256 * rest) / 256 == rest
    ensures rest < bound ==> b + 256 * rest < 256 * bound
  {
  }

  /** The address a digest points to: the number its first eight bytes spell, modulo 2^30 - 32. */
  lemma AddressMeaning(d: Digest, x: nat)
    requires x < U64 && d[..8] == LittleEndian(x, 8)
    ensures Address(d) == x % 0x3fff_ffe0
  {
    assert Pow256(8) == U64;
    LittleEndianRoundTrip(x, 8);
  }

  /** What a round reads and what it hands BLAKE3 for its next state. */
  function ReadAt(blake3: Bytes -> Digest, s: State, i: nat): Digest
    requires FullSize(s)
  {
    var from := Address(blake3(s.hash + LittleEndian(i, 4)));
    s.pad[from..from + 32]
  }

  function RoundInput(blake3: Bytes -> Digest, s: State, i: nat): Digest
    requires FullSize(s)
  {
    Xor(s.hash, ReadAt(blake3, s, i))
  }

  /** One round: the next state hashes the old one with every bit flipped where the data read has a one, and
      the scratchpad changes in 32 bytes, which become the next state. */
  lemma RoundMeaning(blake3: Bytes -> Digest, s: State, i: nat) returns (to: nat)
    requires FullSize(s) && i < ITERATIONS
    ensures var r, read, input := Round(blake3, s, i), ReadAt(blake3, s, i), RoundInput(blake3, s, i);
      && r.hash == blake3(input)
      && (forall k, b :: 0 <= k < 32 && 0 <= b < 8 ==>
            (Bit(input[k], b) == 1 <==> Bit(s.hash[k], b) != Bit(read[k], b)))
      && to + 32 <= SCRATCHPAD_SIZE && r.pad[to..to + 32] == r.hash
      && (forall j :: 0 <= j < SCRATCHPAD_SIZE && !(to <= j < to + 32) ==> r.pad[j] == s.pad[j])
  {
    hide LittleEndian, Bit;
    var r, read, input := Round(blake3, s, i), ReadAt(blake3, s, i), RoundInput(blake3, s, i);
    to := Address(blake3(r.hash + LittleEndian(U32 - 1 - i, 4)));
    hide Address;
    forall k, b | 0 <= k < 32 && 0 <= b < 8 ensures Bit(input[k], b) == 1 <==> Bit(s.hash[k], b) != Bit(read[k], b) {
      XorByteMeaning(s.hash[k], read[k], b);
    }
  }

  /** What is read enters the hash: in one state, two scratchpads give the round's call of BLAKE3 the same
      input if and only if they hold the same 32 bytes where it reads. */
  lemma ReadsEnterTheHash(blake3: Bytes -> Digest, s: State, pad: Bytes, i: nat)
    requires FullSize(s) && |pad| == SCRATCHPAD_SIZE && i < ITERATIONS
    ensures RoundInput(blake3, s, i) == RoundInput(blake3, s.(pad := pad), i)
      <==> ReadAt(blake3, s, i) == ReadAt(blake3, s.(pad := pad), i)
  {
    var t := s.(pad := pad);
    var a, b := ReadAt(blake3, s, i), ReadAt(blake3, t, i);
    hide ReadAt, Xor;
    XorTwice(s.hash, a);
    XorTwice(s.hash, b);
    XorTwice(a, s.hash);
    XorTwice(b, s.hash);
  }

  /** Block k of the initial scratchpad is the digest of the seed and the block's offset. */
  lemma {:induction false} PadBlock(blake3: Bytes -> Digest, seed: Digest, n: nat, k: nat)
    requires k < n <= SCRATCHPAD_SIZE / 32
    ensures InitialPad(blake3, seed, n)[32 * k..32 * k + 32] == blake3(seed + LittleEndian(32 * k, 4))
  {
    hide LittleEndian;
    var before := InitialPad(blake3, seed, n - 1);
    if k < n - 1 {
      PadBlock(blake3, seed, n - 1, k);
      assert InitialPad(blake3, seed, n)[..|before|] == before;
      assert InitialPad(blake3, seed, n)[32 * k..32 * k + 32] == before[32 * k..32 * k + 32];
    } else {
      var block := blake3(seed + LittleEndian(32 * k, 4));
      assert 32 * k % U32 == 32 * k && InitialPad(blake3, seed, n) == before + block;
    }
  }

  /** And no two blocks hash the same input. */
  lemma PadInputsDiffer(seed: Digest, j: nat, k: nat)
    requires j < SCRATCHPAD_SIZE / 32 && k < SCRATCHPAD_SIZE / 32
    requires seed + LittleEndian(32 * j, 4) == seed + LittleEndian(32 * k, 4)
    ensures j == k
  {
    assert (seed + LittleEndian(32 * j, 4))[32..] == LittleEndian(32 * j, 4);
    assert (seed + LittleEndian(32 * k, 4))[32..] == LittleEndian(32 * k, 4);
    assert Pow256(4) == U32;
    LittleEndianRoundTrip(32 * j, 4);
    LittleEndianRoundTrip(32 * k, 4);
  }

  /** Mining a header never hands BLAKE3 the same final input for two nonces. */
  lemma DistinctNoncesDistinctInputs(blake3: Bytes -> Digest, header: Bytes, m: nat, n: nat)
    requires m < U64 && n < U64 && FinalInput(blake3, header, m) == FinalInput(blake3, header, n)
    ensures m == n
  {
    var s := Finished(blake3, header);
    var prefix := s.pad[..32] + s.hash + s.pad[32..];
    assert (prefix + LittleEndian(m, 8))[|prefix|..] == LittleEndian(m, 8);
    assert (prefix + LittleEndian(n, 8))[|prefix|..] == LittleEndian(n, 8);
    assert Pow256(8) == U64;
    LittleEndianRoundTrip(m, 8);
    LittleEndianRoundTrip(n, 8);
  }
}
