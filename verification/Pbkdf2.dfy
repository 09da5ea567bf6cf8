/** The hand-written key derivation of the backup, against PBKDF2 as in section 5.2 of RFC 8018. */
module Pbkdf2 {
  import opened Basics

  const HASH_LENGTH: nat := 32
  const COUNTER_SPAN: nat := 0x1_0000_0000

  /** HMAC with SHA-256 as an arbitrary function of key and message with 32 octets of output. */
  type Prf = f: (Bytes, Bytes) -> Bytes | forall k, m :: |f(k, m)| == HASH_LENGTH witness ((k, m) => Zeros(HASH_LENGTH))

  function Zeros(n: nat): (r: Bytes)
    ensures |r| == n
  {
    seq(n, _ => 0)
  }

  function Octet(x: nat): bv8
    requires x < 0x100
  {
    x as bv8
  }

  /** Digit i of a number to the base 256, digit 0 being the least significant. */
  function Digit(x: nat, i: nat): (d: nat)
    ensures d < 0x100
  {
    if i == 0 then x % 0x100 else Digit(x / 0x100, i - 1)
  }

  /** The four octets of a 32-bit counter, most significant first. */
  function BigEndian(counter: nat): (r: Bytes)
    requires counter < COUNTER_SPAN
    ensures |r| == 4
  {
    [Octet(Digit(counter, 3)), Octet(Digit(counter, 2)), Octet(Digit(counter, 1)), Octet(Digit(counter, 0))]
  }

  lemma DigitStep(x: nat, i: nat)
    ensures Digit(x, 0) == x % 0x100 && Digit(x, i + 1) == Digit(x / 0x100, i)
  {
  }

  lemma DigitsOfWord(x: nat)
    requires x < 0x1_0000_0000
    ensures x == Digit(x, 3) * 0x100_0000 + Digit(x, 2) * 0x1_0000 + Digit(x, 1) * 0x100 + Digit(x, 0)
  {
    var y := x / 0x100;
    var z := y / 0x100;
    DigitStep(x, 0);
    DigitStep(x, 1);
    DigitStep(x, 2);
    DigitStep(y, 0);
    DigitStep(y, 1);
    DigitStep(z, 0);
  }

  /** INT(i) of section 5.2 of RFC 8018: four octets that weigh 2^24, 2^16, 2^8 and 1, in this order. */
  lemma BigEndianValue(counter: nat) returns (a: nat, b: nat, c: nat, d: nat)
    requires counter < 0x1_0000_0000
    ensures a < 0x100 && b < 0x100 && c < 0x100 && d < 0x100
    ensures counter == a * 0x100_0000 + b * 0x1_0000 + c * 0x100 + d
    ensures BigEndian(counter) == [a as bv8, b as bv8, c as bv8, d as bv8]
  {
    DigitsOfWord(counter);
    a, b, c, d := Digit(counter, 3), Digit(counter, 2), Digit(counter, 1), Digit(counter, 0);
  }

  // ---- RFC 8018 ----

  /** U_1 = PRF(P, S || INT(block)), U_j = PRF(P, U_{j-1}). */
  ghost function U(prf: Prf, password: Bytes, salt: Bytes, counter: nat, j: nat): (r: Bytes)
    requires counter < COUNTER_SPAN && j >= 1
    ensures |r| == HASH_LENGTH
    decreases j
  {
    if j == 1 then prf(password, salt + BigEndian(counter)) else prf(password, U(prf, password, salt, counter, j - 1))
  }

  /** One octet of T_counter: the exclusive or of that octet of U_1 to U_c. */
  ghost function OctetOfT(prf: Prf, password: Bytes, salt: Bytes, counter: nat, c: nat, k: nat): bv8
    requires counter < COUNTER_SPAN && c >= 1 && k < HASH_LENGTH
    decreases c
  {
    if c == 1 then U(prf, password, salt, counter, 1)[k]
    else OctetOfT(prf, password, salt, counter, c - 1, k) ^ U(prf, password, salt, counter, c)[k]
  }

  /** Octet n of the derived key: octet n mod 32 of the block of number n div 32 + 1. */
  ghost function DerivedOctet(prf: Prf, password: Bytes, salt: Bytes, c: nat, n: nat): bv8
    requires c >= 1 && n / HASH_LENGTH + 1 < COUNTER_SPAN
  {
    OctetOfT(prf, password, salt, n / HASH_LENGTH + 1, c, n % HASH_LENGTH)
  }

  // ---- The loops ----

  ghost function Rounds(iterations: int): nat {
    if iterations < 1 then 1 else iterations
  }

  /** The counter of the code is a 32-bit integer: block i + 1 is numbered modulo 2^32. */
  ghost function CounterOfBlock(i: nat): nat {
    (i + 1) % COUNTER_SPAN
  }

  ghost predicate BlocksDone(result: Bytes, prf: Prf, password: Bytes, salt: Bytes, c: nat, blocks: nat)
    requires c >= 1
  {
    && |result| == blocks * HASH_LENGTH
    && forall n | 0 <= n < |result| :: result[n] == CodeOctet(prf, password, salt, c, n)
  }

  ghost function CodeOctet(prf: Prf, password: Bytes, salt: Bytes, c: nat, n: nat): bv8
    requires c >= 1
  {
    OctetOfT(prf, password, salt, CounterOfBlock(n / HASH_LENGTH), c, n % HASH_LENGTH)
  }

  /** One block: the exclusive or of the chain of PRF values, folded in place into t. */
  method DeriveBlock(prf: Prf, password: Bytes, salt: Bytes, counter: nat, iterations: int) returns (block: Bytes)
    requires counter < COUNTER_SPAN
    ensures |block| == HASH_LENGTH
    ensures forall k | 0 <= k < HASH_LENGTH :: block[k] == OctetOfT(prf, password, salt, counter, Rounds(iterations), k)
  {
    var u := prf(password, salt + BigEndian(counter));
    var t := new bv8[|u|](i requires 0 <= i < |u| => u[i]);
    var i := 1;
    while i < iterations
      invariant 1 <= i <= Rounds(iterations)
      invariant u == U(prf, password, salt, counter, i)
      invariant forall k | 0 <= k < HASH_LENGTH :: t[k] == OctetOfT(prf, password, salt, counter, i, k)
      decreases iterations - i
    {
      u := prf(password, u);
      var j := 0;
      while j < t.Length
        invariant 0 <= j <= t.Length
        invariant forall k | 0 <= k < j :: t[k] == OctetOfT(prf, password, salt, counter, i + 1, k)
        invariant forall k | j <= k < t.Length :: t[k] == OctetOfT(prf, password, salt, counter, i, k)
      {
        t[j] := t[j] ^ u[j];
        j := j + 1;
      }
      i := i + 1;
    }
    block := t[..];
  }

  /** The derived key for every iteration count and length; a count below one acts as one. */
  method Derive(prf: Prf, password: Bytes, salt: Bytes, iterations: int, length: nat) returns (key: Bytes)
    ensures |key| == length
    ensures forall n | 0 <= n < length :: key[n] == CodeOctet(prf, password, salt, Rounds(iterations), n)
    ensures length <= 0xFFFF_FFFF * 32 && iterations >= 1 ==>
              forall n | 0 <= n < length ::
                n / 32 + 1 <= 0xFFFF_FFFF && key[n] == DerivedOctet(prf, password, salt, iterations, n)
  {
    var result: Bytes := [];
    var block := 1;
    ghost var blocks := 0;
    while |result| < length
      invariant block < COUNTER_SPAN && block == CounterOfBlock(blocks)
      invariant BlocksDone(result, prf, password, salt, Rounds(iterations), blocks)
      decreases length - |result|
    {
      var t := DeriveBlock(prf, password, salt, block, iterations);
      AppendBlock(result, t, prf, password, salt, Rounds(iterations), blocks);
      result := result + t;
      CounterWraps(blocks);
      block := (block + 1) % COUNTER_SPAN;
      blocks := blocks + 1;
    }
    key := result[..length];
    if length <= (COUNTER_SPAN - 1) * HASH_LENGTH {
      forall n | 0 <= n < length
        ensures n / HASH_LENGTH + 1 < COUNTER_SPAN
        ensures CodeOctet(prf, password, salt, Rounds(iterations), n) == DerivedOctet(prf, password, salt, Rounds(iterations), n)
      {
        CodeMatchesStandard(prf, password, salt, Rounds(iterations), length, n);
      }
    }
  }

  lemma CounterWraps(blocks: nat)
    ensures (CounterOfBlock(blocks) + 1) % COUNTER_SPAN == CounterOfBlock(blocks + 1)
  {
  }

  lemma AppendBlock(result: Bytes, t: Bytes, prf: Prf, password: Bytes, salt: Bytes, c: nat, blocks: nat)
    requires c >= 1 && BlocksDone(result, prf, password, salt, c, blocks)
    requires |t| == HASH_LENGTH
    requires forall k | 0 <= k < HASH_LENGTH :: t[k] == OctetOfT(prf, password, salt, CounterOfBlock(blocks), c, k)
    ensures BlocksDone(result + t, prf, password, salt, c, blocks + 1)
  {
    forall n | 0 <= n < |result + t|
      ensures (result + t)[n] == CodeOctet(prf, password, salt, c, n)
    {
      if |result| <= n {
        var k := n - |result|;
        assert n == blocks * HASH_LENGTH + k;
        assert n / HASH_LENGTH == blocks && n % HASH_LENGTH == k;
      }
    }
  }

  // ---- The code against the standard ----

  /** The block counter names the blocks as the standard does up to 2^32 - 1 blocks, and not beyond. */
  lemma CounterIsBlockNumberIff(i: nat)
    ensures CounterOfBlock(i) == i + 1 <==> i + 1 < 0x1_0000_0000
  {
  }

  /** Within the length that section 5.2 of RFC 8018 admits, the code computes its derived key octet by octet. */
  lemma CodeMatchesStandard(prf: Prf, password: Bytes, salt: Bytes, c: nat, length: nat, n: nat)
    requires c >= 1 && length <= 0xFFFF_FFFF * 32 && n < length
    ensures n / 32 + 1 <= 0xFFFF_FFFF
    ensures CodeOctet(prf, password, salt, c, n) == DerivedOctet(prf, password, salt, c, n)
  {
    CounterIsBlockNumberIff(n / HASH_LENGTH);
  }

  /** The key block after the last admissible one repeats with counter zero, which no block of the standard has. */
  lemma CounterReachesZero()
    ensures CounterOfBlock(COUNTER_SPAN - 1) == 0
  {
  }
}
