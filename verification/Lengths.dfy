/** How a message is cut into blocks, with the integer widths of the program: the block count is kept
    in 16 bits and the length that is asked back is computed in 32. */
module Lengths {
  import opened Columns
  import opened Rows
  import opened PeelState
  import opened Primes

  const MIN_N: nat := 2

  datatype Choice = NoMessage | SmallN | LargeN | Blocks(n: nat)

  /** The block count as it is stored. */
  function BlockCount(messageBytes: nat, blockBytes: nat): nat
    requires blockBytes >= 1
  {
    ((messageBytes + blockBytes - 1) % 0x1_0000_0000_0000_0000 / blockBytes) % 0x1_0000
  }

  function ChooseMatrix(messageBytes: nat, blockBytes: nat): Choice {
    if messageBytes < 1 || blockBytes < 1 then NoMessage
    else if BlockCount(messageBytes, blockBytes) < MIN_N then SmallN
    else if BlockCount(messageBytes, blockBytes) > MAX_N then LargeN
    else Blocks(BlockCount(messageBytes, blockBytes))
  }

  /** p is the least prime from n on. */
  ghost predicate LeastPrime(n: nat, p: nat) {
    n <= p && Prime(p) && forall m :: n <= m < p ==> !Prime(m)
  }

  /** The parameters of the code for a message: they walk every column before they repeat one. The dense
      count for each block count and the seeded draws are given. */
  method CreateCode(messageBytes: nat, blockBytes: nat, denseCount: nat -> nat, draws: nat -> Draws)
    returns (choice: Choice, code: Code)
    requires forall n :: 1 <= denseCount(n) <= 500
    ensures choice == ChooseMatrix(messageBytes, blockBytes)
    ensures choice.Blocks? ==> ValidCode(code) && code.n == choice.n && code.mixCount == denseCount(choice.n) + 6
    ensures choice.Blocks? ==> code.draws == draws
    ensures choice.Blocks? ==> LeastPrime(code.n, code.prime) && LeastPrime(code.mixCount, code.mixPrime)
  {
    choice := ChooseMatrix(messageBytes, blockBytes);
    var n := if blockBytes < 1 then 0 else BlockCount(messageBytes, blockBytes);
    var prime := NextPrime16(n);
    var mixCount := denseCount(n) + 6;
    var mixPrime := NextPrime16(mixCount);
    code := Code(n, prime, mixCount, mixPrime, draws);
  }

  /** n blocks hold the message and no fewer do. */
  predicate Covers(n: nat, messageBytes: nat, blockBytes: nat) {
    (n - 1) * blockBytes < messageBytes <= n * blockBytes
  }

  lemma CountCovers(messageBytes: nat, blockBytes: nat)
    requires messageBytes >= 1 && blockBytes >= 1
    ensures Covers((messageBytes + blockBytes - 1) / blockBytes, messageBytes, blockBytes)
  {}

  lemma CoversOnce(a: nat, b: nat, messageBytes: nat, blockBytes: nat)
    requires blockBytes >= 1 && Covers(a, messageBytes, blockBytes) && Covers(b, messageBytes, blockBytes)
    ensures a == b
  {
    if a < b { Scale(a, b - 1, blockBytes); }
    if b < a { Scale(b, a - 1, blockBytes); }
  }

  lemma Scale(a: int, b: int, c: nat)
    requires a <= b
    ensures a * c <= b * c
  {}

  /** The accepted block count is right exactly for messages of up to 65535 blocks; longer ones are
      accepted too, with what is left of their count. */
  lemma ChoiceRight(messageBytes: nat, blockBytes: nat)
    requires messageBytes < 0x1_0000_0000_0000_0000 - blockBytes && ChooseMatrix(messageBytes, blockBytes).Blocks?
    ensures Covers(ChooseMatrix(messageBytes, blockBytes).n, messageBytes, blockBytes) <==>
      messageBytes <= 0xffff * blockBytes
  {
    var count := (messageBytes + blockBytes - 1) / blockBytes;
    var n := ChooseMatrix(messageBytes, blockBytes).n;
    CountCovers(messageBytes, blockBytes);
    if messageBytes <= 0xffff * blockBytes {
      if count > 0xffff { Scale(0xffff, count - 1, blockBytes); }
      assert n == count;
    } else if Covers(n, messageBytes, blockBytes) {
      CoversOnce(n, count, messageBytes, blockBytes);
      Scale(count, 0xffff, blockBytes);
    }
  }

  /** Up to that size, a message is accepted exactly when it takes from 2 to 64000 blocks, with their number, and
      the errors tell nothing, too few and too many apart. */
  lemma ChoiceExact(messageBytes: nat, blockBytes: nat, n: nat)
    requires messageBytes < 0x1_0000_0000_0000_0000 - blockBytes && messageBytes <= 0xffff * blockBytes
    ensures var choice := ChooseMatrix(messageBytes, blockBytes);
      && (choice.NoMessage? <==> messageBytes == 0 || blockBytes == 0)
      && (messageBytes > 0 && Covers(n, messageBytes, blockBytes) ==>
            && (choice.SmallN? <==> n < 2) && (choice.LargeN? <==> n > 64000)
            && (choice.Blocks? <==> 2 <= n <= 64000) && (choice.Blocks? ==> choice.n == n))
  {
    if messageBytes > 0 && blockBytes > 0 {
      var count := (messageBytes + blockBytes - 1) / blockBytes;
      CountCovers(messageBytes, blockBytes);
      if count > 0xffff { Scale(0xffff, count - 1, blockBytes); }
      if Covers(n, messageBytes, blockBytes) { CoversOnce(n, count, messageBytes, blockBytes); }
    }
  }

  /** 65538 blocks of one byte are taken for two. */
  lemma LongMessageAccepted()
    ensures ChooseMatrix(65538, 1) == Blocks(2) && !Covers(2, 65538, 1)
  {}

  /** Bytes in the final block. */
  function FinalBytes(messageBytes: nat, blockBytes: nat): (r: nat)
    requires blockBytes >= 1
    ensures 1 <= r <= blockBytes
  {
    if messageBytes % blockBytes == 0 then blockBytes else messageBytes % blockBytes
  }

  lemma FinalFills(n: nat, messageBytes: nat, blockBytes: nat)
    requires n >= 1 && blockBytes >= 1 && Covers(n, messageBytes, blockBytes)
    ensures blockBytes * (n - 1) + FinalBytes(messageBytes, blockBytes) == messageBytes
  {
    var rest := messageBytes - (n - 1) * blockBytes;
    assert messageBytes == (n - 1) * blockBytes + rest && 1 <= rest <= blockBytes;
    Remainder(n - 1, rest, blockBytes);
  }

  lemma Remainder(k: nat, rest: nat, b: nat)
    requires b >= 1 && rest <= b
    ensures (k * b + rest) % b == if rest == b then 0 else rest
  {
    if rest == b { QuotientOnce(k * b + rest, b, k + 1, 0); } else { QuotientOnce(k * b + rest, b, k, rest); }
  }

  lemma QuotientOnce(x: nat, b: nat, q: nat, r: nat)
    requires b >= 1 && x == q * b + r && r < b
    ensures x % b == r && x / b == q
  {
    var q', r' := x / b, x % b;
    assert x == q' * b + r';
    if q < q' { Scale(q + 1, q', b); }
    if q' < q { Scale(q' + 1, q, b); }
  }

  /** Whether the decoder gives the message back when asked for as many bytes as it was created for. */
  predicate OutputAccepted(n: nat, messageBytes: nat, blockBytes: nat)
    requires blockBytes >= 1 && n >= 1
  {
    messageBytes == (blockBytes * (n - 1) + FinalBytes(messageBytes, blockBytes)) % 0x1_0000_0000
  }

  /** It does exactly when the message is shorter than 4 GiB: the length is computed in 32 bits. */
  lemma OutputRight(n: nat, messageBytes: nat, blockBytes: nat)
    requires blockBytes >= 1 && n >= 1 && Covers(n, messageBytes, blockBytes)
    ensures OutputAccepted(n, messageBytes, blockBytes) <==> messageBytes < 0x1_0000_0000
  {
    FinalFills(n, messageBytes, blockBytes);
  }

  // ---------- The size of a sent block ----------

  /** How many bytes are sent for a block id: only 16 bits of it are compared with the last block's. */
  function SentBytes(id: nat, n: nat, blockBytes: nat, finalBytes: nat): nat {
    if id % 0x1_0000 == n - 1 then finalBytes else blockBytes
  }

  /** How many the decoder expects. */
  predicate Expected(id: nat, n: nat, blockBytes: nat, finalBytes: nat, bytes: nat) {
    if id + 1 == n then finalBytes <= bytes else bytes == blockBytes
  }

  /** The decoder accepts what is sent except for ids that look like the last block's in 16 bits. */
  lemma SentExpected(id: nat, n: nat, blockBytes: nat, finalBytes: nat)
    requires 1 <= n <= MAX_N && 1 <= finalBytes <= blockBytes
    ensures Expected(id, n, blockBytes, finalBytes, SentBytes(id, n, blockBytes, finalBytes))
      <==> id < 0x1_0000 || id % 0x1_0000 != n - 1 || finalBytes == blockBytes
  {}

  lemma ShortRecoveryBlock()
    ensures !Expected(0x1_0001, 2, 4, 3, SentBytes(0x1_0001, 2, 4, 3))
  {}
}
