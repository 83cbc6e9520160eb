/** The software XTEA cipher of the custom-functions-unit demo, on 32-bit words. */
module Xtea {
  import opened Bits

  type Word = w: nat | w < TWO32

  const DELTA: Word := 0x9e3779b9

  function Add(x: Word, y: Word): Word {
    (x + y) % TWO32
  }

  function Sub(x: Word, y: Word): Word {
    (x - y) % TWO32
  }

  function Xor(x: Word, y: Word): Word {
    TwoTo32();
    BitXor(x, y, 32)
  }

  /** The word shifted by 4 to the left xor the word shifted by 5 to the right, plus the word. */
  function Mix(v: Word): Word {
    Add(Xor(v * 16 % TWO32, v / 32), v)
  }

  /** The low two bits of an index select one of the four key words. */
  function KeyWord(k: seq<Word>, i: Word): Word
    requires |k| == 4
  {
    k[i % 4]
  }

  function Term0(k: seq<Word>, v1: Word, sum: Word): Word
    requires |k| == 4
  {
    Xor(Mix(v1), Add(sum, KeyWord(k, sum)))
  }

  function Term1(k: seq<Word>, v0: Word, sum: Word): Word
    requires |k| == 4
  {
    Xor(Mix(v0), Add(sum, KeyWord(k, sum / 2048)))
  }

  /** A block: the two words that are enciphered together. */
  datatype Block = Block(v0: Word, v1: Word)

  /** The enciphering cycle that starts with `sum`. */
  function EncCycle(k: seq<Word>, b: Block, sum: Word): Block
    requires |k| == 4
  {
    var v0 := Add(b.v0, Term0(k, b.v1, sum));
    Block(v0, Add(b.v1, Term1(k, v0, Add(sum, DELTA))))
  }

  /** The deciphering cycle that ends with `sum`. */
  function DecCycle(k: seq<Word>, b: Block, sum: Word): Block
    requires |k| == 4
  {
    var v1 := Sub(b.v1, Term1(k, b.v0, Add(sum, DELTA)));
    Block(Sub(b.v0, Term0(k, v1, sum)), v1)
  }

  /** The running sum before enciphering cycle `n`. */
  function Sum(n: nat): Word {
    if n == 0 then 0 else Add(Sum(n - 1), DELTA)
  }

  /** Enciphering cycles 0 to `n` - 1, in this order. */
  function Encipher(k: seq<Word>, b: Block, n: nat): Block
    requires |k| == 4
  {
    if n == 0 then b else EncCycle(k, Encipher(k, b, n - 1), Sum(n - 1))
  }

  /** Deciphering cycles `n` - 1 down to `m`. */
  function Decipher(k: seq<Word>, b: Block, n: nat, m: nat): Block
    requires |k| == 4 && m <= n
    decreases n - m
  {
    if n == m then b else DecCycle(k, Decipher(k, b, n, m + 1), Sum(m))
  }

  // ---- The code --------------------------------------------------------------------------

  method EncipherInPlace(numCycles: Word, v: array<Word>, k: seq<Word>)
    requires v.Length >= 2 && |k| == 4
    modifies v
    ensures Block(v[0], v[1]) == Encipher(k, old(Block(v[0], v[1])), numCycles)
    ensures v[2..] == old(v[2..])
  {
    var v0, v1, sum: Word := v[0], v[1], 0;
    ghost var b := Block(v0, v1);
    for i := 0 to numCycles
      invariant v[..] == old(v[..]) && sum == Sum(i) && Block(v0, v1) == Encipher(k, b, i)
    {
      v0 := Add(v0, Term0(k, v1, sum));
      sum := Add(sum, DELTA);
      v1 := Add(v1, Term1(k, v0, sum));
    }
    v[0], v[1] := v0, v1;
  }

  method DecipherInPlace(numCycles: Word, v: array<Word>, k: seq<Word>)
    requires v.Length >= 2 && |k| == 4
    modifies v
    ensures Block(v[0], v[1]) == Decipher(k, old(Block(v[0], v[1])), numCycles, 0)
    ensures v[2..] == old(v[2..])
  {
    var v0, v1, sum: Word := v[0], v[1], DELTA * numCycles % TWO32;
    ghost var b := Block(v0, v1);
    SumIsProduct(numCycles);
    for i := 0 to numCycles
      invariant v[..] == old(v[..]) && sum == Sum(numCycles - i)
      invariant Block(v0, v1) == Decipher(k, b, numCycles, numCycles - i)
    {
      AddSub(Sum(numCycles - i - 1), DELTA);
      v1 := Sub(v1, Term1(k, v0, sum));
      sum := Sub(sum, DELTA);
      v0 := Sub(v0, Term0(k, v1, sum));
    }
    v[0], v[1] := v0, v1;
  }

  // ---- The law ---------------------------------------------------------------------------

  /** Adding up is multiplying: the sum deciphering starts with is the one enciphering ends with. */
  lemma {:induction false} SumIsProduct(n: nat)
    ensures Sum(n) == DELTA * n % TWO32
  {
    if n > 0 {
      SumIsProduct(n - 1);
      assert DELTA * n == DELTA * (n - 1) + DELTA;
      ModAdd(DELTA * (n - 1), DELTA);
    }
  }

  lemma ModAdd(x: nat, d: nat)
    ensures (x % TWO32 + d) % TWO32 == (x + d) % TWO32
  {
  }

  lemma AddSub(x: Word, y: Word)
    ensures Sub(Add(x, y), y) == x && Add(Sub(x, y), y) == x
  {
  }

  /** A deciphering cycle undoes the enciphering cycle of the same sum, and the other way round. */
  lemma CyclesInvert(k: seq<Word>, b: Block, sum: Word)
    requires |k| == 4
    ensures DecCycle(k, EncCycle(k, b, sum), sum) == b
    ensures EncCycle(k, DecCycle(k, b, sum), sum) == b
  {
    AddSub(b.v0, Term0(k, b.v1, sum));
    AddSub(b.v1, Term1(k, EncCycle(k, b, sum).v0, Add(sum, DELTA)));
    AddSub(b.v1, Term1(k, b.v0, Add(sum, DELTA)));
    AddSub(b.v0, Term0(k, DecCycle(k, b, sum).v1, sum));
  }

  /** After deciphering down to cycle `m`, the block is as it was before enciphering cycle `m`. */
  lemma {:induction false} CycleByCycle(k: seq<Word>, b: Block, n: nat, m: nat)
    requires |k| == 4 && m <= n
    ensures Decipher(k, Encipher(k, b, n), n, m) == Encipher(k, b, m)
    decreases n - m
  {
    if m < n {
      CycleByCycle(k, b, n, m + 1);
      CyclesInvert(k, Encipher(k, b, m), Sum(m));
    }
  }

  /** Deciphering undoes enciphering, for every key, block and number of cycles. */
  lemma DecipherUndoes(k: seq<Word>, b: Block, n: nat)
    requires |k| == 4
    ensures Decipher(k, Encipher(k, b, n), n, 0) == b
  {
    CycleByCycle(k, b, n, 0);
  }

  /** Enciphering undoes deciphering. */
  lemma {:induction false} EncipherUndoesFrom(k: seq<Word>, b: Block, n: nat, m: nat)
    requires |k| == 4 && m <= n
    ensures Encipher(k, Decipher(k, b, n, 0), m) == Decipher(k, b, n, m)
  {
    if m > 0 {
      EncipherUndoesFrom(k, b, n, m - 1);
      CyclesInvert(k, Decipher(k, b, n, m), Sum(m - 1));
    }
  }

  lemma EncipherUndoes(k: seq<Word>, b: Block, n: nat)
    requires |k| == 4
    ensures Encipher(k, Decipher(k, b, n, 0), n) == b
  {
    EncipherUndoesFrom(k, b, n, n);
  }
}
