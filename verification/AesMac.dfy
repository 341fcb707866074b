/** Which blocks the MAC driver of driverlib/aes.c feeds to the engine, and exactly when they
    are the message's. */
module AesMacFeeding {
  import opened Arithmetic
  import opened BlockEngine

  /** The offset from which the driver takes the bytes that are left after the whole blocks:
      the loop counter times the block count, in 32 bits, not sixteen times the count. */
  function TailOffset(n: nat): nat {
    (n / 16) * (n / 16) % U32
  }

  /** How far into memory the driver reads. */
  function Reach(n: nat): nat {
    if n % 16 == 0 then n
    else if n < TailOffset(n) + n % 16 then TailOffset(n) + n % 16
    else n
  }

  /** What the driver feeds for a message of `n` bytes at the start of memory. */
  function MacFed(mem: Bytes, n: nat): seq<Bytes>
    requires Reach(n) <= |mem|
  {
    var b, r, t := n / 16, n % 16, TailOffset(n);
    Blocks(16, mem[..16 * b]) + (if r == 0 then [] else [Pad(16, mem[t..t + r])])
  }

  /** What it is meant to feed: the blocks of the message, the last one zero-padded. */
  function MacMeant(mem: Bytes, n: nat): seq<Bytes>
    requires n <= |mem|
  {
    Blocks(16, mem[..n])
  }

  // ---- when the offset is right

  predicate Odd(x: int) {
    x % 2 == 1
  }

  lemma OddTimesOdd(x: int, y: int)
    requires Odd(x) && Odd(y)
    ensures Odd(x * y)
  {
    var a, b := x / 2, y / 2;
    assert x * y == (2 * a + 1) * y == 2 * (a * y) + y;
  }

  lemma Halve(x: int, z: int, h: int, p: int)
    requires x * (2 * z) == h * (2 * p)
    ensures x * z == h * p
  {
    assert x * (2 * z) == 2 * (x * z) && h * (2 * p) == 2 * (h * p);
  }

  lemma EvenMultiple(h: int, p: int)
    ensures !Odd(h * (2 * p))
  {
    assert h * (2 * p) == 2 * (h * p);
  }

  /** An odd factor contributes nothing to divisibility by a power of two. */
  lemma {:induction false} OddCancels(x: int, y: int, k: nat, h: int) returns (g: int)
    requires Odd(x) && x * y == h * Pow2(k)
    ensures y == g * Pow2(k)
    decreases k
  {
    if k == 0 {
      g := y;
      assert g * Pow2(0) == y;
    } else {
      var p := Pow2(k - 1);
      assert Pow2(k) == 2 * p;
      EvenMultiple(h, p);
      assert !Odd(x * y);
      if Odd(y) {
        OddTimesOdd(x, y);
      }
      var z := y / 2;
      assert y == 2 * z;
      Halve(x, z, h, p);
      g := OddCancels(x, z, k - 1, h);
      Double(g, p);
    }
  }

  lemma Double(g: int, p: int)
    ensures g * (2 * p) == 2 * (g * p)
  {
  }

  /** A multiple of a power of two below it is zero. */
  lemma SmallMultiple(y: nat, g: int, p: nat)
    requires y == g * p && y < p
    ensures y == 0
  {
    if g >= 1 {
      MulBound(g, p);
    } else if g < 0 {
      MulBound(g, p);
    }
  }

  /** Two factors an even distance apart whose product is divisible by four are both even. */
  lemma Halves(b: int, m: int, h: int, k: nat) returns (c: int)
    requires b * (b - 2 * m) == h * Pow2(k + 2)
    ensures b == 2 * c && c * (c - m) == h * Pow2(k)
  {
    EvenMultiple(h, Pow2(k + 1));
    if Odd(b) {
      OddTimesOdd(b, b - 2 * m);
    }
    c := b / 2;
    Quarter(b, c, m, h, Pow2(k));
  }

  lemma Quarter(b: int, c: int, m: int, h: int, p: int)
    requires b == 2 * c && b * (b - 2 * m) == h * (2 * (2 * p))
    ensures c * (c - m) == h * p
  {
    assert b * (b - 2 * m) == 4 * (c * (c - m));
    assert h * (2 * (2 * p)) == 4 * (h * p);
  }

  /** The square of a block count is sixteen times the count, modulo 2^32, for the counts 0
      and 16 alone. */
  lemma OffsetRight(b: nat)
    requires b < 0x1000_0000
    ensures b * b % U32 == 16 * b <==> b == 0 || b == 16
  {
    if b * b % U32 == 16 * b {
      var h := b * b / U32;
      Powers();
      Factored(b, h);
      var c := Halves(b, 8, h, 30);
      var d := Halves(c, 4, h, 28);
      var f := Halves(d, 2, h, 26);
      var u := Halves(f, 1, h, 24);
      Neighbours(u, 24, h);
    }
  }

  /** Of two neighbours below a power of two only 0 and 1 have a product it divides. */
  lemma Neighbours(u: int, k: nat, h: int)
    requires 0 <= u < Pow2(k) && u * (u - 1) == h * Pow2(k)
    ensures u == 0 || u == 1
  {
    if Odd(u) {
      var g := OddCancels(u, u - 1, k, h);
      SmallMultiple(u - 1, g, Pow2(k));
    } else {
      Swapped(u, u - 1, h * Pow2(k));
      var g := OddCancels(u - 1, u, k, h);
      SmallMultiple(u, g, Pow2(k));
    }
  }

  lemma Factored(b: nat, h: nat)
    requires b * b % U32 == 16 * b && h == b * b / U32
    ensures b * (b - 16) == h * U32
  {
    assert b * (b - 16) == b * b - 16 * b;
  }

  lemma Swapped(x: int, y: int, z: int)
    requires x * y == z
    ensures y * x == z
  {
  }

  // ---- when the message is fed

  /** Whatever memory holds, the driver feeds the message. */
  ghost predicate FeedsMessage(n: nat) {
    forall mem: Bytes {:trigger MacFed(mem, n)} | Reach(n) <= |mem| :: MacFed(mem, n) == MacMeant(mem, n)
  }

  /** Memory that is zero but for the first byte of the tail. */
  function MarkedTail(n: nat): (mem: Bytes)
    ensures |mem| == Reach(n)
  {
    seq(Reach(n), i => if i == 16 * (n / 16) then 1 else 0)
  }

  /** `AESDataMAC` feeds every message of `n` bytes exactly when `n` is a multiple of 16, or
      has no whole block, or has sixteen of them. */
  lemma MacFeedsExactly(n: nat)
    requires n < U32
    ensures FeedsMessage(n) <==> GoodLength(n)
  {
    OffsetRight(n / 16);
    Tail(n);
    forall mem: Bytes | Reach(n) <= |mem| && GoodLength(n)
      ensures MacFed(mem, n) == MacMeant(mem, n)
    {
      FedIsMeant(mem, n);
    }
    if !TailRight(n) {
      TailLost(n);
    }
  }

  /** The part after the whole blocks, if any, is where the driver looks for it. */
  predicate TailRight(n: nat) {
    n % 16 == 0 || TailOffset(n) == 16 * (n / 16)
  }

  /** A length of whole blocks, of less than one, or of sixteen and a part. */
  predicate GoodLength(n: nat) {
    n % 16 == 0 || n / 16 == 0 || n / 16 == 16
  }

  /** Then the driver feeds what it is meant to. */
  lemma FedIsMeant(mem: Bytes, n: nat)
    requires n < U32 && Reach(n) <= |mem| && GoodLength(n)
    ensures n <= |mem| && MacFed(mem, n) == MacMeant(mem, n)
  {
    OffsetRight(n / 16);
    Tail(n);
    MeantByTail(mem, n);
  }

  lemma Tail(n: nat)
    ensures n == 16 * (n / 16) + n % 16 && Reach(n) >= n && (n % 16 != 0 ==> Reach(n) >= TailOffset(n) + n % 16)
    ensures 16 * (n / 16) % 16 == 0
  {
  }

  lemma MeantByTail(mem: Bytes, n: nat)
    requires n <= |mem|
    ensures MacMeant(mem, n) ==
            Blocks(16, mem[..16 * (n / 16)]) + (if n % 16 == 0 then [] else [Pad(16, mem[16 * (n / 16)..n])])
  {
    Tail(n);
    if n % 16 != 0 {
      BlocksNext(16, mem, 16 * (n / 16), n % 16);
    }
  }

  lemma TailLost(n: nat)
    requires !TailRight(n)
    ensures !FeedsMessage(n)
  {
    var mem := MarkedTail(n);
    Tail(n);
    MeantByTail(mem, n);
    var fed, meant, b, t := MacFed(mem, n), MacMeant(mem, n), 16 * (n / 16), TailOffset(n);
    assert fed[|fed| - 1] == Pad(16, mem[t..t + n % 16]) && meant[|meant| - 1] == Pad(16, mem[b..n]);
    assert fed[|fed| - 1][0] == mem[t] == 0 && meant[|meant| - 1][0] == mem[b] == 1;
  }
}
