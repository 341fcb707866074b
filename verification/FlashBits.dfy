/** What programming does to single bits, and when it succeeds, in terms of bits, word numbers
    and lock numbers alone. */
module FlashBits {
  import opened Arithmetic
  import opened FlashArray

  predicate BitOf(w: nat, k: nat) {
    w / Pow2(k) % 2 == 1
  }

  lemma HalfQuotient(w: nat, p: nat)
    requires p > 0
    ensures w / (2 * p) == w / 2 / p
  {
    var h := w / 2;
    var q, r := h / p, h % p;
    assert h == q * p + r;
    assert q * (2 * p) == 2 * (q * p);
    Residue(w, 2 * p, q, 2 * r + w % 2);
  }

  lemma LowBit(w: nat)
    ensures BitOf(w, 0) <==> w % 2 == 1
  {
    assert w / Pow2(0) == w;
  }

  lemma NextBit(w: nat, k: nat)
    ensures BitOf(w, k + 1) <==> BitOf(w / 2, k)
  {
    HalfQuotient(w, Pow2(k));
  }

  lemma AndHalves(a: nat, b: nat, c: nat)
    requires c == And(a, b)
    ensures c % 2 == 1 <==> a % 2 == 1 && b % 2 == 1
    ensures c / 2 == And(a / 2, b / 2)
  {
  }

  lemma NextBits(a: nat, b: nat, c: nat, k: nat)
    ensures BitOf(a, k + 1) <==> BitOf(a / 2, k)
    ensures BitOf(b, k + 1) <==> BitOf(b / 2, k)
    ensures BitOf(c, k + 1) <==> BitOf(c / 2, k)
  {
    NextBit(a, k);
    NextBit(b, k);
    NextBit(c, k);
  }

  /** A bit of the conjunction is 1 exactly when it is 1 in both words. */
  lemma {:induction false} AndBits(a: nat, b: nat, c: nat, k: nat)
    requires c == And(a, b)
    ensures BitOf(c, k) <==> BitOf(a, k) && BitOf(b, k)
    decreases k
  {
    AndHalves(a, b, c);
    if k == 0 {
      LowBit(a);
      LowBit(b);
      LowBit(c);
    } else {
      AndBits(a / 2, b / 2, c / 2, k - 1);
      NextBits(a, b, c, k - 1);
    }
  }

  /** Words are equal when their bits are. */
  lemma {:induction false} SameBits(a: nat, b: nat, n: nat)
    requires a < Pow2(n) && b < Pow2(n) && forall k: nat | k < n :: BitOf(a, k) <==> BitOf(b, k)
    ensures a == b
    decreases n
  {
    if n > 0 {
      LowBit(a);
      LowBit(b);
      assert BitOf(a, 0) <==> BitOf(b, 0);
      forall k: nat | k < n - 1
        ensures BitOf(a / 2, k) <==> BitOf(b / 2, k)
      {
        NextBit(a, k);
        NextBit(b, k);
        assert BitOf(a, k + 1) <==> BitOf(b, k + 1);
      }
      SameBits(a / 2, b / 2, n - 1);
    }
  }

  /** Every 1 bit of the datum is still 1 in the word it is meant for. */
  ghost predicate Covers(held: nat, d: nat) {
    forall k: nat | k < 32 :: BitOf(d, k) ==> BitOf(held, k)
  }

  lemma AndCovers(held: nat, d: Word)
    ensures And(held, d) == d <==> Covers(held, d)
  {
    forall k: nat
      ensures BitOf(And(held, d), k) <==> BitOf(held, k) && BitOf(d, k)
    {
      AndBits(held, d, And(held, d), k);
    }
    if Covers(held, d) {
      Powers();
      SameBits(And(held, d), d, 32);
    }
  }

  // ---- a transfer

  /** Word `v` may be programmed: its 2 KB block is not protected and its page is in the array. */
  predicate Writable(f: Flash, v: nat) {
    v / 512 !in f.locked && v - v % 256 < f.size
  }

  lemma WritableIsUnlocked(f: Flash, v: nat)
    ensures Writable(f, v) <==> !f.Locked(v)
  {
    assert v / ERASE_WORDS / PAGES_PER_LOCK == v / 512;
    assert v / ERASE_WORDS * ERASE_WORDS == v - v % 256;
  }

  /** The word that datum `i` of a transfer to byte address `a` is meant for. */
  function WordFor(a: nat, i: nat): nat {
    (a / 4 + i) % 0x4000_0000
  }

  lemma WordForIsTarget(a: nat, i: nat)
    requires a < U32 && i < SPACE
    ensures WordFor(a, i) == Target(a / 4, i)
  {
  }

  /** A bit is 1 afterwards exactly when it was 1 before and every datum that reached its word
      has it as 1: no bit is ever raised. */
  ghost predicate BitsAfter(f: Flash, a: nat, data: seq<Word>, g: Flash) {
    forall v: nat, k: nat {:trigger BitOf(g.At(v), k)} | k < 32 ::
      BitOf(g.At(v), k) <==>
      BitOf(f.At(v), k) && forall i: nat | i < |data| && WordFor(a, i) == v && Writable(f, v) :: BitOf(data[i], k)
  }

  lemma ProgramBits(f: Flash, a: nat, data: seq<Word>)
    requires a < U32 && a % 4 == 0 && |data| <= SPACE
    ensures BitsAfter(f, a, data, ProgramWords(f, a, data))
  {
    var g := ProgramWords(f, a, data);
    ProgramWordsEffect(f, a, data);
    forall v: nat, k: nat | k < 32
      ensures BitOf(g.At(v), k) <==>
              BitOf(f.At(v), k) &&
              forall i: nat | i < |data| && WordFor(a, i) == v && Writable(f, v) :: BitOf(data[i], k)
    {
      assert g.At(v) == WordAfter(f, a / 4, data, v);
      WritableIsUnlocked(f, v);
      forall i: nat | i < |data| && WordFor(a, i) == v
        ensures v < SPACE && i == Position(a / 4, v)
      {
        WordForIsTarget(a, i);
      }
      if Writable(f, v) && v < SPACE && Position(a / 4, v) < |data| {
        WordForIsTarget(a, Position(a / 4, v));
        AndBits(f.At(v), data[Position(a / 4, v)], g.At(v), k);
      }
    }
  }

  /** The transfer can be made: every word it is meant for may be programmed and holds a 1
      wherever the datum has one. */
  ghost predicate Programmable(f: Flash, a: nat, data: seq<Word>) {
    forall i: nat | i < |data| :: Writable(f, WordFor(a, i)) && Covers(f.At(WordFor(a, i)), data[i])
  }

  lemma DatumAccepted(f: Flash, a: nat, data: seq<Word>, i: nat)
    requires a < U32 && |data| <= SPACE && i < |data|
    ensures Writable(f, WordFor(a, i)) && Covers(f.At(WordFor(a, i)), data[i]) <==>
            !f.Locked(Target(a / 4, i)) && !Raises(f, a / 4, data, i)
  {
    WordForIsTarget(a, i);
    WritableIsUnlocked(f, WordFor(a, i));
    AndCovers(f.At(WordFor(a, i)), data[i]);
  }

  /** Programming returns 0 exactly when the transfer can be made, and -1 otherwise. */
  lemma ReturnsZeroExactly(f: Flash, a: nat, data: seq<Word>)
    requires a < U32 && a % 4 == 0 && |data| <= SPACE && !f.aris && !f.invdris
    ensures ReturnCode(ProgramWords(f, a, data)) == if Programmable(f, a, data) then 0 else -1
  {
    var g := ProgramWords(f, a, data);
    ProgramWordsEffect(f, a, data);
    assert Programmable(f, a, data) <==> !g.aris && !g.invdris by {
      forall i: nat | i < |data|
        ensures Writable(f, WordFor(a, i)) && Covers(f.At(WordFor(a, i)), data[i]) <==>
                !f.Locked(Target(a / 4, i)) && !Raises(f, a / 4, data, i)
      {
        DatumAccepted(f, a, data, i);
      }
    }
  }

  /** The status bits of the operation before make no difference to a transfer. */
  lemma StatusIgnored(f: Flash, a: nat, data: seq<Word>, g: Flash)
    ensures Programmable(f.ClearStatus(), a, data) <==> Programmable(f, a, data)
    ensures BitsAfter(f.ClearStatus(), a, data, g) <==> BitsAfter(f, a, data, g)
  {
    var c := f.ClearStatus();
    assert forall v: nat :: c.At(v) == f.At(v) && (Writable(c, v) <==> Writable(f, v));
  }

  // ---- erasing

  /** Every word of the page that may be programmed reads as all ones, every other word as before. */
  ghost predicate PageErased(f: Flash, page: nat, g: Flash) {
    forall v: nat :: g.At(v) == if v / 256 == page && Writable(f, v) then 0xFFFF_FFFF else f.At(v)
  }

  lemma EraseOnePage(f: Flash, ulAddress: nat)
    requires ulAddress % 0x400 == 0
    ensures PageErased(f, ulAddress / 0x400, ErasePage(f.(aris := false), ulAddress / 0x400))
    ensures Writable(f, ulAddress / 4) <==> !f.LockedPage(ulAddress / 0x400)
  {
    var page := ulAddress / 0x400;
    WritableIsUnlocked(f, ulAddress / 4);
    assert ulAddress / 4 / ERASE_WORDS == page;
    forall v: nat
      ensures ErasePage(f.(aris := false), page).At(v) ==
              if v / 256 == page && Writable(f, v) then 0xFFFF_FFFF else f.At(v)
    {
      WritableIsUnlocked(f, v);
    }
  }
}
