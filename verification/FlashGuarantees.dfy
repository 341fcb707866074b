/** What callers of the flash driver get: success means the data read back, and erasing
    first is enough for success. */
module FlashGuarantees {
  import opened Arithmetic
  import opened FlashArray

  /** Every target of the transfer reads back its own datum. */
  ghost predicate ReadsBack(g: Flash, w: nat, data: seq<Word>)
    requires w < SPACE
  {
    forall k: nat | k < |data| :: g.At(Target(w, k)) == data[k]
  }

  /** Some datum of the transfer raises a bit. */
  ghost predicate SomeRaise(f: Flash, w: nat, data: seq<Word>) {
    exists k: nat :: k < |data| && Raises(f, w, data, k)
  }

  /** An unlocked target ends up with the conjunction of what it held and its datum. */
  lemma TargetAfter(f: Flash, a: nat, data: seq<Word>, k: nat)
    requires a < U32 && a % 4 == 0 && k < |data| <= SPACE && !f.Locked(Target(a / 4, k))
    ensures ProgramWords(f, a, data).At(Target(a / 4, k)) == And(f.At(Target(a / 4, k)), data[k])
  {
    ProgramWordsEffect(f, a, data);
    assert ProgramWords(f, a, data).At(Target(a / 4, k)) == WordAfter(f, a / 4, data, Target(a / 4, k));
  }

  /** Programming returns 0 exactly when no target is locked and no datum asks a programmed
      0 to become a 1. */
  lemma SuccessExactly(f: Flash, a: nat, data: seq<Word>)
    requires a < U32 && a % 4 == 0 && |data| <= SPACE
    ensures ReturnCode(ProgramWords(f.ClearStatus(), a, data)) == 0 <==>
            !HitsLock(f, a / 4, data) && !SomeRaise(f, a / 4, data)
  {
    var c := f.ClearStatus();
    ProgramWordsEffect(c, a, data);
    assert forall k: nat | k < |data| :: Raises(c, a / 4, data, k) <==> Raises(f, a / 4, data, k);
    assert HitsLock(c, a / 4, data) <==> HitsLock(f, a / 4, data);
  }

  /** On unlocked targets the returned value tells exactly whether the data read back. */
  lemma SuccessMeansReadBack(f: Flash, a: nat, data: seq<Word>)
    requires a < U32 && a % 4 == 0 && |data| <= SPACE && !HitsLock(f, a / 4, data)
    ensures var g := ProgramWords(f.ClearStatus(), a, data);
            ReturnCode(g) == 0 <==> ReadsBack(g, a / 4, data)
  {
    var c := f.ClearStatus();
    SuccessExactly(f, a, data);
    forall k: nat | k < |data|
      ensures ProgramWords(c, a, data).At(Target(a / 4, k)) == data[k] <==> !Raises(f, a / 4, data, k)
    {
      assert !f.Locked(Target(a / 4, k));
      TargetAfter(c, a, data, k);
    }
  }

  lemma {:induction false} AndOnes(n: nat, d: nat)
    requires d < Pow2(n)
    ensures And(Pow2(n) - 1, d) == d
  {
    if n > 0 && d > 0 {
      assert (Pow2(n) - 1) / 2 == Pow2(n - 1) - 1;
      AndOnes(n - 1, d / 2);
    }
  }

  lemma AndErased(d: Word)
    ensures And(ERASED, d) == d
  {
    Powers();
    AndOnes(32, d);
  }

  /** Erasing pages one after the other. */
  function ErasePages(f: Flash, pages: seq<nat>): Flash
    decreases |pages|
  {
    if pages == [] then f else ErasePages(ErasePage(f, pages[0]), pages[1..])
  }

  /** Erasing resets exactly the words of the named pages that are not locked, and reports
      an access violation exactly when some named page is locked. */
  lemma {:induction false} ErasePagesEffect(f: Flash, pages: seq<nat>)
    ensures var g := ErasePages(f, pages);
            && g.locked == f.locked && g.size == f.size && g.invdris == f.invdris && g.requests == f.requests
            && (g.aris <==> f.aris || exists p :: p in pages && f.LockedPage(p))
            && forall v: nat :: g.At(v) == if v / ERASE_WORDS in pages && !f.Locked(v) then ERASED else f.At(v)
    decreases |pages|
  {
    if pages != [] {
      ErasePagesEffect(ErasePage(f, pages[0]), pages[1..]);
      assert forall p :: p in pages <==> p == pages[0] || p in pages[1..];
    }
  }

  /** Erasing every page a transfer touches and then programming returns 0 and reads back
      the data, whatever the flash held before, when none of those words is locked. */
  lemma EraseThenProgram(f: Flash, pages: seq<nat>, a: nat, data: seq<Word>)
    requires a < U32 && a % 4 == 0 && |data| <= SPACE && !HitsLock(f, a / 4, data)
    requires forall k: nat | k < |data| :: Target(a / 4, k) / ERASE_WORDS in pages
    ensures var g := ProgramWords(ErasePages(f, pages).ClearStatus(), a, data);
            ReturnCode(g) == 0 && ReadsBack(g, a / 4, data)
  {
    var e := ErasePages(f, pages);
    ErasePagesEffect(f, pages);
    forall k: nat | k < |data|
      ensures !e.Locked(Target(a / 4, k)) && !Raises(e, a / 4, data, k)
    {
      assert !f.Locked(Target(a / 4, k));
      AndErased(data[k]);
    }
    SuccessExactly(e, a, data);
    SuccessMeansReadBack(e, a, data);
  }
}
