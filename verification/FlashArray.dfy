/** The flash array and what programming it means, apart from any driver.

    Word addresses are byte addresses divided by four; the 32-bit byte address
    space therefore has 2^30 words and word addresses wrap there.
 */
module FlashArray {
  import opened Arithmetic

  type Word = w: nat | w < U32

  const ERASED: Word := 0xFFFF_FFFF
  const SPACE: nat := 0x4000_0000  // words in the address space
  const BLOCK: nat := 0x80         // bytes in one write-buffer block
  const BUFFER_WORDS: nat := 32
  const ERASE_WORDS: nat := 256          // one erase page, 1 KB
  const PAGES_PER_LOCK: nat := 2         // one protection bit covers 2 KB

  /** Bitwise conjunction of two words. */
  function And(a: nat, b: nat): (c: nat)
    ensures c <= b
  {
    if a == 0 || b == 0 then 0
    else (if a % 2 == 1 && b % 2 == 1 then 1 else 0) + 2 * And(a / 2, b / 2)
  }

  /** One programming request: the word it addresses and the data it carries. */
  datatype Request = Request(word: nat, data: Word)

  /** An array of `size` words: `mem` holds the words that differ from
      nothing-ever-programmed, `locked` the 2 KB blocks whose protection bit forbids
      programming and erasing, `aris` and `invdris` the raw status bits for an access
      violation and for data that asks a programmed 0 to become 1, `requests` the history of
      programming requests. */
  datatype Flash = Flash(size: nat, mem: map<nat, Word>, locked: set<nat>, aris: bool, invdris: bool,
                         requests: seq<Request>)
  {
    function At(w: nat): Word {
      if w in mem then mem[w] else ERASED
    }

    /** A page that is protected, or outside the array. */
    predicate LockedPage(page: nat) {
      page / PAGES_PER_LOCK in locked || size <= page * ERASE_WORDS
    }

    predicate Locked(w: nat) {
      LockedPage(w / ERASE_WORDS)
    }

    function ClearStatus(): Flash {
      this.(aris := false, invdris := false)
    }
  }

  /** The hardware's reaction to one programming request: only 0 bits of the data
      have an effect, a locked block is left alone. */
  function ProgramWord(f: Flash, w: nat, d: Word): Flash {
    var g := f.(requests := f.requests + [Request(w, d)]);
    if f.Locked(w) then g.(aris := true)
    else g.(mem := f.mem[w := And(f.At(w), d)], invdris := f.invdris || And(f.At(w), d) != d)
  }

  /** The 32-bit sum of an address and four. */
  function Next(a: nat): nat {
    if a + 4 < U32 then a + 4 else a + 4 - U32
  }

  /** The 32-bit byte address `k` words after `a`. */
  function AddressAfter(a: nat, k: nat): nat {
    if k == 0 then a else Next(AddressAfter(a, k - 1))
  }

  /** The simple form: one word after the other. */
  function ProgramWords(f: Flash, a: nat, data: seq<Word>): Flash
    decreases |data|
  {
    if data == [] then f
    else ProgramWords(ProgramWord(f, a / 4, data[0]), Next(a), data[1..])
  }

  /** The hardware's buffered write: every valid buffer register, from `i` on, goes to
      its own word of the 32-word block at `base`. */
  function Commit(f: Flash, base: nat, buffer: seq<Word>, valid: seq<bool>, i: nat): Flash
    requires |buffer| == |valid| == BUFFER_WORDS && i <= BUFFER_WORDS
    decreases BUFFER_WORDS - i
  {
    if i == BUFFER_WORDS then f
    else Commit(if valid[i] then ProgramWord(f, base + i, buffer[i]) else f, base, buffer, valid, i + 1)
  }

  /** Erasing one page. */
  function ErasePage(f: Flash, page: nat): Flash {
    if f.LockedPage(page) then f.(aris := true)
    else f.(mem := map v | v in f.mem && v / ERASE_WORDS != page :: f.mem[v])
  }

  /** The valid bits after the buffer registers `lo` up to `hi` were written. */
  function Range(lo: nat, hi: nat): (valid: seq<bool>)
    ensures |valid| == BUFFER_WORDS
  {
    seq(BUFFER_WORDS, i => lo <= i < hi)
  }

  /** The value a programming driver returns for the status bits. */
  function ReturnCode(f: Flash): int {
    if f.aris || f.invdris then -1 else 0
  }

  /** The write-buffer register of an address: its bits 6 to 2. */
  function Register(a: nat): (i: nat)
    ensures i < BUFFER_WORDS
  {
    a % BLOCK / 4
  }

  // ---- addresses

  lemma {:induction false} AddressAfterAdds(a: nat, j: nat, k: nat)
    ensures AddressAfter(AddressAfter(a, j), k) == AddressAfter(a, j + k)
  {
    if k > 0 {
      AddressAfterAdds(a, j, k - 1);
    }
  }

  /** Inside the 128-byte block at `base` the addresses simply count up; after its last
      word the register number is zero again. */
  lemma {:induction false} AddressInBlock(base: nat, i: nat)
    requires i <= BUFFER_WORDS && base % BLOCK == 0 && base + BLOCK <= U32
    ensures AddressAfter(base, i) == if base + 4 * i == U32 then 0 else base + 4 * i
    ensures Register(AddressAfter(base, i)) == if i == BUFFER_WORDS then 0 else i
  {
    if i > 0 {
      AddressInBlock(base, i - 1);
    }
    if base + 4 * i < U32 {
      RegisterIn(base / BLOCK + i / BUFFER_WORDS, i % BUFFER_WORDS);
    }
  }

  lemma RegisterIn(q: nat, i: nat)
    requires i < BUFFER_WORDS
    ensures Register(BLOCK * q + 4 * i) == i
  {
    assert (BLOCK * q + 4 * i) % BLOCK == 4 * i;
  }

  /** In general word addresses count up and wrap at the end of the address space. */
  lemma {:induction false} AddressWraps(a: nat, k: nat)
    requires a < U32 && a % 4 == 0 && k <= SPACE
    ensures AddressAfter(a, k) % 4 == 0 && AddressAfter(a, k) < U32
    ensures AddressAfter(a, k) / 4 == Target(a / 4, k)
  {
    if k > 0 {
      AddressWraps(a, k - 1);
    }
  }

  // ---- the fast form is the simple form

  lemma {:induction false} ProgramWordsAppend(f: Flash, a: nat, x: seq<Word>, y: seq<Word>)
    ensures ProgramWords(f, a, x + y) == ProgramWords(ProgramWords(f, a, x), AddressAfter(a, |x|), y)
    decreases |x|
  {
    if x == [] {
      assert x + y == y;
    } else {
      assert (x + y)[1..] == x[1..] + y;
      ProgramWordsAppend(ProgramWord(f, a / 4, x[0]), Next(a), x[1..], y);
      AddressAfterAdds(a, 1, |x| - 1);
      assert AddressAfter(a, 1) == Next(a);
    }
  }

  lemma ProgramWordsLast(f: Flash, a: nat, data: seq<Word>)
    requires data != []
    ensures var n := |data| - 1;
            ProgramWords(f, a, data) == ProgramWord(ProgramWords(f, a, data[..n]), AddressAfter(a, n) / 4, data[n])
  {
    var n := |data| - 1;
    assert data == data[..n] + [data[n]];
    ProgramWordsAppend(f, a, data[..n], [data[n]]);
    var h, b := ProgramWords(f, a, data[..n]), AddressAfter(a, n);
    assert ProgramWords(h, b, [data[n]]) == ProgramWords(ProgramWord(h, b / 4, data[n]), Next(b), []);
  }

  lemma {:induction false} CommitSkips(f: Flash, base: nat, buffer: seq<Word>, valid: seq<bool>, i: nat, j: nat)
    requires |buffer| == |valid| == BUFFER_WORDS && i <= j <= BUFFER_WORDS
    requires forall k | i <= k < j :: !valid[k]
    ensures Commit(f, base, buffer, valid, i) == Commit(f, base, buffer, valid, j)
    decreases j - i
  {
    if i < j {
      CommitSkips(f, base, buffer, valid, i + 1, j);
    }
  }

  lemma {:induction false} CommitRun(f: Flash, base: nat, buffer: seq<Word>, valid: seq<bool>, i: nat, hi: nat)
    requires |buffer| == |valid| == BUFFER_WORDS && i <= hi <= BUFFER_WORDS
    requires forall k | i <= k < hi :: valid[k]
    requires base % BLOCK == 0 && base + BLOCK <= U32
    ensures Commit(f, base / 4, buffer, valid, i) ==
            Commit(ProgramWords(f, AddressAfter(base, i), buffer[i..hi]), base / 4, buffer, valid, hi)
    decreases hi - i
  {
    if i < hi {
      AddressInBlock(base, i);
      CommitRun(ProgramWord(f, base / 4 + i, buffer[i]), base, buffer, valid, i + 1, hi);
      assert buffer[i..hi][1..] == buffer[i + 1..hi];
    }
  }

  /** A buffered write of a contiguous run is the word-at-a-time write of that run. */
  lemma CommitIsProgramWords(f: Flash, base: nat, buffer: seq<Word>, lo: nat, hi: nat)
    requires |buffer| == BUFFER_WORDS && lo <= hi <= BUFFER_WORDS
    requires base % BLOCK == 0 && base + BLOCK <= U32
    ensures Commit(f, base / 4, buffer, Range(lo, hi), 0) == ProgramWords(f, AddressAfter(base, lo), buffer[lo..hi])
  {
    CommitSkips(f, base / 4, buffer, Range(lo, hi), 0, lo);
    CommitRun(f, base, buffer, Range(lo, hi), lo, hi);
    var g := ProgramWords(f, AddressAfter(base, lo), buffer[lo..hi]);
    CommitSkips(g, base / 4, buffer, Range(lo, hi), hi, BUFFER_WORDS);
  }

  // ---- what the simple form does

  /** The word that datum `k` of a transfer to byte address `4 * w` reaches. */
  function Target(w: nat, k: nat): nat {
    if w + k < SPACE then w + k else w + k - SPACE
  }

  /** The position in a transfer starting at word `w` whose target is word `v`. */
  function Position(w: nat, v: nat): nat
    requires w < SPACE
  {
    if w <= v then v - w else v - w + SPACE
  }

  /** What word `v` holds after `data` went to `w` onwards: a target that is not locked
      is combined once with its own datum, every other word is unchanged. */
  function WordAfter(f: Flash, w: nat, data: seq<Word>, v: nat): Word
    requires w < SPACE
  {
    if v < SPACE && Position(w, v) < |data| && !f.Locked(v)
      then And(f.At(v), data[Position(w, v)])
      else f.At(v)
  }

  ghost predicate ContentsAfter(f: Flash, w: nat, data: seq<Word>, g: Flash)
    requires w < SPACE
  {
    forall v: nat :: g.At(v) == WordAfter(f, w, data, v)
  }

  /** Some target of the transfer is locked. */
  ghost predicate HitsLock(f: Flash, w: nat, data: seq<Word>) {
    exists k: nat :: k < |data| && f.Locked(Target(w, k))
  }

  /** Datum `k` asks an unlocked target to turn a programmed 0 back into a 1. */
  predicate Raises(f: Flash, w: nat, data: seq<Word>, k: nat)
    requires k < |data|
  {
    !f.Locked(Target(w, k)) && And(f.At(Target(w, k)), data[k]) != data[k]
  }

  /** The status bits say exactly whether some target was locked and whether some datum
      raised a bit, and the hardware saw one request per datum, in order. */
  ghost predicate StatusAfter(f: Flash, w: nat, data: seq<Word>, g: Flash) {
    && (g.aris <==> f.aris || HitsLock(f, w, data))
    && (g.invdris <==> f.invdris || exists k: nat :: k < |data| && Raises(f, w, data, k))
    && g.locked == f.locked && g.size == f.size
    && |g.requests| == |f.requests| + |data|
    && g.requests[..|f.requests|] == f.requests
    && (forall k: nat | k < |data| :: g.requests[|f.requests| + k] == Request(Target(w, k), data[k]))
  }

  /** The whole effect of a transfer: contents and status. */
  lemma {:induction false} ProgramWordsEffect(f: Flash, a: nat, data: seq<Word>)
    requires a < U32 && a % 4 == 0 && |data| <= SPACE
    ensures ContentsAfter(f, a / 4, data, ProgramWords(f, a, data))
    ensures StatusAfter(f, a / 4, data, ProgramWords(f, a, data))
    decreases |data|
  {
    if data != [] {
      var n, w := |data| - 1, a / 4;
      var h := ProgramWords(f, a, data[..n]);
      ProgramWordsEffect(f, a, data[..n]);
      ProgramWordsLast(f, a, data);
      AddressWraps(a, n);
      LastContents(f, w, data, h);
      LastStatus(f, w, data, h);
    }
  }

  lemma LastContents(f: Flash, w: nat, data: seq<Word>, h: Flash)
    requires w < SPACE && 0 < |data| <= SPACE
    requires ContentsAfter(f, w, data[..|data| - 1], h) && h.locked == f.locked && h.size == f.size
    ensures ContentsAfter(f, w, data, ProgramWord(h, Target(w, |data| - 1), data[|data| - 1]))
    ensures h.At(Target(w, |data| - 1)) == f.At(Target(w, |data| - 1))
  {
    var n := |data| - 1;
    var t := Target(w, n);
    var g := ProgramWord(h, t, data[n]);
    forall v: nat
      ensures g.At(v) == WordAfter(f, w, data, v)
    {
      assert h.At(v) == WordAfter(f, w, data[..n], v);
    }
  }

  lemma LastStatus(f: Flash, w: nat, data: seq<Word>, h: Flash)
    requires 0 < |data|
    requires StatusAfter(f, w, data[..|data| - 1], h)
    requires h.At(Target(w, |data| - 1)) == f.At(Target(w, |data| - 1))
    ensures StatusAfter(f, w, data, ProgramWord(h, Target(w, |data| - 1), data[|data| - 1]))
  {
    var n := |data| - 1;
    var pre := data[..n];
    var g := ProgramWord(h, Target(w, n), data[n]);
    assert HitsLock(f, w, data) <==> HitsLock(f, w, pre) || f.Locked(Target(w, n));
    assert forall k: nat | k < n :: Raises(f, w, pre, k) <==> Raises(f, w, data, k);
    assert g.invdris <==> h.invdris || Raises(f, w, data, n);
  }
}
