/** The driver functions of driverlib/shamd5.c on the hash engine. */
module HashDriver {
  import opened Arithmetic
  import opened BlockEngine
  import opened HashFunction
  import opened HashEngine
  import opened HashFeeding
  import opened HashPlan
  import CryptoEngine

  // ---- registers

  method SHAMD5ConfigSet(dev: Device, algo: Algo, hmac: bool)
    requires dev.Valid()
    modifies dev`core
    ensures dev.Valid()
    ensures dev.core == old(dev.core).(x := old(dev.core.x).(mode := Mode(algo, !hmac, !hmac, false, false)))
  {
    dev.core := dev.core.(x := dev.core.x.(mode := Mode(algo, !hmac, !hmac, false, false)));
  }

  /** Writing the length sets the engine off. */
  method SHAMD5DataLengthSet(dev: Device, ui32Length: nat)
    requires dev.Valid() && ui32Length < U32
    modifies dev`core, dev`latency
    ensures dev.Valid()
    ensures dev.core == old(dev.core).(x := old(dev.core.x).(stage := Starting, left := ui32Length))
  {
    dev.core := dev.core.(x := dev.core.x.(stage := Starting, left := ui32Length));
    dev.latency := *;
  }

  // ---- feeding

  lemma NextWord(data: Bytes, piece: Bytes, i: nat)
    requires 4 * i + 4 <= |piece| <= |data|
    ensures Overlay(Overlay(data, 0, piece[..4 * i]), 4 * i, piece[4 * i..4 * i + 4]) ==
            Overlay(data, 0, piece[..4 * i + 4])
  {
  }

  /** The loop that writes `words` consecutive data registers. */
  method WriteWords(dev: Device, src: array<bv8>, off: nat, words: nat)
    requires dev.Valid() && dev.core.x.stage == Taking && dev.core.written == 0
    requires 4 * words <= Need(dev.core.x.left) && off + 4 * words <= src.Length
    modifies dev`core, dev`latency
    ensures dev.Valid()
    ensures dev.core == Core(old(dev.core.x), Overlay(old(dev.core.data), 0, src[..][off..off + 4 * words]), words)
  {
    ghost var data, piece := dev.core.data, src[..][off..off + 4 * words];
    var i := 0;
    assert Overlay(data, 0, piece[..0]) == data;
    while i < words
      invariant 0 <= i <= words && dev.Valid()
      invariant dev.core == Core(old(dev.core.x), Overlay(data, 0, piece[..4 * i]), i)
    {
      NextWord(data, piece, i);
      assert src[off + 4 * i..off + 4 * i + 4] == piece[4 * i..4 * i + 4];
      dev.WriteData(i, src[off + 4 * i..off + 4 * i + 4]);
      i := i + 1;
    }
  }

  /** Sixteen words, once the data registers are free. */
  method SHAMD5DataWrite(dev: Device, src: array<bv8>, off: nat)
    requires dev.Valid() && off + 64 <= src.Length
    requires var c := Settled(dev.H(), dev.core); c.x.stage == Taking && c.x.left >= 64 && c.written == 0
    modifies dev`core, dev`latency
    ensures dev.Valid() && dev.H() == old(dev.H())
    ensures dev.core == Core(Settled(dev.H(), old(dev.core)).x, src[..][off..off + 64], 16)
  {
    dev.WaitInput();
    WriteWords(dev, src, off, 16);
  }

  /** The loop over the whole blocks. */
  method FeedBlocks(dev: Device, src: array<bv8>, off: nat, ui32Count: nat, ghost h: Hash, ghost s: nat -> Core)
    requires dev.Valid() && dev.H() == h && Settled(h, dev.core) == s(0)
    requires Chain(h, s, src[..], off, ui32Count)
    modifies dev`core, dev`latency
    ensures dev.Valid() && dev.H() == h && Settled(h, dev.core) == s(ui32Count)
  {
    var ui32Idx := 0;
    while ui32Idx < ui32Count
      invariant 0 <= ui32Idx <= ui32Count && dev.Valid() && dev.H() == h && Settled(h, dev.core) == s(ui32Idx)
    {
      FeedOne(dev, src, off + 64 * ui32Idx, h, s(ui32Idx), s(ui32Idx + 1));
      ui32Idx := ui32Idx + 1;
    }
  }

  /** One round of that loop. */
  method FeedOne(dev: Device, src: array<bv8>, off: nat, ghost h: Hash, ghost c: Core, ghost d: Core)
    requires dev.Valid() && dev.H() == h && off + 64 <= src.Length
    requires Settled(h, dev.core) == c && Takes(h, c, d, src[..][off..off + 64])
    modifies dev`core, dev`latency
    ensures dev.Valid() && dev.H() == h && Settled(h, dev.core) == d
  {
    SHAMD5DataWrite(dev, src, off);
    assert dev.core.data[..64] == dev.core.data;
  }

  /** The last one to three bytes, if any, zero-padded to a word: into the register of the last
      whole word, or the first register if there is none. */
  method FeedOdd(dev: Device, src: array<bv8>, off: nat, ui32Idx: nat, ui32Count: nat)
    requires dev.Valid() && ui32Idx < 16 && ui32Count < 4 && off + ui32Count <= src.Length
    requires ui32Count > 0 ==> dev.core.x.stage == Taking && !Full(dev.core)
    modifies dev`core, dev`latency
    ensures dev.Valid() && dev.core.x == old(dev.core.x)
    ensures dev.core.data == WithOdd(old(dev.core.data), LastWord(ui32Idx), src[..][off..off + ui32Count])
    ensures dev.core.written == old(dev.core.written) + if ui32Count == 0 then 0 else 1
  {
    if ui32Count == 0 {
      return;
    }
    var ui32Lastword := 0;
    if ui32Idx != 0 {
      ui32Lastword := ui32Idx - 1;
    }
    assert src[off..off + ui32Count] == src[..][off..off + ui32Count];
    var word := CryptoEngine.CopyIn(src, off, ui32Count, 4);
    dev.WriteData(ui32Lastword, word[..]);
  }

  /** The part after the whole blocks. */
  method FeedTail(dev: Device, src: array<bv8>, off: nat, ui32DataLength: nat, ui32Count: nat,
                  ghost x: Hasher, ghost data: Bytes)
    requires dev.Valid() && off + ui32Count <= src.Length && 0 < ui32Count < 64 && ui32DataLength % 4 == ui32Count % 4
    requires |data| == 64 && Settled(dev.H(), dev.core) == Core(x, data, 0) && x.stage == Taking && x.left == ui32Count
    modifies dev`core, dev`latency
    ensures dev.Valid() && dev.H() == old(dev.H()) && 4 * dev.core.written >= ui32Count
    ensures dev.core == Core(x, TailImage(data, src[..][off..off + ui32Count]), dev.core.written)
  {
    ghost var image := TailImage(data, src[..][off..off + ui32Count]);
    dev.WaitInput();
    var words, odd := ui32Count / 4, ui32DataLength % 4;
    TailParts(data, src[..], off, ui32Count, words, odd);
    FeedWordsAndOdd(dev, src, off, words, odd, Overlay(data, 0, src[..][off..off + 4 * words]), image);
  }

  method FeedWordsAndOdd(dev: Device, src: array<bv8>, off: nat, words: nat, odd: nat, ghost whole: Bytes,
                         ghost image: Bytes)
    requires dev.Valid() && dev.core.x.stage == Taking && dev.core.written == 0
    requires words < 16 && odd < 4 && dev.core.x.left == 4 * words + odd && off + 4 * words + odd <= src.Length
    requires whole == Overlay(dev.core.data, 0, src[..][off..off + 4 * words])
    requires image == WithOdd(whole, LastWord(words), src[..][off + 4 * words..off + 4 * words + odd])
    modifies dev`core, dev`latency
    ensures dev.Valid() && dev.core.x == old(dev.core.x) && 4 * dev.core.written >= 4 * words + odd
    ensures dev.core.data == image
  {
    WriteWords(dev, src, off, words);
    assert dev.core.data == whole;
    FeedOdd(dev, src, off + 4 * words, words, odd);
  }

  lemma TailParts(data: Bytes, mem: Bytes, off: nat, count: nat, words: nat, odd: nat)
    requires |data| == 64 && off + count <= |mem| && words == count / 4 && odd == count % 4 && count < 64
    ensures count == 4 * words + odd && words < 16 && odd < 4
    ensures TailImage(data, mem[off..off + count]) ==
            WithOdd(Overlay(data, 0, mem[off..off + 4 * words]), LastWord(words),
              mem[off + 4 * words..off + 4 * words + odd])
  {
    var tail := mem[off..off + count];
    assert tail[..4 * words] == mem[off..off + 4 * words];
    assert tail[4 * words..] == mem[off + 4 * words..off + 4 * words + odd];
  }

  /** What follows the loop over the whole blocks. */
  method FeedRest(dev: Device, src: array<bv8>, off: nat, ui32DataLength: nat, ui32Count: nat, ghost h: Hash,
                  ghost c: Core, ghost goal: Hasher)
    requires dev.Valid() && dev.H() == h && Settled(h, dev.core) == c && off + ui32Count <= src.Length
    requires EndsIn(h, c, src[..][off..off + ui32Count], goal) && ui32DataLength % 4 == ui32Count % 4
    modifies dev`core, dev`latency
    ensures dev.Valid() && dev.H() == h && Settled(h, dev.core).x == goal
  {
    if ui32Count != 0 {
      FeedTail(dev, src, off, ui32DataLength, ui32Count, c.x, c.data);
    }
  }

  /** The engine is run on the bytes that `Fed` says. */
  method SHAMD5DataWriteMultiple(dev: Device, src: array<bv8>, off: nat, ui32DataLength: nat)
    requires dev.Valid() && ui32DataLength < U32 && off + ui32DataLength <= src.Length
    requires ui32DataLength > 0 ==>
               && Expects(dev.H(), Settled(dev.H(), dev.core).x, src[..][off..off + ui32DataLength])
               && Settled(dev.H(), dev.core).written == 0
    modifies dev`core, dev`latency
    ensures dev.Valid() && dev.H() == old(dev.H())
    ensures ui32DataLength == 0 ==> dev.core == old(dev.core)
    ensures ui32DataLength > 0 ==>
              Settled(dev.H(), dev.core).x ==
              RunOn(dev.H(), old(Settled(dev.H(), dev.core).x), old(dev.core.data), src[..][off..off + ui32DataLength])
  {
    if ui32DataLength != 0 {
      ghost var h, stale, msg := dev.H(), dev.core.data, src[..][off..off + ui32DataLength];
      ghost var x := Settled(h, dev.core).x;
      ghost var goal := RunOn(h, x, stale, msg);
      FeedMessage(dev, src, off, ui32DataLength, h, x, stale, msg, goal);
      assert Settled(dev.H(), dev.core).x == goal;
    }
  }

  /** Its body for a message that is not empty. */
  method FeedMessage(dev: Device, src: array<bv8>, off: nat, ui32DataLength: nat, ghost h: Hash, ghost x: Hasher,
                     ghost stale: Bytes, ghost msg: Bytes, ghost goal: Hasher)
    requires dev.Valid() && dev.H() == h && |stale| == 64 && Settled(h, dev.core) == Core(x, stale, 0)
    requires off + ui32DataLength <= src.Length && msg == src[..][off..off + ui32DataLength]
    requires Expects(h, x, msg) && goal == RunOn(h, x, stale, msg)
    modifies dev`core, dev`latency
    ensures dev.Valid() && dev.H() == h && Settled(h, dev.core).x == goal
  {
    var ui32Count, rest := ui32DataLength / 64, ui32DataLength % 64;
    ghost var s := PlanParts(h, x, stale, src[..], off, ui32DataLength, ui32Count, rest, goal);
    FeedParts(dev, src, off, ui32DataLength, ui32Count, rest, h, s, goal);
  }

  /** Its two parts. */
  method FeedParts(dev: Device, src: array<bv8>, off: nat, ui32DataLength: nat, ui32Count: nat, rest: nat,
                   ghost h: Hash, ghost s: nat -> Core, ghost goal: Hasher)
    requires dev.Valid() && dev.H() == h && Settled(h, dev.core) == s(0)
    requires ui32DataLength % 4 == rest % 4 && Planned(h, s, src[..], off, ui32Count, rest, goal)
    modifies dev`core, dev`latency
    ensures dev.Valid() && dev.H() == h && Settled(h, dev.core).x == goal
  {
    FeedBlocks(dev, src, off, ui32Count, h, s);
    FeedRest(dev, src, off + 64 * ui32Count, ui32DataLength, rest, h, s(ui32Count), goal);
  }
}
