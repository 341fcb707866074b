/** The operations of driverlib/shamd5.c: hashing, HMAC, and the ways to set a key. */
module HashOperations {
  import opened Arithmetic
  import opened BlockEngine
  import opened HashFunction
  import opened HashEngine
  import opened HashFeeding
  import opened HashPlan
  import opened HashDriver
  import opened HashGuarantees
  import opened InPlace
  import CryptoEngine

  /** Reads as many words of the inner digest as the selected algorithm's result has. */
  method SHAMD5ResultRead(dev: Device, dest: array<bv8>, off: nat)
    requires dev.Valid() && off + dev.H().out <= dest.Length
    modifies dest
    ensures dest[..][off..off + dev.H().out] == dev.core.x.idigest[..dev.H().out]
    ensures dev.H().out == match dev.core.x.mode.algo case Md5 => 16 case Sha1 => 20 case Sha224 => 28 case Sha256 => 32
    ensures SameOutside(old(dest[..]), dest[..], off, off + dev.H().out)
  {
    ghost var was := dest[..];
    var ui32Count: nat;
    match dev.core.x.mode.algo {
      case Md5 => ui32Count := 16;
      case Sha1 => ui32Count := 20;
      case Sha224 => ui32Count := 28;
      case Sha256 => ui32Count := 32;
    }
    assert ui32Count % 4 == 0;
    var ui32Idx := 0;
    while ui32Idx < ui32Count
      invariant 0 <= ui32Idx <= ui32Count && ui32Idx % 4 == 0
      invariant forall j | 0 <= j < ui32Idx :: dest[off + j] == dev.core.x.idigest[j]
      invariant SameOutside(was, dest[..], off, off + ui32Idx)
    {
      CopyWord(dev.core.x.idigest, ui32Idx, dest, off + ui32Idx);
      ui32Idx := ui32Idx + 4;
    }
  }

  /** One register read. */
  method CopyWord(digest: Bytes, at: nat, dest: array<bv8>, off: nat)
    requires at + 4 <= |digest| && off + 4 <= dest.Length
    modifies dest
    ensures forall j | 0 <= j < dest.Length ::
              dest[j] == if off <= j < off + 4 then digest[at + (j - off)] else old(dest[j])
  {
    dest[off], dest[off + 1] := digest[at], digest[at + 1];
    dest[off + 2], dest[off + 3] := digest[at + 2], digest[at + 3];
  }

  /** The hasher once the length is written. */
  function Started(x: Hasher, n: nat): Hasher {
    x.(stage := Starting, left := n)
  }

  /** Length, data and wait, as in SHAMD5DataProcess and SHAMD5HMACProcess. */
  method RunEngine(dev: Device, src: array<bv8>, from: nat, ui32DataLength: nat, ghost fed: Bytes)
    requires dev.Valid() && Settled(dev.H(), dev.core).x.stage == Idle && ui32DataLength < U32
    requires from + ui32DataLength <= src.Length
    requires fed == Fed(dev.core.data, src[..][from..from + ui32DataLength])
    modifies dev`core, dev`latency
    ensures dev.Valid() && dev.H() == old(dev.H())
    ensures dev.core.x == End(dev.H(), Started(Settled(dev.H(), old(dev.core)).x, ui32DataLength), fed)
  {
    dev.WaitIdle();
    SHAMD5DataLengthSet(dev, ui32DataLength);
    SHAMD5DataWriteMultiple(dev, src, from, ui32DataLength);
    dev.WaitIdle();
  }

  /** `SHAMD5DataProcess`: with a plain configuration the result is the digest of the bytes
      that are fed. */
  method SHAMD5DataProcess(dev: Device, src: array<bv8>, from: nat, ui32DataLength: nat, dest: array<bv8>, to: nat)
    returns (ok: bool)
    requires dev.Valid() && Settled(dev.H(), dev.core).x.stage == Idle && ui32DataLength < U32
    requires from + ui32DataLength <= src.Length && to + dev.H().out <= dest.Length
    modifies dev`core, dev`latency, dest
    ensures ok && dev.Valid() && dev.H() == old(dev.H()) && dev.core.x.stage == Idle
    ensures PlainMode(Settled(dev.H(), old(dev.core)).x.mode) ==>
              dest[..][to..to + dev.H().out] ==
              Digest(dev.H(), Fed(old(dev.core.data), old(src[..][from..from + ui32DataLength])))
    ensures SameOutside(old(dest[..]), dest[..], to, to + dev.H().out)
  {
    ghost var x := Started(Settled(dev.H(), dev.core).x, ui32DataLength);
    ghost var fed := Fed(dev.core.data, src[..][from..from + ui32DataLength]);
    RunEngine(dev, src, from, ui32DataLength, fed);
    SHAMD5ResultRead(dev, dest, to);
    if PlainMode(x.mode) {
      PlainDigest(dev.H(), x, fed);
    }
    ok := true;
  }

  /** `SHAMD5HMACProcess`: the result is the HMAC of the bytes that are fed, under a key that
      is still to be processed or one whose processed form is in the registers. */
  method SHAMD5HMACProcess(dev: Device, src: array<bv8>, from: nat, ui32DataLength: nat, dest: array<bv8>, to: nat,
                           ghost key: Bytes)
    returns (ok: bool)
    requires dev.Valid() && Settled(dev.H(), dev.core).x.stage == Idle && ui32DataLength < U32 && |key| == 64
    requires from + ui32DataLength <= src.Length && to + dev.H().out <= dest.Length
    modifies dev`core, dev`latency, dest
    ensures ok && dev.Valid() && dev.H() == old(dev.H()) && dev.core.x.stage == Idle
    ensures Keyed(dev.H(), Settled(dev.H(), old(dev.core)).x, key) ==>
              dest[..][to..to + dev.H().out] ==
              Hmac(dev.H(), key, Fed(old(dev.core.data), old(src[..][from..from + ui32DataLength])))
    ensures SameOutside(old(dest[..]), dest[..], to, to + dev.H().out)
  {
    ghost var x := Started(Settled(dev.H(), dev.core).x, ui32DataLength);
    ghost var fed := Fed(dev.core.data, src[..][from..from + ui32DataLength]);
    RunEngine(dev, src, from, ui32DataLength, fed);
    SHAMD5ResultRead(dev, dest, to);
    if Keyed(dev.H(), x, key) {
      KeyedDigest(dev.H(), x, key, fed);
    }
    ok := true;
  }

  /** The registers are set up for HMAC under `key`, by one of the two key paths. */
  ghost predicate Keyed(h: Hash, x: Hasher, key: Bytes)
    requires Sane(h) && |key| == 64
  {
    || (KeyMode(x.mode) && x.odigest + x.idigest == key)
    || (ContinueMode(x.mode) && x.odigest + x.idigest == ProcessedKey(h, key) && x.count == 64)
  }

  lemma KeyedDigest(h: Hash, x: Hasher, key: Bytes, text: Bytes)
    requires Sane(h) && |x.odigest| == |x.idigest| == STATE && x.left == |text| && |key| == 64 && Keyed(h, x, key)
    ensures End(h, x, text).idigest[..h.out] == Hmac(h, key, text)
  {
    if KeyMode(x.mode) {
      KeyDigest(h, x, key, text);
    } else {
      ContinuedDigest(h, x, key, text);
    }
  }

  // ---- keys

  /** The sixteen words of a key, written to the digest registers. */
  method WriteKey(dev: Device, src: array<bv8>, off: nat)
    requires dev.Valid() && off + 64 <= src.Length
    modifies dev`core
    ensures dev.Valid()
    ensures dev.core == old(dev.core).(x := old(dev.core.x).(
              odigest := dev.core.x.odigest, idigest := dev.core.x.idigest))
    ensures dev.core.x.odigest + dev.core.x.idigest == src[..][off..off + 64]
  {
    dev.core := dev.core.(x := dev.core.x.(odigest := src[off..off + 32], idigest := src[off + 32..off + 64]));
    assert src[off..off + 32] + src[off + 32..off + 64] == src[..][off..off + 64];
  }

  /** `SHAMD5HMACKeySet`. */
  method SHAMD5HMACKeySet(dev: Device, src: array<bv8>, off: nat)
    requires dev.Valid() && off + 64 <= src.Length
    modifies dev`core
    ensures dev.Valid() && dev.core.x.odigest + dev.core.x.idigest == src[..][off..off + 64]
    ensures dev.core == old(dev.core).(x := old(dev.core.x).(
              odigest := dev.core.x.odigest, idigest := dev.core.x.idigest,
              mode := old(dev.core.x.mode).(outer := true, keyProc := true, close := true)))
  {
    WriteKey(dev, src, off);
    dev.core := dev.core.(x := dev.core.x.(mode := dev.core.x.mode.(outer := true, keyProc := true, close := true)));
  }

  /** `SHAMD5HMACPPKeySet`: the key-processing bit is not cleared. */
  method SHAMD5HMACPPKeySet(dev: Device, src: array<bv8>, off: nat)
    requires dev.Valid() && off + 64 <= src.Length
    modifies dev`core
    ensures dev.Valid() && dev.core.x.odigest + dev.core.x.idigest == src[..][off..off + 64]
    ensures dev.core == old(dev.core).(x := old(dev.core.x).(
              odigest := dev.core.x.odigest, idigest := dev.core.x.idigest, count := 64,
              mode := old(dev.core.x.mode).(outer := true, close := true)))
  {
    WriteKey(dev, src, off);
    dev.core := dev.core.(x := dev.core.x.(mode := dev.core.x.mode.(outer := true, close := true)));
    dev.core := dev.core.(x := dev.core.x.(count := 64));
  }

  /** The mode that a configuration for HMAC leaves. */
  predicate OpenMode(m: Mode) {
    !m.constant && !m.close && !m.outer
  }

  /** `SHAMD5HMACPPKeyGenerate`: with a configuration for HMAC the array receives the processed
      key, and afterwards the bit that asked for it is clear. */
  method SHAMD5HMACPPKeyGenerate(dev: Device, key: array<bv8>, from: nat, ppKey: array<bv8>, to: nat)
    requires dev.Valid() && Settled(dev.H(), dev.core).x.stage == Idle && from + 64 <= key.Length
    requires to + 64 <= ppKey.Length
    modifies dev`core, dev`latency, ppKey
    ensures dev.Valid() && dev.H() == old(dev.H()) && dev.core.x.stage == Idle && dev.core.data == old(dev.core.data)
    ensures OpenMode(Settled(dev.H(), old(dev.core)).x.mode) ==>
              && ppKey[..][to..to + 64] == ProcessedKey(dev.H(), old(key[..][from..from + 64]))
              && dev.core.x.mode == Mode(old(dev.core.x.mode.algo), false, false, false, false)
    ensures SameOutside(old(ppKey[..]), ppKey[..], to, to + 64)
  {
    dev.WaitIdle();
    WriteKey(dev, key, from);
    dev.core := dev.core.(x := dev.core.x.(mode := dev.core.x.mode.(keyProc := true)));
    SHAMD5DataLengthSet(dev, 0);
    ghost var x := dev.core.x;
    dev.WaitIdle();
    CryptoEngine.CopyOut(dev.core.x.odigest + dev.core.x.idigest, ppKey, to, 64);
    if OpenMode(x.mode) {
      KeyProcessed(dev.H(), x, x.odigest + x.idigest);
    }
  }
}
