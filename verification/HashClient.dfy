/** Clients of the SHA/MD5 driver: HMAC by its two key paths, and what goes wrong when they are
    mixed. */
module HashClient {
  import opened Arithmetic
  import opened BlockEngine
  import opened HashFunction
  import opened HashEngine
  import opened HashFeeding
  import opened HashDriver
  import opened HashGuarantees
  import opened HashOperations

  /** The key is processed as part of the operation. */
  method HmacWithKey(dev: Device, algo: Algo, key: array<bv8>, text: array<bv8>, from: nat, n: nat,
                     dest: array<bv8>, to: nat)
    requires dev.Valid() && dev.core.x.stage == Idle && key.Length >= 64
    requires n < U32 && from + n <= text.Length && to + dev.hashes(algo).out <= dest.Length
    modifies dev`core, dev`latency, dest
    ensures dev.Valid() && dev.core.x.stage == Idle
    ensures dest[..][to..to + dev.hashes(algo).out] ==
            Hmac(dev.hashes(algo), old(key[..][0..64]), Fed(old(dev.core.data), old(text[..][from..from + n])))
    ensures GoodLength(n) ==>
              dest[..][to..to + dev.hashes(algo).out] ==
              Hmac(dev.hashes(algo), old(key[..][0..64]), old(text[..][from..from + n]))
  {
    ghost var stale, msg := dev.core.data, text[..][from..from + n];
    SHAMD5ConfigSet(dev, algo, true);
    SHAMD5HMACKeySet(dev, key, 0);
    var ok := SHAMD5HMACProcess(dev, text, from, n, dest, to, key[..][0..64]);
    if GoodLength(n) {
      FedIsMessage(stale, msg);
    }
  }

  /** The key is processed first, then set in processed form; the result is the same, whether
      or not the module is configured again in between. */
  method HmacWithProcessedKey(dev: Device, algo: Algo, key: array<bv8>, text: array<bv8>, from: nat, n: nat,
                              dest: array<bv8>, to: nat, again: bool)
    requires dev.Valid() && dev.core.x.stage == Idle && key.Length >= 64
    requires n < U32 && from + n <= text.Length && to + dev.hashes(algo).out <= dest.Length
    modifies dev`core, dev`latency, dest
    ensures dev.Valid() && dev.core.x.stage == Idle
    ensures dest[..][to..to + dev.hashes(algo).out] ==
            Hmac(dev.hashes(algo), old(key[..][0..64]), Fed(old(dev.core.data), old(text[..][from..from + n])))
    ensures GoodLength(n) ==>
              dest[..][to..to + dev.hashes(algo).out] ==
              Hmac(dev.hashes(algo), old(key[..][0..64]), old(text[..][from..from + n]))
  {
    ghost var stale, msg := dev.core.data, text[..][from..from + n];
    PrepareKey(dev, algo, key, again);
    var ok := SHAMD5HMACProcess(dev, text, from, n, dest, to, key[..][0..64]);
    if GoodLength(n) {
      FedIsMessage(stale, msg);
    }
  }

  /** Processing a key and setting it in processed form. */
  method PrepareKey(dev: Device, algo: Algo, key: array<bv8>, again: bool)
    requires dev.Valid() && dev.core.x.stage == Idle && key.Length >= 64
    modifies dev`core, dev`latency
    ensures dev.Valid() && dev.core.x.stage == Idle && dev.H() == dev.hashes(algo)
    ensures dev.core.data == old(dev.core.data)
    ensures Keyed(dev.H(), dev.core.x, key[..][0..64])
  {
    var ppKey := new bv8[64];
    SHAMD5ConfigSet(dev, algo, true);
    SHAMD5HMACPPKeyGenerate(dev, key, 0, ppKey, 0);
    if again {
      SHAMD5ConfigSet(dev, algo, true);
    }
    SHAMD5HMACPPKeySet(dev, ppKey, 0);
  }

  /** A key is set, but a processed key is set before it is used: the bit that asks for key
      processing is still there, and the processed key is taken for a key. That this is not
      the HMAC under the key it was made from is `ProcessedKeyWorksExactly`. */
  method ProcessedKeyTakenForKey(dev: Device, algo: Algo, key: array<bv8>, ppKey: array<bv8>,
                                 text: array<bv8>, from: nat, n: nat, dest: array<bv8>, to: nat)
    requires dev.Valid() && dev.core.x.stage == Idle && key.Length >= 64 && ppKey.Length >= 64
    requires n < U32 && from + n <= text.Length && to + dev.hashes(algo).out <= dest.Length
    modifies dev`core, dev`latency, dest
    ensures dev.Valid() && dev.core.x.stage == Idle
    ensures dest[..][to..to + dev.hashes(algo).out] ==
            Hmac(dev.hashes(algo), old(ppKey[..][0..64]), Fed(old(dev.core.data), old(text[..][from..from + n])))
  {
    SHAMD5ConfigSet(dev, algo, true);
    SHAMD5HMACKeySet(dev, key, 0);
    SHAMD5HMACPPKeySet(dev, ppKey, 0);
    var ok := SHAMD5HMACProcess(dev, text, from, n, dest, to, ppKey[..][0..64]);
  }

  /** A plain hash. */
  method HashMessage(dev: Device, algo: Algo, text: array<bv8>, from: nat, n: nat, dest: array<bv8>, to: nat)
    requires dev.Valid() && dev.core.x.stage == Idle
    requires n < U32 && from + n <= text.Length && to + dev.hashes(algo).out <= dest.Length
    modifies dev`core, dev`latency, dest
    ensures dev.Valid() && dev.core.x.stage == Idle
    ensures dest[..][to..to + dev.hashes(algo).out] ==
            Digest(dev.hashes(algo), Fed(old(dev.core.data), old(text[..][from..from + n])))
    ensures GoodLength(n) ==>
              dest[..][to..to + dev.hashes(algo).out] == Digest(dev.hashes(algo), old(text[..][from..from + n]))
  {
    ghost var stale, msg := dev.core.data, text[..][from..from + n];
    SHAMD5ConfigSet(dev, algo, false);
    var ok := SHAMD5DataProcess(dev, text, from, n, dest, to);
    if GoodLength(n) {
      FedIsMessage(stale, msg);
    }
  }
}
