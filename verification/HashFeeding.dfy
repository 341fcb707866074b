/** Which bytes the word loops of driverlib/shamd5.c hand to the engine, and exactly when they
    are the message's. */
module HashFeeding {
  import opened Arithmetic
  import opened BlockEngine
  import opened HashFunction
  import opened HashEngine

  /** The data registers after the tail of a message has been written over `stale`: its whole
      words, and its last one to three bytes, zero-padded to a word, in the register before
      the next free one if there is such a register. */
  function TailImage(stale: Bytes, tail: Bytes): (r: Bytes)
    requires |stale| == 64 && |tail| < 64
    ensures |r| == 64
  {
    var n := 4 * (|tail| / 4);
    WithOdd(Overlay(stale, 0, tail[..n]), LastWord(|tail| / 4), tail[n..])
  }

  function WithOdd(whole: Bytes, at: nat, odd: Bytes): (r: Bytes)
    requires |odd| < 4 && at + 4 <= |whole|
    ensures |r| == |whole|
  {
    if odd == [] then whole else Overlay(whole, at, Pad(4, odd))
  }

  /** The offset of the register that receives the odd bytes. */
  function LastWord(q: nat): nat {
    if q == 0 then 0 else 4 * (q - 1)
  }

  /** The last whole block, or what the registers held before. */
  function LastBlock(stale: Bytes, msg: Bytes, count: nat): (r: Bytes)
    requires |stale| == 64 && 64 * count <= |msg|
    ensures |r| == 64
  {
    if count == 0 then stale else msg[64 * (count - 1)..64 * count]
  }

  /** The bytes the engine takes when the driver feeds it `msg`. */
  function Fed(stale: Bytes, msg: Bytes): (r: Bytes)
    requires |stale| == 64
    ensures |r| == |msg|
  {
    var count := |msg| / 64;
    msg[..64 * count] + TailImage(LastBlock(stale, msg, count), msg[64 * count..])[..|msg| % 64]
  }

  lemma TailKept(stale: Bytes, tail: Bytes)
    requires |stale| == 64 && |tail| < 64 && (|tail| % 4 == 0 || |tail| < 4)
    ensures TailImage(stale, tail)[..|tail|] == tail
  {
    var q := |tail| / 4;
    forall j | 0 <= j < |tail|
      ensures TailImage(stale, tail)[j] == tail[j]
    {
      if |tail| % 4 == 0 {
        assert tail[..4 * q][j] == tail[j];
      } else {
        assert tail[4 * q..] == tail && Pad(4, tail)[j] == tail[j];
      }
    }
  }

  lemma TailMissed(stale: Bytes, tail: Bytes)
    requires |stale| == 64 && |tail| < 64 && |tail| % 4 != 0 && |tail| >= 4
    ensures TailImage(stale, tail)[4 * (|tail| / 4)] == stale[4 * (|tail| / 4)]
  {
  }

  /** Blocks and words of a length. */
  lemma Split(n: nat)
    ensures n == 64 * (n / 64) + n % 64 && n % 64 < 64 && n % 4 == n % 64 % 4
    ensures 4 * (n / 4) == 64 * (n / 64) + 4 * (n % 64 / 4)
  {
  }

  lemma FedParts(stale: Bytes, msg: Bytes)
    requires |stale| == 64
    ensures var whole := 64 * (|msg| / 64);
            && whole <= |msg| && |msg[whole..]| == |msg| % 64 < 64
            && Fed(stale, msg)[..whole] == msg[..whole]
            && Fed(stale, msg)[whole..] == TailImage(LastBlock(stale, msg, |msg| / 64), msg[whole..])[..|msg| % 64]
  {
    Split(|msg|);
  }

  /** Whatever the message and the registers hold, the engine takes the message. */
  ghost predicate FeedsAll(n: nat) {
    forall stale: Bytes, msg: Bytes {:trigger Fed(stale, msg)} | |stale| == 64 && |msg| == n :: Fed(stale, msg) == msg
  }

  /** Zero bytes but for the first byte after the last whole word. */
  function MarkedMessage(n: nat): (m: Bytes)
    ensures |m| == n
  {
    seq(n, i => if i == 4 * (n / 4) then 1 else 0)
  }

  lemma MarkedIsMissed(n: nat)
    requires n % 4 != 0 && n % 64 >= 4
    ensures !FeedsAll(n)
  {
    var stale, msg, count := Zeros(64), MarkedMessage(n), n / 64;
    Split(n);
    FedParts(stale, msg);
    var last, tail, j := LastBlock(stale, msg, count), msg[64 * count..], 4 * (n % 64 / 4);
    TailMissed(last, tail);
    LastIsZero(n, j);
    assert Fed(stale, msg)[64 * count..][j] == 0;
    assert msg[64 * count..][j] == 1;
  }

  lemma LastIsZero(n: nat, j: nat)
    requires j < 64
    ensures 64 * (n / 64) <= n && LastBlock(Zeros(64), MarkedMessage(n), n / 64)[j] == 0
  {
    Split(n);
  }

  /** A length of whole words, or of less than a word after the whole blocks. */
  predicate GoodLength(n: nat) {
    n % 4 == 0 || n % 64 < 4
  }

  /** Then the engine takes the message. */
  lemma FedIsMessage(stale: Bytes, msg: Bytes)
    requires |stale| == 64 && GoodLength(|msg|)
    ensures Fed(stale, msg) == msg
  {
    var n := |msg|;
    Split(n);
    FedParts(stale, msg);
    var whole, fed := 64 * (n / 64), Fed(stale, msg);
    TailKept(LastBlock(stale, msg, n / 64), msg[whole..]);
    assert fed == fed[..whole] + fed[whole..] && msg == msg[..whole] + msg[whole..];
  }

  /** The driver feeds every message of `n` bytes exactly when `n` is a multiple of four or the
      part after the whole blocks is less than a word. */
  lemma FeedsExactly(n: nat)
    ensures FeedsAll(n) <==> GoodLength(n)
  {
    if GoodLength(n) {
      forall stale: Bytes, msg: Bytes | |stale| == 64 && |msg| == n
        ensures Fed(stale, msg) == msg
      {
        FedIsMessage(stale, msg);
      }
    } else {
      MarkedIsMissed(n);
    }
  }
}
