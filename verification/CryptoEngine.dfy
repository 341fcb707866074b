/** The block engine of the AES and DES modules as hardware: an input and an output buffer of
    one block each, ready flags, and any time taken for a block. */
module CryptoEngine {
  import opened BlockEngine
  import opened Wrappers

  /** What is done with a block: cipher modes give one back, MAC modes absorb it, combined
      modes absorb the additional data first and then both absorb and give back. */
  datatype Kind = Basic | Mac | Combined

  /** What a tag depends on beside the key and the initial vector: the two length registers
      and the blocks taken since the context was started. */
  datatype Absorbed = Absorbed(authLength: nat, dataLength: nat, aad: seq<Bytes>, fed: seq<Bytes>)

  /** How the engine is configured. `tagOf` is the authentication function. */
  datatype Setup = Setup(engine: Engine, kind: Kind, saveContext: bool, tagOf: Absorbed -> Bytes)

  /** The engine's state: chaining value, buffers, byte counts still to come, and what has
      been absorbed. */
  datatype Core = Core(iv: Bytes, input: Option<Bytes>, output: Option<Bytes>,
                       authLeft: nat, dataLeft: nat, absorbed: Absorbed)

  ghost predicate Fits(s: Setup, c: Core) {
    && Sized(s.engine) && |c.iv| == s.engine.size
    && (c.input.Some? ==> |c.input.value| == s.engine.size)
    && (c.output.Some? ==> |c.output.value| == s.engine.size)
  }

  /** Nothing in either buffer. */
  predicate Quiet(c: Core) {
    c.input == None && c.output == None
  }

  function Less(n: nat, size: nat): nat {
    if n < size then 0 else n - size
  }

  function Feed(a: Absorbed, b: Bytes): Absorbed {
    a.(fed := a.fed + [b])
  }

  function FeedAuth(a: Absorbed, b: Bytes): Absorbed {
    a.(aad := a.aad + [b])
  }

  /** The engine takes the block in its input buffer. */
  function Process(s: Setup, c: Core): Core
    requires c.input.Some?
  {
    var b := c.input.value;
    var o, v := s.engine.out(c.iv, b), s.engine.next(c.iv, b);
    var left := Less(c.dataLeft, s.engine.size);
    match s.kind
    case Basic => c.(input := None, output := Some(o), iv := v, dataLeft := left)
    case Mac => c.(input := None, absorbed := Feed(c.absorbed, b), dataLeft := left)
    case Combined =>
      if c.authLeft > 0
      then c.(input := None, absorbed := FeedAuth(c.absorbed, b), authLeft := Less(c.authLeft, s.engine.size))
      else c.(input := None, output := Some(o), iv := v, absorbed := Feed(c.absorbed, b), dataLeft := left)
  }

  /** The state once the engine has done all it can without the driver. */
  function Settled(s: Setup, c: Core): Core {
    if c.input.Some? && c.output.None? then Process(s, c) else c
  }

  predicate TagReady(s: Setup, c: Core) {
    s.saveContext && Quiet(c) && (s.kind == Combined ==> c.authLeft == 0) && c.dataLeft == 0
  }

  /** A block written now, with room for it, would come back transformed. */
  predicate GivesBack(s: Setup, c: Core) {
    Quiet(Settled(s, c)) && (s.kind == Basic || (s.kind == Combined && Settled(s, c).authLeft == 0))
  }

  /** The state after block `b` has gone in and come back. */
  function AfterBlock(s: Setup, c: Core, b: Bytes): Core {
    Process(s, Settled(s, c).(input := Some(b))).(output := None)
  }

  lemma SettledFits(s: Setup, c: Core)
    requires Fits(s, c)
    ensures Fits(s, Settled(s, c)) && Settled(s, Settled(s, c)) == Settled(s, c)
  {
  }

  class Device {
    var setup: Setup
    var core: Core
    var latency: nat

    ghost predicate Valid()
      reads this
    {
      Fits(setup, core)
    }

    constructor (setup: Setup, iv: Bytes)
      requires Sized(setup.engine) && |iv| == setup.engine.size
      ensures Valid() && this.setup == setup && core == Core(iv, None, None, 0, 0, Absorbed(0, 0, [], []))
    {
      this.setup := setup;
      core := Core(iv, None, None, 0, 0, Absorbed(0, 0, [], []));
      latency := 0;
    }

    /** Reads the control register: the engine may take the waiting block, after any number
        of reads, and the flags say what the buffers hold then. */
    method ReadCtrl() returns (inputReady: bool, outputReady: bool, tagReady: bool)
      requires Valid()
      modifies this`core, this`latency
      ensures Valid()
      ensures core == Settled(setup, old(core)) || (core == old(core) && latency < old(latency))
      ensures inputReady <==> core.input == None
      ensures outputReady <==> core.output != None
      ensures tagReady <==> TagReady(setup, core)
    {
      SettledFits(setup, core);
      if core.input.Some? && core.output.None? {
        if latency > 0 {
          latency := latency - 1;
        } else {
          core := Process(setup, core);
        }
      }
      inputReady := core.input.None?;
      outputReady := core.output.Some?;
      tagReady := TagReady(setup, core);
    }

    /** Waits for the input buffer; possible unless both buffers are full. */
    method WaitInput()
      requires Valid() && Settled(setup, core).input == None
      modifies this`core, this`latency
      ensures Valid() && core == Settled(setup, old(core))
    {
      SettledFits(setup, core);
      var inputReady, outputReady, tagReady := ReadCtrl();
      while !inputReady
        invariant Valid() && Settled(setup, core) == Settled(setup, old(core))
        invariant core == old(core) || core == Settled(setup, old(core))
        invariant inputReady <==> core.input == None
        decreases !inputReady, latency
      {
        inputReady, outputReady, tagReady := ReadCtrl();
      }
    }

    /** Waits for the output buffer. */
    method WaitOutput()
      requires Valid() && Settled(setup, core).output != None
      modifies this`core, this`latency
      ensures Valid() && core == Settled(setup, old(core))
    {
      SettledFits(setup, core);
      var inputReady, outputReady, tagReady := ReadCtrl();
      while !outputReady
        invariant Valid() && Settled(setup, core) == Settled(setup, old(core))
        invariant core == old(core) || core == Settled(setup, old(core))
        invariant outputReady <==> core.output != None
        decreases !outputReady, latency
      {
        inputReady, outputReady, tagReady := ReadCtrl();
      }
    }

    /** Waits for the tag. */
    method WaitTag()
      requires Valid() && TagReady(setup, Settled(setup, core))
      modifies this`core, this`latency
      ensures Valid() && core == Settled(setup, old(core))
    {
      SettledFits(setup, core);
      var inputReady, outputReady, tagReady := ReadCtrl();
      while !tagReady
        invariant Valid() && Settled(setup, core) == Settled(setup, old(core))
        invariant core == old(core) || core == Settled(setup, old(core))
        invariant tagReady <==> TagReady(setup, core)
        decreases !tagReady, latency
      {
        inputReady, outputReady, tagReady := ReadCtrl();
      }
    }

    /** The data registers, written as one block: the engine starts on it at once. */
    method PutBlock(b: Bytes)
      requires Valid() && core.input == None && |b| == setup.engine.size
      modifies this`core, this`latency
      ensures Valid() && core == old(core).(input := Some(b))
    {
      core := core.(input := Some(b));
      latency := *;
    }

    /** The data registers, read as one block: the output buffer is free again. */
    method TakeBlock() returns (b: Bytes)
      requires Valid() && core.output != None
      modifies this`core
      ensures Valid() && core == old(core).(output := None) && old(core).output == Some(b)
    {
      b := core.output.value;
      core := core.(output := None);
    }
  }

  // ---- arrays

  /** The byte loop that fills the zeroed local block of a write. */
  method CopyIn(src: array<bv8>, off: nat, length: nat, size: nat) returns (block: array<bv8>)
    requires length <= size && off + length <= src.Length
    ensures fresh(block) && block.Length == size && block[..] == Pad(size, src[off..off + length])
  {
    block := new bv8[size](_ => 0);
    var i := 0;
    while i < length
      invariant 0 <= i <= length
      invariant forall j | 0 <= j < i :: block[j] == src[off + j]
      invariant forall j | i <= j < size :: block[j] == 0
    {
      block[i] := src[off + i];
      i := i + 1;
    }
  }

  /** The byte loop that copies a read block out. */
  method CopyOut(block: Bytes, dest: array<bv8>, off: nat, length: nat)
    requires length <= |block| && off + length <= dest.Length
    modifies dest
    ensures dest[off..off + length] == block[..length]
    ensures forall j | 0 <= j < dest.Length && !(off <= j < off + length) :: dest[j] == old(dest[j])
  {
    var i := 0;
    while i < length
      invariant 0 <= i <= length
      invariant forall j | 0 <= j < i :: dest[off + j] == block[j]
      invariant forall j | 0 <= j < dest.Length && !(off <= j < off + i) :: dest[j] == old(dest[j])
    {
      dest[off + i] := block[i];
      i := i + 1;
    }
  }
}
