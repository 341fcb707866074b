/** The semaphore register that the application processor and the network processor share:
    sixteen 2-bit ownership fields, each 00 (free), 01 (Apps), 10 (NWP). */
module SpinLockRegister {
  /** Bit positions of fields. */
  type Pos = p: bv6 | p < 32 && p & 1 == 0

  const FREE: bv32 := 0
  const APPS: bv32 := 1
  const NWP: bv32 := 2

  function Field(r: bv32, p: Pos): bv32 {
    (r >> p) & 3
  }

  /** What a field does with the two bits written to it: once a bit is set only 00 is
      accepted; a free field ignores 11. */
  function FieldRule(f: bv32, w: bv32): bv32 {
    if f != 0 then (if w == 0 then 0 else f) else if w == 3 then 0 else w
  }

  /** A write to the whole register, every field by that rule. */
  function Write(r: bv32, w: bv32): bv32 {
    var held := (r | (r >> 1)) & 0x5555_5555;
    var zero := !(w | (w >> 1)) & 0x5555_5555;
    var ones := w & (w >> 1) & 0x5555_5555;
    var keep := held & !zero;
    var take := !held & !ones & 0x5555_5555;
    (r & (keep | (keep << 1))) | (w & (take | (take << 1)))
  }

  /** The words the drivers write: an ownership claim and a release of field `p`. */
  function AppsClaim(p: Pos): bv32 {
    0xFFFF_FFFF ^ (2 << p)
  }

  function NwpClaim(p: Pos): bv32 {
    0xFFFF_FFFF ^ (1 << p)
  }

  function Clear(p: Pos): bv32 {
    0xFFFF_FFFF & !(3 << p)
  }

  /** The test the drivers make on the word they read. */
  predicate AppsBit(r: bv32, p: Pos) {
    r & (1 << p) != 0
  }

  /** A field in terms of its two bits of the word. */
  lemma FieldBits(r: bv32, p: Pos)
    ensures Field(r, p) == FREE <==> r & (1 << p) == 0 && r & (2 << p) == 0
    ensures Field(r, p) == APPS <==> r & (1 << p) != 0 && r & (2 << p) == 0
    ensures Field(r, p) == NWP <==> r & (1 << p) == 0 && r & (2 << p) != 0
    ensures Field(r, p) == 3 <==> r & (1 << p) != 0 && r & (2 << p) != 0
  {
  }

  lemma WriteIsFieldwise(r: bv32, w: bv32, p: Pos)
    ensures Field(Write(r, w), p) == FieldRule(Field(r, p), Field(w, p))
  {
  }

  lemma WordFields(p: Pos, q: Pos)
    ensures Field(AppsClaim(p), q) == if p == q then 1 else 3
    ensures Field(NwpClaim(p), q) == if p == q then 2 else 3
    ensures Field(Clear(p), q) == if p == q then 0 else 3
  {
  }

  /** The same rule spelled out for the four values that can be written. */
  lemma WriteRule(r: bv32, w: bv32, q: Pos)
    ensures var f, g, h := Field(Write(r, w), q), Field(r, q), Field(w, q);
            && (h == 3 ==> f == g) && (h == 0 ==> f == FREE)
            && (h == 1 ==> f == if g == FREE then APPS else g) && (h == 2 ==> f == if g == FREE then NWP else g)
  {
  }

  lemma ClaimBy(r: bv32, w: bv32, p: Pos, q: Pos, who: bv32)
    requires who == APPS || who == NWP
    requires Field(w, q) == if p == q then who else 3
    ensures Field(Write(r, w), q) == if p == q && Field(r, q) == FREE then who else Field(r, q)
  {
    WriteRule(r, w, q);
  }

  /** A claim takes a free field and nothing else; it touches no other field. */
  lemma AppsClaimWrites(r: bv32, p: Pos, q: Pos)
    ensures Field(Write(r, AppsClaim(p)), q) == if p == q && Field(r, q) == FREE then APPS else Field(r, q)
  {
    WordFields(p, q);
    ClaimBy(r, AppsClaim(p), p, q, APPS);
  }

  lemma NwpClaimWrites(r: bv32, p: Pos, q: Pos)
    ensures Field(Write(r, NwpClaim(p)), q) == if p == q && Field(r, q) == FREE then NWP else Field(r, q)
  {
    WordFields(p, q);
    ClaimBy(r, NwpClaim(p), p, q, NWP);
  }

  /** A release frees its own field, whoever owns it, and touches no other field. */
  lemma ClearWrites(r: bv32, p: Pos, q: Pos)
    ensures Field(Write(r, Clear(p)), q) == if p == q then FREE else Field(r, q)
  {
    WordFields(p, q);
    ClearBy(r, Clear(p), p, q);
  }

  lemma ClearBy(r: bv32, w: bv32, p: Pos, q: Pos)
    requires Field(w, q) == if p == q then 0 else 3
    ensures Field(Write(r, w), q) == if p == q then FREE else Field(r, q)
  {
    WriteRule(r, w, q);
  }

  /** While the field is not 11, the bit the drivers test says whether Apps owns it. */
  lemma BitMeansApps(r: bv32, p: Pos)
    requires Field(r, p) != 3
    ensures AppsBit(r, p) <==> Field(r, p) == APPS
  {
  }
}
