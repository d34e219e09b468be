/** The packed metrics word of an extent (`btier/btier_types.h`). */
module ExtentMetrics {
  import opened Bytes
  import opened IntArith
  import Slot

  const Active: nat := 0
  const Migrating: nat := 1

  /**
   Bits 0-11 hold the access count, 12-23 the write count, 24-29 the randomness,
   30-31 the state and 32-63 the generation; each argument is masked to its width.
   */
  function Pack(access: nat, write: nat, random: nat, state: nat, gen: nat): u64 {
    access % 0x1000 + 0x1000 * (write % 0x1000) + 0x100_0000 * (random % 0x40)
    + 0x4000_0000 * (state % 4) + 0x1_0000_0000 * (gen % 0x1_0000_0000)
  }

  /** `pack` as the source writes it: masks, shifts and ors. */
  function PackBits(access: u64, write: u64, random: u64, state: u64, gen: u64): u64 {
    Slot.Or(Slot.Or(Slot.Or(Slot.Or(
      Slot.And(access, 0xFFF),
      Slot.Shl(Slot.And(write, 0xFFF), 12)),
      Slot.Shl(Slot.And(random, 0x3F), 24)),
      Slot.Shl(Slot.And(state, 3), 30)),
      Slot.Shl(Slot.And(gen, 0xFFFF_FFFF), 32))
  }

  lemma FieldWidths(w: nat)
    ensures Pow2(2) == 4 && Pow2(6) == 0x40 && Pow2(12) == 0x1000 && Pow2(24) == 0x100_0000
    ensures Pow2(30) == 0x4000_0000 && Pow2(32) == 0x1_0000_0000
    ensures Slot.Up(w, 12) == 0x1000 * w && Slot.Up(w, 24) == 0x100_0000 * w
    ensures Slot.Up(w, 30) == 0x4000_0000 * w && Slot.Up(w, 32) == 0x1_0000_0000 * w
  {
    Slot.UpSix(w, 0);
    Slot.UpSix(w, 6);
    Slot.UpSix(w, 12);
    Slot.UpSix(w, 18);
    Slot.UpSix(w, 24);
    assert Pow2(31) == 2 * Pow2(30) && Slot.Up(w, 31) == 2 * Slot.Up(w, 30);
  }

  /** The bit expression is the arithmetic one. */
  lemma PackBitsIsPack(access: u64, write: u64, random: u64, state: u64, gen: u64)
    ensures PackBits(access, write, random, state, gen) == Pack(access, write, random, state, gen)
  {
    var a, w, r, s, g := access % 0x1000, write % 0x1000, random % 0x40, state % 4, gen % 0x1_0000_0000;
    FieldMasks(access, write, random, state, gen);
    FieldWidths(w);
    FieldWidths(r);
    FieldWidths(s);
    FieldWidths(g);
    Slot.OrField(a, w, 12);
    Slot.OrField(a + 0x1000 * w, r, 24);
    Slot.OrField(a + 0x1000 * w + 0x100_0000 * r, s, 30);
    Slot.OrField(a + 0x1000 * w + 0x100_0000 * r + 0x4000_0000 * s, g, 32);
  }

  lemma FieldMasks(access: u64, write: u64, random: u64, state: u64, gen: u64)
    ensures Slot.And(access, 0xFFF) == access % 0x1000 && Slot.And(write, 0xFFF) == write % 0x1000
    ensures Slot.And(random, 0x3F) == random % 0x40 && Slot.And(state, 3) == state % 4
    ensures Slot.And(gen, 0xFFFF_FFFF) == gen % 0x1_0000_0000
  {
    MaskIs(access, 12, 0x1000);
    MaskIs(write, 12, 0x1000);
    MaskIs(random, 6, 0x40);
    MaskIs(state, 2, 4);
    MaskIs(gen, 32, 0x1_0000_0000);
  }

  lemma MaskIs(x: u64, n: nat, width: nat)
    requires (n == 2 && width == 4) || (n == 6 && width == 0x40) || (n == 12 && width == 0x1000) || (n == 32 && width == 0x1_0000_0000)
    ensures Slot.And(x, width - 1) == x % width
  {
    FieldWidths(0);
    Slot.AndLow(x, n);
  }

  function AccessCount(w: u64): nat { w % 0x1000 }
  function WriteCount(w: u64): nat { w / 0x1000 % 0x1000 }
  function Randomness(w: u64): nat { w / 0x100_0000 % 0x40 }
  function StateOf(w: u64): nat { w / 0x4000_0000 % 4 }
  function Generation(w: u64): nat { w / 0x1_0000_0000 }

  lemma Peel12(x: nat, lo: nat, hi: nat)
    requires x == lo + 0x1000 * hi && lo < 0x1000
    ensures x % 0x1000 == lo && x / 0x1000 == hi
  {
  }

  lemma Peel6(x: nat, lo: nat, hi: nat)
    requires x == lo + 0x40 * hi && lo < 0x40
    ensures x % 0x40 == lo && x / 0x40 == hi
  {
  }

  lemma Peel2(x: nat, lo: nat, hi: nat)
    requires x == lo + 4 * hi && lo < 4
    ensures x % 4 == lo && x / 4 == hi
  {
  }

  /** Shifting by 24, 30 and 32 places, field by field. */
  lemma Shifts(x: nat)
    ensures x / 0x100_0000 == x / 0x1000 / 0x1000
    ensures x / 0x4000_0000 == x / 0x1000 / 0x1000 / 0x40
    ensures x / 0x1_0000_0000 == x / 0x1000 / 0x1000 / 0x40 / 4
  {
  }

  /** Each field reads back as it was written. */
  lemma PackFields(a: nat, w: nat, r: nat, s: nat, g: nat)
    ensures AccessCount(Pack(a, w, r, s, g)) == a % 0x1000
    ensures WriteCount(Pack(a, w, r, s, g)) == w % 0x1000
    ensures Randomness(Pack(a, w, r, s, g)) == r % 0x40
    ensures StateOf(Pack(a, w, r, s, g)) == s % 4
    ensures Generation(Pack(a, w, r, s, g)) == g % 0x1_0000_0000
  {
    var x := Pack(a, w, r, s, g);
    var x1 := w % 0x1000 + 0x1000 * (r % 0x40) + 0x4_0000 * (s % 4) + 0x10_0000 * (g % 0x1_0000_0000);
    assert x == a % 0x1000 + 0x1000 * x1;
    var x2 := r % 0x40 + 0x40 * (s % 4) + 0x100 * (g % 0x1_0000_0000);
    assert x1 == w % 0x1000 + 0x1000 * x2;
    var x3 := s % 4 + 4 * (g % 0x1_0000_0000);
    assert x2 == r % 0x40 + 0x40 * x3;
    Peel12(x, a % 0x1000, x1);
    Peel12(x1, w % 0x1000, x2);
    Peel6(x2, r % 0x40, x3);
    Peel2(x3, s % 4, g % 0x1_0000_0000);
    Shifts(x);
  }

  /** A word is determined by its fields. */
  lemma Unpack(x: u64)
    ensures Pack(AccessCount(x), WriteCount(x), Randomness(x), StateOf(x), Generation(x)) == x
  {
    var x1 := x / 0x1000;
    var x2 := x1 / 0x1000;
    var x3 := x2 / 0x40;
    var x4 := x3 / 4;
    Shifts(x);
    Rebuild(x, x1, x2, x3, x4);
    InWidth(x % 0x1000, x1 % 0x1000, x2 % 0x40, x3 % 4, x4);
  }

  lemma Rebuild(x: nat, x1: nat, x2: nat, x3: nat, x4: nat)
    requires x1 == x / 0x1000 && x2 == x1 / 0x1000 && x3 == x2 / 0x40 && x4 == x3 / 4
    ensures x == x % 0x1000 + 0x1000 * (x1 % 0x1000) + 0x100_0000 * (x2 % 0x40) + 0x4000_0000 * (x3 % 4) + 0x1_0000_0000 * x4
  {
    assert x == x % 0x1000 + 0x1000 * x1;
    assert x1 == x1 % 0x1000 + 0x1000 * x2;
    assert x2 == x2 % 0x40 + 0x40 * x3;
    assert x3 == x3 % 4 + 4 * x4;
  }

  /** Fields within their widths are packed as they are. */
  lemma InWidth(a: nat, w: nat, r: nat, s: nat, g: nat)
    requires a < 0x1000 && w < 0x1000 && r < 0x40 && s < 4 && g < 0x1_0000_0000
    ensures Pack(a, w, r, s, g) == a + 0x1000 * w + 0x100_0000 * r + 0x4000_0000 * s + 0x1_0000_0000 * g
  {
  }

  /** The fields of a word, within their widths. */
  datatype Metrics = Metrics(access: nat, write: nat, random: nat, state: nat, gen: nat) {
    predicate InRange() {
      access < 0x1000 && write < 0x1000 && random < 0x40 && state < 4 && gen < 0x1_0000_0000
    }

    function Word(): u64 {
      Pack(access, write, random, state, gen)
    }
  }

  function Fields(x: u64): (m: Metrics)
    ensures m.InRange()
  {
    Metrics(AccessCount(x), WriteCount(x), Randomness(x), StateOf(x), Generation(x))
  }

  /** `pack`, seen as fields. */
  function Masked(access: nat, write: nat, random: nat, state: nat, gen: nat): (m: Metrics)
    ensures m.InRange()
  {
    Metrics(access % 0x1000, write % 0x1000, random % 0x40, state % 4, gen % 0x1_0000_0000)
  }

  lemma FieldsRoundTrip(x: u64)
    ensures Fields(x).Word() == x
  {
    Unpack(x);
  }

  /**
   Words and their fields are in one-to-one correspondence, so comparing and
   swapping words is comparing and swapping fields.
   */
  lemma WordsAreFields(x: u64, y: u64)
    ensures x == y <==> Fields(x) == Fields(y)
  {
    if Fields(x) == Fields(y) {
      FieldsRoundTrip(x);
      FieldsRoundTrip(y);
    }
  }

  /** Packing keeps every field, masked to its width. */
  lemma WordRoundTrip(m: Metrics)
    ensures Fields(m.Word()) == Masked(m.access, m.write, m.random, m.state, m.gen)
  {
    PackFields(m.access, m.write, m.random, m.state, m.gen);
  }

  function Min(a: nat, b: nat): nat { if a < b then a else b }

  /** The new word of `record_io`: the counters saturate. */
  function Recorded(m: Metrics, write: bool): Metrics {
    Masked(Min(m.access + 1, 4095), if write then Min(m.write + 1, 4095) else m.write, m.random, m.state, m.gen)
  }

  /** The new word of `set_randomness`. */
  function Randomised(m: Metrics, randomness: nat): Metrics {
    Masked(m.access, m.write, randomness % 0x40, m.state, m.gen)
  }

  /** A word with another state and generation. */
  function Marked(m: Metrics, state: nat, gen: nat): Metrics {
    Masked(m.access, m.write, m.random, state, gen)
  }
}
