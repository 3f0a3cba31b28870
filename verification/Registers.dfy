/** The bit operations of the varint reader on a 64-bit register, against the sums of the model. */
module Registers {
  import opened Words
  import opened Varints

  // Or-ing a seven-bit group, shifted to its place, onto an accumulator that lies below it adds `Group64` of the group.
  // One lemma for each of the ten places: on a variable shift the solver does not get through.

  lemma OrAtPlace0(acc: bv64, group: bv64)
    requires group as int < 128 && acc as int < Pow(128, 0)
    ensures (acc | (group << 0)) as int == acc as int + Group64(group as int, 0)
  {
    hide Group64, Pow;
    GroupIsProduct(group as int, 0);
    Powers();
    OrAt0(acc, group);
  }

  lemma OrAtPlace1(acc: bv64, group: bv64)
    requires group as int < 128 && acc as int < Pow(128, 1)
    ensures (acc | (group << 7)) as int == acc as int + Group64(group as int, 1)
  {
    hide Group64, Pow;
    GroupIsProduct(group as int, 1);
    Powers();
    OrAt1(acc, group);
  }

  lemma OrAtPlace2(acc: bv64, group: bv64)
    requires group as int < 128 && acc as int < Pow(128, 2)
    ensures (acc | (group << 14)) as int == acc as int + Group64(group as int, 2)
  {
    hide Group64, Pow;
    GroupIsProduct(group as int, 2);
    Powers();
  }

  lemma OrAtPlace3(acc: bv64, group: bv64)
    requires group as int < 128 && acc as int < Pow(128, 3)
    ensures (acc | (group << 21)) as int == acc as int + Group64(group as int, 3)
  {
    hide Group64, Pow;
    GroupIsProduct(group as int, 3);
    Powers();
  }

  lemma OrAtPlace4(acc: bv64, group: bv64)
    requires group as int < 128 && acc as int < Pow(128, 4)
    ensures (acc | (group << 28)) as int == acc as int + Group64(group as int, 4)
  {
    hide Group64, Pow;
    GroupIsProduct(group as int, 4);
    Powers();
  }

  lemma OrAtPlace5(acc: bv64, group: bv64)
    requires group as int < 128 && acc as int < Pow(128, 5)
    ensures (acc | (group << 35)) as int == acc as int + Group64(group as int, 5)
  {
    hide Group64, Pow;
    GroupIsProduct(group as int, 5);
    Powers();
  }

  lemma OrAtPlace6(acc: bv64, group: bv64)
    requires group as int < 128 && acc as int < Pow(128, 6)
    ensures (acc | (group << 42)) as int == acc as int + Group64(group as int, 6)
  {
    hide Group64, Pow;
    GroupIsProduct(group as int, 6);
    Powers();
  }

  lemma OrAtPlace7(acc: bv64, group: bv64)
    requires group as int < 128 && acc as int < Pow(128, 7)
    ensures (acc | (group << 49)) as int == acc as int + Group64(group as int, 7)
  {
    hide Group64, Pow;
    GroupIsProduct(group as int, 7);
    Powers();
  }

  lemma OrAtPlace8(acc: bv64, group: bv64)
    requires group as int < 128 && acc as int < Pow(128, 8)
    ensures (acc | (group << 56)) as int == acc as int + Group64(group as int, 8)
  {
    hide Group64, Pow;
    GroupIsProduct(group as int, 8);
    Powers();
  }

  /** Of the tenth group only the lowest bit is left in the register. */
  lemma OrAtPlace9(acc: bv64, group: bv64)
    requires group as int < 128 && acc as int < Pow(128, 9)
    ensures (acc | (group << 63)) as int == acc as int + Group64(group as int, 9)
  {
    hide Group64, Pow;
    GroupIsProduct(group as int, 9);
    Powers();
    OrAtTop(acc, group);
    TopGroup(group);
  }

  lemma OrAt0(acc: bv64, group: bv64)
    requires group as int < 128 && acc as int < 1
    ensures (acc | (group << 0)) as int == acc as int + group as int
  {
    assert acc == 0;
    assert acc | (group << 0) == group;
  }

  lemma OrAt1(acc: bv64, group: bv64)
    requires group < 128 && acc as int < 128
    ensures (acc | (group << 7)) as int == acc as int + (group << 7) as int
    ensures (group << 7) as int == (group as int) * 128
  {
  }

  lemma OrAtTop(acc: bv64, group: bv64)
    requires group as int < 128 && acc as int < 0x8000_0000_0000_0000
    ensures (acc | (group << 63)) as int == acc as int + (group << 63) as int
  {
  }

  lemma TopGroup(group: bv64)
    requires group < 128
    ensures (group << 63) as int == (group as int) % 2 * TWO_63
  {
  }

  lemma GroupIsProduct(digit: nat, k: nat)
    ensures Group64(digit, k) == if k < 9 then digit * Pow(128, k) else digit % 2 * TWO_63
  {
    ScaledIsProduct(digit, k);
  }

  lemma Powers()
    ensures Pow(128, 0) == 1 && Pow(128, 1) == 0x80 && Pow(128, 2) == 0x4000 && Pow(128, 3) == 0x20_0000
    ensures Pow(128, 4) == 0x1000_0000 && Pow(128, 5) == 0x8_0000_0000 && Pow(128, 6) == 0x400_0000_0000
    ensures Pow(128, 7) == 0x2_0000_0000_0000 && Pow(128, 8) == 0x100_0000_0000_0000 && Pow(128, 9) == TWO_63
  {
    Pow128Values();
    assert Pow(128, 2) == 128 * Pow(128, 1) && Pow(128, 3) == 128 * Pow(128, 2);
    assert Pow(128, 6) == 128 * Pow(128, 5) && Pow(128, 7) == 128 * Pow(128, 6) && Pow(128, 8) == 128 * Pow(128, 7);
  }
}
