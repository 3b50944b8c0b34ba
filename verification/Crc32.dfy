/** CRC-32 as the archive writer computes it: a 256-entry table filled in place and one table step per byte.
    The reference is the definition itself: the message is fed to the divider one bit at a time.
    A 32-bit register is its 32 bits, lowest first, so `>>> n` drops the first n. */
module Crc32 {
  import opened Folding
  import opened Words

  type Register = w: seq<bool> | |w| == 32 witness Zeros(32)

  const ALL_ONES: Register := Ones(32)
  const CLEAR: Register := Zeros(32)

  // The generator polynomial without its leading term, lowest degree in the highest bit.
  const POLYNOMIAL: Register := ToBits(0xEDB8_8320, 32)

  lemma PolynomialTopBit()
    ensures POLYNOMIAL[31]
  {
    hide ToBits, Value;
    PowersOfTwo();
    ValueOfToBits(0xEDB8_8320, 32);
    ValueBound(POLYNOMIAL[..31]);
    if !POLYNOMIAL[31] {
      ValueDropLast(POLYNOMIAL);
    }
  }

  // ---------- the bit-serial reference ----------

  function Half(w: Register): Register {
    w[1..] + [false]
  }

  function Plus(a: Register, b: Register): Register {
    Xor(a, b)
  }

  /** Shifts the divider by one place and subtracts the generator polynomial when a one falls out. */
  function Shift(w: Register): Register {
    if w[0] then Plus(POLYNOMIAL, Half(w)) else Half(w)
  }

  /** Takes one message bit into the divider. */
  function Feed(reg: Register, bit: bool): Register {
    Shift(reg[0 := reg[0] != bit])
  }

  function Divide(reg: Register, bits: seq<bool>): Register {
    Fold(Feed, reg, bits)
  }

  /** The bits of a byte in transmission order, lowest first. */
  function ByteBits(b: byte): (bits: seq<bool>)
    ensures |bits| == 8
  {
    ToBits(b as nat, 8)
  }

  function MessageBits(data: Bytes): (bits: seq<bool>)
    ensures |bits| == 8 * |data|
  {
    if data == [] then [] else MessageBits(data[..|data| - 1]) + ByteBits(data[|data| - 1])
  }

  /** The checksum: divide the whole message bit by bit, starting from and finally inverted by all ones. */
  function Checksum(data: Bytes): Register {
    Plus(Divide(ALL_ONES, MessageBits(data)), ALL_ONES)
  }

  // ---------- the table-driven form ----------

  /** Entry i is i divided on by eight zero bits. */
  ghost predicate IsCrcTable(table: seq<Register>) {
    |table| == 256 && forall i: nat :: i < 256 ==> table[i] == Divide(ToBits(i, 32), Zeros(8))
  }

  method BuildTable() returns (table: array<Register>)
    ensures fresh(table) && IsCrcTable(table[..])
  {
    hide Divide, ToBits;
    table := new Register[256];
    for index := 0 to 256
      invariant forall i: nat :: i < index ==> table[i] == Divide(ToBits(i, 32), Zeros(8))
    {
      table[index] := TableEntry(ToBits(index, 32));
    }
  }

  method TableEntry(index: Register) returns (value: Register)
    ensures value == Divide(index, Zeros(8))
  {
    value := index;
    for bit := 0 to 8
      invariant value == Divide(index, Zeros(bit))
    {
      DivideZero(index, bit);
      value := if value[0] then Plus(POLYNOMIAL, Half(value)) else Half(value);
    }
  }

  lemma DivideZero(w: Register, n: nat)
    ensures Divide(w, Zeros(n + 1)) == Shift(Divide(w, Zeros(n)))
  {
    assert Zeros(n) + [false] == Zeros(n + 1);
    FoldConcat(Feed, w, Zeros(n), [false]);
    var x := Divide(w, Zeros(n));
    assert x[0 := x[0] != false] == x;
  }

  lemma NothingDivided()
    ensures Divide(ALL_ONES, MessageBits([])) == ALL_ONES
  {
  }

  lemma NextByte(data: Bytes, i: nat)
    requires i < |data|
    ensures Divide(ALL_ONES, MessageBits(data[..i + 1]))
      == Divide(Divide(ALL_ONES, MessageBits(data[..i])), ByteBits(data[i]))
  {
    assert data[..i + 1][..i] == data[..i];
    FoldConcat(Feed, ALL_ONES, MessageBits(data[..i]), ByteBits(data[i]));
  }

  /** The table-driven loop computes the bit-serial checksum of every byte sequence. */
  method Compute(table: array<Register>, data: Bytes) returns (crc: Register)
    requires IsCrcTable(table[..])
    ensures crc == Checksum(data)
  {
    hide Divide, MessageBits, Value, ToBits;
    NothingDivided();
    crc := ALL_ONES;
    for i := 0 to |data|
      invariant crc == Divide(ALL_ONES, MessageBits(data[..i]))
    {
      var slot := Value(Plus(crc, ToBits(data[i] as nat, 32))[..8]);
      TableStep(crc, data[i]);
      assert table[slot] == table[..][slot];
      NextByte(data, i);
      crc := Plus(table[slot], crc[8..] + Zeros(8));
    }
    assert data[..|data|] == data;
    crc := Plus(crc, ALL_ONES);
  }

  /** One table step is eight steps of bit-serial division: the byte and the register's low byte pick
      the entry, the rest of the register only shifts. */
  lemma TableStep(crc: Register, b: byte)
    ensures var slot := Value(Plus(crc, ToBits(b as nat, 32))[..8]);
      slot < 256 && Divide(crc, ByteBits(b)) == Plus(Divide(ToBits(slot, 32), Zeros(8)), crc[8..] + Zeros(8))
  {
    hide Value, Divide, ToBits;
    var bits := ByteBits(b);
    PowersOfTwo();
    ToBitsPadded(b as nat, 8, 24);
    var mixed := Plus(crc, ToBits(b as nat, 32))[..8];
    ValueBound(mixed);
    ToBitsOfValue(mixed);
    ToBitsPadded(Value(mixed), 8, 24);
    var slot: Register := mixed + Zeros(24);
    var rest: Register := bits + crc[8..];
    assert Plus(slot, rest) == crc;
    assert Xor(Zeros(8), bits) == bits;
    DivideLinear(slot, rest, Zeros(8), bits);
    DivideOwnBits(rest, 8);
  }

  lemma {:induction false} DivideOwnBits(w: Register, n: nat)
    requires n <= 32
    ensures Divide(w, w[..n]) == w[n..] + Zeros(n)
    decreases n
  {
    if n == 0 {
      assert w[..0] == [];
    } else {
      var bits := w[..n];
      assert Feed(w, bits[0]) == Half(w);
      assert bits[1..] == Half(w)[..n - 1];
      DivideOwnBits(Half(w), n - 1);
    }
  }

  // ---------- linearity ----------

  lemma FeedAdditive()
    ensures Additive(Feed, Plus)
  {
    forall r: Register, s: Register, a, b ensures Plus(Feed(r, a), Feed(s, b)) == Feed(Plus(r, s), a != b) {
      FeedLinear(r, s, a, b);
    }
  }

  lemma FeedLinear(r: Register, s: Register, a: bool, b: bool)
    ensures Plus(Feed(r, a), Feed(s, b)) == Feed(Plus(r, s), a != b)
  {
    assert Plus(Half(r), Half(s)) == Half(Plus(r, s));
  }

  /** Division is linear: running two registers over two messages differs by running their difference
      over the difference of the messages. */
  lemma DivideLinear(r: Register, s: Register, u: seq<bool>, v: seq<bool>)
    requires |u| == |v|
    ensures Plus(Divide(r, u), Divide(s, v)) == Divide(Plus(r, s), Xor(u, v))
  {
    FeedAdditive();
    FoldAdditive(Feed, Plus, r, s, u, v);
  }

  // ---------- what the checksum detects ----------

  /** The register holds nothing at or above bit n. */
  predicate Below(w: Register, n: nat) {
    forall i :: n <= i < 32 ==> !w[i]
  }

  /** A difference that dies out within n < 32 further bits lies below bit n. */
  lemma {:induction false} DyingDifferenceIsShort(d: Register, errors: seq<bool>)
    requires |errors| <= 31 && Divide(d, errors) == CLEAR
    ensures Below(d, |errors|)
    decreases |errors|
  {
    if errors != [] {
      var next := Feed(d, errors[0]);
      PolynomialTopBit();
      DyingDifferenceIsShort(next, errors[1..]);
      assert !next[31];
      var flipped := d[0 := d[0] != errors[0]];
      assert next == Half(flipped);
      forall i | |errors| <= i < 32 ensures !d[i] {
        assert next[i - 1] == flipped[i];
      }
    }
  }

  /** Errors confined to 32 consecutive bits leave a non-zero difference. */
  lemma {:induction false} BurstLeavesDifference(errors: seq<bool>)
    requires |errors| <= 32 && true in errors
    ensures Divide(CLEAR, errors) != CLEAR
    decreases |errors|
  {
    if !errors[0] {
      assert Feed(CLEAR, false) == CLEAR;
      BurstLeavesDifference(errors[1..]);
    } else if Divide(CLEAR, errors) == CLEAR {
      var d := Feed(CLEAR, true);
      PolynomialTopBit();
      assert d[31];
      DyingDifferenceIsShort(d, errors[1..]);
      assert false;
    }
  }

  lemma {:induction false} DifferenceStays(d: Register, n: nat)
    requires d != CLEAR
    ensures Divide(d, Zeros(n)) != CLEAR
    decreases n
  {
    if n != 0 {
      var next := Feed(d, false);
      assert d[0 := d[0] != false] == d;
      PolynomialTopBit();
      var i :| 0 <= i < 32 && d[i];
      assert if d[0] then next[31] else next[i - 1];
      assert Zeros(n)[1..] == Zeros(n - 1);
      DifferenceStays(next, n - 1);
    }
  }

  lemma XorIsClear(a: seq<bool>, b: seq<bool>)
    requires |a| == |b|
    ensures Xor(a, b) == Zeros(|a|) <==> a == b
  {
    if Xor(a, b) == Zeros(|a|) {
      forall i | 0 <= i < |a| ensures a[i] == b[i] {
        assert !Xor(a, b)[i];
      }
    }
  }

  lemma DivideBurst(reg: Register, u: seq<bool>, v: seq<bool>)
    requires |u| == |v| <= 32 && u != v
    ensures Divide(reg, u) != Divide(reg, v)
  {
    var i :| 0 <= i < |u| && u[i] != v[i];
    assert Xor(u, v)[i];
    DivideLinear(reg, reg, u, v);
    XorIsClear(reg, reg);
    BurstLeavesDifference(Xor(u, v));
    XorIsClear(Divide(reg, u), Divide(reg, v));
  }

  lemma DivideInjective(r: Register, s: Register, bits: seq<bool>)
    requires r != s
    ensures Divide(r, bits) != Divide(s, bits)
  {
    XorIsClear(r, s);
    XorIsClear(bits, bits);
    DivideLinear(r, s, bits, bits);
    DifferenceStays(Plus(r, s), |bits|);
    XorIsClear(Divide(r, bits), Divide(s, bits));
  }

  /** Two messages of equal length whose bits differ only inside some window of 32 bits,
      byte-aligned or not, never have the same checksum. */
  lemma ChecksumDetectsBurst(a: Bytes, b: Bytes, start: nat, width: nat)
    requires |a| == |b| && a != b
    requires width <= 32 && start + width <= 8 * |a|
    requires MessageBits(a)[..start] == MessageBits(b)[..start]
    requires MessageBits(a)[start + width..] == MessageBits(b)[start + width..]
    ensures Checksum(a) != Checksum(b)
  {
    var x, y := MessageBits(a), MessageBits(b);
    MessageBitsInjective(a, b);
    var u, v := x[start..start + width], y[start..start + width];
    var prefix, suffix := x[..start], x[start + width..];
    assert x == prefix + u + suffix;
    assert y == prefix + v + suffix;
    DivideSplit(prefix, u, suffix);
    DivideSplit(prefix, v, suffix);
    var reg := Divide(ALL_ONES, prefix);
    DivideBurst(reg, u, v);
    DivideInjective(Divide(reg, u), Divide(reg, v), suffix);
    PlusInjective(Divide(ALL_ONES, x), Divide(ALL_ONES, y), ALL_ONES);
  }

  lemma DivideSplit(prefix: seq<bool>, u: seq<bool>, suffix: seq<bool>)
    ensures Divide(ALL_ONES, prefix + u + suffix) == Divide(Divide(Divide(ALL_ONES, prefix), u), suffix)
  {
    FoldConcat(Feed, ALL_ONES, prefix + u, suffix);
    FoldConcat(Feed, ALL_ONES, prefix, u);
  }

  lemma PlusInjective(a: Register, b: Register, c: Register)
    requires a != b
    ensures Plus(a, c) != Plus(b, c)
  {
    var i :| 0 <= i < 32 && a[i] != b[i];
    assert Plus(a, c)[i] != Plus(b, c)[i];
  }

  /** Changing up to four consecutive bytes, one byte in particular, always changes the checksum. */
  lemma ChecksumDetectsByteChange(prefix: Bytes, u: Bytes, v: Bytes, suffix: Bytes)
    requires |u| == |v| <= 4 && u != v
    ensures Checksum(prefix + u + suffix) != Checksum(prefix + v + suffix)
  {
    hide Checksum, MessageBits;
    var a, b := prefix + u + suffix, prefix + v + suffix;
    WindowBits(prefix, u, suffix);
    WindowBits(prefix, v, suffix);
    assert a[|prefix|..|prefix| + |u|] == u && b[|prefix|..|prefix| + |v|] == v;
    ChecksumDetectsBurst(a, b, 8 * |prefix|, 8 * |u|);
  }

  lemma WindowBits(prefix: Bytes, u: Bytes, suffix: Bytes)
    ensures var bits := MessageBits(prefix + u + suffix);
      bits[..8 * |prefix|] == MessageBits(prefix) && bits[8 * |prefix| + 8 * |u|..] == MessageBits(suffix)
  {
    MessageBitsConcat(prefix + u, suffix);
    MessageBitsConcat(prefix, u);
  }

  lemma {:induction false} MessageBitsConcat(a: Bytes, b: Bytes)
    ensures MessageBits(a + b) == MessageBits(a) + MessageBits(b)
    decreases |b|
  {
    if b == [] {
      assert a + b == a;
    } else {
      var n := |b| - 1;
      assert (a + b)[..|a + b| - 1] == a + b[..n];
      MessageBitsConcat(a, b[..n]);
    }
  }

  lemma {:induction false} MessageBitsInjective(a: Bytes, b: Bytes)
    requires |a| == |b|
    ensures MessageBits(a) == MessageBits(b) ==> a == b
  {
    if a != [] && MessageBits(a) == MessageBits(b) {
      var n := |a| - 1;
      var x, y := MessageBits(a), MessageBits(b);
      assert x[..8 * n] == MessageBits(a[..n]) && y[..8 * n] == MessageBits(b[..n]);
      assert x[8 * n..] == ByteBits(a[n]) && y[8 * n..] == ByteBits(b[n]);
      MessageBitsInjective(a[..n], b[..n]);
      PowersOfTwo();
      ValueOfToBits(a[n] as nat, 8);
      ValueOfToBits(b[n] as nat, 8);
      assert a == a[..n] + [a[n]] && b == b[..n] + [b[n]];
    }
  }
}
