/** Bytes, and unsigned words as their bits, lowest bit first. */
module Words {

  newtype byte = b: int | 0 <= b < 0x100
  type Bytes = seq<byte>

  const TWO_TO_THE_16 := 0x1_0000
  const TWO_TO_THE_32 := 0x1_0000_0000

  function Zeros(n: nat): (z: seq<bool>)
    ensures |z| == n
  {
    seq(n, _ => false)
  }

  function Ones(n: nat): (z: seq<bool>)
    ensures |z| == n
  {
    seq(n, _ => true)
  }

  function Xor(u: seq<bool>, v: seq<bool>): (e: seq<bool>)
    requires |u| == |v|
    ensures |e| == |u|
  {
    seq(|u|, i requires 0 <= i < |u| => u[i] != v[i])
  }

  /** The number the bits stand for. */
  function Value(bits: seq<bool>): nat {
    if bits == [] then 0 else (if bits[0] then 1 else 0) + 2 * Value(bits[1..])
  }

  /** The lowest `width` bits of n. */
  function ToBits(n: nat, width: nat): (bits: seq<bool>)
    ensures |bits| == width
  {
    if width == 0 then [] else [n % 2 == 1] + ToBits(n / 2, width - 1)
  }

  function Power2(n: nat): (p: nat)
    ensures p > 0
  {
    if n == 0 then 1 else 2 * Power2(n - 1)
  }

  lemma {:induction false} ValueBound(bits: seq<bool>)
    ensures Value(bits) < Power2(|bits|)
  {
    if bits != [] {
      ValueBound(bits[1..]);
    }
  }

  lemma {:induction false} ToBitsOfValue(bits: seq<bool>)
    ensures ToBits(Value(bits), |bits|) == bits
  {
    if bits != [] {
      ToBitsOfValue(bits[1..]);
    }
  }

  lemma {:induction false} ValueOfToBits(n: nat, width: nat)
    requires n < Power2(width)
    ensures Value(ToBits(n, width)) == n
  {
    if width != 0 {
      ValueOfToBits(n / 2, width - 1);
      assert ToBits(n, width)[1..] == ToBits(n / 2, width - 1);
    }
  }

  lemma {:induction false} ToBitsPadded(n: nat, width: nat, more: nat)
    requires n < Power2(width)
    ensures ToBits(n, width + more) == ToBits(n, width) + Zeros(more)
  {
    if width == 0 {
      ZeroBits(more);
    } else {
      ToBitsPadded(n / 2, width - 1, more);
    }
  }

  lemma {:induction false} ZeroBits(width: nat)
    ensures ToBits(0, width) == Zeros(width)
  {
    if width != 0 {
      ZeroBits(width - 1);
    }
  }

  lemma {:induction false} ValueDropLast(bits: seq<bool>)
    requires bits != [] && !bits[|bits| - 1]
    ensures Value(bits) == Value(bits[..|bits| - 1])
  {
    if |bits| > 1 {
      ValueDropLast(bits[1..]);
      assert bits[1..][..|bits| - 2] == bits[..|bits| - 1][1..];
    }
  }

  lemma PowersOfTwo()
    ensures Power2(31) == 0x8000_0000
    ensures Power2(8) == 0x100 && Power2(16) == TWO_TO_THE_16 && Power2(32) == TWO_TO_THE_32
  {
    assert Power2(4) == 0x10;
    assert Power2(12) == 0x1000;
    assert Power2(20) == 0x10_0000;
    assert Power2(28) == 0x1000_0000;
  }
}
