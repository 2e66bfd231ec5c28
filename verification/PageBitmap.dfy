/** What the page bitmap means: one bit per physical page, set while the page is in use. */
module PageBitmap {
  import opened Bits

  const PAGE_SIZE: nat := 4096

  type Byte = b: nat | b < 256

  /** The page bits a byte string stands for: page p is bit p % 8 of byte p / 8. */
  ghost function BitsOf(s: seq<Byte>): (bits: seq<bool>)
    ensures |bits| == 8 * |s|
  {
    seq(8 * |s|, p requires 0 <= p < 8 * |s| => Bit(s[p / 8], p % 8))
  }

  lemma BitInByte(k: nat)
    requires k < 8
    ensures Pow2(k) < Pow2(8) && Pow2(8) == 256
  {
    assert Pow2(8) == 256 && Pow2(7) == 128 && Pow2(6) == 64 && Pow2(5) == 32 && Pow2(4) == 16;
  }

  function SetBit(b: Byte, k: nat): (r: Byte)
    requires k < 8
    ensures forall j :: 0 <= j < 8 ==> Bit(r, j) == (j == k || Bit(b, j))
  {
    BitInByte(k);
    OrBelow(b, Pow2(k), 8);
    forall j: nat | j < 8
      ensures Bit(Or(b, Pow2(k)), j) == (j == k || Bit(b, j))
    {
      OrBit(b, Pow2(k), j);
      Pow2Bit(k, j);
    }
    Or(b, Pow2(k))
  }

  function ClearBit(b: Byte, k: nat): (r: Byte)
    requires k < 8
    ensures forall j :: 0 <= j < 8 ==> Bit(r, j) == (j != k && Bit(b, j))
  {
    AndNotBelow(b, Pow2(k));
    forall j: nat | j < 8
      ensures Bit(AndNot(b, Pow2(k)), j) == (j != k && Bit(b, j))
    {
      AndNotBit(b, Pow2(k), j);
      Pow2Bit(k, j);
    }
    AndNot(b, Pow2(k))
  }

  lemma ConstantBytes(k: nat)
    requires k < 8
    ensures !Bit(0, k) && Bit(0xFF, k)
  {
    ZeroBits(k);
    assert Bit(0xFF, 0) && Bit(0xFF, 1) && Bit(0xFF, 2) && Bit(0xFF, 3);
    assert Bit(0xFF, 4) && Bit(0xFF, 5) && Bit(0xFF, 6) && Bit(0xFF, 7);
  }

  lemma ByteChange(s: seq<Byte>, p: nat, b: Byte, value: bool)
    requires p < 8 * |s|
    requires forall j :: 0 <= j < 8 ==> Bit(b, j) == if j == p % 8 then value else Bit(s[p / 8], j)
    ensures BitsOf(s[p / 8 := b]) == BitsOf(s)[p := value]
  {
    hide Bit;
    var left, right := BitsOf(s[p / 8 := b]), BitsOf(s)[p := value];
    forall q: nat | q < 8 * |s|
      ensures left[q] == right[q]
    {
    }
  }

  lemma PageBits(s: seq<Byte>, p: nat)
    requires p < 8 * |s|
    ensures BitsOf(s[p / 8 := SetBit(s[p / 8], p % 8)]) == BitsOf(s)[p := true]
    ensures BitsOf(s[p / 8 := ClearBit(s[p / 8], p % 8)]) == BitsOf(s)[p := false]
  {
    hide SetBit, ClearBit, Bit;
    ByteChange(s, p, SetBit(s[p / 8], p % 8), true);
    ByteChange(s, p, ClearBit(s[p / 8], p % 8), false);
  }

  /** How many bits are set. */
  ghost function Pop(bits: seq<bool>): nat
  {
    if |bits| == 0 then 0 else Pop(bits[..|bits| - 1]) + (if bits[|bits| - 1] then 1 else 0)
  }

  lemma {:induction false} PopUpdate(bits: seq<bool>, p: nat, b: bool)
    requires p < |bits|
    ensures Pop(bits[p := b]) == Pop(bits) - (if bits[p] then 1 else 0) + (if b then 1 else 0)
  {
    var n := |bits| - 1;
    var changed := bits[p := b];
    if p == n {
      assert changed[..n] == bits[..n];
    } else {
      assert changed[..n] == bits[..n][p := b];
      PopUpdate(bits[..n], p, b);
    }
  }

  lemma {:induction false} PopAppend(a: seq<bool>, b: seq<bool>)
    ensures Pop(a + b) == Pop(a) + Pop(b)
  {
    if |b| == 0 {
      assert a + b == a;
    } else {
      var n := |b| - 1;
      assert (a + b)[..|a + b| - 1] == a + b[..n];
      PopAppend(a, b[..n]);
    }
  }

  lemma {:induction false} PopBounds(bits: seq<bool>)
    ensures Pop(bits) <= |bits|
    ensures Pop(bits) == |bits| <==> forall p :: 0 <= p < |bits| ==> bits[p]
  {
    if |bits| == 0 {
    } else {
      PopBounds(bits[..|bits| - 1]);
    }
  }

  /** Page p is binary digit p % 8 of byte p / 8. */
  lemma PageIsDigit(bytes: seq<Byte>, p: nat)
    requires p < 8 * |bytes|
    ensures BitsOf(bytes)[p] <==> bytes[p / 8] / Pow2(p % 8) % 2 == 1
  {
    BitIsDigit(bytes[p / 8], p % 8);
  }
}
