/** Bitmaps of flags, 8 to a byte, least significant bit first: how NULLs travel. */
module Bits {
  import opened Bytes

  function Pow2(k: nat): (p: nat)
    ensures p >= 1
  {
    if k == 0 then 1 else 2 * Pow2(k - 1)
  }

  lemma Pow2Values()
    ensures Pow2(0) == 1 && Pow2(1) == 2 && Pow2(2) == 4 && Pow2(3) == 8
    ensures Pow2(4) == 16 && Pow2(5) == 32 && Pow2(6) == 64 && Pow2(7) == 128 && Pow2(8) == 256
  {
    assert Pow2(2) == 2 * Pow2(1);
    assert Pow2(3) == 2 * Pow2(2);
    assert Pow2(4) == 2 * Pow2(3);
    assert Pow2(5) == 2 * Pow2(4);
    assert Pow2(6) == 2 * Pow2(5);
    assert Pow2(7) == 2 * Pow2(6);
  }

  function Pack(bits: seq<bool>): (n: nat)
    ensures n < Pow2(|bits|)
  {
    if bits == [] then 0 else (if bits[0] then 1 else 0) + 2 * Pack(bits[1..])
  }

  /** Whether the bit `j` is set. */
  predicate Bit(n: nat, j: nat)
    decreases j
  {
    if j == 0 then n % 2 == 1 else Bit(n / 2, j - 1)
  }

  lemma {:induction false} PackBit(bits: seq<bool>, j: nat)
    ensures Bit(Pack(bits), j) == (j < |bits| && bits[j])
    decreases j
  {
    if bits != [] {
      assert Pack(bits) / 2 == Pack(bits[1..]) && Pack(bits) % 2 == (if bits[0] then 1 else 0);
      if j > 0 {
        PackBit(bits[1..], j - 1);
      }
    } else if j > 0 {
      PackBit([], j - 1);
    }
  }

  /** Setting one more bit, above the ones that are there. */
  lemma {:induction false} PackSnoc(bits: seq<bool>, b: bool)
    ensures Pack(bits + [b]) == Pack(bits) + (if b then Pow2(|bits|) else 0)
    decreases |bits|
  {
    if bits == [] {
      assert [b][1..] == [];
    } else {
      PackSnoc(bits[1..], b);
      assert (bits + [b])[1..] == bits[1..] + [b];
    }
  }

  /** `n | mask` and `n & mask != 0`, for a mask of one bit. */
  function Or(n: nat, mask: nat): nat
    requires mask > 0
  {
    if Has(n, mask) then n else n + mask
  }

  predicate Has(n: nat, mask: nat)
    requires mask > 0
  {
    n / mask % 2 == 1
  }

  lemma {:induction false} HasIsBit(n: nat, j: nat)
    ensures Has(n, Pow2(j)) == Bit(n, j)
    decreases j
  {
    if j > 0 {
      HasIsBit(n / 2, j - 1);
      DivDiv(n, 2, Pow2(j - 1));
    }
  }

  lemma OrAbove(n: nat, mask: nat)
    requires n < mask
    ensures Or(n, mask) == n + mask
  {
    ModUnique(n, mask, 0, n);
  }

  function Bitmap(bits: seq<bool>): (s: seq<byte>)
    ensures |s| == (|bits| + 7) / 8
    decreases |bits|
  {
    Pow2Values();
    if bits == [] then []
    else if |bits| < 8 then [Below(bits)]
    else [Below(bits[..8])] + Bitmap(bits[8..])
  }

  function Below(bits: seq<bool>): byte
    requires |bits| <= 8
  {
    PackFits(bits);
    Pack(bits)
  }

  lemma {:induction false} PackFits(bits: seq<bool>)
    requires |bits| <= 8
    ensures Pack(bits) < 0x100
  {
    Pow2Monotone(|bits|, 8);
    Pow2Values();
  }

  lemma {:induction false} Pow2Monotone(a: nat, b: nat)
    requires a <= b
    ensures Pow2(a) <= Pow2(b)
    decreases b
  {
    if a < b {
      Pow2Monotone(a, b - 1);
    }
  }

  /** The bit of each flag is at its place, and the bits after the last flag are clear. */
  lemma {:induction false} BitmapBit(bits: seq<bool>, i: nat)
    requires i / 8 < |Bitmap(bits)|
    ensures Bit(Bitmap(bits)[i / 8], i % 8) == (i < |bits| && bits[i])
    decreases |bits|
  {
    if i < 8 {
      var first := if |bits| < 8 then bits else bits[..8];
      assert Bitmap(bits)[0] == Pack(first);
      PackBit(first, i);
    } else {
      BitmapBit(bits[8..], i - 8);
    }
  }

  lemma {:induction false} BitmapSplit(a: seq<bool>, b: seq<bool>)
    requires |a| % 8 == 0
    ensures Bitmap(a + b) == Bitmap(a) + Bitmap(b)
    decreases |a|
  {
    if a == [] {
      assert a + b == b;
    } else {
      BitmapSplit(a[8..], b);
      assert (a + b)[..8] == a[..8] && (a + b)[8..] == a[8..] + b;
    }
  }

  /** One more flag, when the bytes before `full` are written, and the byte after them is being filled. */
  lemma BitmapSnoc(bits: seq<bool>, b: bool, full: nat)
    requires full % 8 == 0 && full <= |bits| < full + 8
    ensures var open := bits[full..] + [b];
      if |open| == 8 then Bitmap(bits[..full]) + [Below(open)] == Bitmap(bits + [b])
      else (bits + [b])[..full] == bits[..full] && (bits + [b])[full..] == open
  {
    var head, open := bits[..full], bits[full..] + [b];
    if |open| == 8 {
      BitmapSplit(head, open);
      assert head + open == bits + [b];
      assert open[..8] == open && open[8..] == [];
    }
  }

  lemma BitmapShort(bits: seq<bool>)
    requires |bits| < 8
    ensures Bitmap(bits) == if bits == [] then [] else [Below(bits)]
  {
  }

  lemma BitmapLast(bits: seq<bool>, full: nat)
    requires full % 8 == 0 && full <= |bits| < full + 8
    ensures Bitmap(bits) == Bitmap(bits[..full]) + (if full < |bits| then [Below(bits[full..])] else [])
  {
    hide Bitmap;
    var head, tail := bits[..full], bits[full..];
    BitmapSplit(head, tail);
    BitmapShort(tail);
    assert head + tail == bits;
  }

  // ----- A loop over the flags -----

  /** The state of a loop that fills a bitmap, before the flag `i`: the bytes of the flags before `full` are written. */
  ghost predicate Filling(flags: seq<bool>, i: nat, full: nat, bits: nat, mask: nat) {
    && full % 8 == 0 && full <= i < full + 8 && i <= |flags|
    && bits == Pack(flags[full..i]) && mask == Pow2(i - full)
  }

  lemma FillingBegins(flags: seq<bool>)
    ensures Filling(flags, 0, 0, 0, 1) && Bitmap(flags[..0]) == []
  {
  }

  lemma FillingGoes(flags: seq<bool>, i: nat, full: nat, bits: nat, mask: nat)
    requires Filling(flags, i, full, bits, mask) && i < |flags|
    ensures mask > 0
    ensures var bits' := if flags[i] then Or(bits, mask) else bits;
      && bits' < 0x100
      && (mask != 0x80 ==> Filling(flags, i + 1, full, bits', mask * 2))
      && (mask == 0x80 ==>
            Filling(flags, i + 1, i + 1, 0, 1) && Bitmap(flags[..full]) + [bits'] == Bitmap(flags[..i + 1]))
  {
    hide Bitmap, Pack, Pow2, Or;
    var open, seen := flags[full..i], flags[..i];
    assert flags[full..i + 1] == open + [flags[i]] && flags[..i + 1] == seen + [flags[i]];
    assert seen[full..] == open && seen[..full] == flags[..full];
    PackSnoc(open, flags[i]);
    OrAbove(bits, mask);
    PackFits(open + [flags[i]]);
    BitmapSnoc(seen, flags[i], full);
    MaskTop(i - full);
    assert flags[i + 1..i + 1] == [];
    PackNothing();
  }

  lemma PackNothing()
    ensures Pack([]) == 0 && Pow2(0) == 1
  {
  }

  lemma FillingEnds(flags: seq<bool>, full: nat, bits: nat, mask: nat)
    requires Filling(flags, |flags|, full, bits, mask)
    ensures bits < 0x100
    ensures Bitmap(flags) == Bitmap(flags[..full]) + (if mask != 1 then [bits] else [])
  {
    hide Bitmap;
    assert flags[full..|flags|] == flags[full..];
    PackFits(flags[full..]);
    BitmapLast(flags, full);
  }

  /** The byte and the mask of the next flag. */
  lemma MaskNext(i: nat)
    ensures 0 < Pow2(i % 8) <= 0x80
    ensures if Pow2(i % 8) != 0x80 then (i + 1) / 8 == i / 8 && Pow2((i + 1) % 8) == 2 * Pow2(i % 8)
      else (i + 1) / 8 == i / 8 + 1 && Pow2((i + 1) % 8) == 1
  {
    Pow2Values();
  }

  lemma MaskTop(k: nat)
    requires k < 8
    ensures Pow2(k) == 0x80 <==> k == 7
    ensures Pow2(k + 1) == Pow2(k) * 2
  {
    Pow2Values();
  }
}
