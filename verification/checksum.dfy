/** The firmware-image checksum `checksum_check` (bootls.c:68-86): the
    image read as big-endian 32-bit words and summed modulo 2^32, a final
    partial word packed into the top bytes of a word with zeros below. */
module Checksum {
  import opened CInt

  /** Byte j of s, or 0 past its end. */
  function At(s: seq<Byte>, j: nat): Byte
  {
    if j < |s| then s[j] else 0
  }

  /** The reference checksum before wrap-around: s read front to back as
      big-endian words, a final partial word completed with zero bytes. */
  function PadSum(s: seq<Byte>): nat
  {
    SumFrom(s, 0)
  }

  /** The padded sum of s from byte i on. */
  function SumFrom(s: seq<Byte>, i: nat): nat
    requires i <= |s|
    decreases |s| - i
  {
    if |s| < i + 4 then TailWord(s, i)
    else Be32At(s, i) + SumFrom(s, i + 4)
  }

  /** The checksum of s: its zero-padded words summed modulo 2^32. */
  function Reference(s: seq<Byte>): U32
  {
    PadSum(s) % TWO32
  }

  /** The tail word from byte i: the bytes left in the top bytes of a
      word, zeros below them. */
  function TailWord(s: seq<Byte>, i: nat): (r: nat)
    requires i <= |s|
    ensures r < TWO32
  {
    var n := |s| - i;
    if n == 0 then 0
    else if n == 1 then Be32(s[i], 0, 0, 0)
    else if n == 2 then Be32(s[i], s[i + 1], 0, 0)
    else if n == 3 then Be32(s[i], s[i + 1], s[i + 2], 0)
    else Be32(s[i], s[i + 1], s[i + 2], s[i + 3])
  }

  /** The first n bytes from off shifted in one byte at a time, as the tail
      loop of bootls.c:78-82 builds them. */
  function Packed(s: seq<Byte>, off: nat, n: nat): nat
  {
    if n == 0 then 0 else Packed(s, off, n - 1) * 0x100 + At(s, off + n - 1)
  }

  /** Four bytes shifted in make the tail word. */
  lemma PackedIsTail(s: seq<Byte>, off: nat)
    requires off <= |s|
    ensures Packed(s, off, 4) == TailWord(s, off)
  {
    assert Packed(s, off, 1) == At(s, off);
    assert Packed(s, off, 2) == 0x100 * At(s, off) + At(s, off + 1);
    assert Packed(s, off, 3) == 0x1_0000 * At(s, off) + 0x100 * At(s, off + 1) + At(s, off + 2);
  }

  lemma ModAdd(a: nat, b: nat)
    ensures (a % TWO32 + b) % TWO32 == (a + b) % TWO32
  {
    var q := a / TWO32;
    DivModUnique(a, TWO32, q, a % TWO32);
    var s := (a % TWO32 + b);
    DivModUnique(s, TWO32, s / TWO32, s % TWO32);
    DivModUnique(a + b, TWO32, q + s / TWO32, s % TWO32);
  }

  /** The padded sum of t from j on is unchanged by a prefix w. */
  lemma {:induction false} SumFromShift(w: seq<Byte>, t: seq<Byte>, j: nat)
    requires j <= |t|
    ensures SumFrom(w + t, |w| + j) == SumFrom(t, j)
    decreases |t| - j
  {
    if j + 4 <= |t| {
      SumFromShift(w, t, j + 4);
    }
  }

  /** A whole word in front adds its value to the padded sum. */
  lemma ConsWord(w0: seq<Byte>, x: seq<Byte>)
    requires |w0| == 4
    ensures PadSum(w0 + x) == Be32(w0[0], w0[1], w0[2], w0[3]) + PadSum(x)
  {
    SumFromShift(w0, x, 0);
  }

  /** After k whole words, the padded sum of the rest simply adds on. */
  lemma {:induction false} PadSumAppend(w: seq<Byte>, t: seq<Byte>, k: nat)
    requires |w| == 4 * k
    ensures PadSum(w + t) == PadSum(w) + PadSum(t)
    decreases k
  {
    if k == 0 {
      assert w + t == t;
      assert PadSum(w) == TailWord(w, 0) == 0;
    } else {
      PadSumAppend(w[4..], t, k - 1);
      AppendStep(w, t);
    }
  }

  /** The inductive step: one more whole word in front. */
  lemma AppendStep(w: seq<Byte>, t: seq<Byte>)
    requires |w| >= 4
    requires PadSum(w[4..] + t) == PadSum(w[4..]) + PadSum(t)
    ensures PadSum(w + t) == PadSum(w) + PadSum(t)
  {
    var w0, w' := w[..4], w[4..];
    assert w == w0 + w';
    assert w + t == w0 + (w' + t);
    ConsWord(w0, w' + t);
    ConsWord(w0, w');
  }

  /** The padded sum of a single word is its value. */
  lemma WordOnly(b: seq<Byte>)
    requires |b| == 4
    ensures PadSum(b) == Be32(b[0], b[1], b[2], b[3])
  {
    assert SumFrom(b, 4) == TailWord(b, 4) == 0;
  }

  /** Appending a word b to k whole words adds its big-endian value to the
      checksum. */
  lemma AppendWord(data: seq<Byte>, k: nat, b: seq<Byte>)
    requires |data| == 4 * k && |b| == 4
    ensures Reference(data + b) == (Reference(data) + Be32(b[0], b[1], b[2], b[3])) % TWO32
  {
    var c := Be32(b[0], b[1], b[2], b[3]);
    PadSumAppend(data, b, k);
    WordOnly(b);
    ModAdd(PadSum(data), c);
  }

  /** The checksum word that makes whole-word data pass. */
  function FixupWord(data: seq<Byte>): U32
  {
    (TWO32 - Reference(data)) % TWO32
  }

  /** Every whole-word image can be made to pass the check: appending the
      fix-up word (as its four big-endian bytes b) brings the checksum to
      0. */
  lemma FixupPasses(data: seq<Byte>, k: nat, b: seq<Byte>)
    requires |data| == 4 * k && |b| == 4 && Be32(b[0], b[1], b[2], b[3]) == FixupWord(data)
    ensures Reference(data + b) == 0
  {
    AppendWord(data, k, b);
    FixupArith(Reference(data));
  }

  lemma FixupArith(r: int)
    requires 0 <= r < TWO32
    ensures (r + (TWO32 - r) % TWO32) % TWO32 == 0
  {
    if r == 0 {
      DivModUnique(TWO32, TWO32, 1, 0);
    } else {
      DivModUnique(TWO32 - r, TWO32, 0, TWO32 - r);
      DivModUnique(TWO32, TWO32, 1, 0);
    }
  }

  /** The step of the whole-word loop: the word at off moves from the part
      still to read into the running total, and the wrapped sum follows. */
  lemma WordStep(data: seq<Byte>, off: nat, total: nat)
    requires off + 4 <= |data| && total + SumFrom(data, off) == PadSum(data)
    ensures total + Be32At(data, off) + SumFrom(data, off + 4) == PadSum(data)
    ensures (total % TWO32 + Be32At(data, off)) % TWO32 == (total + Be32At(data, off)) % TWO32
  {
    ModAdd(total, Be32At(data, off));
  }

  /** `checksum_check(addr, size)` over the memory mem at addr: the whole
      words first, then the remaining bytes shifted into the top of a word;
      the result is the reference checksum of the first size bytes. */
  method ChecksumCheck(mem: seq<Byte>, size: U32) returns (sum: U32)
    requires size <= |mem|
    ensures sum == Reference(mem[..size])
  {
    var data := mem[..size];
    var off;
    sum, off := WholeWords(data);
    var remain := Remainder(data, off);
    ModAdd(sum, remain);
    sum := (sum + remain) % TWO32;
  }

  /** The loop of bootls.c:74-77: the running sum of the whole words, and
      the offset where fewer than four bytes remain. */
  method WholeWords(data: seq<Byte>) returns (sum: U32, off: nat)
    ensures off <= |data| < off + 4
    ensures (sum + SumFrom(data, off)) % TWO32 == Reference(data)
  {
    sum := 0;
    off := 0;
    ghost var total: nat := 0;
    while |data| - off >= 4
      invariant off <= |data|
      invariant sum == total % TWO32
      invariant total + SumFrom(data, off) == PadSum(data)
      decreases |data| - off
    {
      var word := Be32At(data, off);
      WordStep(data, off, total);
      sum := (sum + word) % TWO32;
      total := total + word;
      off := off + 4;
    }
    ModAdd(total, SumFrom(data, off));
  }

  /** The loop of bootls.c:78-82: the bytes from off on shifted into a
      word, zeros shifted in past the end; this is their padded sum. */
  method Remainder(data: seq<Byte>, off: nat) returns (remain: nat)
    requires off <= |data| < off + 4
    ensures remain == SumFrom(data, off) && remain < TWO32
  {
    remain := 0;
    var i := 0;
    while i < 4
      invariant 0 <= i <= 4
      invariant remain == Packed(data, off, i)
    {
      remain := remain * 0x100;
      if |data| - off > i {
        remain := remain + data[off + i];
      }
      i := i + 1;
    }
    PackedIsTail(data, off);
  }
}
