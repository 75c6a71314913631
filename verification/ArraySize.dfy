/** Device bytes a CUDA array descriptor asks for, library/include/array_size.h:
    products that refuse to wrap. */
module ArraySize {
  import opened Arith
  import opened Common

  const SIZE_MAX := 0xFFFF_FFFF_FFFF_FFFF
  const UNKNOWN_FORMAT_BYTES := 8

  type size_t = x: int | 0 <= x <= SIZE_MAX

  // ------------------------------------------------------------ format tables

  /** BC1 and BC4 take 8 bytes per 4x4 block, the other BC formats 16. */
  function BlockBytes(format: int): nat {
    if format in {0x91, 0x92, 0x97, 0x98} then 8
    else if format in {0x93, 0x94, 0x95, 0x96, 0x99, 0x9a, 0x9b, 0x9c, 0x9d, 0x9e} then 16
    else 0
  }

  /** Channels the format itself fixes, 1 when the descriptor decides. */
  function FormatChannels(format: int): nat {
    if format in {0xc1, 0xc4, 0xc7, 0xca} then 2
    else if format in {0xc2, 0xc5, 0xc8, 0xcb, 0x50} then 4
    else 1
  }

  predicate IsKnown(format: int) {
    BlockBytes(format) != 0
    || format in {0x01, 0x08, 0x02, 0x09, 0x10, 0x03, 0x0a, 0x20, 0xc0, 0xc1, 0xc2, 0xc6, 0xc7, 0xc8, 0x50,
                  0xc3, 0xc4, 0xc5, 0xc9, 0xca, 0xcb}
  }

  /** Bytes per channel, for the formats not sized by block. */
  function FormatBytes(format: int): nat {
    if format in {0x01, 0x08, 0xc0, 0xc1, 0xc2, 0xc6, 0xc7, 0xc8, 0x50} then 1
    else if format in {0x02, 0x09, 0x10, 0xc3, 0xc4, 0xc5, 0xc9, 0xca, 0xcb} then 2
    else if format in {0x03, 0x0a, 0x20} then 4
    else UNKNOWN_FORMAT_BYTES
  }

  /** The three tables classify the same formats. */
  lemma TablesAgree(format: int)
    ensures IsKnown(format) <==> BlockBytes(format) != 0 || FormatBytes(format) != UNKNOWN_FORMAT_BYTES
    ensures FormatChannels(format) != 1 ==> IsKnown(format) && BlockBytes(format) == 0
    ensures BlockBytes(format) != 0 <==> 0x91 <= format <= 0x9e
  {
  }

  /** The normalised families run from 0xc0 by signedness, width and channel count:
      an INT8X4 element is four bytes and an INT16X4 element eight, however few
      channels the descriptor names. */
  lemma NormalisedFormats(signed: nat, wide: nat, i: nat, channels: nat)
    requires signed < 2 && wide < 2 && i < 3
    ensures ElementBytes(0xc0 + 6 * signed + 3 * wide + i, channels) == (wide + 1) * Max(channels, Pow2(i))
  {
    assert Pow2(0) == 1 && Pow2(1) == 2 && Pow2(2) == 4;
    var f := 0xc0 + 6 * signed + 3 * wide + i;
    assert FormatChannels(f) == Pow2(i) && FormatBytes(f) == wide + 1;
  }

  /** The classic formats leave the count to the descriptor: unsigned and signed
      integers of 1, 2 and 4 bytes, half and float. */
  lemma ClassicFormats(i: nat, channels: nat)
    requires i < 3 && channels >= 1
    ensures ElementBytes(1 + i, channels) == ElementBytes(8 + i, channels) == Pow2(i) * channels
    ensures ElementBytes(0x10, channels) == 2 * channels && ElementBytes(0x20, channels) == 4 * channels
  {
    assert Pow2(0) == 1 && Pow2(1) == 2 && Pow2(2) == 4;
    assert FormatBytes(1 + i) == FormatBytes(8 + i) == Pow2(i);
  }

  // ------------------------------------------------------- what it should be

  function Extent(x: nat): nat { if x == 0 then 1 else x }

  function Blocks(x: nat): nat { (x + 3) / 4 }

  /** Bytes of one element, all its channels included. */
  function ElementBytes(format: int, channels: nat): nat {
    FormatBytes(format) * Max(channels, FormatChannels(format))
  }

  function Product(bytes: nat, a: nat, b: nat, c: nat): nat {
    var row := Times(bytes, a);
    var slice := Times(row, b);
    Times(slice, c)
  }

  function Times(a: nat, b: nat): nat { a * b }

  /** The size with no width limit on the arithmetic. */
  function FullSize(width: nat, height: nat, depth: nat, format: int, channels: nat): nat {
    if BlockBytes(format) != 0
    then Product(BlockBytes(format), Blocks(width), Blocks(Extent(height)), Extent(depth))
    else Product(ElementBytes(format, channels), width, Extent(height), Extent(depth))
  }

  predicate Sizable(width: nat, channels: nat) {
    width > 0 && channels in {1, 2, 4}
  }

  // -------------------------------------------------------------- the code

  /** vgpu_array_mul. */
  method Mul(acc: size_t, factor: size_t) returns (ok: bool, r: size_t)
    ensures ok <==> factor != 0 && acc * factor <= SIZE_MAX
    ensures r == if ok then acc * factor else acc
  {
    if factor != 0 {
      QuotientAtLeast(SIZE_MAX, factor, acc);
    }
    if factor == 0 || acc > SIZE_MAX / factor {
      return false, acc;
    }
    return true, acc * factor;
  }

  /** A prefix of a product of non-zero factors never exceeds it, so refusing the
      first overflow refuses exactly the products that do not fit. */
  lemma PrefixAtMost(a: nat, b: nat)
    requires b >= 1
    ensures a <= Times(a, b)
  {
    MulMono(1, b, a);
  }

  /** vgpu_array_size_from: the exact product, or nothing. */
  method SizeFrom(width: size_t, height: size_t, depth: size_t, format: int, channels: nat) returns (r: Option<size_t>)
    ensures r.Some? <==> Sizable(width, channels) && FullSize(width, height, depth, format, channels) <= SIZE_MAX
    ensures r.Some? ==> r.value == FullSize(width, height, depth, format, channels) && r.value > 0
  {
    hide Product;
    if channels != 1 && channels != 2 && channels != 4 {
      return None;
    }
    if width == 0 {
      return None;
    }
    var h: size_t, d: size_t := height, depth;
    if h == 0 {
      h := 1;
    }
    if d == 0 {
      d := 1;
    }
    var bytes: size_t := BlockBytes(format);
    if bytes != 0 {
      var bw: size_t := width / 4 + if width % 4 != 0 then 1 else 0;
      var bh: size_t := h / 4 + if h % 4 != 0 then 1 else 0;
      r := Three(bytes, bw, bh, d);
      return;
    }
    var n: size_t := channels;
    if FormatChannels(format) > n {
      n := FormatChannels(format);
    }
    bytes := FormatBytes(format);
    ElementIs(format, channels);
    var ok;
    ok, bytes := Mul(bytes, n);   // at most 8 * 4
    r := Three(bytes, width, h, d);
  }

  lemma ElementIs(format: int, channels: nat)
    requires channels in {1, 2, 4}
    ensures var n := if FormatChannels(format) > channels then FormatChannels(format) else channels;
      1 <= n <= 4 && 1 <= FormatBytes(format) <= 8 && ElementBytes(format, channels) == FormatBytes(format) * n <= 32
  {
  }

  /** bytes * a * b * c, refusing to wrap at each step. */
  method Three(bytes: size_t, a: size_t, b: size_t, c: size_t) returns (r: Option<size_t>)
    requires bytes > 0 && a > 0 && b > 0 && c > 0
    ensures r.Some? <==> Product(bytes, a, b, c) <= SIZE_MAX
    ensures r.Some? ==> r.value == Product(bytes, a, b, c) && r.value > 0
  {
    PrefixesAtMost(bytes, a, b, c);
    var ok, acc := Mul(bytes, a);
    if !ok {
      return None;
    }
    ok, acc := Mul(acc, b);
    if !ok {
      return None;
    }
    ok, acc := Mul(acc, c);
    return if ok then Some(acc) else None;
  }

  lemma PrefixesAtMost(bytes: nat, a: nat, b: nat, c: nat)
    requires bytes > 0 && a > 0 && b > 0 && c > 0
    ensures 0 < Times(bytes, a) <= Times(Times(bytes, a), b) <= Product(bytes, a, b, c)
  {
    hide Times;
    PrefixAtMost(bytes, a);
    PrefixAtMost(Times(bytes, a), b);
    PrefixAtMost(Times(Times(bytes, a), b), c);
  }

  // ---------------------------------------------------------- consequences

  lemma Mul4Mono(a: nat, b: nat, c: nat, d: nat, a': nat, b': nat, c': nat, d': nat)
    requires a <= a' && b <= b' && c <= c' && d <= d'
    ensures Product(a, b, c, d) <= Product(a', b', c', d')
  {
    hide Times;
    TimesMono(a, b, a', b');
    TimesMono(Times(a, b), c, Times(a', b'), c');
    TimesMono(Times(Times(a, b), c), d, Times(Times(a', b'), c'), d');
  }

  lemma TimesMono(a: nat, b: nat, a': nat, b': nat)
    requires a <= a' && b <= b'
    ensures Times(a, b) <= Times(a', b')
  {
    MulMono(a, a', b);
    MulMono(b, b', a');
  }

  /** Monotone in every extent, an absent one counting as 1. */
  lemma SizeMonotone(w: nat, h: nat, d: nat, w': nat, h': nat, d': nat, format: int, channels: nat)
    requires w <= w' && h <= h' && d <= d'
    ensures FullSize(w, h, d, format, channels) <= FullSize(w', h', d', format, channels)
  {
    hide Product;
    if BlockBytes(format) != 0 {
      Mul4Mono(BlockBytes(format), Blocks(w), Blocks(Extent(h)), Extent(d),
               BlockBytes(format), Blocks(w'), Blocks(Extent(h')), Extent(d'));
    } else {
      Mul4Mono(ElementBytes(format, channels), w, Extent(h), Extent(d),
               ElementBytes(format, channels), w', Extent(h'), Extent(d'));
    }
  }

  /** Bytes of a block format, by the blocks of four by four that cover the extent: eight
      each for BC1 and BC4, sixteen for BC2, BC3, BC5, BC6H and BC7. */
  lemma BlockSizes(w: nat, h: nat, d: nat, format: int, channels: nat, bw: nat, bh: nat)
    requires 4 * bw - 4 < w <= 4 * bw && 4 * bh - 4 < (if h == 0 then 1 else h) <= 4 * bh
    ensures format in {0x91, 0x92, 0x97, 0x98} ==>
      FullSize(w, h, d, format, channels) == 8 * bw * bh * if d == 0 then 1 else d
    ensures format in {0x93, 0x94, 0x95, 0x96, 0x99, 0x9a, 0x9b, 0x9c, 0x9d, 0x9e} ==>
      FullSize(w, h, d, format, channels) == 16 * bw * bh * if d == 0 then 1 else d
  {
    assert Blocks(w) == bw && Blocks(Extent(h)) == bh;
    hide Blocks;
  }

  /** Bytes of any other format: one element a texel, an absent extent counting as 1. */
  lemma PlainSizes(w: nat, h: nat, d: nat, format: int, channels: nat)
    requires !(0x91 <= format <= 0x9e)
    ensures FullSize(w, h, d, format, channels)
      == ElementBytes(format, channels) * w * (if h == 0 then 1 else h) * if d == 0 then 1 else d
  {
    hide ElementBytes;
  }

  /** The packed 10:10:10:2 element is four bytes whatever the descriptor says, and an
      unclassified one is charged eight bytes a channel. */
  lemma OtherFormats(format: int, channels: nat)
    requires channels in {1, 2, 4}
    ensures ElementBytes(0x50, channels) == 4
    ensures format in {0x01, 0x02, 0x03, 0x08, 0x09, 0x0a, 0x10, 0x20, 0x50} || 0x91 <= format <= 0x9e
      || 0xc0 <= format <= 0xcb || ElementBytes(format, channels) == 8 * channels
  {
  }

  /** Layers and cube faces: depth multiplies the slice, whatever the flags. */
  lemma DepthMultiplies(w: nat, h: nat, d: nat, format: int, channels: nat)
    requires d > 0
    ensures FullSize(w, h, d, format, channels) == d * FullSize(w, h, 0, format, channels)
  {
    hide BlockBytes, ElementBytes, Blocks;
  }

  /** The fallback never under-charges: any classified element, of any format not
      sized by block, is at most an unclassified one. */
  lemma UnknownChargedMost(unknown: int, known: int, w: nat, h: nat, d: nat, channels: nat)
    requires !IsKnown(unknown) && BlockBytes(known) == 0 && Sizable(w, channels)
    ensures FullSize(w, h, d, known, channels) <= FullSize(w, h, d, unknown, channels)
  {
    hide Product;
    assert ElementBytes(known, channels) <= ElementBytes(unknown, channels);
    Mul4Mono(ElementBytes(known, channels), w, Extent(h), Extent(d),
             ElementBytes(unknown, channels), w, Extent(h), Extent(d));
  }

  /** The block formats ignore NumChannels. They are charged at least their sixteenth of
      a block for every texel, and at most a whole block, the latter on an extent too
      small to fill one. */
  lemma BlockIgnoresChannels(w: nat, h: nat, d: nat, format: int, c1: nat, c2: nat)
    requires BlockBytes(format) != 0
    ensures FullSize(w, h, d, format, c1) == FullSize(w, h, d, format, c2)
    ensures var whole := Product(BlockBytes(format), w, Extent(h), Extent(d));
      FullSize(w, h, d, format, c1) <= whole <= 16 * FullSize(w, h, d, format, c1)
  {
    hide Product;
    var b, x, y, z := BlockBytes(format), Blocks(w), Blocks(Extent(h)), Extent(d);
    Mul4Mono(b, w, Extent(h), z, b, 4 * x, 4 * y, z);
    Mul4Mono(b, x, y, z, b, w, Extent(h), z);
    Regroup(b, x, y, z);
  }

  /** ... as a single texel is. */
  lemma WholeBlock(d: nat, format: int, channels: nat)
    requires BlockBytes(format) != 0
    ensures FullSize(1, 1, d, format, channels) == BlockBytes(format) * Extent(d)
  {
  }

  lemma Regroup(b: nat, x: nat, y: nat, z: nat)
    ensures Product(b, 4 * x, 4 * y, z) == 16 * Product(b, x, y, z)
  {
    assert b * (4 * x) == 4 * (b * x);
    assert 4 * (b * x) * (4 * y) == 16 * (b * x * y);
    assert 16 * (b * x * y) * z == 16 * (b * x * y * z);
  }
}
