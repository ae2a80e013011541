/** Size and layout of a stack-chunk object: how many words its oop bitmap
    takes, where in the bitmap the first used bit sits, and the total object
    size (instanceStackChunkKlass.inline.hpp, instance_size, bitmap_size and
    bit_offset).  All quantities are unsigned (size_t) in the source; they are
    `nat` here, since no realistic capacity comes near 2^64. */
module ChunkLayout {

  const LogBitsPerWord: nat := 6
  const BitsPerWord: nat := 64

  /** The configuration these functions read: the UseChunkBitmaps and
      UseCompressedOops flags, the fixed part of a StackChunk instance
      (size_helper()) and the object alignment used by align_object_size. */
  datatype LayoutConfig = LayoutConfig(
    useChunkBitmaps: bool,
    useCompressedOops: bool,
    headerWords: nat,
    objectAlignment: nat)

  ghost predicate ConfigOk(cfg: LayoutConfig) {
    cfg.objectAlignment > 0
  }

  /** Number of heap references (bitmap bits) per stack word: two narrow oops
      or one full oop. */
  function RefsPerWord(cfg: LayoutConfig): (r: nat)
    ensures r == 1 || r == 2
  {
    if cfg.useCompressedOops then 2 else 1
  }

  /** bitmap_size_in_bits: one bit per reference-sized slot of the stack. */
  function BitmapSizeInBits(cfg: LayoutConfig, stackSizeInWords: nat): nat {
    stackSizeInWords * RefsPerWord(cfg)
  }

  /** bit_offset: padding bits put in front of the used bits so that the last
      used bit ends a bitmap word.  `x & (BitsPerWord - 1)` on an unsigned x
      is `x % BitsPerWord`. */
  function BitOffset(cfg: LayoutConfig, stackSizeInWords: nat): (r: nat)
    ensures r < BitsPerWord
    ensures (BitmapSizeInBits(cfg, stackSizeInWords) + r) % BitsPerWord == 0
  {
    (BitsPerWord - BitmapSizeInBits(cfg, stackSizeInWords) % BitsPerWord) % BitsPerWord
  }

  /** bitmap_size: the bitmap length in words, zero when bitmaps are off. */
  function BitmapSize(cfg: LayoutConfig, stackSizeInWords: nat): (r: nat)
    ensures !cfg.useChunkBitmaps ==> r == 0
    // the assertion in the source: padding plus used bits fill r whole words
    ensures cfg.useChunkBitmaps ==>
      BitmapSizeInBits(cfg, stackSizeInWords) + BitOffset(cfg, stackSizeInWords) == r * BitsPerWord
    // ... and r is the least such count: ceil(bits / BitsPerWord)
    ensures cfg.useChunkBitmaps ==>
      r * BitsPerWord >= BitmapSizeInBits(cfg, stackSizeInWords) &&
      (r > 0 ==> (r - 1) * BitsPerWord < BitmapSizeInBits(cfg, stackSizeInWords))
    ensures cfg.useChunkBitmaps ==> (r == 0 <==> stackSizeInWords == 0)
  {
    if !cfg.useChunkBitmaps then 0
    else
      var sizeInBits := BitmapSizeInBits(cfg, stackSizeInWords);
      var remainder := if sizeInBits % BitsPerWord != 0 then 1 else 0;
      sizeInBits / BitsPerWord + remainder
  }

  /** align_up to a positive alignment. */
  function AlignUp(x: nat, alignment: nat): nat
    requires alignment > 0
  {
    ((x + alignment - 1) / alignment) * alignment
  }

  /** instance_size: fixed part, stack words and bitmap words, aligned. */
  function InstanceSize(cfg: LayoutConfig, stackSizeInWords: nat): nat
    requires ConfigOk(cfg)
  {
    AlignUp(cfg.headerWords + stackSizeInWords + BitmapSize(cfg, stackSizeInWords), cfg.objectAlignment)
  }

  lemma BitmapSizeMonotone(cfg: LayoutConfig, n: nat, m: nat)
    requires n <= m
    ensures BitmapSize(cfg, n) <= BitmapSize(cfg, m)
  {
    if cfg.useChunkBitmaps {
      assert BitmapSizeInBits(cfg, n) <= BitmapSizeInBits(cfg, m);
    }
  }

  // Arithmetic helpers for the alignment proofs.

  lemma MulLe(p: int, q: int, a: nat)
    requires p <= q
    ensures p * a <= q * a
  {
    assert q * a - p * a == (q - p) * a;
  }

  lemma SmallMultipleIsZero(d: int, a: int)
    requires a > 0 && -a < d * a < a
    ensures d == 0
  {
    if d >= 1 {
      MulLe(1, d, a);
    } else if d <= -1 {
      MulLe(d, -1, a);
    }
  }

  lemma ModUnique(s: int, a: int, q: int, r: int)
    requires a > 0 && s == q * a + r && 0 <= r < a
    ensures s / a == q && s % a == r
  {
    var q2, r2 := s / a, s % a;
    assert (q - q2) * a == r2 - r;
    SmallMultipleIsZero(q - q2, a);
  }

  lemma DivMonotone(s: nat, t: nat, a: nat)
    requires a > 0 && s <= t
    ensures s / a <= t / a
  {
    if s / a > t / a {
      MulLe(t / a + 1, s / a, a);
    }
  }

  /** align_up gives the least multiple of the alignment that is >= x. */
  lemma AlignUpBounds(x: nat, alignment: nat)
    requires alignment > 0
    ensures AlignUp(x, alignment) % alignment == 0
    ensures x <= AlignUp(x, alignment) < x + alignment
  {
    var s := x + alignment - 1;
    var q := s / alignment;
    assert s == q * alignment + s % alignment;
    ModUnique(q * alignment, alignment, q, 0);
  }

  lemma AlignUpMonotone(x: nat, y: nat, alignment: nat)
    requires alignment > 0 && x <= y
    ensures AlignUp(x, alignment) <= AlignUp(y, alignment)
  {
    DivMonotone(x + alignment - 1, y + alignment - 1, alignment);
    MulLe((x + alignment - 1) / alignment, (y + alignment - 1) / alignment, alignment);
  }

  /** The object is aligned and large enough for its header, its stack and
      its bitmap. */
  lemma InstanceSizeFits(cfg: LayoutConfig, n: nat)
    requires ConfigOk(cfg)
    ensures InstanceSize(cfg, n) % cfg.objectAlignment == 0
    ensures cfg.headerWords + n + BitmapSize(cfg, n) <= InstanceSize(cfg, n)
      < cfg.headerWords + n + BitmapSize(cfg, n) + cfg.objectAlignment
  {
    AlignUpBounds(cfg.headerWords + n + BitmapSize(cfg, n), cfg.objectAlignment);
  }

  /** A larger stack never yields a smaller object. */
  lemma InstanceSizeMonotone(cfg: LayoutConfig, n: nat, m: nat)
    requires ConfigOk(cfg) && n <= m
    ensures InstanceSize(cfg, n) <= InstanceSize(cfg, m)
  {
    BitmapSizeMonotone(cfg, n, m);
    AlignUpMonotone(cfg.headerWords + n + BitmapSize(cfg, n),
                    cfg.headerWords + m + BitmapSize(cfg, m), cfg.objectAlignment);
  }
}
