/** The stack-chunk object as the scanning code sees it. */
module StackChunks {
  import opened ChunkLayout

  /** InstanceStackChunkKlass::metadata_words() on x86_64 and AArch64: the
      return address and the saved frame pointer above a frame's sp. */
  const MetadataWords: int := 2

  /** HotSpot's MemRegion: the heap words [start, end). */
  datatype MemRegion = MemRegion(start: int, end: int) {
    /** MemRegion::contains for a byte address. */
    predicate Contains(p: int) {
      8 * start <= p < 8 * end
    }
  }

  /** A stack chunk.  `start` is start_address() as a word address; the
      stack words follow it; `sp` is the offset of the top frame; `argsize`
      the stack-argument words of the bottom frame, which lie between
      bottom_address() and end_address(); `parentAddr` and `contAddr` are the
      byte addresses of the parent and cont fields; `range` is the whole
      object (range()). */
  datatype StackChunk = StackChunk(
    start: int,
    stack: seq<int>,
    sp: nat,
    argsize: nat,
    hasMixedFrames: bool,
    hasBitmap: bool,
    bitmap: seq<bool>,
    parentAddr: int,
    contAddr: int,
    range: MemRegion)
  {
    function StackSize(): nat {
      |stack|
    }

    function EndAddress(): int {
      start + |stack|
    }

    function BottomAddress(): int {
      start + |stack| - argsize
    }

    function SpAddress(): int {
      start + sp
    }

    function WordAt(a: int): int
      requires start <= a < EndAddress()
    {
      stack[a - start]
    }
  }

  /** The chunk as the scanners expect it: its bottom lies inside the stack;
      its sp leaves room for the top frame's metadata (assumed of every
      chunk: the frame stream asserts only that sp is not negative) and lies
      no further than metadata_words past the end, as the frame stream
      asserts; and a bitmap, when present, has exactly bitmap_size() words. */
  ghost predicate ChunkOk(chunk: StackChunk, cfg: LayoutConfig) {
    && chunk.argsize <= |chunk.stack|
    && MetadataWords <= chunk.sp <= |chunk.stack| + MetadataWords
    && (chunk.hasBitmap ==>
          cfg.useChunkBitmaps && |chunk.bitmap| == BitmapSize(cfg, |chunk.stack|) * BitsPerWord)
  }
}
