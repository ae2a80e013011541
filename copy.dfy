/** The raw word-copy primitives used when frames move between a thread's
    stack and a stack chunk (copy_from_stack_to_chunk and
    copy_from_chunk_to_stack).  Each is a memcpy of `size << LogBytesPerWord`
    bytes; both buffers are word aligned, so that is a copy of `size` whole
    words, and memory is modelled as arrays of words. */
module RawCopy {

  /** `dst` with the words at [off, off + |src|) replaced by `src`. */
  function Overwrite(dst: seq<int>, off: nat, src: seq<int>): (r: seq<int>)
    requires off + |src| <= |dst|
    ensures |r| == |dst|
    ensures forall i :: 0 <= i < |src| ==> r[off + i] == src[i]
    ensures forall i :: 0 <= i < |dst| && !(off <= i < off + |src|) ==> r[i] == dst[i]
  {
    dst[..off] + src + dst[off + |src|..]
  }

  /** The one copy loop both primitives share: words from[fromOff ..
      fromOff + size) land at to[toOff .. toOff + size); nothing else in `to`
      changes.  The two buffers are distinct (memcpy forbids overlap). */
  method CopyWords(from: array<int>, fromOff: nat, to: array<int>, toOff: nat, size: nat)
    requires from != to
    requires fromOff + size <= from.Length && toOff + size <= to.Length
    modifies to
    ensures to[..] == Overwrite(old(to[..]), toOff, from[fromOff..fromOff + size])
  {
    var i := 0;
    while i < size
      invariant 0 <= i <= size
      invariant forall k :: toOff <= k < toOff + i ==> to[k] == from[fromOff + (k - toOff)]
      invariant forall k :: 0 <= k < to.Length && !(toOff <= k < toOff + i) ==> to[k] == old(to[k])
    {
      to[toOff + i] := from[fromOff + i];
      i := i + 1;
    }
    ghost var want := Overwrite(old(to[..]), toOff, from[fromOff..fromOff + size]);
    forall k | 0 <= k < to.Length ensures to[k] == want[k] {
      if toOff <= k < toOff + size {
        assert want[toOff + (k - toOff)] == from[fromOff..fromOff + size][k - toOff];
      }
    }
    assert to[..] == want;
  }

  /** Freeze: copy `size` words of a thread stack into a chunk. */
  method CopyFromStackToChunk(stack: array<int>, from: nat, chunk: array<int>, to: nat, size: nat)
    requires stack != chunk
    requires from + size <= stack.Length && to + size <= chunk.Length
    modifies chunk
    ensures chunk[..] == Overwrite(old(chunk[..]), to, stack[from..from + size])
  {
    CopyWords(stack, from, chunk, to, size);
  }

  /** Thaw: copy `size` words of a chunk back onto a thread stack. */
  method CopyFromChunkToStack(chunk: array<int>, from: nat, stack: array<int>, to: nat, size: nat)
    requires stack != chunk
    requires from + size <= chunk.Length && to + size <= stack.Length
    modifies stack
    ensures stack[..] == Overwrite(old(stack[..]), to, chunk[from..from + size])
  {
    CopyWords(chunk, from, stack, to, size);
  }

  /** Writing back what a region already holds changes nothing. */
  lemma OverwriteSame(s: seq<int>, off: nat, n: nat)
    requires off + n <= |s|
    ensures Overwrite(s, off, s[off..off + n]) == s
  {
    var r := Overwrite(s, off, s[off..off + n]);
    assert forall i :: 0 <= i < |s| ==> r[i] == s[i] by {
      forall i | 0 <= i < |s| ensures r[i] == s[i] {
        if off <= i < off + n {
          assert r[off + (i - off)] == s[off..off + n][i - off];
        }
      }
    }
  }

  /** Freezing `n` words into a chunk and thawing the same words back onto
      the same place of the stack leaves the stack exactly as it was, and the
      chunk then holds a copy of those words. */
  lemma {:induction false} FreezeThawRoundTrip(stack: seq<int>, from: nat, chunk: seq<int>, to: nat, n: nat)
    requires from + n <= |stack| && to + n <= |chunk|
    ensures Overwrite(chunk, to, stack[from..from + n])[to..to + n] == stack[from..from + n]
    ensures Overwrite(stack, from, Overwrite(chunk, to, stack[from..from + n])[to..to + n]) == stack
  {
    var frozen := Overwrite(chunk, to, stack[from..from + n]);
    assert frozen[to..to + n] == stack[from..from + n] by {
      forall k | to <= k < to + n ensures frozen[k] == stack[from + (k - to)] {
        assert frozen[to + (k - to)] == stack[from..from + n][k - to];
      }
    }
    OverwriteSame(stack, from, n);
  }

  /** The two primitives used one after the other restore the stack. */
  method CopyRoundTrip(stack: array<int>, from: nat, chunk: array<int>, to: nat, size: nat)
    requires stack != chunk
    requires from + size <= stack.Length && to + size <= chunk.Length
    modifies stack, chunk
    ensures stack[..] == old(stack[..])
    ensures chunk[to..to + size] == old(stack[from..from + size])
    ensures chunk[..to] == old(chunk[..to]) && chunk[to + size..] == old(chunk[to + size..])
  {
    CopyFromStackToChunk(stack, from, chunk, to, size);
    CopyFromChunkToStack(chunk, to, stack, from, size);
    FreezeThawRoundTrip(old(stack[..]), from, old(chunk[..]), to, size);
  }
}
