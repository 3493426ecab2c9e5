/** One chain of an evbuffer: a fixed block of memory holding `off` bytes at `misalign`. */
module Chains {
  import opened Octets

  const CHAIN_MAX: nat := 0x7FFF_FFFF_FFFF_FFFF
  const CHAIN_SIZE: nat := 48
  const MIN_BUFFER_SIZE: nat := 1024

  class Chain {
    var next: Chain?
    const buffer: array<byte>
    var misalign: nat
    var off: nat

    ghost predicate Holds(d: seq<byte>)
      reads this`misalign, this`off, buffer
    {
      && 0 < buffer.Length <= CHAIN_MAX - CHAIN_SIZE
      && off == |d|
      && misalign + off <= buffer.Length
      && (forall k {:trigger d[k]} :: 0 <= k < |d| ==> buffer[misalign + k] == d[k])
    }

    constructor (len: nat)
      requires 0 < len <= CHAIN_MAX - CHAIN_SIZE
      ensures fresh(buffer) && buffer.Length == len
      ensures next == null && misalign == 0 && off == 0
      ensures Holds([])
    {
      buffer := new byte[len];
      next, misalign, off := null, 0, 0;
    }

    /** `memcpy` of `src` to `buffer + at`. */
    method Copy(at: nat, src: seq<byte>)
      requires at + |src| <= buffer.Length
      modifies buffer
      ensures forall k :: 0 <= k < buffer.Length ==>
        buffer[k] == if at <= k < at + |src| then src[k - at] else old(buffer[k])
    {
      var i := 0;
      while i < |src|
        invariant 0 <= i <= |src|
        invariant forall k :: 0 <= k < buffer.Length ==>
          buffer[k] == if at <= k < at + i then src[k - at] else old(buffer[k])
      {
        buffer[at + i] := src[i];
        i := i + 1;
      }
    }

    /** Write `src` after the bytes held. */
    method AppendBytes(src: seq<byte>, ghost d: seq<byte>)
      requires Holds(d) && misalign + off + |src| <= buffer.Length
      modifies this`off, buffer
      ensures Holds(d + src)
    {
      Copy(misalign + off, src);
      off := off + |src|;
    }

    /** Write `src` in front of the bytes held, into the misaligned space. */
    method PrependBytes(src: seq<byte>, ghost d: seq<byte>)
      requires Holds(d) && |src| <= misalign
      modifies this`off, this`misalign, buffer
      ensures Holds(src + d) && misalign == old(misalign) - |src|
    {
      Copy(misalign - |src|, src);
      off, misalign := off + |src|, misalign - |src|;
    }

    /** `memmove` the bytes to the start of the memory. */
    method Align(ghost d: seq<byte>)
      requires Holds(d)
      modifies this`misalign, buffer
      ensures Holds(d) && misalign == 0
    {
      forall k | 0 <= k < off { buffer[k] := buffer[misalign + k]; }
      misalign := 0;
    }

    /** Let go of the first `n` bytes. */
    method Skip(n: nat, ghost d: seq<byte>)
      requires Holds(d) && n <= off
      modifies this`off, this`misalign
      ensures Holds(d[n..]) && misalign == old(misalign) + n
    {
      misalign, off := misalign + n, off - n;
    }

    function Byte(k: nat): byte
      requires misalign + k < buffer.Length
      reads this`misalign, buffer
    {
      buffer[misalign + k]
    }

    /** `n` bytes from `at` on. */
    function Bytes(at: nat, n: nat): seq<byte>
      requires misalign + at + n <= buffer.Length
      reads this`misalign, buffer
    {
      buffer[misalign + at..misalign + at + n]
    }

    lemma BytesHeld(at: nat, n: nat, d: seq<byte>)
      requires Holds(d) && at + n <= off
      ensures Bytes(at, n) == d[at..at + n]
    {
      assert forall k :: 0 <= k < n ==> Bytes(at, n)[k] == d[at + k];
    }
  }

  /** A size reached by doubling the smallest. */
  predicate Doubled(n: nat) {
    n == MIN_BUFFER_SIZE || (n > MIN_BUFFER_SIZE && n % 2 == 0 && Doubled(n / 2))
  }

  /** The allocation made when `size` is needed: doubled up to it or, when it is huge, just that. */
  predicate Sized(n: nat, size: nat) {
    && size <= n <= CHAIN_MAX && MIN_BUFFER_SIZE <= n
    && if size < CHAIN_MAX / 2 then Doubled(n) && (n == MIN_BUFFER_SIZE || n / 2 < size) else n == size
  }

  /** How much to ask the allocator for: doubled up from the minimum, unless already huge. */
  method AllocationSize(size: nat) returns (n: nat)
    requires CHAIN_SIZE <= size <= CHAIN_MAX
    ensures Sized(n, size)
  {
    if size < CHAIN_MAX / 2 {
      n := MIN_BUFFER_SIZE;
      while n < size
        invariant MIN_BUFFER_SIZE <= n <= CHAIN_MAX
        invariant Doubled(n) && (n == MIN_BUFFER_SIZE || n / 2 < size)
        decreases size - n
      {
        n := n * 2;
      }
    } else {
      n := size;
    }
  }

  predicate Allocatable(size: nat) {
    size <= CHAIN_MAX - CHAIN_SIZE
  }

  /** `mem` says whether the allocator has memory. */
  method NewChain(size: nat, mem: bool) returns (c: Chain?)
    ensures c != null <==> mem && Allocatable(size)
    ensures c != null ==> fresh(c) && fresh(c.buffer) && size <= c.buffer.Length
    ensures c != null ==> Sized(c.buffer.Length + CHAIN_SIZE, size + CHAIN_SIZE)
    ensures c != null ==> c.next == null && c.misalign == 0 && c.Holds([])
  {
    c := null;
    if Allocatable(size) {
      var n := AllocationSize(size + CHAIN_SIZE);
      if mem {
        c := new Chain(n - CHAIN_SIZE);
      }
    }
  }

  /** A new chain holding `src` at the end of its memory. */
  method NewChainAtEnd(src: seq<byte>, mem: bool) returns (c: Chain?)
    ensures c != null <==> mem && Allocatable(|src|)
    ensures c != null ==> fresh(c) && fresh(c.buffer) && c.next == null && c.Holds(src)
  {
    c := NewChain(|src|, mem);
    if c != null {
      c.misalign := c.buffer.Length;
      c.PrependBytes(src, []);
      assert src + [] == src;
    }
  }
}
