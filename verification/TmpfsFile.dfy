/** tmpfs file contents: a buffer that grows by doubling, shared by any number of open
    handles, each with its own position. */
module TmpfsFile {
  import opened Bits

  const EINVAL := -4
  const ENOMEM := -3
  const EACCES := -6
  const DEFAULT_FILE_SIZE: nat := 4096
  const WORD := 0x1_0000_0000_0000_0000      // 2^64: size_t
  const HALF := 0x8000_0000_0000_0000        // 2^63

  /** `size_t` arithmetic. */
  function Wrap(x: int): (r: nat)
    ensures r < WORD
  {
    x % WORD
  }

  /** A `size_t` read back as a `long`. */
  function Signed(x: nat): (r: int)
    requires x < WORD
    ensures -HALF <= r < HALF && Wrap(r) == x
  {
    if x < HALF then x else x - WORD
  }

  /** The capacity after `n` doublings in 64-bit arithmetic. */
  function Doubled(capacity: nat, n: nat): (r: nat)
    ensures r < WORD || (n == 0 && r == capacity)
  {
    if n == 0 then capacity else Wrap(2 * Doubled(capacity, n - 1))
  }

  /** Capacities are 4096 * 2^k and stay below 2^64 until they wrap to 0. */
  ghost predicate IsCapacity(c: nat) {
    exists k: nat :: k <= 51 && c == DEFAULT_FILE_SIZE * Pow2(k)
  }

  lemma Pow2Of17()
    ensures Pow2(17) == 0x2_0000
  {
    assert Pow2(8) == 0x100;
    Pow2Add(8, 9);
  }

  lemma Pow2Of51()
    ensures Pow2(51) == 0x8_0000_0000_0000
  {
    hide Pow2;
    Pow2Of17();
    Pow2Add(17, 17);
    Pow2Add(34, 17);
  }

  lemma {:induction false} DoubledIsPower(k: nat, n: nat)
    requires k <= 51
    ensures Doubled(DEFAULT_FILE_SIZE * Pow2(k), n) == if k + n <= 51 then DEFAULT_FILE_SIZE * Pow2(k + n) else 0
  {
    if n > 0 {
      DoubledIsPower(k, n - 1);
      Pow2Of51();
      if k + n <= 51 {
        Pow2Monotone(k + n, 51);
      } else if k + n - 1 == 51 {
        assert 2 * (DEFAULT_FILE_SIZE * Pow2(51)) == WORD;
      }
    }
  }

  /** The doubling loop of `tmpfs_write` reaches the required capacity, a 64-bit number, exactly
      when that is at most 2^63; above it the capacity wraps to 0 and the loop never ends. */
  lemma DoublingEndsIff(capacity: nat, required: nat)
    requires IsCapacity(capacity) && 0 < required < WORD
    ensures (exists n: nat :: Doubled(capacity, n) >= required) <==> required <= HALF
  {
    var k: nat :| k <= 51 && capacity == DEFAULT_FILE_SIZE * Pow2(k);
    Pow2Of51();
    if required <= HALF {
      DoubledIsPower(k, 51 - k);
      assert Doubled(capacity, 51 - k) >= required;
    } else {
      forall n: nat ensures Doubled(capacity, n) < required {
        DoubledIsPower(k, n);
        if k + n <= 51 {
          Pow2Monotone(k + n, 51);
        }
      }
    }
  }

  /** What `tmpfs_write` computes with is the true end of the write, and its loop ends, exactly
      when that end is at most 2^63.  From 2^64 on the computed end lies below the position: the
      growing part is skipped and the copy runs past the buffer. */
  lemma WriteSafeIff(capacity: nat, pos: nat, len: nat)
    requires IsCapacity(capacity) && pos < HALF && 0 < len < WORD
    ensures (exists n: nat :: Doubled(capacity, n) >= Wrap(pos + len)) && Wrap(pos + len) == pos + len
      <==> pos + len <= HALF
    ensures pos + len >= WORD ==> Wrap(pos + len) < pos
  {
    hide Wrap, IsCapacity, Doubled;
    WrapOnce(pos + len);
    if pos + len < WORD {
      DoublingEndsIff(capacity, pos + len);
    }
  }

  // ---------------------------------------------------------------- the allocator underneath

  const NARROW := 0x1_0000_0000                // 2^32: unsigned int
  const MAX_ALLOC_SIZE := 0x200_0000           // 32 MiB

  /** `alloc` takes an `unsigned int`, so a `size_t` is cut to 32 bits on the way in. */
  predicate AllocWorks(size: nat, memory: bool) {
    memory && 0 < size % NARROW <= MAX_ALLOC_SIZE
  }

  /** A capacity that is cut is cut to 0, so a buffer is never smaller than asked for. */
  lemma CapacityNotCut(k: nat, memory: bool)
    requires k <= 51 && AllocWorks(DEFAULT_FILE_SIZE * Pow2(k), memory)
    ensures DEFAULT_FILE_SIZE * Pow2(k) <= MAX_ALLOC_SIZE
  {
    hide Pow2;
    if k >= 20 {
      MultipleOfNarrow(k - 20);
    } else if k >= 14 {
      TooBigButNotCut(k);
    } else {
      Pow2Monotone(k, 13);
      Pow2Small();
    }
  }

  lemma TooBigButNotCut(k: nat)
    requires 14 <= k < 20
    ensures MAX_ALLOC_SIZE < DEFAULT_FILE_SIZE * Pow2(k) < NARROW
  {
    hide Pow2;
    Pow2Monotone(14, k);
    Pow2Monotone(k, 19);
    Pow2Of17();
    Pow2Small();
    Pow2Add(17, 2);
  }

  lemma Pow2Small()
    ensures Pow2(2) == 4 && Pow2(13) == 0x2000 && Pow2(14) == 0x4000
  {
  }

  lemma MultipleOfNarrow(j: nat)
    ensures (DEFAULT_FILE_SIZE * Pow2(j + 20)) % NARROW == 0
  {
    Pow2Of17();
    Pow2Add(17, 3);
    Pow2Add(j, 20);
    assert Pow2(20) == 0x10_0000;
    assert DEFAULT_FILE_SIZE * Pow2(j + 20) == NARROW * Pow2(j);
    MultipleMod(Pow2(j));
  }

  lemma MultipleMod(x: nat)
    ensures (NARROW * x) % NARROW == 0
  {
  }

  // ---------------------------------------------------------------- contents

  /** `after` is `before` with `buf` written at `pos`; beyond the old end, bytes that were
      skipped over may have any value. */
  ghost predicate Written(before: seq<byte>, after: seq<byte>, pos: nat, buf: seq<byte>) {
    && |after| == (if pos + |buf| > |before| then pos + |buf| else |before|)
    && (forall i :: pos <= i < pos + |buf| ==> after[i] == buf[i - pos])
    && (forall i :: 0 <= i < |before| && !(pos <= i < pos + |buf|) ==> after[i] == before[i])
  }

  /** Not past the end, the write is exactly a splice. */
  lemma WrittenIsSplice(before: seq<byte>, after: seq<byte>, pos: nat, buf: seq<byte>)
    requires pos <= |before|
    ensures Written(before, after, pos, buf) <==>
      after == before[..pos] + buf + (if pos + |buf| <= |before| then before[pos + |buf|..] else [])
  {
  }

  /** What any handle reads after a write: the written bytes where they were written, and the
      old bytes everywhere else. */
  lemma ReadAfterWrite(before: seq<byte>, after: seq<byte>, pos: nat, buf: seq<byte>, from: nat, to: nat)
    requires Written(before, after, pos, buf) && from <= to <= |after|
    ensures from == pos && to == pos + |buf| ==> after[from..to] == buf
    ensures to <= |before| && (to <= pos || pos + |buf| <= from) ==> after[from..to] == before[from..to]
  {
  }

  class Node {
    const isFile: bool
    var data: array<byte>
    var size: nat
    var capacity: nat

    ghost predicate Valid()
      reads this
    {
      && data.Length == capacity <= MAX_ALLOC_SIZE && size <= capacity
      && (isFile ==> IsCapacity(capacity))
    }

    /** The bytes of the file. */
    ghost function Content(): (c: seq<byte>)
      reads this, data
      requires Valid()
      ensures |c| == size
    {
      data[..size]
    }

    constructor (isFile: bool)
      ensures Valid() && Content() == [] && this.isFile == isFile && fresh(data)
      ensures capacity == if isFile then 4096 else 0
    {
      this.isFile := isFile;
      data := new byte[if isFile then DEFAULT_FILE_SIZE else 0](_ => 0);
      size := 0;
      capacity := if isFile then DEFAULT_FILE_SIZE else 0;
      new;
      assert isFile ==> capacity == DEFAULT_FILE_SIZE * Pow2(0);
    }
  }

  /** `memcpy` of `n` bytes from the start of `src` to `dst[at..]`; `n` is an `unsigned int`. */
  method Memcpy(dst: array<byte>, at: nat, src: seq<byte>, n: nat)
    requires n < NARROW && n <= |src| && at + n <= dst.Length
    modifies dst
    ensures forall i :: 0 <= i < dst.Length ==> dst[i] == if at <= i < at + n then src[i - at] else old(dst[i])
  {
    var i := 0;
    while i < n
      invariant i <= n
      invariant forall j :: 0 <= j < dst.Length ==> dst[j] == if at <= j < at + i then src[j - at] else old(dst[j])
    {
      dst[at + i] := src[i];
      i := i + 1;
    }
  }

  /** The doubling loop. */
  method NewCapacity(capacity: nat, required: nat) returns (c: nat)
    requires IsCapacity(capacity) && required <= HALF
    ensures IsCapacity(c) && c >= required && c >= capacity
    ensures c > capacity ==> c < 2 * required
  {
    Pow2Of51();
    c := capacity;
    ghost var k: nat :| k <= 51 && c == DEFAULT_FILE_SIZE * Pow2(k);
    while c < required
      invariant k <= 51 && c == DEFAULT_FILE_SIZE * Pow2(k) && c >= capacity
      invariant c > capacity ==> c < 2 * required
      decreases 51 - k
    {
      if k < 51 {
        Pow2Monotone(k + 1, 51);
      }
      c := Wrap(2 * c);
      k := k + 1;
    }
  }

  lemma WrapOnce(x: int)
    requires -WORD <= x < 2 * WORD
    ensures Wrap(x) == if x < 0 then x + WORD else if x < WORD then x else x - WORD
  {
  }

  lemma SliceOfPrefix(s: seq<byte>, size: nat, a: nat, b: nat)
    requires a <= b <= size <= |s|
    ensures s[..size][a..b] == s[a..b]
  {
  }

  lemma SmallMod(x: nat, bound: nat)
    requires x <= bound <= MAX_ALLOC_SIZE
    ensures x % NARROW == x
  {
  }

  /** `tmpfs_read` clips the length to what is left of the file, testing `pos + len` in 64-bit
      arithmetic. */
  function Readable(pos: nat, len: nat, size: nat): nat
    requires pos < size
  {
    if Wrap(pos + len) > size then size - pos else len
  }

  /** The clipped length stays within the file exactly when that sum does not wrap. */
  lemma ReadFitsIff(pos: nat, len: nat, size: nat)
    requires pos < size <= MAX_ALLOC_SIZE && len < WORD
    ensures pos + Readable(pos, len, size) <= size <==> pos + len < WORD
    ensures pos + len < WORD ==> Readable(pos, len, size) == if pos + len <= size then len else size - pos
  {
  }

  lemma SeekSum(base: nat, offset: int)
    requires base < HALF && -HALF <= offset < HALF
    ensures Signed(Wrap(base + Wrap(offset))) == if base + offset < HALF then base + offset else base + offset - WORD
  {
  }

  class Handle {
    const node: Node
    var pos: nat

    ghost predicate Valid()
      reads this
    {
      pos < HALF
    }

    constructor (node: Node)
      ensures Valid() && this.node == node && pos == 0
    {
      this.node, pos := node, 0;
    }

    method Write(buf: seq<byte>, memory: bool) returns (ret: int)
      requires Valid() && node.Valid() && pos + |buf| <= HALF
      modifies this`pos, node, node.data
      ensures Valid() && node.Valid() && (node.data == old(node.data) || fresh(node.data))
      ensures ret <= 0 ==>
        pos == old(pos) && node.Content() == old(node.Content()) && node.capacity == old(node.capacity)
      ensures ret > 0 ==>
        ret == |buf| && pos == old(pos) + |buf| && Written(old(node.Content()), node.Content(), old(pos), buf)
      ensures ret > 0 ==> node.capacity >= old(node.capacity)
      ensures node.capacity > old(node.capacity) ==> node.capacity < 2 * pos
      ensures old(pos) + |buf| <= old(node.capacity) ==> node.data == old(node.data)
      ensures ret == 0 <==> |buf| == 0
      ensures ret < 0 ==> ret == if node.isFile then ENOMEM else EACCES
      ensures ret > 0 <==>
        && |buf| > 0 && node.isFile
        && (old(pos) + |buf| <= old(node.capacity) || (memory && old(pos) + |buf| <= MAX_ALLOC_SIZE))
    {
      hide Wrap, IsCapacity;
      WrapOnce(pos + |buf|);
      if |buf| == 0 {
        return 0;
      }
      if !node.isFile {
        return EACCES;
      }
      if Wrap(pos + |buf|) > node.capacity {
        var ok := Grow(Wrap(pos + |buf|), memory);
        if !ok {
          return ENOMEM;
        }
      }
      ghost var before := node.Content();
      SmallMod(|buf|, node.capacity);
      Memcpy(node.data, pos, buf, |buf| % NARROW);
      ghost var data := node.data[..];
      pos := Wrap(pos + |buf|);
      if pos > node.size {
        node.size := pos;
      }
      assert Written(before, data[..node.size], old(pos), buf);
      ret := |buf|;
    }

    /** `tmpfs_read`: the bytes from the position on, at most `len` of them. */
    method Read(len: nat) returns (ret: int, out: seq<byte>)
      requires Valid() && node.Valid() && pos + len < WORD
      modifies this`pos
      ensures Valid()
      ensures !node.isFile && len > 0 ==> ret == EACCES && out == [] && pos == old(pos)
      ensures node.isFile || len == 0 ==>
        && ret == |out| && pos == old(pos) + |out|
        && out == (if old(pos) >= node.size then []
                   else node.Content()[old(pos)..if old(pos) + len > node.size then node.size else old(pos) + len])
    {
      hide Wrap, IsCapacity, Readable;
      out := [];
      if len == 0 {
        assert pos < node.size ==> node.Content()[pos..pos] == [];
        return 0, out;
      }
      if !node.isFile {
        return EACCES, out;
      }
      if pos >= node.size {
        return 0, out;
      }
      var readable := Readable(pos, len, node.size);
      ReadFitsIff(pos, len, node.size);
      SmallMod(readable, node.size);
      var n := readable % NARROW;
      out := node.data[pos..pos + n];
      SliceOfPrefix(node.data[..], node.size, pos, pos + n);
      assert out == node.data[..][pos..pos + n];
      WrapOnce(pos + readable);
      pos := Wrap(pos + readable);
      ret := readable;
    }

    /** `tmpfs_lseek64`: the target is computed in 64-bit arithmetic and refused when it is
        negative there, which is exactly when the true sum is negative or above 2^63 - 1. */
    method Lseek(offset: int, whence: int) returns (ret: int)
      requires Valid() && node.Valid() && -HALF <= offset < HALF
      modifies this`pos
      ensures Valid()
      ensures var base := if whence == 0 then 0 else if whence == 1 then old(pos) else node.size;
        if node.isFile && 0 <= whence <= 2 && 0 <= base + offset < HALF
        then ret == base + offset && pos == ret
        else ret == EINVAL && pos == old(pos)
    {
      hide Wrap, Signed;
      if !node.isFile {
        return EINVAL;
      }
      SeekSum(pos, offset);
      SeekSum(node.size, offset);
      var newPos: int;
      if whence == 0 {
        newPos := offset;
      } else if whence == 1 {
        newPos := Signed(Wrap(pos + Wrap(offset)));
      } else if whence == 2 {
        newPos := Signed(Wrap(node.size + Wrap(offset)));
      } else {
        return EINVAL;
      }
      if newPos < 0 {
        return EINVAL;
      }
      pos := newPos;
      ret := newPos;
    }

    /** The growing part of `tmpfs_write`. */
    method Grow(required: nat, memory: bool) returns (ok: bool)
      requires node.Valid() && node.isFile && node.capacity < required <= HALF
      modifies node
      ensures node.Valid() && node.Content() == old(node.Content()) && node.size == old(node.size)
      ensures ok ==> required <= node.capacity < 2 * required && fresh(node.data)
      ensures !ok ==> node.data == old(node.data) && node.capacity == old(node.capacity)
      ensures ok <==> memory && required <= MAX_ALLOC_SIZE
    {
      var newCapacity := NewCapacity(if node.capacity > 0 then node.capacity else DEFAULT_FILE_SIZE, required);
      ghost var k: nat :| k <= 51 && newCapacity == DEFAULT_FILE_SIZE * Pow2(k);
      AllocBound(k, required, memory);
      if newCapacity > node.capacity {
        if !AllocWorks(newCapacity, memory) {
          return false;
        }
        CapacityNotCut(k, memory);
        var newData := new byte[newCapacity % NARROW];
        Memcpy(newData, 0, node.data[..], node.size);
        node.data := newData;
        node.capacity := newCapacity;
      }
      ok := true;
    }
  }

  /** A capacity below twice a requirement of at most 32 MiB can be allocated. */
  lemma AllocBound(k: nat, required: nat, memory: bool)
    requires k <= 51
    ensures memory && required <= MAX_ALLOC_SIZE && DEFAULT_FILE_SIZE * Pow2(k) < 2 * required
      ==> AllocWorks(DEFAULT_FILE_SIZE * Pow2(k), memory)
  {
    hide Pow2;
    Pow2Small();
    if k >= 14 {
      Pow2Monotone(14, k);
    } else {
      Pow2Monotone(k, 13);
      SmallMod(DEFAULT_FILE_SIZE * Pow2(k), MAX_ALLOC_SIZE);
    }
  }
}
