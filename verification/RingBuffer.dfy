/** The contiguous byte buffer: data is written behind what is unread and moved down to the start
    of the array when only the space below it makes room. */
module RingBuffers {
  import opened Wrappers

  type Byte = b: int | 0 <= b < 256

  /** Copy `n` elements from `src` to the start, highest first. */
  function CopiedDownward(s: seq<Byte>, src: nat, n: nat): (r: seq<Byte>)
    requires src + n <= |s|
    ensures |r| == |s|
    decreases n
  {
    if n == 0 then s else CopiedDownward(s[n - 1 := s[src + n - 1]], src, n - 1)
  }

  lemma {:induction false} DownwardAt(s: seq<Byte>, src: nat, n: nat)
    requires 0 < src && src + n <= |s|
    ensures var r := CopiedDownward(s, src, n);
      && (forall k :: n <= k < |s| ==> r[k] == s[k])
      && forall k :: 0 <= k < n ==> r[k] == if src + k < n then r[src + k] else s[src + k]
    decreases n
  {
    if n > 0 {
      DownwardAt(s[n - 1 := s[src + n - 1]], src, n - 1);
    }
  }

  /** Moving `n` bytes down from `src` may be done in either direction if and only if the two ranges
      do not overlap (or coincide); when they overlap only the ascending order keeps the bytes. */
  lemma DirectionMattersIffOverlap(capacity: nat, src: nat, n: nat)
    requires src + n <= capacity
    ensures (forall s: seq<Byte> :: |s| == capacity ==> CopiedDownward(s, src, n)[..n] == s[src..src + n])
      <==> src == 0 || n <= src
  {
    if src == 0 || n <= src {
      forall s: seq<Byte> | |s| == capacity ensures CopiedDownward(s, src, n)[..n] == s[src..src + n] {
        DownwardKeeps(s, src, n);
      }
    } else {
      var s := DownwardLoses(capacity, src, n);
    }
  }

  lemma DownwardKeeps(s: seq<Byte>, src: nat, n: nat)
    requires src + n <= |s| && (src == 0 || n <= src)
    ensures CopiedDownward(s, src, n)[..n] == s[src..src + n]
  {
    if src == 0 {
      InPlace(s, n);
    } else {
      DownwardAt(s, src, n);
    }
  }

  lemma DownwardLoses(capacity: nat, src: nat, n: nat) returns (s: seq<Byte>)
    requires 0 < src < n && src + n <= capacity
    ensures |s| == capacity && CopiedDownward(s, src, n)[..n] != s[src..src + n]
  {
    s := seq(capacity, i => if i == n - 1 then 0 else 1);
    DownwardAt(s, src, n);
    var k := n - 1 - src;
    var r := CopiedDownward(s, src, n);
    assert r[k] == r[n - 1] == s[src + n - 1] == 1;
    assert s[src..src + n][k] == s[n - 1] == 0;
    assert r[..n][k] == r[k];
  }

  lemma {:induction false} InPlace(s: seq<Byte>, n: nat)
    requires n <= |s|
    ensures CopiedDownward(s, 0, n) == s
    decreases n
  {
    if n > 0 {
      assert s[n - 1 := s[0 + n - 1]] == s;
      InPlace(s, n - 1);
    }
  }

  class RingBuffer {
    const buffer: array<Byte>
    /** Positions of the write and the read pointer. */
    var write: nat
    var read: nat
    /** All bytes committed and all bytes flushed so far. */
    ghost var committed: seq<Byte>
    ghost var flushed: seq<Byte>

    constructor (bufferSize: nat)
      ensures Valid() && fresh(buffer) && buffer.Length == bufferSize
      ensures committed == [] && flushed == []
    {
      buffer := new Byte[bufferSize];
      write, read := 0, 0;
      committed, flushed := [], [];
    }

    ghost predicate Valid()
      reads this, buffer
    {
      read <= write <= buffer.Length && committed == flushed + buffer[read..write]
    }

    function Unread(): seq<Byte>
      requires read <= write <= buffer.Length
      reads `read, `write, buffer
    {
      buffer[read..write]
    }

    /** Copy `n` elements from `src` to the start of the array, lowest first. */
    method CopyDown(src: nat, n: nat)
      requires src + n <= buffer.Length
      modifies buffer
      ensures buffer[..n] == old(buffer[src..src + n])
    {
      for i := 0 to n
        invariant forall k :: 0 <= k < i ==> buffer[k] == old(buffer[src + k])
        invariant forall k :: src + i <= k < buffer.Length ==> buffer[k] == old(buffer[k])
      {
        buffer[i] := buffer[src + i];
      }
    }

    /** Where `size` bytes can be written; there is room exactly when they fit beside the unread
        bytes, which stay what they are. */
    method GetWriteBuffer(size: nat) returns (position: Option<nat>)
      requires Valid()
      modifies `read, `write, buffer
      ensures Valid() && Unread() == old(Unread())
      ensures position.Some? <==> size <= buffer.Length - |old(Unread())|
      ensures position.Some? ==> position.value == write && write + size <= buffer.Length
      ensures position.None? || old(write) + size <= buffer.Length ==>
        read == old(read) && write == old(write) && unchanged(buffer)
      ensures position.Some? && old(write) + size > buffer.Length ==> read == 0
    {
      if write + size <= buffer.Length {
        return Some(write);
      }
      var usedSize := write - read;
      var lowFreeSize := read;
      var highFreeSize := buffer.Length - write;
      if lowFreeSize + highFreeSize >= size {
        CopyDown(read, usedSize);
        read := 0;
        write := usedSize;
        return Some(write);
      }
      return None;
    }

    /** Takes the bytes behind the write position into the buffer; the caller has made sure of them. */
    method Commit(size: nat)
      requires Valid() && write + size <= buffer.Length
      modifies `write, `committed
      ensures Valid() && write == old(write) + size
      ensures Unread() == old(Unread()) + buffer[old(write)..write]
      ensures committed == old(committed) + buffer[old(write)..write]
    {
      committed := committed + buffer[write..write + size];
      assert buffer[read..write + size] == buffer[read..write] + buffer[write..write + size];
      write := write + size;
    }

    /** Copy `data` to the write position, not committing it. */
    method Fill(data: seq<Byte>)
      requires Valid() && write + |data| <= buffer.Length
      modifies buffer
      ensures Valid() && Unread() == old(Unread()) && buffer[write..write + |data|] == data
    {
      forall i | 0 <= i < |data| {
        buffer[write + i] := data[i];
      }
      assert buffer[read..write] == old(buffer[read..write]);
    }

    /** All of the data or nothing of it. */
    method WriteBuffer(data: seq<Byte>) returns (written: nat)
      requires Valid()
      modifies `read, `write, `committed, buffer
      ensures Valid()
      ensures if |data| <= buffer.Length - |old(Unread())|
        then written == |data| && Unread() == old(Unread()) + data && committed == old(committed) + data
        else written == 0 && Unread() == old(Unread()) && committed == old(committed)
    {
      var position := GetWriteBuffer(|data|);
      if position.None? {
        return 0;
      }
      Fill(data);
      Commit(|data|);
      return |data|;
    }

    /** The callback is given the free span, fills it and reports how much of it counts; a report of
        nothing, or of more than was asked for, commits nothing. */
    method WriteBufferWith(writeFn: seq<Byte> -> (seq<Byte>, nat), requestedSize: nat)
      returns (ok: bool, ghost span: seq<Byte>)
      requires Valid() && forall s :: |writeFn(s).0| == |s|
      modifies `read, `write, `committed, buffer
      ensures Valid() && |span| == requestedSize
      ensures var (filled, n) := writeFn(span);
        && ok == (requestedSize <= buffer.Length - |old(Unread())| && 0 < n <= requestedSize)
        && Unread() == old(Unread()) + (if ok then filled[..n] else [])
        && committed == old(committed) + (if ok then filled[..n] else [])
    {
      var position := GetWriteBuffer(requestedSize);
      if position.None? {
        span := seq(requestedSize, _ => 0 as Byte);
        return false, span;
      }
      var p := position.value;
      var before := buffer[p..p + requestedSize];
      span := before;
      var (filled, n) := writeFn(before);
      Fill(filled);
      ok := 0 < n <= requestedSize;
      if ok {
        assert buffer[p..p + n] == filled[..n];
        Commit(n);
      }
    }

    /** Nothing here stops a caller from flushing more than there is to read. */
    method Flush(size: nat)
      requires Valid()
      modifies `read, `write, `flushed
      ensures size <= |old(Unread())| ==>
        Valid() && Unread() == old(Unread())[size..] && flushed == old(flushed) + old(Unread())[..size]
      ensures size == |old(Unread())| ==> read == write == 0
      ensures size != |old(Unread())| ==> read == old(read) + size && write == old(write)
    {
      if size <= write - read {
        flushed := flushed + buffer[read..read + size];
        assert buffer[read..write] == buffer[read..read + size] + buffer[read + size..write];
      }
      read := read + size;
      if write == read {
        write, read := 0, 0;
      }
    }

    /** The callback sees all unread bytes and says how many it has dealt with. The buffer stays in
        order exactly when it says no more than it was shown. */
    method ReadBuffer(readFn: seq<Byte> -> nat) returns (ok: bool)
      requires Valid()
      modifies `read, `write, `flushed
      ensures var shown := old(Unread()); var n := readFn(shown);
        && ok == (n > 0)
        && (Valid() <==> n <= |shown|)
        && (n <= |shown| ==> Unread() == shown[n..] && flushed == old(flushed) + shown[..n])
    {
      var bytesToFlush := readFn(Unread());
      if bytesToFlush > 0 {
        Flush(bytesToFlush);
        return true;
      }
      return false;
    }
  }
}
