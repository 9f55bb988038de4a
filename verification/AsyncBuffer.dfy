/** The asynchronous log buffer: a ring of bytes with two indices, and flags that tell a full ring
    from an empty one. */
module AsyncBuffer {
  import opened Bytes

  const SIZE: nat := 25600

  function Min(a: nat, b: nat): nat {
    if a < b then a else b
  }

  function Wrap(k: nat): nat {
    if k < SIZE then k else k - SIZE
  }

  function ByteAt(b: seq<byte>, r: nat, i: nat): byte
    requires |b| == SIZE && r < SIZE && i < SIZE
  {
    b[Wrap(r + i)]
  }

  // The n bytes from place r on, around the end of the ring.
  ghost function Ring(b: seq<byte>, r: nat, n: nat): seq<byte>
    requires |b| == SIZE && r < SIZE && n <= SIZE
  {
    seq(n, i requires 0 <= i < n => ByteAt(b, r, i))
  }

  // What the block copies of size bytes to place w leave in the ring.
  ghost predicate Copied(b: seq<byte>, b': seq<byte>, w: nat, log: seq<byte>, size: nat)
    requires |b| == |b'| == SIZE && w < SIZE && size <= SIZE && size <= |log|
  {
    forall p :: 0 <= p < SIZE ==>
      b'[p] == if w <= p < w + size then log[p - w] else if p + SIZE < w + size then log[p + SIZE - w] else b[p]
  }

  lemma RingAppends(b: seq<byte>, b': seq<byte>, r: nat, n: nat, log: seq<byte>, size: nat)
    requires |b| == |b'| == SIZE && r < SIZE && n + size <= SIZE && size <= |log|
    requires Copied(b, b', Wrap(r + n), log, size)
    ensures Ring(b', r, n + size) == Ring(b, r, n) + log[..size]
  {
    forall i | 0 <= i < n + size
      ensures ByteAt(b', r, i) == if i < n then ByteAt(b, r, i) else log[i - n]
    {
      assert b'[Wrap(r + i)] == b'[Wrap(r + i)];
    }
  }

  lemma RingSplits(b: seq<byte>, r: nat, n: nat, k: nat)
    requires |b| == SIZE && r < SIZE && k <= n <= SIZE
    ensures Ring(b, r, n)[..k] == Ring(b, r, k)
    ensures Ring(b, r, n)[k..] == Ring(b, Wrap(r + k), n - k)
  {
    var rest := Ring(b, Wrap(r + k), n - k);
    forall i | 0 <= i < n - k
      ensures rest[i] == Ring(b, r, n)[k..][i]
    {
      assert rest[i] == ByteAt(b, Wrap(r + k), i) == ByteAt(b, r, k + i);
    }
  }

  lemma Regroup(a: seq<byte>, b: seq<byte>, n: nat)
    requires n <= |b|
    ensures a + b == a + b[..n] + b[n..]
  {
  }

  lemma Associate(a: seq<byte>, b: seq<byte>, c: seq<byte>)
    ensures a + b + c == a + (b + c)
  {
  }

  class LogBuffer {
    const buf: array<byte>
    var writeIndex: nat
    var readIndex: nat
    var isFull: bool
    var isEmpty: bool
    // Every byte ever accepted, and every byte ever handed out, in order.
    ghost var accepted: seq<byte>
    ghost var delivered: seq<byte>

    // Equal indices go with exactly one of the flags, different ones with neither.
    ghost predicate Consistent()
      reads this
    {
      && buf.Length == SIZE && writeIndex < SIZE && readIndex < SIZE
      && (if writeIndex == readIndex then isFull != isEmpty else !isFull && !isEmpty)
    }

    ghost predicate Valid()
      reads this, buf
    {
      Consistent() && accepted == delivered + Contents()
    }

    ghost function Contents(): seq<byte>
      requires Consistent()
      reads this, buf
    {
      Ring(buf[..], readIndex, GetBufUsed())
    }

    constructor ()
      ensures Valid() && Contents() == [] && accepted == [] && fresh(buf) && buf.Length == 25600
    {
      buf := new byte[SIZE];
      writeIndex, readIndex := 0, 0;
      isFull, isEmpty := false, true;
      accepted, delivered := [], [];
    }

    // The write index is the used bytes ahead of the read index.
    function GetBufUsed(): (used: int)
      reads this
      ensures Consistent() ==>
        0 <= used <= SIZE && writeIndex == Wrap(readIndex + used) && (used == 0 <==> isEmpty) && (used == SIZE <==> isFull)
    {
      if writeIndex > readIndex then writeIndex - readIndex
      else if !isFull && !isEmpty then SIZE - (readIndex - writeIndex)
      else if isFull then SIZE
      else 0
    }

    function GetBufSpace(): int
      reads this
    {
      SIZE - GetBufUsed()
    }

    // The one or two block copies into the ring.
    method CopyIn(log: seq<byte>, size: nat)
      requires Consistent() && size <= |log| && GetBufUsed() + size <= SIZE
      modifies buf
      ensures Copied(old(buf[..]), buf[..], writeIndex, log, size)
    {
      if writeIndex + size < SIZE {
        forall k | 0 <= k < size {
          buf[writeIndex + k] := log[k];
        }
      } else {
        var first := SIZE - writeIndex;
        forall k | 0 <= k < first {
          buf[writeIndex + k] := log[k];
        }
        forall k | 0 <= k < size - first {
          buf[k] := log[first + k];
        }
      }
    }

    // And out of it.
    method CopyOut(log: array<byte>, n: nat)
      requires Consistent() && log != buf && n <= log.Length && n <= GetBufUsed()
      modifies log
      ensures log[..n] == Ring(buf[..], readIndex, n) && log[n..] == old(log[n..])
      ensures buf[..] == old(buf[..])
    {
      if readIndex + n < SIZE {
        forall k | 0 <= k < n {
          log[k] := buf[readIndex + k];
        }
      } else {
        var first := SIZE - readIndex;
        forall k | 0 <= k < first {
          log[k] := buf[readIndex + k];
        }
        forall k | 0 <= k < n - first {
          log[first + k] := buf[k];
        }
      }
      forall k | 0 <= k < n
        ensures log[k] == ByteAt(buf[..], readIndex, k)
      {
      }
    }

    // Accepts the longest prefix of log that fits. The buffer stays right exactly unless nothing
    // is put into an empty buffer: that clears the empty flag, and the whole ring counts as used.
    method PutLog(log: seq<byte>) returns (size: nat)
      requires Valid()
      modifies this, buf
      ensures size == Min(|log|, SIZE - |old(Contents())|)
      ensures Valid() <==> log != [] || old(Contents()) != []
      ensures Valid() ==> Contents() == old(Contents()) + log[..size]
      ensures !Valid() ==> GetBufUsed() == SIZE
      ensures accepted == old(accepted) + log[..size] && delivered == old(delivered)
    {
      size := |log|;
      var space := GetBufSpace();
      if space == 0 {
        return 0;
      }
      ghost var b, used, before := buf[..], GetBufUsed(), Contents();
      if space <= size {
        size := space;
      }
      CopyIn(log, size);
      RingAppends(b, buf[..], readIndex, used, log, size);
      if size == space {
        isFull := true;
      }
      if writeIndex + size < SIZE {
        writeIndex := writeIndex + size;
      } else {
        writeIndex := writeIndex + size - SIZE;
      }
      isEmpty := false;
      accepted := accepted + log[..size];
      if log != [] || used > 0 {
        assert GetBufUsed() == used + size;
        assert Contents() == before + log[..size];
        Associate(delivered, before, log[..size]);
      }
    }

    // Gives up the n oldest bytes.
    method Release(n: nat)
      requires Valid() && 0 < n <= |Contents()|
      modifies `readIndex, `isFull, `isEmpty, `delivered
      ensures Valid() && Contents() == old(Contents())[n..]
      ensures delivered == old(delivered) + old(Contents())[..n]
    {
      ghost var before, r := Contents(), readIndex;
      var used := GetBufUsed();
      if used == n {
        isEmpty := true;
      }
      if readIndex + n < SIZE {
        readIndex := readIndex + n;
      } else {
        readIndex := readIndex + n - SIZE;
      }
      isFull := false;
      RingSplits(buf[..], r, used, n);
      assert readIndex == Wrap(r + n) && GetBufUsed() == used - n;
      Regroup(delivered, before, n);
      delivered := delivered + before[..n];
    }

    // Moves the oldest bytes, at most size of them, to the front of log.
    method GetLog(log: array<byte>, size: nat) returns (n: nat)
      requires Valid() && log != buf && size <= log.Length
      modifies this, log
      ensures Valid()
      ensures n == Min(size, |old(Contents())|)
      ensures log[..n] == old(Contents())[..n] && log[n..] == old(log[n..])
      ensures Contents() == old(Contents())[n..]
      ensures delivered == old(delivered) + old(Contents())[..n] && accepted == old(accepted)
    {
      n := size;
      var used := GetBufUsed();
      if used == 0 {
        return 0;
      } else if n == 0 {
        return 0;
      }
      if used <= n {
        n := used;
      }
      RingSplits(buf[..], readIndex, used, n);
      CopyOut(log, n);
      Release(n);
    }
  }
}
