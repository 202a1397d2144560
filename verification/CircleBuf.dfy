/**
 * The circular buffer and the FIFO on top of it, against bounded sequences.
 */
module CircularBuffer {
  import opened BitOps
  import opened Wrappers

  /** The last n elements of s, or all of them. */
  function LastOf<T>(s: seq<T>, n: nat): seq<T>
  {
    if |s| > n then s[|s| - n..] else s
  }

  /** The backing slot of position k, for positions below three times the capacity. */
  function Slot(k: nat, cap: nat): nat
  {
    if k < cap then k else if k < 2 * cap then k - cap else k - 2 * cap
  }

  lemma SlotIsModulo(k: nat, cap: nat)
    requires 0 < cap && k < 3 * cap
    ensures k % cap == Slot(k, cap)
  {
    if k < cap {
      DivModIs(k, cap, 0, k);
    } else if k < 2 * cap {
      DivModIs(k, cap, 1, k - cap);
    } else {
      DivModIs(k, cap, 2, k - 2 * cap);
    }
  }

  method Wrap(k: nat, cap: nat) returns (slot: nat)
    requires 0 < cap && k < 3 * cap
    ensures slot == Slot(k, cap)
  {
    SlotIsModulo(k, cap);
    slot := k % cap;
  }

  /** Positions start, ..., stop - 1 of the ring whose backing store is b. */
  ghost function Ring<T>(b: seq<T>, start: nat, stop: nat): (s: seq<T>)
    requires start <= stop <= start + |b| && start < 2 * |b|
    ensures |s| == stop - start
  {
    seq(stop - start, i requires 0 <= i < stop - start => b[Slot(start + i, |b|)])
  }

  lemma RingTurns<T>(b: seq<T>, start: nat, stop: nat)
    requires |b| <= start <= stop <= start + |b| && start < 2 * |b|
    ensures Ring(b, start - |b|, stop - |b|) == Ring(b, start, stop)
  {
    var r, s := Ring(b, start - |b|, stop - |b|), Ring(b, start, stop);
    forall i | 0 <= i < |r| ensures r[i] == s[i] {
      assert Slot(start - |b| + i, |b|) == Slot(start + i, |b|);
    }
  }

  lemma RingSlice<T>(b: seq<T>, start: nat, stop: nat, first: nat, last: nat)
    requires start <= first <= last <= stop <= start + |b| && start < |b| && first < 2 * |b|
    ensures Ring(b, first, last) == Ring(b, start, stop)[first - start..last - start]
  {
    var r, s := Ring(b, first, last), Ring(b, start, stop)[first - start..last - start];
    forall i | 0 <= i < |r| ensures r[i] == s[i] {
      assert s[i] == Ring(b, start, stop)[first - start + i] == b[Slot(start + (first - start + i), |b|)];
    }
  }

  /** A stretch of the ring is one slice of the store, or two. */
  lemma RingUnwraps<T>(b: seq<T>, first: nat, len: nat)
    requires len <= |b| && first < 2 * |b| && |b| > 0
    ensures var s := Slot(first, |b|);
            Ring(b, first, first + len) == if s + len <= |b| then b[s..s + len] else b[s..] + b[..len - (|b| - s)]
  {
    var s := Slot(first, |b|);
    var r := Ring(b, first, first + len);
    var e := if s + len <= |b| then b[s..s + len] else b[s..] + b[..len - (|b| - s)];
    forall i | 0 <= i < len ensures r[i] == e[i] {
      assert Slot(first + i, |b|) == if s + i < |b| then s + i else s + i - |b|;
    }
  }

  /** b' is b with data written to positions stop, stop + 1, ... */
  ghost predicate Overwritten<T>(b: seq<T>, b': seq<T>, stop: nat, data: seq<T>)
    requires |b| == |b'| && |data| <= |b| && stop < 2 * |b|
  {
    && (forall i :: 0 <= i < |data| ==> b'[Slot(stop + i, |b|)] == data[i])
    && (forall k :: 0 <= k < stop && stop + |data| - |b| <= k ==> b'[Slot(k, |b|)] == b[Slot(k, |b|)])
  }

  /** b with part in place of what is at the position at. */
  ghost function Spliced<T>(b: seq<T>, at: nat, part: seq<T>): (r: seq<T>)
    requires at + |part| <= |b|
    ensures |r| == |b|
  {
    b[..at] + part + b[at + |part|..]
  }

  /** The head of the data at the slot of stop and its tail at slot 0 are one stretch of the ring. */
  lemma TwoCopies<T>(b: seq<T>, stop: nat, next: nat, data: seq<T>, headLen: nat)
    requires |data| <= |b| && 0 < |b| && stop < 2 * |b| && next == Slot(stop, |b|)
    requires headLen == if |b| - next < |data| then |b| - next else |data|
    ensures Overwritten(b, Spliced(Spliced(b, next, data[..headLen]), 0, data[headLen..]), stop, data)
  {
  }

  /** Overwriting keeps as much of the old contents as still fits and appends the data. */
  lemma RingOverwritten<T>(b: seq<T>, b': seq<T>, start: nat, stop: nat, data: seq<T>, first: nat)
    requires |b| == |b'| && |data| <= |b| && start < |b| && start <= stop <= start + |b|
    requires Overwritten(b, b', stop, data)
    requires first == if stop + |data| - start > |b| then stop + |data| - |b| else start
    ensures Ring(b', first, stop + |data|) == LastOf(Ring(b, start, stop) + data, |b|)
  {
    var r, e := Ring(b', first, stop + |data|), LastOf(Ring(b, start, stop) + data, |b|);
    forall i | 0 <= i < |r| ensures r[i] == e[i] {
      var k := first + i;
      if k < stop {
        assert e[i] == Ring(b, start, stop)[k - start] == b[Slot(k, |b|)] == b'[Slot(k, |b|)];
      } else {
        assert e[i] == data[k - stop] == b'[Slot(stop + (k - stop), |b|)];
      }
    }
  }

  /** Dropping input that would be overwritten anyway makes no difference. */
  lemma LastOfLast<T>(s: seq<T>, input: seq<T>, n: nat)
    ensures LastOf(s + LastOf(input, n), n) == LastOf(s + input, n)
  {
    if |input| > n {
      var tail := input[|input| - n..];
      assert (s + tail)[|s|..] == tail == (s + input)[|s + input| - n..];
    }
  }

  class CircleBuf<T(0)> {
    const buf: array<T>
    var start: nat
    var stop: nat

    /** The documented pointer invariants, and no more elements than slots. */
    ghost predicate Valid()
      reads this
    {
      start <= stop <= start + buf.Length && start < buf.Length && stop < 2 * buf.Length
    }

    /** The elements, oldest first. */
    ghost function Contents(): (s: seq<T>)
      requires Valid()
      reads this, buf
    {
      Ring(buf[..], start, stop)
    }

    constructor (size: nat)
      requires size > 0
      ensures Valid() && fresh(buf) && buf.Length == size && Contents() == []
    {
      buf := new T[size];
      start, stop := 0, 0;
    }

    function Size(): nat
      requires Valid()
      reads this
    {
      stop - start
    }

    method Flush()
      requires Valid()
      modifies this
      ensures Valid() && Contents() == []
    {
      start, stop := 0, 0;
    }

    /** peek: a slice of the contents, across the wrap; None is the panic for reading past the end. */
    method Peek(offset: nat, len: nat) returns (r: Option<seq<T>>)
      requires Valid()
      ensures r.Some? <==> offset + len <= |Contents()|
      ensures r.Some? ==> r.value == Contents()[offset..offset + len]
    {
      if offset + len > Size() {
        return None;
      }
      var cap := buf.Length;
      RingUnwraps(buf[..], offset + start, len);
      RingSlice(buf[..], start, stop, offset + start, offset + start + len);
      var realStart := Wrap(offset + start, cap);
      if realStart + len <= cap {
        r := Some(buf[realStart..realStart + len]);
      } else {
        var headSize := cap - realStart;
        var tailSize := len - headSize;
        r := Some(buf[realStart..] + buf[..tailSize]);
      }
    }

    method Normalize()
      requires start <= stop <= start + buf.Length && start < 2 * buf.Length
      modifies this
      ensures Valid() && Contents() == old(Ring(buf[..], start, stop))
    {
      if start >= buf.Length {
        RingTurns(buf[..], start, stop);
        stop := stop - buf.Length;
        start := start - buf.Length;
      }
      assert start < buf.Length && stop < 2 * buf.Length && start <= stop;
    }

    /** read: peek from the front and advance. */
    method Read(len: nat) returns (r: Option<seq<T>>)
      requires Valid()
      modifies this
      ensures Valid() && (r.Some? <==> len <= old(|Contents()|))
      ensures r.Some? ==> r.value == old(Contents())[..len] && Contents() == old(Contents())[len..]
      ensures r.None? ==> Contents() == old(Contents())
    {
      r := Peek(0, len);
      if r.Some? {
        RingSlice(buf[..], start, stop, start + len, stop);
        start := start + len;
        Normalize();
      }
    }

    /** std::copy of part to the position at. */
    method CopyTo(at: nat, part: seq<T>)
      requires at + |part| <= buf.Length
      modifies buf
      ensures buf[..] == Spliced(old(buf[..]), at, part)
    {
      for i := 0 to |part|
        invariant forall j :: 0 <= j < i ==> buf[at + j] == part[j]
        invariant forall j :: 0 <= j < buf.Length && !(at <= j < at + i) ==> buf[j] == old(buf[j])
      {
        buf[at + i] := part[i];
      }
    }

    /** The two copies of write: the data goes to positions stop, stop + 1, ... of the ring. */
    method CopyIn(data: seq<T>)
      requires Valid() && |data| <= buf.Length
      modifies buf
      ensures Overwritten(old(buf[..]), buf[..], stop, data)
    {
      var next := Wrap(stop, buf.Length);
      var headLen := if buf.Length - next < |data| then buf.Length - next else |data|;
      CopyTo(next, data[..headLen]);
      CopyTo(0, data[headLen..]);
      TwoCopies(old(buf[..]), stop, next, data, headLen);
    }

    /** write: the contents become the last capacity() elements of contents and input. */
    method Write(input: seq<T>)
      requires Valid()
      modifies this, buf
      ensures Valid() && Contents() == LastOf(old(Contents()) + input, buf.Length)
    {
      var data := LastOf(input, buf.Length);
      ghost var was, from, upto := buf[..], start, stop;
      CopyIn(data);
      stop := stop + |data|;
      if stop - start > buf.Length {
        start := stop - buf.Length;
      }
      RingOverwritten(was, buf[..], from, upto, data, start);
      LastOfLast(old(Contents()), input, buf.Length);
      Normalize();
    }

    // ----- checkpoints -----

    method Save() returns (data: seq<T>)
      requires Valid()
      ensures data == Contents()
    {
      var r := Peek(0, Size());
      data := r.value;
    }

    /** Loading a checkpoint: everything back, or what fits of its end. */
    method Restore(data: seq<T>)
      requires Valid()
      modifies this, buf
      ensures Valid() && Contents() == LastOf(data, buf.Length)
    {
      Flush();
      Write(data);
      assert [] + data == data;
    }
  }

  /** A checkpoint of one buffer, loaded into any buffer at least as large, restores the contents. */
  method RoundTrip<T(0)>(a: CircleBuf<T>, b: CircleBuf<T>)
    requires a.Valid() && b.Valid() && a.buf.Length <= b.buf.Length
    modifies b, b.buf
    ensures b.Valid() && b.Contents() == old(a.Contents())
  {
    var data := a.Save();
    b.Restore(data);
  }

  lemma Regroup<T>(c: seq<T>, a: seq<T>, b: seq<T>, ab: seq<T>, n: nat)
    requires n <= |ab| && a == ab[..n] && b == ab[n..]
    ensures (c + a) + b == c + ab
  {
    assert ab == a + b;
  }

  /** The FIFO: writes that would overflow are refused. */
  class Fifo<T(0)> {
    const buf: CircleBuf<T>
    ghost var consumed: seq<T>   // read since the last flush
    ghost var produced: seq<T>   // written since the last flush

    ghost predicate Valid()
      reads this, buf, buf.buf
    {
      buf.Valid() && consumed + buf.Contents() == produced
    }

    constructor (size: nat)
      requires size > 0
      ensures Valid() && fresh(buf) && fresh(buf.buf) && buf.buf.Length == size && produced == []
    {
      buf := new CircleBuf<T>(size);
      consumed, produced := [], [];
    }

    method Flush()
      requires Valid()
      modifies this, buf
      ensures Valid() && consumed == [] && produced == []
    {
      buf.Flush();
      consumed, produced := [], [];
    }

    method Read(len: nat) returns (r: Option<seq<T>>)
      requires Valid()
      modifies this, buf
      ensures Valid() && produced == old(produced)
      ensures r.Some? <==> len <= old(|buf.Contents()|)
      ensures consumed == old(consumed) + if r.Some? then r.value else []
    {
      r := buf.Read(len);
      if r.Some? {
        ghost var left := buf.Contents();
        Regroup(consumed, r.value, left, old(buf.Contents()), len);
        consumed := consumed + r.value;
      }
    }

    /** False is the panic for overfilling. */
    method Write(input: seq<T>) returns (ok: bool)
      requires Valid()
      modifies this, buf, buf.buf
      ensures Valid() && consumed == old(consumed)
      ensures ok <==> old(|buf.Contents()|) + |input| <= buf.buf.Length
      ensures produced == old(produced) + if ok then input else []
    {
      ok := buf.Size() + |input| <= buf.buf.Length;
      if ok {
        buf.Write(input);
        assert (consumed + old(buf.Contents())) + input == consumed + (old(buf.Contents()) + input);
        produced := produced + input;
      }
    }
  }
}
