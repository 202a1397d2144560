/**
 * The annotated byte queues: per queue a list of records with remaining byte counts, and a
 * record counter and a byte counter kept beside it. A queue stands for the sequence of its
 * bytes, each byte tagged with the record that brought it.
 */
module AnnotateQueue {

  datatype Record = Record(id: nat, bytes: int)

  function Repeat(id: nat, n: nat): (r: seq<nat>)
    ensures |r| == n
  {
    seq(n, _ => id)
  }

  predicate NonNegative(q: seq<Record>) { forall i :: 0 <= i < |q| ==> q[i].bytes >= 0 }

  function Bytes(q: seq<Record>): int
  {
    if q == [] then 0 else q[0].bytes + Bytes(q[1..])
  }

  /** The bytes of the queue, front first. */
  ghost function Flatten(q: seq<Record>): seq<nat>
    requires NonNegative(q)
  {
    if q == [] then [] else Repeat(q[0].id, q[0].bytes) + Flatten(q[1..])
  }

  lemma {:induction false} FlattenLength(q: seq<Record>)
    requires NonNegative(q)
    ensures |Flatten(q)| == Bytes(q)
  {
    if q != [] { FlattenLength(q[1..]); }
  }

  lemma {:induction false} FlattenAppend(q: seq<Record>, p: seq<Record>)
    requires NonNegative(q) && NonNegative(p)
    ensures NonNegative(q + p) && Flatten(q + p) == Flatten(q) + Flatten(p)
  {
    if q == [] {
      assert q + p == p;
    } else {
      FlattenAppend(q[1..], p);
      assert (q + p)[1..] == q[1..] + p;
    }
  }

  lemma FlattenOne(r: Record)
    requires r.bytes >= 0
    ensures NonNegative([r]) && Flatten([r]) == Repeat(r.id, r.bytes)
  {
    assert [r][1..] == [];
  }

  lemma DropWithin<T>(a: seq<T>, b: seq<T>, n: nat)
    requires n <= |a|
    ensures (a + b)[n..] == a[n..] + b
  {
  }

  lemma TakeWithin<T>(a: seq<T>, b: seq<T>, n: nat)
    requires n <= |b|
    ensures (a + b)[..|a + b| - n] == a + b[..|b| - n]
  {
  }

  /** Taking bytes off the head record takes them off the front of the queue. */
  lemma HeadShrinks(r: Record, rest: seq<Record>, n: nat)
    requires NonNegative(rest) && 0 <= n <= r.bytes
    ensures NonNegative([r] + rest) && NonNegative([r.(bytes := r.bytes - n)] + rest) && n <= |Flatten([r] + rest)|
    ensures Flatten([r.(bytes := r.bytes - n)] + rest) == Flatten([r] + rest)[n..]
    ensures n == r.bytes ==> Flatten(rest) == Flatten([r] + rest)[n..]
  {
    var r' := r.(bytes := r.bytes - n);
    FlattenAppend([r], rest);
    FlattenAppend([r'], rest);
    FlattenOne(r);
    FlattenOne(r');
    DropWithin(Repeat(r.id, r.bytes), Flatten(rest), n);
    assert Repeat(r.id, r.bytes)[n..] == Repeat(r.id, r.bytes - n);
    assert n == r.bytes ==> Repeat(r.id, 0) + Flatten(rest) == Flatten(rest);
  }

  /** Taking bytes off the tail record takes them off the back of the queue. */
  lemma TailShrinks(init: seq<Record>, r: Record, n: nat)
    requires NonNegative(init) && 0 <= n <= r.bytes
    ensures NonNegative(init + [r]) && NonNegative(init + [r.(bytes := r.bytes - n)]) && n <= |Flatten(init + [r])|
    ensures Flatten(init + [r.(bytes := r.bytes - n)]) == Flatten(init + [r])[..|Flatten(init + [r])| - n]
    ensures n == r.bytes ==> Flatten(init) == Flatten(init + [r])[..|Flatten(init + [r])| - n]
  {
    var r' := r.(bytes := r.bytes - n);
    FlattenAppend(init, [r]);
    FlattenAppend(init, [r']);
    FlattenOne(r);
    FlattenOne(r');
    TakeWithin(Flatten(init), Repeat(r.id, r.bytes), n);
    assert Repeat(r.id, r.bytes)[..r.bytes - n] == Repeat(r.id, r.bytes - n);
    assert n == r.bytes ==> Flatten(init) + Repeat(r.id, 0) == Flatten(init);
  }

  /** The counters kept beside a queue agree with it. */
  ghost predicate Tally(size: int, bytes: int, q: seq<Record>) { size == |q| && bytes == Bytes(q) }

  /** The counters agree, and every record has at least zero bytes. */
  ghost predicate Counted(size: int, bytes: int, q: seq<Record>) { NonNegative(q) && Tally(size, bytes, q) }

  lemma {:induction false} BytesAppend(q: seq<Record>, p: seq<Record>)
    ensures Bytes(q + p) == Bytes(q) + Bytes(p)
  {
    if q == [] {
      assert q + p == p;
    } else {
      BytesAppend(q[1..], p);
      assert (q + p)[0] == q[0] && (q + p)[1..] == q[1..] + p;
    }
  }

  lemma CountedLength(size: int, bytes: int, q: seq<Record>)
    requires Counted(size, bytes, q)
    ensures |Flatten(q)| == bytes && (bytes > 0 ==> size > 0)
  {
    FlattenLength(q);
  }

  /** The loop of doDq: `count` bytes come off the front, record by record. */
  method DropFront(data: seq<Record>, records: int, count: nat) returns (q: seq<Record>, size: int)
    requires NonNegative(data) && records == |data| && count <= |Flatten(data)|
    ensures NonNegative(q) && size == |q| && Flatten(q) == Flatten(data)[count..]
  {
    q, size := data, records;
    var need := count;
    while need > 0
      invariant 0 <= need <= count && NonNegative(q) && size == |q| && need <= |Flatten(q)|
      invariant Flatten(q)[need..] == Flatten(data)[count..]
      decreases |q|, need
    {
      assert size > 0;
      var head, rest := q[0], q[1..];
      assert q == [head] + rest;
      HeadShrinks(head, rest, if head.bytes > need then need else head.bytes);
      if head.bytes > need {
        q := [head.(bytes := head.bytes - need)] + rest;
        need := 0;
      } else if head.bytes == need {
        q, size := rest, size - 1;
        need := 0;
      } else {
        q, size := rest, size - 1;
        need := need - head.bytes;
      }
    }
  }

  /** One step of the shrinking loop keeps the first `length` bytes. */
  lemma BackStep(init: seq<Record>, tail: Record, need: nat, length: nat)
    requires NonNegative(init + [tail]) && |Flatten(init + [tail])| == length + need
    ensures NonNegative(init) && tail.bytes >= 0
    ensures tail.bytes > need ==>
              var q := init + [tail.(bytes := tail.bytes - need)];
              NonNegative(q) && |Flatten(q)| == length && Flatten(q)[..length] == Flatten(init + [tail])[..length]
    ensures tail.bytes <= need ==>
              && |Flatten(init)| == length + need - tail.bytes
              && Flatten(init)[..length] == Flatten(init + [tail])[..length]
  {
    var q := init + [tail];
    assert forall i :: 0 <= i < |init| ==> init[i] == q[i];
    assert q[|init|] == tail;
    var cut := if tail.bytes > need then need else tail.bytes;
    TailShrinks(init, tail, cut);
    var was := Flatten(q);
    assert was[..|was| - cut][..length] == was[..length];
  }

  /** The shrinking loop of swSq: `count` bytes come off the back, record by record. */
  method DropBack(data: seq<Record>, records: int, count: nat) returns (q: seq<Record>, size: int)
    requires NonNegative(data) && records == |data| && count <= |Flatten(data)|
    ensures NonNegative(q) && size == |q| && Flatten(q) == Flatten(data)[..|Flatten(data)| - count]
  {
    q, size := data, records;
    var need := count;
    ghost var length := |Flatten(data)| - count;
    while need > 0
      invariant 0 <= need <= count && NonNegative(q) && size == |q|
      invariant |Flatten(q)| == length + need && Flatten(q)[..length] == Flatten(data)[..length]
      decreases |q|, need
    {
      assert size > 0;
      var n := |q| - 1;
      var init, tail := q[..n], q[n];
      assert q == init + [tail];
      BackStep(init, tail, need, length);
      if tail.bytes > need {
        q := init + [tail.(bytes := tail.bytes - need)];
        need := 0;
      } else if tail.bytes == need {
        q, size := init, size - 1;
        need := 0;
      } else {
        q, size := init, size - 1;
        need := need - tail.bytes;
      }
    }
  }

  class AnnotateQueues {
    var qSize: seq<int>
    var qBytes: seq<int>
    var qData: seq<seq<Record>>
    var nextId: nat

    /** All counters agree with their queues. */
    ghost predicate Tallied()
      reads this
    {
      |qSize| == |qBytes| == |qData| && forall qi :: 0 <= qi < |qData| ==> Tally(qSize[qi], qBytes[qi], qData[qi])
    }

    ghost predicate Valid()
      reads this
    {
      Tallied() && forall qi :: 0 <= qi < |qData| ==> NonNegative(qData[qi])
    }

    /** The bytes in queue qi. */
    ghost function Content(qi: nat): seq<nat>
      requires Valid() && qi < |qData|
      reads this
    {
      Flatten(qData[qi])
    }

    /** All queues but qi are as before. */
    twostate predicate OthersKept(qi: nat)
      reads this
    {
      |qData| == old(|qData|) && forall j :: 0 <= j < |qData| && j != qi ==> qData[j] == old(qData[j])
    }

    constructor (queues: nat)
      ensures Valid() && |qData| == queues && forall qi :: 0 <= qi < queues ==> Content(qi) == []
    {
      qSize, qBytes := seq(queues, _ => 0), seq(queues, _ => 0);
      qData, nextId := seq(queues, _ => []), 0;
    }

    /** Replace queue qi and its counters. */
    method Store(qi: nat, size: int, bytes: int, data: seq<Record>)
      requires Tallied() && qi < |qData| && Tally(size, bytes, data)
      modifies this`qData, this`qSize, this`qBytes
      ensures Tallied() && OthersKept(qi) && qData[qi] == data
      ensures old(Valid()) && NonNegative(data) ==> Valid()
    {
      qData, qSize, qBytes := qData[qi := data], qSize[qi := size], qBytes[qi := bytes];
    }

    /**
     * doQ: a new record of `count` bytes at the back, or at the front with FL_QOPP. The
     * counters agree for any count; false is the failed assertion for a negative total.
     */
    method Enqueue(qi: nat, opposite: bool, count: int) returns (ok: bool)
      requires Tallied() && qi < |qData|
      modifies this
      ensures Tallied() && OthersKept(qi) && nextId == old(nextId) + 1
      ensures qData[qi] == if opposite then [Record(old(nextId), count)] + old(qData[qi])
                           else old(qData[qi]) + [Record(old(nextId), count)]
      ensures ok <==> old(Bytes(qData[qi])) + count >= 0
      ensures old(Valid()) && count >= 0 ==>
                ok && Valid() &&
                Content(qi) == if opposite then Repeat(old(nextId), count) + old(Content(qi))
                               else old(Content(qi)) + Repeat(old(nextId), count)
    {
      var r, q := Record(nextId, count), qData[qi];
      BytesAppend([r], q);
      BytesAppend(q, [r]);
      if Valid() && count >= 0 {
        FlattenOne(r);
        FlattenAppend([r], q);
        FlattenAppend(q, [r]);
        FlattenLength(q);
      }
      nextId := nextId + 1;
      Store(qi, qSize[qi] + 1, qBytes[qi] + count, if opposite then [r] + q else q + [r]);
      ok := qBytes[qi] >= 0;
    }

    /**
     * doDq: take `count` bytes off the front, or everything for -1; false where the source stops
     * with a fatal error.
     */
    method Dequeue(qi: nat, count: int) returns (ok: bool)
      requires Valid() && qi < |qData| && (count == -1 || count > 0)
      modifies this
      ensures Valid() && OthersKept(qi)
      ensures ok <==> count <= old(|Content(qi)|)
      ensures ok ==> Content(qi) == if count == -1 then [] else old(Content(qi))[count..]
    {
      if count == -1 {
        Store(qi, 0, 0, []);
        return true;
      }
      CountedLength(qSize[qi], qBytes[qi], qData[qi]);
      if qSize[qi] <= 0 || qBytes[qi] <= 0 || |qData[qi]| == 0 {
        return false;
      }
      var bytes := qBytes[qi] - count;
      if bytes < 0 {
        return false;
      }
      var q, size := DropFront(qData[qi], qSize[qi], count);
      FlattenLength(q);
      Store(qi, size, bytes, q);
      return true;
    }

    /** swSq: make the queue exactly `size` bytes long, from the back, after an optional reset. */
    method Resize(qi: nat, size: int, reset: bool)
      requires Valid() && qi < |qData|
      modifies this
      ensures Valid() && OthersKept(qi)
      ensures var was := if reset then [] else old(Content(qi));
              Content(qi) == if size <= 0 then [] else if size <= |was| then was[..size]
                             else was + Repeat(old(nextId), size - |was|)
    {
      if reset {
        Store(qi, 0, 0, []);
      }
      CountedLength(qSize[qi], qBytes[qi], qData[qi]);
      if qBytes[qi] < size {
        var _ := Enqueue(qi, false, size - qBytes[qi]);
      } else if qBytes[qi] > size {
        if size <= 0 {
          Store(qi, 0, 0, []);
          return;
        }
        var q, records := DropBack(qData[qi], qSize[qi], qBytes[qi] - size);
        FlattenLength(q);
        Store(qi, records, size, q);
      }
    }
  }
}
