/**
 * The per-tick average: a running time integral, against the definition that sums the
 * value held at the end of every tick. The current tick is a parameter.
 */
module TickAverage {

  datatype Op = Set(val: real) | Inc(val: real) | Dec(val: real) | Prepare | Reset

  datatype Event = Event(tick: nat, op: Op)

  predicate Ordered(log: seq<Event>)
  {
    forall i, j :: 0 <= i < j < |log| ==> log[i].tick <= log[j].tick
  }

  function LastTick(log: seq<Event>): nat
  {
    if log == [] then 0 else log[|log| - 1].tick
  }

  /** The tick of the last reset, or 0. */
  function Start(log: seq<Event>): nat
  {
    if log == [] then 0
    else
      var e := log[|log| - 1];
      if e.op.Reset? then e.tick else Start(log[..|log| - 1])
  }

  /** The value held at the end of tick t. */
  function Held(log: seq<Event>, t: nat): real
  {
    if log == [] then 0.0
    else
      var before, e := Held(log[..|log| - 1], t), log[|log| - 1];
      if e.tick > t then before
      else
        match e.op
        case Set(v) => v
        case Inc(v) => before + v
        case Dec(v) => before - v
        case Prepare => before
        case Reset => before
  }

  /** The sum over the ticks from, ..., upto - 1 of the value held at the end of each. */
  function Area(log: seq<Event>, from: nat, upto: nat): real
    requires from <= upto
    decreases upto
  {
    if from == upto then 0.0 else Area(log, from, upto - 1) + Held(log, upto - 1)
  }

  lemma {:induction false} StartBounded(log: seq<Event>)
    requires Ordered(log)
    ensures Start(log) <= LastTick(log)
  {
    if log != [] {
      StartBounded(log[..|log| - 1]);
    }
  }

  /** From the last event on, the held value no longer changes. */
  lemma {:induction false} HeldAfter(log: seq<Event>, t: nat)
    requires Ordered(log) && t >= LastTick(log)
    ensures Held(log, t) == Held(log, LastTick(log))
  {
    if log != [] {
      var rest, last := log[..|log| - 1], LastTick(log);
      HeldAfter(rest, t);
      HeldAfter(rest, last);
    }
  }

  /** An event changes nothing before its own tick. */
  lemma {:induction false} AreaUnchanged(log: seq<Event>, e: Event, from: nat, upto: nat)
    requires from <= upto <= e.tick
    ensures Area(log + [e], from, upto) == Area(log, from, upto)
    decreases upto
  {
    if from < upto {
      AreaUnchanged(log, e, from, upto - 1);
      assert (log + [e])[..|log|] == log;
    }
  }

  /** c added up k times. */
  ghost function Times(c: real, k: nat): real
  {
    if k == 0 then 0.0 else Times(c, k - 1) + c
  }

  lemma Distributes(c: real, x: real)
    ensures c * (x + 1.0) == c * x + c
  {
  }

  lemma {:induction false} TimesIsProduct(c: real, k: nat)
    ensures Times(c, k) == c * (k as real)
  {
    if k > 0 {
      TimesIsProduct(c, k - 1);
      Distributes(c, (k - 1) as real);
      assert k as real == (k - 1) as real + 1.0;
    }
  }

  /** A value held for k ticks. */
  function Span(c: real, k: nat): (r: real)
    ensures r == Times(c, k)
  {
    TimesIsProduct(c, k);
    c * (k as real)
  }

  /** While nothing happens, the area grows by the held value per tick. */
  lemma {:induction false} AreaConstant(log: seq<Event>, from: nat, mid: nat, k: nat, c: real)
    requires Ordered(log) && from <= mid && LastTick(log) <= mid && c == Held(log, LastTick(log))
    ensures Area(log, from, mid + k) == Area(log, from, mid) + Times(c, k)
    decreases k
  {
    if k > 0 {
      AreaConstant(log, from, mid, k - 1, c);
      HeldAfter(log, mid + k - 1);
    }
  }

  lemma OrderedNext(log: seq<Event>, e: Event)
    requires Ordered(log) && e.tick >= LastTick(log)
    ensures Ordered(log + [e])
  {
    var g, n := log + [e], |log|;
    forall i, j | 0 <= i < j < |g| ensures g[i].tick <= g[j].tick {
      if j == n && i < n - 1 { assert log[i].tick <= log[n - 1].tick; }
    }
  }

  /** What one more event does to the reference definitions. */
  lemma Logged(log: seq<Event>, e: Event)
    ensures LastTick(log + [e]) == e.tick
    ensures Start(log + [e]) == if e.op.Reset? then e.tick else Start(log)
    ensures e.op.Set? ==> Held(log + [e], e.tick) == e.op.val
    ensures e.op.Inc? ==> Held(log + [e], e.tick) == Held(log, e.tick) + e.op.val
    ensures e.op.Dec? ==> Held(log + [e], e.tick) == Held(log, e.tick) - e.op.val
    ensures e.op.Prepare? || e.op.Reset? ==> Held(log + [e], e.tick) == Held(log, e.tick)
  {
    var g := log + [e];
    assert g[..|g| - 1] == log && g[|g| - 1] == e;
  }

  class AvgStor {
    var current: real
    var total: real
    var last: nat
    var lastReset: nat
    ghost var log: seq<Event>

    /** `total` is the area up to, not including, the last touched tick. */
    ghost predicate Valid()
      reads this
    {
      && Ordered(log)
      && last == LastTick(log) && lastReset == Start(log) && lastReset <= last
      && current == Held(log, last)
      && total == Area(log, lastReset, last)
    }

    constructor ()
      ensures Valid() && log == []
    {
      current, total, last, lastReset := 0.0, 0.0, 0, 0;
      log := [];
    }

    /** Common to all operations: bring the integral up to the current tick. */
    method Accumulate(now: nat)
      requires Valid() && now >= last
      modifies this`total, this`last
      ensures last == now && total == Area(log, lastReset, now) && Held(log, now) == current
    {
      AreaConstant(log, lastReset, last, now - last, current);
      HeldAfter(log, now);
      assert last + (now - last) == now;
      total := total + Span(current, now - last);
      last := now;
    }

    method SetTo(val: real, now: nat)
      requires Valid() && now >= last
      modifies this
      ensures Valid() && log == old(log) + [Event(now, Set(val))]
    {
      Accumulate(now);
      current := val;
      OrderedNext(log, Event(now, Set(val)));
      Logged(log, Event(now, Set(val)));
      AreaUnchanged(log, Event(now, Set(val)), lastReset, now);
      log := log + [Event(now, Set(val))];
    }

    method IncBy(val: real, now: nat)
      requires Valid() && now >= last
      modifies this
      ensures Valid() && log == old(log) + [Event(now, Inc(val))]
    {
      Accumulate(now);
      current := current + val;
      OrderedNext(log, Event(now, Inc(val)));
      Logged(log, Event(now, Inc(val)));
      AreaUnchanged(log, Event(now, Inc(val)), lastReset, now);
      log := log + [Event(now, Inc(val))];
    }

    method DecBy(val: real, now: nat)
      requires Valid() && now >= last
      modifies this
      ensures Valid() && log == old(log) + [Event(now, Dec(val))]
    {
      Accumulate(now);
      current := current - val;
      OrderedNext(log, Event(now, Dec(val)));
      Logged(log, Event(now, Dec(val)));
      AreaUnchanged(log, Event(now, Dec(val)), lastReset, now);
      log := log + [Event(now, Dec(val))];
    }

    method PrepareAt(now: nat)
      requires Valid() && now >= last
      modifies this
      ensures Valid() && log == old(log) + [Event(now, Prepare)] && last == now
    {
      Accumulate(now);
      OrderedNext(log, Event(now, Prepare));
      Logged(log, Event(now, Prepare));
      AreaUnchanged(log, Event(now, Prepare), lastReset, now);
      log := log + [Event(now, Prepare)];
    }

    method ResetAt(now: nat)
      requires Valid() && now >= last
      modifies this
      ensures Valid() && log == old(log) + [Event(now, Reset)]
    {
      HeldAfter(log, now);
      total, last, lastReset := 0.0, now, now;
      OrderedNext(log, Event(now, Reset));
      Logged(log, Event(now, Reset));
      log := log + [Event(now, Reset)];
    }

    /** The average over every tick from the last reset through now. */
    method Result(now: nat) returns (r: real)
      requires Valid() && last == now
      ensures Start(log) <= now && r == Area(log, Start(log), now + 1) / ((now + 1 - Start(log)) as real)
    {
      r := (total + current) / ((now - lastReset + 1) as real);
    }
  }
}
