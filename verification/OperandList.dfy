/**
 * Operand slots of generated instruction classes. The generator numbers register operands
 * and emits a constructor that fills the slot arrays, and read and write code that indexes
 * them: by literal number, or, once any operand is predicated, by a counter at run time.
 * Both kinds of code are modelled as small programs, and run under every truth assignment
 * of the predicates.
 */
module OperandSlots {

  import opened Wrappers

  datatype RegClass = IntReg | FloatReg | CCReg | ControlReg

  datatype Kind = Reg(cls: RegClass) | Mem | PCState(part: bool)

  type Pred = string

  datatype Operand = Operand(name: string, kind: Kind, regSpec: string, isSrc: bool, isDest: bool,
                             readPred: Option<Pred>, writePred: Option<Pred>)

  /** Sources are read, destinations are written; the two sides are generated alike. */
  datatype Side = Source | Destination

  predicate Used(op: Operand, side: Side) { if side.Source? then op.isSrc else op.isDest }

  function SidePred(op: Operand, side: Side): Option<Pred> { if side.Source? then op.readPred else op.writePred }

  /** A register operand of this side: it gets a number and a slot. */
  predicate Numbered(op: Operand, side: Side) { op.kind.Reg? && Used(op, side) }

  // ----- what the operand classes generate -----

  /** `_srcRegIdx[_numSrcRegs++] = spec + base;`, possibly inside `if (guard)`. */
  datatype Store = Store(operand: nat, guard: Option<Pred>, spec: string, base: RegClass)

  datatype Index = Static(slot: nat) | Next

  /** A register read or write at an index, possibly only if the guard holds. */
  datatype Access = Access(operand: nat, guard: Option<Pred>, index: Index)

  /** Only integer and condition-code registers heed their predicates. */
  function Guard(op: Operand, side: Side): Option<Pred>
    requires op.kind.Reg?
  {
    match op.kind.cls
    case IntReg => SidePred(op, side)
    case CCReg => SidePred(op, side)
    case FloatReg => None
    case ControlReg => None
  }

  function MakeConstructor(op: Operand, i: nat, side: Side): seq<Store>
  {
    if Numbered(op, side) then [Store(i, Guard(op, side), op.regSpec, op.kind.cls)] else []
  }

  /** makeRead / makeWrite without custom code. */
  function MakeAccess(op: Operand, i: nat, side: Side, predicated: bool, regIdx: nat): seq<Access>
  {
    if !Numbered(op, side) then []
    else if predicated then [Access(i, Guard(op, side), Next)]
    else [Access(i, None, Static(regIdx))]
  }

  // ----- running the generated code -----

  ghost predicate Holds(guard: Option<Pred>, truth: Pred -> bool)
  {
    guard.Some? ==> truth(guard.value)
  }

  /** The operands whose registers the constructor leaves in slots 0, 1, ... */
  ghost function RunStores(code: seq<Store>, truth: Pred -> bool): seq<nat>
  {
    if code == [] then []
    else
      var slots, s := RunStores(code[..|code| - 1], truth), code[|code| - 1];
      if Holds(s.guard, truth) then slots + [s.operand] else slots
  }

  /** The (operand, slot) pairs that the access code touches, in order. */
  ghost function RunAccesses(code: seq<Access>, truth: Pred -> bool): seq<(nat, nat)>
  {
    if code == [] then []
    else
      var done, a := RunAccesses(code[..|code| - 1], truth), code[|code| - 1];
      if !Holds(a.guard, truth) then done
      else done + [(a.operand, match a.index case Static(k) => k case Next => Counter(code[..|code| - 1], truth))]
  }

  /** The run-time index variable after the code. */
  ghost function Counter(code: seq<Access>, truth: Pred -> bool): nat
  {
    if code == [] then 0
    else
      var a := code[|code| - 1];
      Counter(code[..|code| - 1], truth) + if Holds(a.guard, truth) && a.index.Next? then 1 else 0
  }

  lemma RunStoresNext(code: seq<Store>, s: Store, truth: Pred -> bool)
    ensures RunStores(code + [s], truth) == RunStores(code, truth) + if Holds(s.guard, truth) then [s.operand] else []
  {
    assert (code + [s])[..|code|] == code;
  }

  lemma RunAccessesNext(code: seq<Access>, a: Access, truth: Pred -> bool)
    ensures Counter(code + [a], truth) == Counter(code, truth) + if Holds(a.guard, truth) && a.index.Next? then 1 else 0
    ensures RunAccesses(code + [a], truth) ==
            if !Holds(a.guard, truth) then RunAccesses(code, truth)
            else RunAccesses(code, truth) +
                 [(a.operand, if a.index.Static? then a.index.slot else Counter(code, truth))]
  {
    assert (code + [a])[..|code|] == code;
  }

  // ----- the operand list -----

  /** The positions below n of the numbered operands of this side, in list order. */
  function Numbers(items: seq<Operand>, side: Side, n: nat): seq<nat>
    requires n <= |items|
  {
    if n == 0 then [] else Numbers(items, side, n - 1) + if Numbered(items[n - 1], side) then [n - 1] else []
  }

  /** How many of the first n operands are destinations in this register class. */
  function DestsOf(items: seq<Operand>, cls: RegClass, n: nat): nat
    requires n <= |items|
  {
    if n == 0 then 0
    else
      DestsOf(items, cls, n - 1) +
      if Numbered(items[n - 1], Destination) && items[n - 1].kind.cls == cls then 1 else 0
  }

  predicate AnyPred(items: seq<Operand>, side: Side)
  {
    exists i :: 0 <= i < |items| && SidePred(items[i], side).Some?
  }

  class OperandList {
    const items: seq<Operand>
    var srcRegIdx: seq<nat>   // per operand; meaningful for numbered ones
    var destRegIdx: seq<nat>
    var numSrcRegs: nat
    var numDestRegs: nat
    var numIntDestRegs: nat
    var numFPDestRegs: nat
    var numCCDestRegs: nat
    var numMiscDestRegs: nat
    var predRead: bool
    var predWrite: bool

    /** Every numbered operand below n has the number of numbered operands before it. */
    static ghost predicate Enumerated(items: seq<Operand>, side: Side, idx: seq<nat>, n: nat)
      requires n <= |items|
    {
      |idx| == |items| && forall i :: 0 <= i < n && Numbered(items[i], side) ==> idx[i] == |Numbers(items, side, i)|
    }

    /** The enumeration loop of the constructor. */
    constructor (items: seq<Operand>)
      ensures this.items == items
      ensures Enumerated(items, Source, srcRegIdx, |items|) && Enumerated(items, Destination, destRegIdx, |items|)
      ensures numSrcRegs == |Numbers(items, Source, |items|)| && numDestRegs == |Numbers(items, Destination, |items|)|
      ensures predRead == AnyPred(items, Source) && predWrite == AnyPred(items, Destination)
      ensures numIntDestRegs == DestsOf(items, IntReg, |items|) && numFPDestRegs == DestsOf(items, FloatReg, |items|)
      ensures numCCDestRegs == DestsOf(items, CCReg, |items|) && numMiscDestRegs == DestsOf(items, ControlReg, |items|)
    {
      var srcIdx, destIdx: seq<nat> := seq(|items|, _ => 0), seq(|items|, _ => 0);
      var numSrc, numDest, numInt, numFP, numCC, numMisc: nat := 0, 0, 0, 0, 0, 0;
      var anyRead, anyWrite := false, false;
      for n := 0 to |items|
        invariant Enumerated(items, Source, srcIdx, n) && Enumerated(items, Destination, destIdx, n)
        invariant numSrc == |Numbers(items, Source, n)| && numDest == |Numbers(items, Destination, n)|
        invariant anyRead == AnyPred(items[..n], Source) && anyWrite == AnyPred(items[..n], Destination)
        invariant numInt == DestsOf(items, IntReg, n) && numFP == DestsOf(items, FloatReg, n)
        invariant numCC == DestsOf(items, CCReg, n) && numMisc == DestsOf(items, ControlReg, n)
      {
        var op := items[n];
        if op.kind.Reg? {
          if op.isSrc {
            srcIdx := srcIdx[n := numSrc];
            numSrc := numSrc + 1;
          }
          if op.isDest {
            destIdx := destIdx[n := numDest];
            numDest := numDest + 1;
            match op.kind.cls {
              case FloatReg => numFP := numFP + 1;
              case IntReg => numInt := numInt + 1;
              case CCReg => numCC := numCC + 1;
              case ControlReg => numMisc := numMisc + 1;
            }
          }
        }
        AnyPredNext(items, Source, n);
        AnyPredNext(items, Destination, n);
        anyRead := anyRead || op.readPred.Some?;
        anyWrite := anyWrite || op.writePred.Some?;
      }
      assert items[..|items|] == items;
      this.items := items;
      srcRegIdx, destRegIdx, numSrcRegs, numDestRegs := srcIdx, destIdx, numSrc, numDest;
      numIntDestRegs, numFPDestRegs, numCCDestRegs, numMiscDestRegs := numInt, numFP, numCC, numMisc;
      predRead, predWrite := anyRead, anyWrite;
    }
  }

  lemma AnyPredNext(items: seq<Operand>, side: Side, n: nat)
    requires n < |items|
    ensures AnyPred(items[..n + 1], side) <==> AnyPred(items[..n], side) || SidePred(items[n], side).Some?
  {
    var a, b := items[..n], items[..n + 1];
    if i :| 0 <= i < |a| && SidePred(a[i], side).Some? { assert b[i] == a[i]; }
    if i :| 0 <= i < |b| && SidePred(b[i], side).Some? { assert i < n ==> a[i] == b[i]; }
    assert b[n] == items[n];
  }

  // ----- constructor and access code of a whole list -----

  ghost function Stores(items: seq<Operand>, side: Side, n: nat): seq<Store>
    requires n <= |items|
  {
    if n == 0 then [] else Stores(items, side, n - 1) + MakeConstructor(items[n - 1], n - 1, side)
  }

  predicate Positions(items: seq<Operand>, uses: seq<nat>) { forall k :: 0 <= k < |uses| ==> uses[k] < |items| }

  /**
   * The read or write code of a template. It uses operands of the list in an order of its
   * own: that of the template's sorted sub-list. The code of each operand was made when the
   * whole list was enumerated, so the whole list decides whether indices are counted.
   */
  ghost function Accesses(items: seq<Operand>, side: Side, uses: seq<nat>): seq<Access>
    requires Positions(items, uses)
  {
    if uses == [] then []
    else
      var i := uses[|uses| - 1];
      Accesses(items, side, uses[..|uses| - 1]) +
      MakeAccess(items[i], i, side, AnyPred(items, side), |Numbers(items, side, i)|)
  }

  /** The index variable is declared only if an operand that the template uses is predicated. */
  ghost predicate Declared(items: seq<Operand>, side: Side, uses: seq<nat>)
    requires Positions(items, uses)
  {
    exists k :: 0 <= k < |uses| && SidePred(items[uses[k]], side).Some?
  }

  /** The code does not mention the index variable unless it is declared. */
  ghost predicate Compiles(items: seq<Operand>, side: Side, uses: seq<nat>)
    requires Positions(items, uses)
  {
    var code := Accesses(items, side, uses);
    Declared(items, side, uses) || forall k :: 0 <= k < |code| ==> code[k].index.Static?
  }

  // ----- the same, as lists of positions -----

  /** Those of the positions whose operands are numbered. */
  function NumberedUses(items: seq<Operand>, side: Side, uses: seq<nat>): seq<nat>
    requires Positions(items, uses)
  {
    if uses == [] then []
    else
      var i := uses[|uses| - 1];
      NumberedUses(items, side, uses[..|uses| - 1]) + if Numbered(items[i], side) then [i] else []
  }

  /** All these are positions of numbered operands. */
  ghost predicate AllNumbered(items: seq<Operand>, side: Side, s: seq<nat>)
  {
    forall k :: 0 <= k < |s| ==> s[k] < |items| && Numbered(items[s[k]], side)
  }

  /** Those whose guards hold: their registers are stored, and accessed if predicated. */
  ghost function Live(items: seq<Operand>, side: Side, truth: Pred -> bool, s: seq<nat>): seq<nat>
    requires AllNumbered(items, side, s)
  {
    if s == [] then []
    else
      var i := s[|s| - 1];
      assert Numbered(items[i], side);
      Live(items, side, truth, s[..|s| - 1]) + if Holds(Guard(items[i], side), truth) then [i] else []
  }

  /** Every element with its index. */
  ghost function Indexed(s: seq<nat>): (r: seq<(nat, nat)>)
    ensures |r| == |s|
  {
    seq(|s|, k requires 0 <= k < |s| => (s[k], k))
  }

  lemma IndexedNext(s: seq<nat>, i: nat)
    ensures Indexed(s + [i]) == Indexed(s) + [(i, |s|)]
  {
  }

  /** Every element with its number in the list. */
  ghost function WithNumbers(items: seq<Operand>, side: Side, s: seq<nat>): (r: seq<(nat, nat)>)
    requires Positions(items, s)
    ensures |r| == |s|
  {
    seq(|s|, k requires 0 <= k < |s| => (s[k], |Numbers(items, side, s[k])|))
  }

  lemma {:induction false} UsesNumbered(items: seq<Operand>, side: Side, uses: seq<nat>)
    requires Positions(items, uses)
    ensures AllNumbered(items, side, NumberedUses(items, side, uses))
    decreases |uses|
  {
    if uses != [] { UsesNumbered(items, side, uses[..|uses| - 1]); }
  }

  lemma LiveNext(items: seq<Operand>, side: Side, truth: Pred -> bool, s: seq<nat>, i: nat)
    requires AllNumbered(items, side, s) && i < |items| && Numbered(items[i], side)
    ensures AllNumbered(items, side, s + [i])
    ensures Live(items, side, truth, s + [i]) ==
            Live(items, side, truth, s) + if Holds(Guard(items[i], side), truth) then [i] else []
  {
    assert (s + [i])[..|s|] == s;
  }

  lemma StoresNext(items: seq<Operand>, side: Side, truth: Pred -> bool, s: seq<nat>, code: seq<Store>, i: nat)
    requires AllNumbered(items, side, s) && RunStores(code, truth) == Live(items, side, truth, s)
    requires i < |items| && Numbered(items[i], side)
    ensures AllNumbered(items, side, s + [i])
    ensures RunStores(code + MakeConstructor(items[i], i, side), truth) == Live(items, side, truth, s + [i])
  {
    RunStoresNext(code, MakeConstructor(items[i], i, side)[0], truth);
    LiveNext(items, side, truth, s, i);
  }

  /** The generated constructor fills the slots with the live numbered operands, in list order. */
  lemma {:induction false} StoresFillSlots(items: seq<Operand>, side: Side, truth: Pred -> bool, n: nat)
    requires n <= |items|
    ensures AllNumbered(items, side, Numbers(items, side, n))
    ensures RunStores(Stores(items, side, n), truth) == Live(items, side, truth, Numbers(items, side, n))
  {
    if n > 0 {
      StoresFillSlots(items, side, truth, n - 1);
      var code, ni := Stores(items, side, n - 1), Numbers(items, side, n - 1);
      if Numbered(items[n - 1], side) {
        StoresNext(items, side, truth, ni, code, n - 1);
      } else {
        assert Stores(items, side, n) == code && Numbers(items, side, n) == ni;
      }
    }
  }

  /** The code has touched slots 0, 1, ... for the live positions of s. */
  ghost predicate CountedFor(items: seq<Operand>, side: Side, truth: Pred -> bool, s: seq<nat>, code: seq<Access>)
  {
    && AllNumbered(items, side, s)
    && RunAccesses(code, truth) == Indexed(Live(items, side, truth, s))
    && Counter(code, truth) == |Live(items, side, truth, s)|
  }

  lemma CountedNext(items: seq<Operand>, side: Side, truth: Pred -> bool, s: seq<nat>, code: seq<Access>, i: nat)
    requires CountedFor(items, side, truth, s, code) && i < |items| && Numbered(items[i], side)
    ensures CountedFor(items, side, truth, s + [i], code + [Access(i, Guard(items[i], side), Next)])
  {
    var a, live := Access(i, Guard(items[i], side), Next), Live(items, side, truth, s);
    RunAccessesNext(code, a, truth);
    LiveNext(items, side, truth, s, i);
    if Holds(a.guard, truth) {
      IndexedNext(live, i);
    } else {
      assert live + [] == live;
    }
  }

  /** With counted indices, the k-th live use touches slot k. */
  lemma {:induction false} CountedAccesses(items: seq<Operand>, side: Side, truth: Pred -> bool, uses: seq<nat>)
    requires Positions(items, uses) && AnyPred(items, side)
    ensures CountedFor(items, side, truth, NumberedUses(items, side, uses), Accesses(items, side, uses))
    decreases |uses|
  {
    if uses != [] {
      var before, i := uses[..|uses| - 1], uses[|uses| - 1];
      CountedAccesses(items, side, truth, before);
      var nu, code := NumberedUses(items, side, before), Accesses(items, side, before);
      if Numbered(items[i], side) {
        CountedNext(items, side, truth, nu, code, i);
      } else {
        assert Accesses(items, side, uses) == code && NumberedUses(items, side, uses) == nu;
      }
    }
  }

  /** With literal indices, every use touches the slot of its number. */
  lemma {:induction false} LiteralAccesses(items: seq<Operand>, side: Side, truth: Pred -> bool, uses: seq<nat>)
    requires Positions(items, uses) && !AnyPred(items, side)
    ensures AllNumbered(items, side, NumberedUses(items, side, uses))
    ensures RunAccesses(Accesses(items, side, uses), truth) ==
            WithNumbers(items, side, NumberedUses(items, side, uses))
    decreases |uses|
  {
    UsesNumbered(items, side, uses);
    if uses != [] {
      var before, i := uses[..|uses| - 1], uses[|uses| - 1];
      LiteralAccesses(items, side, truth, before);
      var code := Accesses(items, side, before);
      if Numbered(items[i], side) {
        RunAccessesNext(code, Access(i, None, Static(|Numbers(items, side, i)|)), truth);
      } else {
        assert Accesses(items, side, uses) == code;
        assert NumberedUses(items, side, uses) == NumberedUses(items, side, before);
      }
    }
  }

  // ----- which accesses are right -----

  /** Every access touches the slot where the constructor left that same operand. */
  ghost predicate Hits(accesses: seq<(nat, nat)>, slots: seq<nat>)
  {
    forall k :: 0 <= k < |accesses| ==> accesses[k].1 < |slots| && slots[accesses[k].1] == accesses[k].0
  }

  ghost predicate AllHit(items: seq<Operand>, side: Side, uses: seq<nat>, truth: Pred -> bool)
    requires Positions(items, uses)
  {
    Hits(RunAccesses(Accesses(items, side, uses), truth), RunStores(Stores(items, side, |items|), truth))
  }

  lemma IndexedHits(s: seq<nat>, slots: seq<nat>)
    ensures Hits(Indexed(s), slots) <==> s <= slots
  {
    if Hits(Indexed(s), slots) && s != [] {
      var last := |s| - 1;
      assert Indexed(s)[last] == (s[last], last);
      forall k | 0 <= k < |s| ensures s[k] == slots[k] { assert Indexed(s)[k] == (s[k], k); }
      assert s == slots[..|s|];
    }
  }

  lemma {:induction false} NumbersGrow(items: seq<Operand>, side: Side, n: nat, m: nat)
    requires n <= m <= |items|
    ensures Numbers(items, side, n) <= Numbers(items, side, m)
    decreases m
  {
    if n < m { NumbersGrow(items, side, n, m - 1); }
  }

  lemma WithNumbersHits(items: seq<Operand>, side: Side, s: seq<nat>)
    requires AllNumbered(items, side, s)
    ensures Hits(WithNumbers(items, side, s), Numbers(items, side, |items|))
  {
    forall k | 0 <= k < |s|
      ensures var at := |Numbers(items, side, s[k])|;
              at < |Numbers(items, side, |items|)| && Numbers(items, side, |items|)[at] == s[k]
    {
      NumbersGrow(items, side, s[k] + 1, |items|);
    }
  }

  /** Filtering keeps prefixes. */
  lemma {:induction false} LivePrefix(items: seq<Operand>, side: Side, truth: Pred -> bool, s: seq<nat>, t: seq<nat>)
    requires AllNumbered(items, side, s) && AllNumbered(items, side, t) && s <= t
    ensures Live(items, side, truth, s) <= Live(items, side, truth, t)
    decreases |t|
  {
    if |s| < |t| {
      LivePrefix(items, side, truth, s, t[..|t| - 1]);
    } else {
      assert s == t;
    }
  }

  /** Where all guards hold, everything is live. */
  lemma {:induction false} LiveAll(items: seq<Operand>, side: Side, truth: Pred -> bool, s: seq<nat>)
    requires AllNumbered(items, side, s)
    requires forall i :: 0 <= i < |items| && Numbered(items[i], side) ==> Holds(Guard(items[i], side), truth)
    ensures Live(items, side, truth, s) == s
    decreases |s|
  {
    if s != [] {
      var front, i := s[..|s| - 1], s[|s| - 1];
      LiveAll(items, side, truth, front);
      assert s == front + [i] && Holds(Guard(items[i], side), truth);
    }
  }

  /** Literal indices always hit. */
  lemma LiteralsHit(items: seq<Operand>, side: Side, uses: seq<nat>, truth: Pred -> bool)
    requires Positions(items, uses) && !AnyPred(items, side)
    ensures AllHit(items, side, uses, truth)
  {
    StoresFillSlots(items, side, truth, |items|);
    LiteralAccesses(items, side, truth, uses);
    forall i | 0 <= i < |items| && Numbered(items[i], side) ensures Holds(Guard(items[i], side), truth) {
      assert SidePred(items[i], side).None?;
    }
    LiveAll(items, side, truth, Numbers(items, side, |items|));
    WithNumbersHits(items, side, NumberedUses(items, side, uses));
  }

  /** Counted indices hit exactly when the live uses are the first live operands, in order. */
  lemma CountedHits(items: seq<Operand>, side: Side, uses: seq<nat>, truth: Pred -> bool)
    requires Positions(items, uses) && AnyPred(items, side)
    ensures var nu, ni := NumberedUses(items, side, uses), Numbers(items, side, |items|);
            && AllNumbered(items, side, nu) && AllNumbered(items, side, ni)
            && (AllHit(items, side, uses, truth) <==> Live(items, side, truth, nu) <= Live(items, side, truth, ni))
  {
    StoresFillSlots(items, side, truth, |items|);
    CountedAccesses(items, side, truth, uses);
    IndexedHits(Live(items, side, truth, NumberedUses(items, side, uses)),
                RunStores(Stores(items, side, |items|), truth));
  }

  /** The numbered operands that the template uses are the first ones of the list, in list order. */
  predicate InStep(items: seq<Operand>, side: Side, uses: seq<nat>)
    requires Positions(items, uses)
  {
    NumberedUses(items, side, uses) <= Numbers(items, side, |items|)
  }

  /**
   * The generated reads and writes touch the slots of their own operands under every truth
   * assignment: always with literal indices, and with counted ones if and only if the
   * template's numbered operands are the first ones of the list, in the same order.
   */
  lemma AccessesHitTheirSlots(items: seq<Operand>, side: Side, uses: seq<nat>)
    requires Positions(items, uses)
    ensures (forall truth: Pred -> bool :: AllHit(items, side, uses, truth))
       <==> (AnyPred(items, side) ==> InStep(items, side, uses))
  {
    if !AnyPred(items, side) {
      forall truth: Pred -> bool ensures AllHit(items, side, uses, truth) { LiteralsHit(items, side, uses, truth); }
    } else if InStep(items, side, uses) {
      forall truth: Pred -> bool ensures AllHit(items, side, uses, truth) {
        CountedHits(items, side, uses, truth);
        LivePrefix(items, side, truth, NumberedUses(items, side, uses), Numbers(items, side, |items|));
      }
    } else {
      OutOfStepMisses(items, side, uses, _ => true);
    }
  }

  /** Out of step, some access misses when all predicates are true. */
  lemma OutOfStepMisses(items: seq<Operand>, side: Side, uses: seq<nat>, truth: Pred -> bool)
    requires Positions(items, uses) && AnyPred(items, side) && !InStep(items, side, uses) && forall p :: truth(p)
    ensures !AllHit(items, side, uses, truth)
  {
    CountedHits(items, side, uses, truth);
    LiveAll(items, side, truth, NumberedUses(items, side, uses));
    LiveAll(items, side, truth, Numbers(items, side, |items|));
  }

  lemma {:induction false} OnlyCounted(items: seq<Operand>, side: Side, uses: seq<nat>)
    requires Positions(items, uses)
    ensures var code := Accesses(items, side, uses);
            && |code| == |NumberedUses(items, side, uses)|
            && forall k :: 0 <= k < |code| ==> code[k].index.Next? == AnyPred(items, side)
    decreases |uses|
  {
    if uses != [] { OnlyCounted(items, side, uses[..|uses| - 1]); }
  }

  /**
   * The code mentions an undeclared index variable exactly when the list is predicated and
   * the template uses numbered operands, but no predicated operand.
   */
  lemma CompilesWhen(items: seq<Operand>, side: Side, uses: seq<nat>)
    requires Positions(items, uses)
    ensures Compiles(items, side, uses) <==>
            !AnyPred(items, side) || NumberedUses(items, side, uses) == [] || Declared(items, side, uses)
  {
    OnlyCounted(items, side, uses);
    var code := Accesses(items, side, uses);
    if code != [] { assert code[0].index.Static? <==> !AnyPred(items, side); }
  }

  /** When the generated code of one side is right: it compiles, and every access hits under every truth assignment. */
  lemma GeneratedCodeRight(items: seq<Operand>, side: Side, uses: seq<nat>)
    requires Positions(items, uses)
    ensures Compiles(items, side, uses) && (forall truth: Pred -> bool :: AllHit(items, side, uses, truth))
       <==> (AnyPred(items, side) && NumberedUses(items, side, uses) != [] ==>
               InStep(items, side, uses) && Declared(items, side, uses))
  {
    AccessesHitTheirSlots(items, side, uses);
    CompilesWhen(items, side, uses);
    assert NumberedUses(items, side, uses) == [] ==> InStep(items, side, uses);
  }

  lemma UseOfOne(items: seq<Operand>, side: Side, i: nat)
    requires i < |items| && Numbered(items[i], side)
    ensures NumberedUses(items, side, [i]) == [i]
  {
    assert [i][..0] == [];
  }

  lemma TwoNumbers(x: Operand, y: Operand)
    requires Numbered(x, Source) && Numbered(y, Source)
    ensures Numbers([x, y], Source, 2) == [0, 1]
  {
    assert Numbers([x, y], Source, 1) == [0];
  }

  /** With x and the predicated y in the list, a template that uses only y finds x in its slot. */
  lemma LeftOutMisses(x: Operand, y: Operand)
    requires Numbered(x, Source) && Numbered(y, Source) && y.readPred.Some?
    ensures !AllHit([x, y], Source, [1], _ => true)
  {
    assert SidePred([x, y][1], Source).Some?;
    TwoNumbers(x, y);
    UseOfOne([x, y], Source, 1);
    OutOfStepMisses([x, y], Source, [1], _ => true);
  }

  /** Leaving nothing out is not enough: a template that mentions y before x finds x in y's slot. */
  lemma SwappedMisses(x: Operand, y: Operand)
    requires Numbered(x, Source) && Numbered(y, Source) && y.readPred.Some?
    ensures !AllHit([x, y], Source, [1, 0], _ => true)
  {
    assert SidePred([x, y][1], Source).Some?;
    TwoNumbers(x, y);
    UseOfOne([x, y], Source, 1);
    assert [1, 0][..1] == [1] && NumberedUses([x, y], Source, [1, 0]) == [1, 0];
    OutOfStepMisses([x, y], Source, [1, 0], _ => true);
  }

  /** A template that uses only x counts with a variable that is not declared. */
  lemma UndeclaredIndex(x: Operand, y: Operand)
    requires Numbered(x, Source) && Numbered(y, Source) && x.readPred.None? && y.readPred.Some?
    ensures InStep([x, y], Source, [0]) && !Compiles([x, y], Source, [0])
  {
    assert SidePred([x, y][1], Source).Some?;
    TwoNumbers(x, y);
    UseOfOne([x, y], Source, 0);
    CompilesWhen([x, y], Source, [0]);
  }

  // ----- the write-back string -----

  /** The write code of operand i, or the write-back of the whole PC state. */
  datatype Piece = OpWrite(operand: nat) | PcWriteBack

  predicate WritesPcPart(op: Operand) { op.kind.PCState? && op.kind.part && op.isDest }

  function OpWrites(n: nat, m: nat): (r: seq<Piece>)
    requires n <= m
    ensures |r| == m - n
  {
    seq(m - n, i requires 0 <= i => OpWrite(n + i))
  }

  lemma OpWritesFirst(n: nat, m: nat)
    requires n < m
    ensures [OpWrite(n)] + OpWrites(n + 1, m) == OpWrites(n, m)
  {
  }

  /** The write-back of operands n to m - 1; `last` is the last partial PC write among them, or m. */
  function WriteBack(n: nat, last: nat, m: nat): seq<Piece>
    requires n <= last <= m
  {
    if last == m then OpWrites(n, m) else OpWrites(n, last + 1) + [PcWriteBack] + OpWrites(last + 1, m)
  }

  lemma WriteBackFirst(n: nat, last: nat, m: nat)
    requires n < last <= m
    ensures [OpWrite(n)] + WriteBack(n + 1, last, m) == WriteBack(n, last, m)
  {
    OpWritesFirst(n, if last == m then m else last + 1);
  }

  /** last is the last partial PC write of the operands from n on, or |items|. */
  predicate LastPcWrite(items: seq<Operand>, n: nat, last: int)
    requires n <= |items|
  {
    && n <= last <= |items| && (last < |items| ==> WritesPcPart(items[last]))
    && forall i :: n <= i < |items| && WritesPcPart(items[i]) ==> i <= last < |items|
  }

  /**
   * The write-back string, built from the last operand to the first: the writes stay in
   * operand order, and the PC state goes back once, right after the last partial PC write.
   */
  method AssembleWriteBack(items: seq<Operand>) returns (wb: seq<Piece>)
    ensures (forall i :: 0 <= i < |items| ==> !WritesPcPart(items[i])) ==> wb == OpWrites(0, |items|)
    ensures forall k :: LastPcWrite(items, 0, k) && k < |items| ==>
              wb == OpWrites(0, k + 1) + [PcWriteBack] + OpWrites(k + 1, |items|)
  {
    var m := |items|;
    wb := [];
    ghost var last: nat := m;
    var pcWb := [PcWriteBack];
    for n := m downto 0
      invariant LastPcWrite(items, n, last) && wb == WriteBack(n, last, m)
      invariant pcWb == if last == m then [PcWriteBack] else []
    {
      if last == m && WritesPcPart(items[n]) {
        assert [OpWrite(n)] == OpWrites(n, n + 1);
        last := n;
      } else {
        WriteBackFirst(n, last, m);
      }
      if WritesPcPart(items[n]) {
        wb := [OpWrite(n)] + pcWb + wb;
        pcWb := [];
      } else {
        wb := [OpWrite(n)] + wb;
      }
    }
  }
}
