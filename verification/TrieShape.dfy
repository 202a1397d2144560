/**
 * The shape of the prefix trie as a value: what every node stands for, carries and links
 * to. `Linked` is the tree invariant, `Compact` the path-compression invariant; the
 * lemmas say that inserting a leaf, splitting an edge and splicing a node out keep them,
 * and that the order of prefixes is the order of the tree.
 */
module TrieShape {
  import opened FiniteSets
  import opened KeyBits
  import opened Wrappers

  type Kids<V> = k: seq<Node?<V>> | |k| == 2 witness [null, null]

  class Node<V> {
    const key: Bits
    const mask: Bits
    var value: Option<V>
    var parent: Node?<V>
    var kids: Kids<V>

    constructor (key: Bits, mask: Bits, value: Option<V>)
      requires |key| == |mask|
      ensures this.key == And(key, mask) && this.mask == mask && this.value == value
      ensures parent == null && kids == [null, null]
    {
      this.key, this.mask, this.value := And(key, mask), mask, value;
      parent, kids := null, [null, null];
    }

    predicate Matches(test: Bits)
      requires |test| == |mask|
    {
      And(test, mask) == key
    }
  }

  /** A node's prefix, cargo and links. */
  datatype Cell<V> = Cell(pre: Bits, value: Option<V>, parent: Node?<V>, kids: Kids<V>)

  type Shape<V> = map<Node<V>, Cell<V>>

  /** Kid i of n hangs correctly below n. */
  ghost predicate KidOk<V>(s: Shape<V>, n: Node<V>, i: nat)
    requires n in s && i < 2
  {
    var k := s[n].kids[i];
    k != null ==> k in s && s[k].parent == n && s[n].pre < s[k].pre
  }

  ghost predicate NodeOk<V>(s: Shape<V>, head: Node<V>, n: Node<V>)
    requires n in s
  {
    var c := s[n];
    && KidOk(s, n, 0) && KidOk(s, n, 1)
    && (c.kids[1] != null ==>
          c.kids[0] != null && s[c.kids[0]].pre[|c.pre|] != s[c.kids[1]].pre[|c.pre|])
    && (n != head ==>
          c.parent != null && c.parent in s && (s[c.parent].kids[0] == n || s[c.parent].kids[1] == n))
  }

  ghost predicate Linked<V>(s: Shape<V>, head: Node<V>)
  {
    && head in s && s[head].pre == [] && s[head].parent == null && s[head].value.None?
    && forall n {:trigger NodeOk(s, head, n)} :: n in s ==> NodeOk(s, head, n)
  }

  /** A node that carries no value exists only to join two kids. */
  ghost predicate Compact<V>(c: Cell<V>)
  {
    c.value.None? ==> c.kids[1] != null
  }

  /** Every node but the head and possibly x is compact. */
  ghost predicate CompactBut<V>(s: Shape<V>, head: Node<V>, x: Node<V>)
  {
    forall n {:trigger Compact(s[n])} :: n in s && n != head && n != x ==> Compact(s[n])
  }

  /** `bound` lists exactly the valued nodes, by prefix. */
  ghost predicate Bound<V>(s: Shape<V>, bound: map<Bits, Node<V>>)
  {
    && (forall p {:trigger bound[p]} :: p in bound ==> bound[p] in s && s[bound[p]].pre == p && s[bound[p]].value.Some?)
    && (forall n {:trigger Listed(s, bound, n)} :: n in s ==> Listed(s, bound, n))
  }

  ghost predicate Listed<V>(s: Shape<V>, bound: map<Bits, Node<V>>, n: Node<V>)
    requires n in s
  {
    s[n].value.Some? ==> s[n].pre in bound && bound[s[n].pre] == n
  }

  // ----- the order of prefixes is the order of the tree -----

  /** The shape of an empty trie. */
  ghost function JustHead<V>(head: Node<V>): Shape<V> { map[head := Cell([], None, null, [null, null])] }

  lemma EmptyShape<V>(head: Node<V>)
    ensures var s := JustHead(head); Linked(s, head) && CompactBut(s, head, head) && Bound(s, map[])
  {
  }

  lemma ParentShorter<V>(s: Shape<V>, head: Node<V>, n: Node<V>)
    requires Linked(s, head) && n in s
    ensures NodeOk(s, head, n)
    ensures n != head ==> NodeOk(s, head, s[n].parent) && s[s[n].parent].pre < s[n].pre
  {
    assert NodeOk(s, head, n);
    if n != head { assert NodeOk(s, head, s[n].parent); }
  }

  ghost predicate Above<V>(s: Shape<V>, head: Node<V>, n: Node<V>, m: Node<V>)
    requires Linked(s, head) && n in s && m in s
    decreases |s[m].pre|
  {
    ParentShorter(s, head, m);
    n == m || (m != head && Above(s, head, n, s[m].parent))
  }

  lemma {:induction false} AboveIsPrefix<V>(s: Shape<V>, head: Node<V>, n: Node<V>, m: Node<V>)
    requires Linked(s, head) && n in s && m in s && Above(s, head, n, m)
    ensures s[n].pre <= s[m].pre
    decreases |s[m].pre|
  {
    ParentShorter(s, head, m);
    if n != m { AboveIsPrefix(s, head, n, s[m].parent); }
  }

  lemma {:induction false} HeadAbove<V>(s: Shape<V>, head: Node<V>, m: Node<V>)
    requires Linked(s, head) && m in s
    ensures Above(s, head, head, m)
    decreases |s[m].pre|
  {
    ParentShorter(s, head, m);
    if m != head { HeadAbove(s, head, s[m].parent); }
  }

  /** Anything strictly below n is at or below one of n's kids. */
  lemma {:induction false} AboveThroughKid<V>(s: Shape<V>, head: Node<V>, n: Node<V>, m: Node<V>) returns (i: nat)
    requires Linked(s, head) && n in s && m in s && Above(s, head, n, m) && n != m
    ensures i < 2 && s[n].kids[i] != null && s[n].kids[i] in s
    ensures Above(s, head, s[n].kids[i], m) && s[n].pre < s[s[n].kids[i]].pre <= s[m].pre
    decreases |s[m].pre|
  {
    ParentShorter(s, head, m);
    ParentShorter(s, head, n);
    if s[m].parent == n {
      i := if s[n].kids[0] == m then 0 else 1;
    } else {
      i := AboveThroughKid(s, head, n, s[m].parent);
    }
  }

  /** A node whose prefix begins m's prefix lies above m. */
  lemma {:induction false} PrefixIsAbove<V>(s: Shape<V>, head: Node<V>, n: Node<V>, m: Node<V>)
    requires Linked(s, head) && n in s && m in s && s[n].pre <= s[m].pre
    ensures Above(s, head, n, m)
    decreases |s[n].pre|
  {
    ParentShorter(s, head, n);
    if n == head {
      HeadAbove(s, head, m);
    } else {
      var p := s[n].parent;
      PrefixIsAbove(s, head, p, m);
      var i := AboveThroughKid(s, head, p, m);
      var d := |s[p].pre|;
      assert s[s[p].kids[i]].pre[d] == s[m].pre[d] == s[n].pre[d];
    }
  }

  /** Distinct nodes stand for distinct prefixes. */
  lemma PrefixesUnique<V>(s: Shape<V>, head: Node<V>, n: Node<V>, m: Node<V>)
    requires Linked(s, head) && n in s && m in s && s[n].pre == s[m].pre
    ensures n == m
  {
    PrefixIsAbove(s, head, n, m);
    if n != m {
      var _ := AboveThroughKid(s, head, n, m);
    }
  }

  /** lookup's step to a matching kid loses no stored prefix of the key. */
  lemma LookupStep<V>(s: Shape<V>, head: Node<V>, at: Node<V>, m: Node<V>, key: Bits, next: Node?<V>)
    requires Linked(s, head) && at in s && NodeOk(s, head, at) && m in s && at != m
    requires s[at].pre <= s[m].pre <= key
    requires var k := s[at].kids;
             next == if k[0] != null && s[k[0]].pre <= key then k[0]
                     else if k[1] != null && s[k[1]].pre <= key then k[1] else null
    ensures next != null && next in s && s[next].pre <= s[m].pre
  {
    PrefixIsAbove(s, head, at, m);
    var i := AboveThroughKid(s, head, at, m);
    var d := |s[at].pre|;
    assert s[s[at].kids[i]].pre <= key;
    assert s[s[at].kids[i]].pre[d] == key[d] == s[next].pre[d];
  }

  /** Storing val under p at handle h added that binding, kept all others and moved no node to another prefix. */
  ghost predicate Inserted<V>(s: Shape<V>, b: map<Bits, Node<V>>, s': Shape<V>, b': map<Bits, Node<V>>, p: Bits,
                              val: V, h: Node<V>)
  {
    && b' == b[p := h]
    && h in s' && s'[h].value == Some(val)
    && (forall n :: n in s ==> n in s' && s'[n].pre == s[n].pre)
    && (forall n :: n in s && n != h ==> s'[n].value == s[n].value)
  }

  /** The map from prefixes to values that a shape with these handles stands for. */
  ghost function Contents<V>(s: Shape<V>, b: map<Bits, Node<V>>): map<Bits, V>
    requires Bound(s, b)
  {
    map p | p in b :: s[b[p]].value.value
  }

  lemma InsertedContents<V>(s: Shape<V>, b: map<Bits, Node<V>>, s': Shape<V>, b': map<Bits, Node<V>>, p: Bits,
                            val: V, h: Node<V>)
    requires Bound(s, b) && Bound(s', b') && Inserted(s, b, s', b', p, val, h)
    ensures Contents(s', b') == Contents(s, b)[p := val]
  {
    forall q | q in b && q != p ensures s'[b'[q]].value == s[b[q]].value {
      assert s'[b'[q]].pre == q && s'[b'[p]].pre == p;
    }
  }

  /** All nodes stay, with their prefixes and values. */
  ghost predicate Kept<V>(s: Shape<V>, s': Shape<V>)
  {
    forall n :: n in s ==> n in s' && s'[n].pre == s[n].pre && s'[n].value == s[n].value
  }

  lemma KeptInserted<V>(s: Shape<V>, b: map<Bits, Node<V>>, s1: Shape<V>, s': Shape<V>, b': map<Bits, Node<V>>,
                        p: Bits, val: V, h: Node<V>)
    requires Kept(s, s1) && Inserted(s1, b, s', b', p, val, h)
    ensures Inserted(s, b, s', b', p, val, h)
  {
  }

  // ----- the updates -----

  ghost function SetValue<V>(s: Shape<V>, n: Node<V>, v: Option<V>): Shape<V>
    requires n in s
  {
    s[n := s[n].(value := v)]
  }

  /** A new leaf h with prefix p in slot i of n. */
  ghost function Attach<V>(s: Shape<V>, n: Node<V>, i: nat, h: Node<V>, p: Bits, val: V): Shape<V>
    requires n in s && i < 2
  {
    s[h := Cell(p, Some(val), n, [null, null])][n := s[n].(kids := s[n].kids[i := h])]
  }

  /** A new valueless node mid with prefix p between n and its kid in slot i. */
  ghost function Split<V>(s: Shape<V>, n: Node<V>, i: nat, kid: Node<V>, mid: Node<V>, p: Bits): Shape<V>
    requires n in s && kid in s && i < 2
  {
    s[mid := Cell(p, None, n, [kid, null])][kid := s[kid].(parent := mid)][n := s[n].(kids := s[n].kids[i := mid])]
  }

  lemma SetValueLinked<V>(s: Shape<V>, head: Node<V>, n: Node<V>, v: Option<V>)
    requires Linked(s, head) && n in s && n != head
    ensures Linked(SetValue(s, n, v), head)
  {
    var t := SetValue(s, n, v);
    forall m | m in t ensures NodeOk(t, head, m) { assert NodeOk(s, head, m); }
  }

  lemma AttachLinked<V>(s: Shape<V>, head: Node<V>, n: Node<V>, i: nat, h: Node<V>, p: Bits, val: V)
    requires Linked(s, head) && n in s && h !in s && i < 2 && s[n].kids[i] == null && s[n].pre < p
    requires i == 1 ==> s[n].kids[0] != null && s[n].kids[0] in s
    requires i == 1 ==> |s[n].pre| < |s[s[n].kids[0]].pre| && s[s[n].kids[0]].pre[|s[n].pre|] != p[|s[n].pre|]
    ensures Linked(Attach(s, n, i, h, p, val), head)
  {
    var t := Attach(s, n, i, h, p, val);
    forall m | m in t ensures NodeOk(t, head, m) {
      assert NodeOk(s, head, n);
      if m != h { assert NodeOk(s, head, m); }
    }
  }

  lemma AttachCompact<V>(s: Shape<V>, head: Node<V>, n: Node<V>, i: nat, h: Node<V>, p: Bits, val: V,
                         bound: map<Bits, Node<V>>)
    requires n in s && h !in s && i < 2 && CompactBut(s, head, n) && Bound(s, bound) && p !in bound
    requires i == 0 ==> n == head || s[n].value.Some?
    ensures CompactBut(Attach(s, n, i, h, p, val), head, head)
    ensures Bound(Attach(s, n, i, h, p, val), bound[p := h])
    ensures Inserted(s, bound, Attach(s, n, i, h, p, val), bound[p := h], p, val, h)
    ensures Attach(s, n, i, h, p, val).Keys == s.Keys + {h}
  {
    var t := Attach(s, n, i, h, p, val);
    forall m | m in t && m != head ensures Compact(t[m]) { if m != h && m != n { assert Compact(s[m]); } }
    forall m | m in t ensures Listed(t, bound[p := h], m) { if m != h { assert Listed(s, bound, m); } }
  }

  lemma SplitLinked<V>(s: Shape<V>, head: Node<V>, n: Node<V>, i: nat, kid: Node<V>, mid: Node<V>, p: Bits)
    requires Linked(s, head) && n in s && mid !in s && i < 2 && s[n].kids[i] == kid
    requires kid in s && s[n].pre < p < s[kid].pre
    ensures Linked(Split(s, n, i, kid, mid, p), head)
  {
    var t := Split(s, n, i, kid, mid, p);
    assert NodeOk(s, head, n);
    forall m | m in t ensures NodeOk(t, head, m) {
      if m == n {
        SplitParent(s, head, n, i, kid, mid, p);
      } else if m != mid {
        assert NodeOk(s, head, m);
        SplitOther(s, head, n, i, kid, mid, p, m);
      }
    }
  }

  lemma SplitParent<V>(s: Shape<V>, head: Node<V>, n: Node<V>, i: nat, kid: Node<V>, mid: Node<V>, p: Bits)
    requires n in s && mid !in s && i < 2 && s[n].kids[i] == kid && NodeOk(s, head, n)
    requires kid in s && s[n].pre < p < s[kid].pre
    ensures NodeOk(Split(s, n, i, kid, mid, p), head, n)
  {
    assert p[|s[n].pre|] == s[kid].pre[|s[n].pre|];
  }

  lemma SplitOther<V>(s: Shape<V>, head: Node<V>, n: Node<V>, i: nat, kid: Node<V>, mid: Node<V>, p: Bits, m: Node<V>)
    requires n in s && mid !in s && i < 2 && s[n].kids[i] == kid && NodeOk(s, head, n)
    requires kid in s && s[n].pre < p < s[kid].pre
    requires m in s && m != n && NodeOk(s, head, m)
    ensures NodeOk(Split(s, n, i, kid, mid, p), head, m)
  {
  }

  lemma SplitCompact<V>(s: Shape<V>, head: Node<V>, n: Node<V>, i: nat, kid: Node<V>, mid: Node<V>, p: Bits,
                        bound: map<Bits, Node<V>>)
    requires n in s && kid in s && mid !in s && i < 2 && s[n].kids[i] == kid
    requires CompactBut(s, head, head) && Bound(s, bound)
    ensures CompactBut(Split(s, n, i, kid, mid, p), head, mid)
    ensures Bound(Split(s, n, i, kid, mid, p), bound)
    ensures Kept(s, Split(s, n, i, kid, mid, p)) && Split(s, n, i, kid, mid, p).Keys == s.Keys + {mid}
  {
    var t := Split(s, n, i, kid, mid, p);
    forall m | m in t && m != head && m != mid ensures Compact(t[m]) { assert Compact(s[m]); }
    forall m | m in t ensures Listed(t, bound, m) { if m != mid { assert Listed(s, bound, m); } }
  }

  lemma SetValueCompact<V>(s: Shape<V>, head: Node<V>, n: Node<V>, val: V, bound: map<Bits, Node<V>>)
    requires n in s && CompactBut(s, head, n) && Bound(s, bound) && s[n].pre !in bound
    ensures CompactBut(SetValue(s, n, Some(val)), head, head)
    ensures Bound(SetValue(s, n, Some(val)), bound[s[n].pre := n])
  {
    var t := SetValue(s, n, Some(val));
    forall m | m in t && m != head ensures Compact(t[m]) { if m != n { assert Compact(s[m]); } }
    forall m | m in t ensures Listed(t, bound[s[n].pre := n], m) { assert Listed(s, bound, m); }
  }

  /** n's place in its parent is taken by its only kid, or closed up if it has none. */
  ghost function KidsAfter<V>(ks: Kids<V>, n: Node<V>, k: Node?<V>): Kids<V>
  {
    var ks' := if ks[0] == n then ks[0 := k] else ks[1 := k];
    if ks'[1] != null && ks'[0] == null then [ks'[1], null] else ks'
  }

  ghost function Splice<V>(s: Shape<V>, n: Node<V>): Shape<V>
    requires n in s && s[n].parent != null && s[n].parent in s
    requires s[n].kids[0] != null ==> s[n].kids[0] in s
  {
    var p, k := s[n].parent, s[n].kids[0];
    var t := (s - {n})[p := s[p].(kids := KidsAfter(s[p].kids, n, k))];
    if k == null then t else t[k := s[k].(parent := p)]
  }

  lemma SpliceLinked<V>(s: Shape<V>, head: Node<V>, n: Node<V>)
    requires Linked(s, head) && n in s && n != head && s[n].kids[1] == null && NodeOk(s, head, n)
    ensures Linked(Splice(s, n), head)
  {
    var t := Splice(s, n);
    ParentShorter(s, head, n);
    forall m | m in t ensures NodeOk(t, head, m) {
      assert NodeOk(s, head, m);
      if m == s[n].parent { SpliceParent(s, head, n); } else { SpliceOther(s, head, n, m); }
    }
  }

  lemma SpliceParent<V>(s: Shape<V>, head: Node<V>, n: Node<V>)
    requires Linked(s, head) && n in s && n != head && s[n].kids[1] == null && NodeOk(s, head, n)
    requires NodeOk(s, head, s[n].parent) && s[s[n].parent].pre < s[n].pre
    ensures NodeOk(Splice(s, n), head, s[n].parent)
  {
    var p, k := s[n].parent, s[n].kids[0];
    if k != null { assert s[k].pre[|s[p].pre|] == s[n].pre[|s[p].pre|]; }
    if p != head { assert s[p].parent != p && s[p].parent != n; }
  }

  lemma SpliceOther<V>(s: Shape<V>, head: Node<V>, n: Node<V>, m: Node<V>)
    requires Linked(s, head) && n in s && n != head && s[n].kids[1] == null && NodeOk(s, head, n)
    requires m in s && m != n && m != s[n].parent && NodeOk(s, head, m)
    ensures NodeOk(Splice(s, n), head, m)
  {
  }

  /** Splicing n out can leave only its parent without two kids, and not even that if n had a kid. */
  lemma SpliceCompact<V>(s: Shape<V>, head: Node<V>, n: Node<V>)
    requires Linked(s, head) && n in s && n != head && s[n].kids[1] == null && NodeOk(s, head, n)
    requires CompactBut(s, head, n)
    ensures CompactBut(Splice(s, n), head, s[n].parent)
    ensures s[n].kids[0] != null ==> CompactBut(Splice(s, n), head, head)
  {
    var p, k := s[n].parent, s[n].kids[0];
    var t := Splice(s, n);
    ParentShorter(s, head, n);
    forall m | m in t && m != head && (m != p || k != null) ensures Compact(t[m]) {
      assert Compact(s[m]);
    }
  }

  /** Removing the node n dropped n's binding and kept all others at their handles. */
  ghost predicate Removed<V>(s: Shape<V>, b: map<Bits, Node<V>>, s': Shape<V>, b': map<Bits, Node<V>>, n: Node<V>)
    requires n in s
  {
    && b' == (if s[n].value.Some? then b - {s[n].pre} else b)
    && s'.Keys <= s.Keys
    && (forall m :: m in s' ==> s'[m].pre == s[m].pre)
    && (forall m :: m in s' && m != n ==> s'[m].value == s[m].value)
  }

  lemma RemovedContents<V>(s: Shape<V>, b: map<Bits, Node<V>>, s': Shape<V>, b': map<Bits, Node<V>>, n: Node<V>)
    requires n in s && s[n].value.Some? && Bound(s, b) && Bound(s', b') && Removed(s, b, s', b', n)
    ensures Contents(s', b') == Contents(s, b) - {s[n].pre}
  {
    forall q | q in b' ensures s'[b'[q]].value == s[b[q]].value {
      assert b[q] != n;
    }
  }

  lemma SpliceRemoved<V>(s: Shape<V>, head: Node<V>, n: Node<V>, b: map<Bits, Node<V>>)
    requires Linked(s, head) && n in s && n != head && s[n].kids[1] == null && NodeOk(s, head, n) && Bound(s, b)
    ensures var b' := if s[n].value.Some? then b - {s[n].pre} else b;
            Removed(s, b, Splice(s, n), b', n) && Bound(Splice(s, n), b')
  {
    var b' := if s[n].value.Some? then b - {s[n].pre} else b;
    var t := Splice(s, n);
    assert Listed(s, b, n);
    forall m | m in t ensures Listed(t, b', m) { assert Listed(s, b, m); }
  }

  /** All that splicing n out keeps and changes. */
  lemma SpliceStep<V>(s: Shape<V>, head: Node<V>, n: Node<V>, b: map<Bits, Node<V>>)
    returns (t: Shape<V>, b': map<Bits, Node<V>>)
    requires Linked(s, head) && n in s && n != head && s[n].kids[1] == null && NodeOk(s, head, n) && Bound(s, b)
    requires CompactBut(s, head, n)
    ensures t == Splice(s, n) && n !in t && s[n].parent in t && s[n].parent != n
    ensures t[s[n].parent].kids == KidsAfter(s[s[n].parent].kids, n, s[n].kids[0])
    ensures s[n].kids[0] != null ==> s[n].kids[0] != n && s[n].kids[0] != s[n].parent
    ensures Linked(t, head) && Bound(t, b') && Removed(s, b, t, b', n)
    ensures CompactBut(t, head, s[n].parent) && (s[n].kids[0] != null ==> CompactBut(t, head, head))
  {
    SpliceLinked(s, head, n);
    SpliceCompact(s, head, n);
    SpliceRemoved(s, head, n, b);
    ParentShorter(s, head, n);
    t, b' := Splice(s, n), if s[n].value.Some? then b - {s[n].pre} else b;
  }

  lemma UnsetValue<V>(s: Shape<V>, head: Node<V>, n: Node<V>, b: map<Bits, Node<V>>)
    requires Linked(s, head) && n in s && s[n].value.Some? && s[n].kids[1] != null && Bound(s, b)
    requires CompactBut(s, head, n)
    ensures CompactBut(SetValue(s, n, None), head, head)
    ensures Removed(s, b, SetValue(s, n, None), b - {s[n].pre}, n) && Bound(SetValue(s, n, None), b - {s[n].pre})
  {
    var t := SetValue(s, n, None);
    assert Listed(s, b, n);
    forall m | m in t && m != head ensures Compact(t[m]) { if m != n { assert Compact(s[m]); } }
    forall m | m in t ensures Listed(t, b - {s[n].pre}, m) { assert Listed(s, b, m); }
  }

  lemma RemovedTwice<V>(s: Shape<V>, b: map<Bits, Node<V>>, s1: Shape<V>, b1: map<Bits, Node<V>>, s2: Shape<V>,
                        b2: map<Bits, Node<V>>, n: Node<V>, p: Node<V>)
    requires n in s && p in s1 && Removed(s, b, s1, b1, n) && Removed(s1, b1, s2, b2, p) && s1[p].value.None?
    requires p !in s2 && n !in s1
    ensures Removed(s, b, s2, b2, n)
  {
  }

  // ----- size -----

  ghost function Valued<V>(s: Shape<V>): set<Node<V>> { set n | n in s && s[n].value.Some? }

  /** The valueless nodes below the head. */
  ghost function Joins<V>(s: Shape<V>, head: Node<V>): set<Node<V>> { s.Keys - {head} - Valued(s) }

  /** The i-th kids of the joins are distinct nodes, as many as the joins, and their parents are joins. */
  lemma JoinKids<V>(s: Shape<V>, head: Node<V>, i: nat) returns (K: set<Node<V>>)
    requires Linked(s, head) && CompactBut(s, head, head) && i < 2
    ensures |K| == |Joins(s, head)|
    ensures forall x :: x in K ==> x in s && x != head && s[x].parent in Joins(s, head) && s[s[x].parent].kids[i] == x
  {
    var J := Joins(s, head);
    forall n | n in J ensures s[n].kids[i] != null && KidOk(s, n, i) {
      assert Compact(s[n]) && NodeOk(s, head, n);
    }
    var kid: map<Node<V>, Node<V>> := map n | n in J :: s[n].kids[i];
    ImageSize(J, kid);
    K := Image(J, kid);
  }

  /** There are as many valued nodes as bindings. */
  lemma ValuedSize<V>(s: Shape<V>, b: map<Bits, Node<V>>)
    requires Bound(s, b)
    ensures |Valued(s)| == |b|
  {
    forall p, q | p in b && q in b && b[p] == b[q] ensures p == q {
      assert s[b[p]].pre == p && s[b[q]].pre == q;
    }
    ImageSize(b.Keys, b);
    forall n | n in Valued(s) ensures n in Image(b.Keys, b) { assert Listed(s, b, n); }
    assert Valued(s) == Image(b.Keys, b);
  }

  /** A tree with a value has a node right below the head. */
  lemma TopNode<V>(s: Shape<V>, head: Node<V>) returns (top: Node<V>)
    requires Linked(s, head) && Valued(s) != {}
    ensures top in s && top != head && s[top].parent == head
  {
    var v :| v in Valued(s);
    HeadAbove(s, head, v);
    var i := AboveThroughKid(s, head, head, v);
    top := s[head].kids[i];
    assert NodeOk(s, head, head);
  }

  lemma KidsDiffer<V>(s: Shape<V>, head: Node<V>, n: Node<V>)
    requires Linked(s, head) && n in s && s[n].kids[0] != null
    ensures s[n].kids[0] != s[n].kids[1]
  {
    assert NodeOk(s, head, n);
  }

  /** A compact trie with at least one value has fewer than twice as many nodes, head aside, as values. */
  lemma NodeCount<V>(s: Shape<V>, head: Node<V>)
    requires Linked(s, head) && CompactBut(s, head, head) && Valued(s) != {}
    ensures |s.Keys - {head}| <= 2 * |Valued(s)| - 1
  {
    var all := s.Keys - {head};
    var K0 := JoinKids(s, head, 0);
    var K1 := JoinKids(s, head, 1);
    var top := TopNode(s, head);
    forall x | x in K0 ensures x !in K1 { KidsDiffer(s, head, s[x].parent); }
    assert Valued(s) <= all && all - Valued(s) == Joins(s, head);
    PairedSize(all, Valued(s), K0, K1, top);
  }

  lemma PairedSize<T>(all: set<T>, valued: set<T>, K0: set<T>, K1: set<T>, top: T)
    requires valued <= all && |K0| == |K1| == |all - valued|
    requires K0 !! K1 && top !in K0 + K1 && K0 + K1 + {top} <= all
    ensures |all| <= 2 * |valued| - 1
  {
    SubsetSize(K0 + K1 + {top}, all);
    assert |all| == |valued| + |all - valued| by { assert all == valued + (all - valued); }
  }
}
