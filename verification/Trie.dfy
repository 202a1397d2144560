/**
 * The path-compressed binary prefix trie on the heap. `shape` mirrors the nodes and
 * `bound` is the abstract map from stored prefixes to their handles; every operation is
 * specified on `bound`, and `Valid` ties all three together.
 */
module PrefixTrie {
  import opened FiniteSets
  import opened KeyBits
  import opened TrieShape
  import opened Wrappers

  /** Length of the longest common prefix. */
  function CommonLength(p: Bits, q: Bits): (c: nat)
    ensures c <= |p| && c <= |q| && p[..c] == q[..c]
    ensures c < |p| && c < |q| ==> p[c] != q[c]
  {
    if p == [] || q == [] || p[0] != q[0] then 0
    else
      var c := CommonLength(p[1..], q[1..]);
      assert p[..c + 1] == [p[0]] + p[1..][..c];
      assert q[..c + 1] == [q[0]] + q[1..][..c];
      c + 1
  }

  lemma CommonIs(p: Bits, q: Bits, c: nat)
    requires c <= |p| && c <= |q| && p[..c] == q[..c]
    requires c == |p| || (c < |q| && p[c] != q[c])
    ensures c == CommonLength(p, q)
  {
    var e := CommonLength(p, q);
    assert forall i :: 0 <= i < c ==> p[..c][i] == p[i] && q[..c][i] == q[i];
    assert forall i :: 0 <= i < e ==> p[..e][i] == p[i] && q[..e][i] == q[i];
  }

  /** p is the shortest key of the map m that begins key. */
  ghost predicate ShortestIn<V>(m: map<Bits, V>, key: Bits, p: Bits)
  {
    p in m && p <= key && forall q :: q in m && q <= key ==> |p| <= |q|
  }

  /** Two keys that agree on c bits agree under the next longer mask exactly when their next bits do. */
  lemma SameNextBit(p: Bits, q: Bits, c: nat, w: nat)
    requires c < |p| <= w && c < |q| <= w && p[..c] == q[..c]
    ensures And(Pad(p, w), Ones(c + 1, w)) == And(Pad(q, w), Ones(c + 1, w)) <==> p[c] == q[c]
    ensures p[c] == q[c] ==> p[..c + 1] == q[..c + 1]
  {
    var key, kidKey := Pad(p, w), Pad(q, w);
    AndOnes(key, c + 1);
    AndOnes(kidKey, c + 1);
    PadInjective(key[..c + 1], kidKey[..c + 1], w);
    assert key[..c + 1] == p[..c + 1] == p[..c] + [p[c]];
    assert kidKey[..c + 1] == q[..c + 1] == q[..c] + [q[c]];
  }

  /** insert's walk down a leg: the longest mask on which the new key and the kid agree. */
  method WalkLeg(curMask: Bits, newMask: Bits, key: Bits, kidKey: Bits,
                 ghost d: nat, ghost p: Bits, ghost q: Bits, ghost w: nat)
    returns (m: Bits)
    requires 0 < w && |p| <= w && |q| <= w && d < |p| && d < |q|
    requires key == Pad(p, w) && kidKey == Pad(q, w)
    requires curMask == Ones(d, w) && newMask == Ones(|p|, w)
    requires p[..d] == q[..d]
    requires !(q <= p)  // otherwise insert would have walked past the kid
    ensures m == Ones(CommonLength(p, q), w)
    ensures d <= CommonLength(p, q) < |q|
  {
    m := curMask;
    var lastMask, done := curMask, false;
    ghost var c := d;
    while !done
      invariant d <= c <= |p| && c < |q| && p[..c] == q[..c]
      invariant !done ==> m == Ones(c, w)
      invariant done ==> lastMask == Ones(c, w)
      invariant done ==> c == |p| || p[c] != q[c]
      decreases !done, |p| - c
    {
      lastMask := m;
      ExtendMaskAddsOneBit(c, w);
      m := ExtendMask(m);
      done := And(key, m) != And(kidKey, m) || lastMask == newMask;
      OnesInjective(c, |p|, w);
      if c < |p| {
        SameNextBit(p, q, c, w);
        if !done { c := c + 1; }
      }
    }
    m := lastMask;
    CommonIs(p, q, c);
  }

  class Trie<V> {
    const maxBits: nat
    const head: Node<V>
    ghost var shape: Shape<V>
    ghost var bound: map<Bits, Node<V>>

    /** n's stored key and mask stand for the prefix p. */
    ghost predicate Encodes(n: Node<V>, p: Bits)
    {
      |p| <= maxBits && n.mask == Ones(|p|, maxBits) && n.key == Pad(p, maxBits)
    }

    ghost predicate Mirrors(n: Node<V>, c: Cell<V>)
      reads n
    {
      n.value == c.value && n.parent == c.parent && n.kids == c.kids
    }

    ghost predicate Mirrored(s: Shape<V>)
      reads s.Keys
    {
      forall n :: n in s ==> Mirrors(n, s[n])
    }

    ghost predicate Encoded(s: Shape<V>)
    {
      forall n {:trigger Encodes(n, s[n].pre)} :: n in s ==> Encodes(n, s[n].pre)
    }

    /** The nodes on the heap are as `shape` says, and form a tree that lists `bound`. */
    ghost predicate WellLinked()
      reads this, shape.Keys
    {
      && maxBits > 0
      && Encoded(shape)
      && Mirrored(shape)
      && Linked(shape, head)
      && Bound(shape, bound)
    }

    ghost predicate Valid()
      reads this, shape.Keys
    {
      WellLinked() && CompactBut(shape, head, head)
    }

    /** The abstract value of the trie. */
    ghost function Model(): map<Bits, V>
      requires Bound(shape, bound)
      reads this
    {
      Contents(shape, bound)
    }

    constructor (maxBits: nat)
      requires maxBits > 0
      ensures this.maxBits == maxBits
      ensures Valid() && fresh(shape.Keys) && Model() == map[]
    {
      this.maxBits := maxBits;
      var zero := Ones(0, maxBits);
      var h := new Node<V>(zero, zero, None);
      head := h;
      shape := map[h := Cell([], None, null, [null, null])];
      bound := map[];
      AndOnes(zero, 0);
    }

    /** A trie with n >= 1 bindings has at most 2n - 1 nodes below its head. */
    lemma SizeBound()
      requires Valid() && Model() != map[]
      ensures |shape| - 1 <= 2 * |Model()| - 1
    {
      ValuedSize(shape, bound);
      assert Model().Keys == bound.Keys;
      NodeCount(shape, head);
      assert |shape.Keys - {head}| == |shape| - 1;
    }

    // ----- lookup -----

    method LookupHandle(key: Bits) returns (handle: Node?<V>)
      requires Valid() && |key| == maxBits
      ensures handle == null ==> forall p :: p in bound ==> !(p <= key)
      ensures handle != null ==> handle in shape && ShortestIn(bound, key, shape[handle].pre)
      ensures handle != null ==> bound[shape[handle].pre] == handle
    {
      var node: Node?<V> := head;
      while node != null
        invariant node != null ==> node in shape && shape[node].pre <= key
        invariant node != null ==> forall p :: p in bound && p <= key ==> shape[node].pre <= p
        invariant node == null ==> forall p :: p in bound ==> !(p <= key)
        decreases if node == null then 0 else 1 + maxBits - |shape[node].pre|
      {
        if node.value.Some? {
          assert Listed(shape, bound, node);
          return node;
        }
        ghost var at := node;
        assert NodeOk(shape, head, at);
        assert at.kids[0] != null ==> Encodes(at.kids[0], shape[at.kids[0]].pre);
        assert at.kids[1] != null ==> Encodes(at.kids[1], shape[at.kids[1]].pre);
        if at.kids[0] != null { MatchesIsPrefix(key, shape[at.kids[0]].pre); }
        if at.kids[1] != null { MatchesIsPrefix(key, shape[at.kids[1]].pre); }
        if node.kids[0] != null && node.kids[0].Matches(key) {
          node := node.kids[0];
        } else if node.kids[1] != null && node.kids[1].Matches(key) {
          node := node.kids[1];
        } else {
          node := null;
        }
        forall p | p in bound && p <= key
          ensures node != null && shape[node].pre <= p
        {
          LookupStep(shape, head, at, bound[p], key, node);
        }
      }
      return null;
    }

    method Lookup(key: Bits) returns (r: Option<V>)
      requires Valid() && |key| == maxBits
      ensures r.None? <==> forall p :: p in bound ==> !(p <= key)
      ensures r.Some? ==> exists p :: ShortestIn(bound, key, p) && Model()[p] == r.value
    {
      var node := LookupHandle(key);
      if node != null {
        assert ShortestIn(bound, key, shape[node].pre);
        r := node.value;
      } else {
        r := None;
      }
    }

    // ----- insert -----

    /** The prefix that insert(key, width, _) stores. */
    ghost function Prefix(key: Bits, width: nat): (p: Bits)
      requires |key| == maxBits
    {
      key[..if width < maxBits then width else maxBits]
    }

    /** goesAfter: may insert step down to kid? */
    predicate GoesAfter(kid: Node?<V>, key: Bits, newMask: Bits)
      requires kid != null ==> |kid.mask| == |key| == |newMask|
    {
      kid != null && kid.Matches(key) && And(kid.mask, newMask) == kid.mask
    }

    lemma GoesAfterIsPrefix(kid: Node<V>, q: Bits, p: Bits)
      requires Encodes(kid, q) && |p| <= maxBits
      ensures GoesAfter(kid, Pad(p, maxBits), Ones(|p|, maxBits)) <==> q <= p
    {
      MatchesIsPrefix(Pad(p, maxBits), q);
      OnesContained(|q|, |p|, maxBits);
      assert |q| <= |p| ==> Pad(p, maxBits)[..|q|] == p[..|q|];
    }

    /** Insert's first walk: past all nodes the new prefix goes after. */
    method WalkPast(key: Bits, newMask: Bits, ghost p: Bits) returns (node: Node<V>)
      requires Valid() && |p| <= maxBits && key == Pad(p, maxBits) && newMask == Ones(|p|, maxBits)
      ensures node in shape && NodeOk(shape, head, node) && shape[node].pre <= p
      ensures forall i :: 0 <= i < 2 && node.kids[i] != null ==> !(shape[node.kids[i]].pre <= p)
    {
      node := head;
      assert Encodes(node, shape[node].pre);
      while true
        invariant node in shape && shape[node].pre <= p
        decreases maxBits - |shape[node].pre|
      {
        assert NodeOk(shape, head, node);
        assert node.kids[0] != null ==> Encodes(node.kids[0], shape[node.kids[0]].pre);
        assert node.kids[1] != null ==> Encodes(node.kids[1], shape[node.kids[1]].pre);
        if node.kids[0] != null { GoesAfterIsPrefix(node.kids[0], shape[node.kids[0]].pre, p); }
        if node.kids[1] != null { GoesAfterIsPrefix(node.kids[1], shape[node.kids[1]].pre, p); }
        if GoesAfter(node.kids[0], key, newMask) {
          node := node.kids[0];
        } else if GoesAfter(node.kids[1], key, newMask) {
          node := node.kids[1];
        } else {
          break;
        }
      }
    }

    /** A new node for the prefix p, the first bits of key, below parent. */
    method NewNode(key: Bits, mask: Bits, value: Option<V>, parent: Node<V>, ghost p: Bits) returns (n: Node<V>)
      requires |key| == maxBits && p <= key && mask == Ones(|p|, maxBits)
      ensures fresh(n) && Encodes(n, p) && Mirrors(n, Cell(p, value, parent, [null, null]))
    {
      n := new Node<V>(key, mask, value);
      AndOnes(key, |p|);
      n.parent := parent;
    }

    lemma KeepEncoded(s: Shape<V>, t: Shape<V>, n: Node<V>)
      requires Encoded(s) && n in t && Encodes(n, t[n].pre)
      requires forall m :: m in t && m != n ==> m in s && t[m].pre == s[m].pre
      ensures Encoded(t)
    {
      forall m | m in t ensures Encodes(m, t[m].pre) { if m != n { assert Encodes(m, s[m].pre); } }
    }

    method LinkLeaf(node: Node<V>, i: nat, h: Node<V>, ghost p: Bits, ghost val: V)
      requires Mirrored(shape) && node in shape && h !in shape && i < 2
      requires Mirrors(h, Cell(p, Some(val), node, [null, null]))
      modifies node`kids
      ensures Mirrored(Attach(shape, node, i, h, p, val))
    {
      node.kids := node.kids[i := h];
    }

    /** An empty slot i of node takes the new node. */
    method AttachLeaf(node: Node<V>, i: nat, key: Bits, newMask: Bits, val: V, ghost p: Bits) returns (h: Node<V>)
      requires WellLinked() && CompactBut(shape, head, node)
      requires |key| == maxBits && p <= key && newMask == Ones(|p|, maxBits)
      requires p !in bound && node in shape && NodeOk(shape, head, node) && shape[node].pre < p
      requires i < 2 && node.kids[i] == null
      requires i == 1 ==> node.kids[0] != null && shape[node.kids[0]].pre[|shape[node].pre|] != p[|shape[node].pre|]
      requires i == 0 ==> node == head || node.value.Some?
      modifies this, node`kids
      ensures Valid() && fresh(h) && shape.Keys == old(shape.Keys) + {h}
      ensures Inserted(old(shape), old(bound), shape, bound, p, val, h)
    {
      h := NewNode(key, newMask, Some(val), node, p);
      AttachLinked(shape, head, node, i, h, p, val);
      AttachCompact(shape, head, node, i, h, p, val, bound);
      LinkLeaf(node, i, h, p, val);
      shape := Attach(shape, node, i, h, p, val);
      KeepEncoded(old(shape), shape, h);
      bound := bound[p := h];
    }

    method LinkMiddle(node: Node<V>, i: nat, kid: Node<V>, mid: Node<V>, ghost p: Bits)
      requires Mirrored(shape) && node in shape && kid in shape && mid !in shape && node != kid && i < 2
      requires Mirrors(mid, Cell(p, None, node, [null, null]))
      modifies node`kids, kid`parent, mid`kids
      ensures Mirrored(Split(shape, node, i, kid, mid, p))
    {
      kid.parent := mid;
      mid.kids := mid.kids[0 := kid];
      node.kids := node.kids[i := mid];
    }

    /** A new node for the prefix p on the edge from node to its kid i. */
    method SplitEdge(node: Node<V>, i: nat, kid: Node<V>, key: Bits, curMask: Bits, ghost p: Bits)
      returns (mid: Node<V>)
      requires Valid() && |key| == maxBits && p <= key && curMask == Ones(|p|, maxBits)
      requires node in shape && kid in shape && i < 2 && node.kids[i] == kid
      requires shape[node].pre < p < shape[kid].pre
      modifies this`shape, node`kids, kid`parent
      ensures WellLinked() && CompactBut(shape, head, mid)
      ensures fresh(mid) && shape.Keys == old(shape.Keys) + {mid} && Kept(old(shape), shape)
      ensures shape[mid] == Cell(p, None, node, [kid, null]) && NodeOk(shape, head, mid)
    {
      mid := NewNode(key, curMask, None, node, p);
      SplitLinked(shape, head, node, i, kid, mid, p);
      SplitCompact(shape, head, node, i, kid, mid, p, bound);
      LinkMiddle(node, i, kid, mid, p);
      shape := Split(shape, node, i, kid, mid, p);
      KeepEncoded(old(shape), shape, mid);
    }

    /** An existing valueless node takes the value. */
    method StoreAt(node: Node<V>, val: V)
      requires WellLinked() && CompactBut(shape, head, node)
      requires node in shape && node != head && shape[node].pre !in bound
      modifies this, node`value
      ensures Valid() && shape.Keys == old(shape.Keys)
      ensures Inserted(old(shape), old(bound), shape, bound, old(shape[node].pre), val, node)
    {
      SetValueLinked(shape, head, node, Some(val));
      SetValueCompact(shape, head, node, val, bound);
      node.value := Some(val);
      bound := bound[shape[node].pre := node];
      shape := SetValue(shape, node, Some(val));
      KeepEncoded(old(shape), shape, node);
    }

    /** An edge can be split at the first c bits of p, which go along with the kid. */
    ghost predicate Splits(node: Node<V>, i: nat, kid: Node<V>, p: Bits, c: nat)
      reads this, node
    {
      && node in shape && kid in shape && i < 2 && node.kids[i] == kid && shape[node].pre <= p
      && |shape[node].pre| < c <= |p| && c < |shape[kid].pre| && p[..c] < shape[kid].pre
    }

    /** The edge from node to its kid i is split at p, and the value stored there. */
    method SplitAtEnd(node: Node<V>, i: nat, kid: Node<V>, key: Bits, curMask: Bits, val: V, ghost p: Bits)
      returns (h: Node<V>, ghost mid: Node<V>)
      requires Valid() && |key| == maxBits && p <= key && p !in bound && Splits(node, i, kid, p, |p|)
      requires curMask == Ones(|p|, maxBits)
      modifies this, node`kids, kid`parent
      ensures Valid() && fresh(mid) && fresh(h) && shape.Keys == old(shape.Keys) + {mid} + {h}
      ensures Inserted(old(shape), old(bound), shape, bound, p, val, h)
    {
      assert p[..|p|] == p;
      h := SplitEdge(node, i, kid, key, curMask, p);
      StoreSplit(h, val, old(shape));
      mid := h;
      AddTwice(old(shape.Keys), h);
    }

    /** The new node mid takes the value; all nodes from before it are kept. */
    method StoreSplit(mid: Node<V>, val: V, ghost before: Shape<V>)
      requires WellLinked() && CompactBut(shape, head, mid) && Kept(before, shape)
      requires mid in shape && mid != head && shape[mid].pre !in bound
      modifies this, mid`value
      ensures Valid() && shape.Keys == old(shape.Keys)
      ensures Inserted(before, old(bound), shape, bound, old(shape[mid].pre), val, mid)
    {
      StoreAt(mid, val);
      KeptInserted(before, old(bound), old(shape), shape, bound, old(shape[mid].pre), val, mid);
    }

    /** The edge is split at the first c bits of p, and p stored beside the kid below them. */
    method SplitBeside(node: Node<V>, i: nat, kid: Node<V>, key: Bits, curMask: Bits, newMask: Bits, val: V,
                       ghost p: Bits, ghost c: nat)
      returns (h: Node<V>, ghost mid: Node<V>)
      requires Valid() && |key| == maxBits && p <= key && newMask == Ones(|p|, maxBits) && p !in bound
      requires Splits(node, i, kid, p, c) && c < |p| && p[c] != shape[kid].pre[c] && curMask == Ones(c, maxBits)
      modifies this, node`kids, kid`parent
      ensures Valid() && fresh(mid) && fresh(h) && shape.Keys == old(shape.Keys) + {mid} + {h}
      ensures Inserted(old(shape), old(bound), shape, bound, p, val, h)
    {
      var middle := SplitEdge(node, i, kid, key, curMask, p[..c]);
      h := AttachBeside(middle, kid, key, newMask, val, p, c, old(shape));
      mid := middle;
    }

    /** The new node mid has the old kid first; the new prefix goes beside it. */
    method AttachBeside(mid: Node<V>, kid: Node<V>, key: Bits, newMask: Bits, val: V, ghost p: Bits, ghost c: nat,
                        ghost before: Shape<V>)
      returns (h: Node<V>)
      requires WellLinked() && CompactBut(shape, head, mid) && Kept(before, shape)
      requires |key| == maxBits && p <= key && newMask == Ones(|p|, maxBits) && p !in bound
      requires c < |p| && mid in shape && NodeOk(shape, head, mid)
      requires shape[mid].kids == [kid, null] && shape[mid].pre == p[..c]
      requires kid in shape && c < |shape[kid].pre| && p[c] != shape[kid].pre[c]
      modifies this, mid`kids
      ensures Valid() && fresh(h) && shape.Keys == old(shape.Keys) + {h}
      ensures Inserted(before, old(bound), shape, bound, p, val, h)
    {
      assert mid.kids == [kid, null];
      h := AttachLeaf(mid, 1, key, newMask, val, p);
      KeptInserted(before, old(bound), old(shape), shape, bound, p, val, h);
    }

    /** The edge from node to its kid i is split at the first c bits of p, and p stored there or beside it. */
    method SplitAndStore(node: Node<V>, i: nat, kid: Node<V>, key: Bits, curMask: Bits, newMask: Bits, val: V,
                         ghost p: Bits, ghost c: nat)
      returns (h: Node<V>, ghost mid: Node<V>)
      requires Valid() && |key| == maxBits && p <= key && newMask == Ones(|p|, maxBits) && p !in bound
      requires Splits(node, i, kid, p, c) && (c < |p| ==> p[c] != shape[kid].pre[c]) && curMask == Ones(c, maxBits)
      modifies this, node`kids, kid`parent
      ensures Valid() && fresh(mid) && fresh(h) && shape.Keys == old(shape.Keys) + {mid} + {h}
      ensures Inserted(old(shape), old(bound), shape, bound, p, val, h)
    {
      OnesInjective(c, |p|, maxBits);
      if curMask == newMask {
        h, mid := SplitAtEnd(node, i, kid, key, curMask, val, p);
      } else {
        h, mid := SplitBeside(node, i, kid, key, curMask, newMask, val, p, c);
      }
    }

    method Insert(key: Bits, width: nat, val: V) returns (h: Node<V>)
      requires Valid() && |key| == maxBits && width >= 1
      requires Prefix(key, width) !in bound
      modifies this, shape.Keys
      ensures Valid() && fresh(shape.Keys - old(shape.Keys))
      ensures Inserted(old(shape), old(bound), shape, bound, Prefix(key, width), val, h)
      ensures Model() == old(Model())[Prefix(key, width) := val]
    {
      var newMask := Ones(maxBits, maxBits);
      if width < maxBits {
        newMask := Shl(newMask, maxBits - width);
      }
      ghost var p := Prefix(key, width);
      assert newMask == Ones(|p|, maxBits);
      AndOnes(key, |p|);
      var k := And(key, newMask);
      h := InsertMasked(k, newMask, val, p);
      InsertedContents(old(shape), old(bound), shape, bound, p, val, h);
    }

    /** The mask down to which the new prefix goes along with a kid of node. */
    method SharedMask(node: Node<V>, kid: Node<V>, curMask: Bits, newMask: Bits, key: Bits, ghost p: Bits)
      returns (m: Bits)
      requires Valid() && |p| <= maxBits && key == Pad(p, maxBits) && newMask == Ones(|p|, maxBits)
      requires node in shape && kid in shape && shape[node].pre < p && shape[node].pre < shape[kid].pre
      requires !(shape[kid].pre <= p) && curMask == node.mask
      ensures var c := CommonLength(p, shape[kid].pre);
              && |shape[node].pre| <= c < |shape[kid].pre| && m == Ones(c, maxBits)
              && (m == node.mask <==> c == |shape[node].pre|)
    {
      assert Encodes(node, shape[node].pre) && Encodes(kid, shape[kid].pre);
      m := WalkLeg(curMask, newMask, key, kid.key, |shape[node].pre|, p, shape[kid].pre, maxBits);
      OnesInjective(CommonLength(p, shape[kid].pre), |shape[node].pre|, maxBits);
    }

    method InsertMasked(key: Bits, newMask: Bits, val: V, ghost p: Bits) returns (h: Node<V>)
      requires Valid() && 1 <= |p| <= maxBits && key == Pad(p, maxBits) && newMask == Ones(|p|, maxBits)
      requires p !in bound
      modifies this, shape.Keys
      ensures Valid() && fresh(shape.Keys - old(shape.Keys))
      ensures Inserted(old(shape), old(bound), shape, bound, p, val, h)
    {
      var node := WalkPast(key, newMask, p);
      assert Encodes(node, shape[node].pre);
      var curMask := node.mask;
      OnesInjective(|shape[node].pre|, |p|, maxBits);
      if curMask == newMask {
        assert shape[node].pre == p;
        StoreAt(node, val);
        return node;
      }
      ghost var mid;
      h, mid := InsertBelow(node, key, newMask, val, p);
    }

    /** p leaves node by another bit than the kid in slot i. */
    ghost predicate PartsFrom(node: Node<V>, i: nat, p: Bits)
      requires i < 2
      reads this, node
    {
      && node in shape && node.kids[i] != null && node.kids[i] in shape
      && |shape[node].pre| < |p| && |shape[node].pre| < |shape[node.kids[i]].pre|
      && shape[node.kids[i]].pre[|shape[node].pre|] != p[|shape[node].pre|]
    }

    /** One pass of insert's loop: null if the leg in slot i is not the right one to go down at all. */
    method TryLeg(node: Node<V>, i: nat, key: Bits, newMask: Bits, val: V, ghost p: Bits)
      returns (h: Node?<V>, ghost mid: Node<V>)
      requires Valid() && |p| <= maxBits && key == Pad(p, maxBits) && newMask == Ones(|p|, maxBits) && p !in bound
      requires node in shape && NodeOk(shape, head, node) && shape[node].pre < p && i < 2
      requires node.kids[i] != null ==> !(shape[node.kids[i]].pre <= p)
      requires i == 1 ==> PartsFrom(node, 0, p)
      modifies this, shape.Keys
      ensures h == null ==> unchanged(this) && unchanged(shape.Keys) && PartsFrom(node, i, p)
      ensures h != null ==> Valid() && fresh(mid) && fresh(h) && shape.Keys == old(shape.Keys) + {mid} + {h}
      ensures h != null ==> Inserted(old(shape), old(bound), shape, bound, p, val, h)
    {
      if node.kids[i] == null {
        assert node != head ==> Compact(shape[node]);
        h := AttachLeaf(node, i, key, newMask, val, p);
        mid := h;
        AddTwice(old(shape.Keys), h);
        return;
      }
      var kid := node.kids[i];
      var curMask := SharedMask(node, kid, node.mask, newMask, key, p);
      ghost var c := CommonLength(p, shape[kid].pre);
      if curMask == node.mask {
        return null, node;
      }
      h, mid := SplitAndStore(node, i, kid, key, curMask, newMask, val, p, c);
    }

    /** insert's loop over the two legs of node, the last node that the new prefix goes after. */
    method InsertBelow(node: Node<V>, key: Bits, newMask: Bits, val: V, ghost p: Bits)
      returns (h: Node<V>, ghost mid: Node<V>)
      requires Valid() && |p| <= maxBits && key == Pad(p, maxBits) && newMask == Ones(|p|, maxBits) && p !in bound
      requires node in shape && NodeOk(shape, head, node) && shape[node].pre < p
      requires forall i :: 0 <= i < 2 && node.kids[i] != null ==> !(shape[node.kids[i]].pre <= p)
      modifies this, shape.Keys
      ensures Valid() && fresh(mid) && fresh(h) && shape.Keys == old(shape.Keys) + {mid} + {h}
      ensures Inserted(old(shape), old(bound), shape, bound, p, val, h)
    {
      var i := 0;
      while true
        invariant i < 2 && unchanged(this) && unchanged(shape.Keys) && (i == 1 ==> PartsFrom(node, 0, p))
        decreases 2 - i
      {
        var leg;
        leg, mid := TryLeg(node, i, key, newMask, val, p);
        if leg != null {
          return leg, mid;
        }
        i := i + 1;
      }
    }

    // ----- remove -----

    /**
     * Remove a handle. The recursive call is made only for a parent that lost one of its
     * two kids and carries no value; the measure shows that it never recurs again.
     */
    method Remove(node: Node<V>) returns (val: Option<V>)
      requires WellLinked() && CompactBut(shape, head, node)
      requires node in shape && node != head
      requires node.value.None? ==> node.kids[0] != null && node.kids[1] == null
      modifies this, shape.Keys
      ensures Valid() && val == old(node.value)
      ensures Removed(old(shape), old(bound), shape, bound, node)
      ensures node in shape ==> old(node.value.Some?) && shape[node].value.None?
      decreases node.value.Some?
    {
      val := node.value;
      ghost var kept := node.kids[0] != null;
      ParentShorter(shape, head, node);
      if node.kids[1] != null {
        ClearValue(node);
        return;
      }
      var parent := node.parent;
      assert parent != head ==> Compact(shape[parent]);
      SpliceOut(node);
      assert NodeOk(shape, head, parent);
      assert parent != head && kept ==> Compact(shape[parent]);
      if parent.kids[1] == null && parent.value.None? && parent.parent != null {
        ghost var s, b := shape, bound;
        var _ := Remove(parent);
        RemovedTwice(old(shape), old(bound), s, b, shape, bound, node, parent);
      }
    }

    method ClearValue(node: Node<V>)
      requires WellLinked() && CompactBut(shape, head, node)
      requires node in shape && node != head && node.value.Some? && node.kids[1] != null
      modifies this, node`value
      ensures Valid() && Removed(old(shape), old(bound), shape, bound, node)
      ensures node in shape && shape[node].value.None?
    {
      UnsetValue(shape, head, node, bound);
      SetValueLinked(shape, head, node, None);
      node.value := None;
      bound := bound - {shape[node].pre};
      shape := SetValue(shape, node, None);
      assert Encodes(node, old(shape)[node].pre);
      KeepEncoded(old(shape), shape, node);
    }

    /** Unlink node from its parent, its only kid, if any, moving up. */
    method Relink(node: Node<V>, parent: Node<V>)
      requires Mirrored(shape)
      requires node in shape && node.parent == parent && parent in shape && parent != node
      requires parent.kids[0] == node || parent.kids[1] == node
      requires node.kids[0] != null ==> node.kids[0] in shape && node.kids[0] != node && node.kids[0] != parent
      modifies parent`kids, shape.Keys`parent
      ensures Mirrored(Splice(shape, node))
    {
      var kid := node.kids[0];
      if kid != null {
        kid.parent := parent;
      }
      if parent.kids[0] == node {
        parent.kids := parent.kids[0 := kid];
      } else if parent.kids[1] == node {
        parent.kids := parent.kids[1 := kid];
      } else {
        assert false;
      }
      if parent.kids[1] != null && parent.kids[0] == null {
        parent.kids := [parent.kids[1], null];
      }
      assert Mirrors(parent, Splice(shape, node)[parent]);
    }

    method SpliceOut(node: Node<V>)
      requires WellLinked() && CompactBut(shape, head, node)
      requires node in shape && node != head && node.kids[1] == null && NodeOk(shape, head, node)
      modifies this, shape.Keys
      ensures WellLinked() && node !in shape && Removed(old(shape), old(bound), shape, bound, node)
      ensures var p := old(node.parent);
              p in shape && CompactBut(shape, head, p) &&
              p.kids == KidsAfter(old(p.kids), node, old(node.kids[0]))
      ensures old(node.kids[0]) != null ==> Valid()
    {
      ghost var t, b := SpliceStep(shape, head, node, bound);
      ghost var parent := node.parent;
      Relink(node, node.parent);
      assert Encodes(parent, shape[parent].pre);
      KeepEncoded(shape, t, parent);
      shape, bound := t, b;
    }

    /** Remove the shortest stored prefix of key, if there is one. */
    method RemoveKey(key: Bits) returns (val: Option<V>)
      requires Valid() && |key| == maxBits
      modifies this, shape.Keys
      ensures Valid() && shape.Keys <= old(shape.Keys)
      ensures forall p :: p in bound ==> p in old(bound) && bound[p] == old(bound)[p]
      ensures val.None? ==> unchanged(this) && forall p :: p in bound ==> !(p <= key)
      ensures val.Some? ==>
                exists p ::
                  ShortestIn(old(bound), key, p) && old(Model()[p]) == val.value && Model() == old(Model()) - {p}
    {
      var handle := LookupHandle(key);
      if handle == null {
        return None;
      }
      ghost var p := shape[handle].pre;
      assert ShortestIn(bound, key, p);
      val := Remove(handle);
      RemovedContents(old(shape), old(bound), shape, bound, handle);
    }

    // ----- clear -----

    /** Node::clear: unlink everything below n, second kid first. */
    method ClearBelow(n: Node<V>, ghost s: Shape<V>)
      requires n in s
      requires forall m {:trigger m in s} :: m in s ==> KidOk(s, m, 0) && KidOk(s, m, 1) && |s[m].pre| <= maxBits
      requires forall m {:trigger m.kids} :: m in s ==> forall i :: 0 <= i < 2 && m.kids[i] != null ==>
                 m.kids[i] == s[m].kids[i]
      modifies s.Keys`kids
      ensures n.kids == [null, null]
      ensures forall m {:trigger m.kids} :: m in s ==> forall i :: 0 <= i < 2 && m.kids[i] != null ==>
                m.kids[i] == old(m.kids[i])
      decreases maxBits - |s[n].pre|
    {
      if n.kids[1] != null {
        ClearBelow(n.kids[1], s);
        n.kids := n.kids[1 := null];
      }
      if n.kids[0] != null {
        ClearBelow(n.kids[0], s);
        n.kids := n.kids[0 := null];
      }
    }

    method Clear()
      requires Valid()
      modifies this, shape.Keys
      ensures Valid() && shape.Keys == {head} && Model() == map[]
    {
      forall m | m in shape ensures KidOk(shape, m, 0) && KidOk(shape, m, 1) && |shape[m].pre| <= maxBits {
        assert NodeOk(shape, head, m) && Encodes(m, shape[m].pre);
      }
      assert Encodes(head, []) by { assert Encodes(head, shape[head].pre); }
      ClearBelow(head, shape);
      EmptyShape(head);
      shape, bound := JustHead(head), map[];
    }
  }

  // ----- whole runs -----

  datatype Op<V> =
    | OpInsert(key: Bits, width: nat, val: V)
    | OpRemove(key: Bits)
    | OpRemoveHandle(p: Bits)  // the handle that insert returned for the prefix p
    | OpClear

  /** Only one stored prefix can be the shortest match. */
  lemma ShortestUnique<V>(m: map<Bits, V>, key: Bits, p: Bits, q: Bits)
    requires ShortestIn(m, key, p) && ShortestIn(m, key, q)
    ensures p == q
  {
    assert p == key[..|p|] && q == key[..|q|];
  }

  /** What each operation does to a plain map from prefixes to values. */
  ghost function Apply<V>(m: map<Bits, V>, op: Op<V>): map<Bits, V>
  {
    match op
    case OpInsert(key, width, val) => m[key[..if width < |key| then width else |key|] := val]
    case OpRemove(key) =>
      if exists p :: ShortestIn(m, key, p) then var p :| ShortestIn(m, key, p); m - {p} else m
    case OpRemoveHandle(p) => m - {p}
    case OpClear => map[]
  }

  ghost function ApplyAll<V>(m: map<Bits, V>, ops: seq<Op<V>>): map<Bits, V>
  {
    if ops == [] then m else Apply(ApplyAll(m, ops[..|ops| - 1]), ops[|ops| - 1])
  }

  /** The source's demands on callers: full-width keys, a width, and no second binding of a prefix. */
  ghost predicate Allowed<V>(m: map<Bits, V>, op: Op<V>, w: nat)
  {
    match op
    case OpInsert(key, width, val) => |key| == w && width >= 1 && key[..if width < w then width else w] !in m
    case OpRemove(key) => |key| == w
    case OpRemoveHandle(p) => p in m
    case OpClear => true
  }

  ghost predicate AllAllowed<V>(ops: seq<Op<V>>, w: nat)
  {
    forall i :: 0 <= i < |ops| ==> Allowed(ApplyAll(map[], ops[..i]), ops[i], w)
  }

  /** A client keeps the handles that insert returned; they stay good as long as their prefixes are bound. */
  ghost predicate HandlesGood<V>(t: Trie<V>, handles: map<Bits, Node<V>>)
    reads t
  {
    forall p :: p in t.bound ==> p in handles && handles[p] == t.bound[p]
  }

  method Perform<V>(t: Trie<V>, op: Op<V>, handles: map<Bits, Node<V>>) returns (handles': map<Bits, Node<V>>)
    requires t.Valid() && Allowed(t.Model(), op, t.maxBits) && HandlesGood(t, handles)
    modifies t, t.shape.Keys
    ensures t.Valid() && HandlesGood(t, handles') && forall n :: n in t.shape && n !in old(t.shape) ==> fresh(n)
    ensures t.Model() == Apply(old(t.Model()), op)
  {
    handles' := handles;
    match op {
      case OpInsert(key, width, val) =>
        var h := t.Insert(key, width, val);
        handles' := handles[key[..if width < t.maxBits then width else t.maxBits] := h];
      case OpRemove(key) =>
        var r := t.RemoveKey(key);
        RemoveRefines(old(t.Model()), key, t.Model(), r.Some?);
      case OpRemoveHandle(p) =>
        assert t.bound[p] == handles[p];
        var _ := t.Remove(handles[p]);
        RemovedContents(old(t.shape), old(t.bound), t.shape, t.bound, handles[p]);
      case OpClear =>
        t.Clear();
    }
  }

  /** Any allowed run from an empty trie refines the plain map. */
  method Run<V>(ops: seq<Op<V>>, w: nat) returns (t: Trie<V>)
    requires w > 0 && AllAllowed(ops, w)
    ensures t.Valid() && t.maxBits == w && t.Model() == ApplyAll(map[], ops)
  {
    t := new Trie<V>(w);
    var handles: map<Bits, Node<V>> := map[];
    for k := 0 to |ops|
      invariant t.Valid() && t.maxBits == w && fresh(t) && fresh(t.shape.Keys) && HandlesGood(t, handles)
      invariant t.Model() == ApplyAll(map[], ops[..k])
    {
      assert ops[..k + 1][..k] == ops[..k];
      assert Allowed(ApplyAll(map[], ops[..k]), ops[k], w);
      handles := Perform(t, ops[k], handles);
    }
    assert ops[..|ops|] == ops;
  }

  lemma RemoveRefines<V>(m: map<Bits, V>, key: Bits, m': map<Bits, V>, found: bool)
    requires !found ==> m' == m && forall p :: p in m ==> !(p <= key)
    requires found ==> exists p :: ShortestIn(m, key, p) && m' == m - {p}
    ensures m' == Apply(m, OpRemove(key))
  {
    if found {
      var p :| ShortestIn(m, key, p) && m' == m - {p};
      var q :| ShortestIn(m, key, q) && Apply(m, OpRemove(key)) == m - {q};
      ShortestUnique(m, key, p, q);
    }
  }
}
