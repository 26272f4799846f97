/**
 * `task::list` (list/src/list.h, list/src/list.cpp): a doubly linked list
 * whose elements hang between two sentinel nodes, `front_` and `back_`.
 *
 * Nodes are heap objects and every operation relinks them in place. The
 * ghost field `nodes` lists the element nodes in order, so the chain the
 * links must spell out is `[front] + nodes + [back]`. Elements are `int`
 * (the default value `T()` is 0). A position (`const_iterator`) is a node of
 * that chain, given together with its ghost index.
 */
module LinkedList {
  import Sequences

  /* ---------- The element sequence: what the operations compute ---------- */

  ghost predicate Sorted(s: seq<int>)
  {
    forall p, q :: 0 <= p < q < |s| ==> s[p] <= s[q]
  }

  /** A step of `remove(v)` that meets `v`: the element is dropped. */
  lemma RemoveDrop(s: seq<int>, v: int, j: nat, before: seq<int>, i: nat)
    requires j < |s| && i < |before| && s[j] == v
    requires before[..i] == RemoveAll(s[..j], v) && before[i..] == s[j..]
    ensures (before[..i] + before[i + 1..])[..i] == RemoveAll(s[..j + 1], v)
    ensures (before[..i] + before[i + 1..])[i..] == s[j + 1..]
  {
    assert s[..j + 1][..j] == s[..j];
    assert before[i + 1..] == before[i..][1..];
  }

  /** A step of `remove(v)` that meets another value: the element is kept. */
  lemma RemoveKeep(s: seq<int>, v: int, j: nat, before: seq<int>, i: nat)
    requires j < |s| && i < |before| && s[j] != v
    requires before[..i] == RemoveAll(s[..j], v) && before[i..] == s[j..]
    ensures before[..i + 1] == RemoveAll(s[..j + 1], v) && before[i + 1..] == s[j + 1..]
  {
    assert s[..j + 1][..j] == s[..j];
    assert before[i] == before[i..][0];
    assert before[..i + 1] == before[..i] + [before[i]];
    assert before[i + 1..] == before[i..][1..];
  }

  /** `remove(v)` on values: every `v` dropped, the rest kept in order. */
  function RemoveAll(s: seq<int>, v: int): (r: seq<int>)
    ensures |r| <= |s|
    ensures forall x :: x in r ==> x in s && x != v
  {
    if s == [] then []
    else RemoveAll(s[..|s| - 1], v) + (if s[|s| - 1] == v then [] else [s[|s| - 1]])
  }

  /** Removal distributes over concatenation, so it works element by element. */
  lemma {:induction false} RemoveAllConcat(a: seq<int>, b: seq<int>, v: int)
    ensures RemoveAll(a + b, v) == RemoveAll(a, v) + RemoveAll(b, v)
  {
    if b == [] {
      assert a + b == a;
    } else {
      assert (a + b)[..|a + b| - 1] == a + b[..|b| - 1];
      RemoveAllConcat(a, b[..|b| - 1], v);
    }
  }

  /** Every other value keeps its number of occurrences; `v` has none left. */
  lemma {:induction false} RemoveAllCount(s: seq<int>, v: int)
    ensures multiset(RemoveAll(s, v)) == multiset(s)[v := 0]
  {
    if s != [] {
      var init, last := s[..|s| - 1], s[|s| - 1];
      RemoveAllCount(init, v);
      assert s == init + [last];
      var r := RemoveAll(init, v);
      if last == v {
        assert RemoveAll(s, v) == r;
        assert multiset(s)[v := 0] == multiset(init)[v := 0];
      } else {
        assert RemoveAll(s, v) == r + [last];
        assert multiset(s)[v := 0] == multiset(init)[v := 0] + multiset{last};
      }
    }
  }

  /** A list without `v` is left as it is. */
  lemma {:induction false} RemoveAllAbsent(s: seq<int>, v: int)
    requires v !in s
    ensures RemoveAll(s, v) == s
  {
    if s != [] {
      assert s == s[..|s| - 1] + [s[|s| - 1]];
      RemoveAllAbsent(s[..|s| - 1], v);
    }
  }

  /** `resize(n)` on values: cut to `n`, or padded with default values. */
  function Resized(s: seq<int>, n: nat): (r: seq<int>)
    ensures |r| == n
    ensures forall i :: 0 <= i < n && i < |s| ==> r[i] == s[i]
    ensures forall i :: |s| <= i < n ==> r[i] == 0
  {
    if n <= |s| then s[..n] else s + seq(n - |s|, _ => 0)
  }

  /** Growing and then shrinking back gives the original list. */
  lemma ResizedRoundTrip(s: seq<int>, n: nat)
    requires n >= |s|
    ensures Resized(Resized(s, n), |s|) == s
  {
  }

  /** A copy loop that has taken `i` values of `vals` takes the next one. */
  lemma TakeOneMore(s: seq<int>, vals: seq<int>, i: nat)
    requires i < |vals|
    ensures (s + vals[..i]) + [vals[i]] == s + vals[..i + 1]
  {
    assert vals[..i + 1] == vals[..i] + [vals[i]];
  }

  /** Filling an empty list: the empty prefix and suffix around `s` vanish. */
  lemma EmptyAround(e: seq<int>, s: seq<int>)
    requires e == []
    ensures e + s == s && e[..0] + s + e[0..] == s
  {
  }

  /** A range erase that has dropped `i` items after position `k` drops one more. */
  lemma DropNext<T>(s: seq<T>, k: nat, i: nat)
    requires k + i < |s|
    ensures var t := s[..k] + s[k + i..]; t[..k] + t[k + 1..] == s[..k] + s[k + i + 1..]
  {
    var t := s[..k] + s[k + i..];
    assert t[..k] == s[..k];
    assert t[k + 1..] == s[k + i + 1..];
  }

  /**
   * The merge of `merge(other)`: the smaller head first, taking from `a`
   * (this list) when the heads are equal.
   */
  function MergeSeq(a: seq<int>, b: seq<int>): (r: seq<int>)
    ensures |r| == |a| + |b|
    ensures multiset(r) == multiset(a) + multiset(b)
    decreases |a| + |b|
  {
    if a == [] then b
    else if b == [] then a
    else if b[0] < a[0] then
      assert b == [b[0]] + b[1..];
      [b[0]] + MergeSeq(a, b[1..])
    else
      assert a == [a[0]] + a[1..];
      [a[0]] + MergeSeq(a[1..], b)
  }

  /** A lower bound of both operands bounds their merge. */
  lemma MergeBelow(x: int, a: seq<int>, b: seq<int>)
    requires forall p :: 0 <= p < |a| ==> x <= a[p]
    requires forall p :: 0 <= p < |b| ==> x <= b[p]
    ensures forall q :: 0 <= q < |MergeSeq(a, b)| ==> x <= MergeSeq(a, b)[q]
  {
    var t := MergeSeq(a, b);
    forall q | 0 <= q < |t| ensures x <= t[q] {
      assert t[q] in multiset(a) + multiset(b);
      if t[q] in multiset(a) {
        var p :| 0 <= p < |a| && a[p] == t[q];
      } else {
        var p :| 0 <= p < |b| && b[p] == t[q];
      }
    }
  }

  /** The merge of two sorted lists is sorted. */
  lemma {:induction false} MergeSorted(a: seq<int>, b: seq<int>)
    requires Sorted(a) && Sorted(b)
    ensures Sorted(MergeSeq(a, b))
    decreases |a| + |b|
  {
    if a != [] && b != [] {
      if b[0] < a[0] {
        MergeSorted(a, b[1..]);
        assert forall p :: 0 <= p < |a| ==> a[0] <= a[p];
        MergeBelow(b[0], a, b[1..]);
        assert MergeSeq(a, b) == [b[0]] + MergeSeq(a, b[1..]);
      } else {
        MergeSorted(a[1..], b);
        assert forall p :: 0 <= p < |b| ==> b[0] <= b[p];
        MergeBelow(a[0], a[1..], b);
        assert MergeSeq(a, b) == [a[0]] + MergeSeq(a[1..], b);
      }
    }
  }

  /**
   * `MergeSeq` on what is left of `a` from index `i` and of `b` from index
   * `j`: the form in which `merge` walks its two lists.
   */
  ghost function MergeFrom(a: seq<int>, b: seq<int>, i: nat, j: nat): seq<int>
    requires i <= |a| && j <= |b|
    decreases |a| - i + |b| - j
  {
    if i == |a| then b[j..]
    else if j == |b| then a[i..]
    else if b[j] < a[i] then [b[j]] + MergeFrom(a, b, i, j + 1)
    else [a[i]] + MergeFrom(a, b, i + 1, j)
  }

  /** The index form computes `MergeSeq` of the remainders. */
  lemma {:induction false} MergeFromSeq(a: seq<int>, b: seq<int>, i: nat, j: nat)
    requires i <= |a| && j <= |b|
    ensures MergeFrom(a, b, i, j) == MergeSeq(a[i..], b[j..])
    decreases |a| - i + |b| - j
  {
    if i < |a| && j < |b| {
      assert a[i..][0] == a[i] && a[i..][1..] == a[i + 1..];
      assert b[j..][0] == b[j] && b[j..][1..] == b[j + 1..];
      if b[j] < a[i] {
        MergeFromSeq(a, b, i, j + 1);
      } else {
        MergeFromSeq(a, b, i + 1, j);
      }
    }
  }

  /** Walking both lists from their first elements computes their merge. */
  lemma MergeAll(a: seq<int>, b: seq<int>)
    ensures MergeFrom(a, b, 0, 0) == MergeSeq(a, b)
  {
    MergeFromSeq(a, b, 0, 0);
    assert a[0..] == a && b[0..] == b;
  }

  /**
   * The choice `merge` makes at indices `i` of `a` and `j` of `b`: the head
   * of `a` when `b` is used up or its head is not smaller, else the head of
   * `b`. `v` is the value taken and `i'`, `j'` are the indices after it.
   */
  ghost predicate Choice(a: seq<int>, b: seq<int>, i: nat, j: nat, v: int, i': nat, j': nat)
  {
    (i < |a| && (j >= |b| || a[i] <= b[j]) && v == a[i] && i' == i + 1 && j' == j) ||
    (j < |b| && (i >= |a| || b[j] < a[i]) && v == b[j] && i' == i && j' == j + 1)
  }

  /**
   * One step of `merge` on values: the taken prefix grows by the value the
   * choice takes, and the rest is the merge of what is left.
   */
  lemma MergeStep(a: seq<int>, b: seq<int>, i: nat, j: nat, taken: seq<int>, v: int, i': nat, j': nat)
    requires i <= |a| && j <= |b| && MergeFrom(a, b, 0, 0) == taken + MergeFrom(a, b, i, j)
    requires Choice(a, b, i, j, v, i', j')
    ensures i' <= |a| && j' <= |b| && MergeFrom(a, b, 0, 0) == (taken + [v]) + MergeFrom(a, b, i', j')
  {
    assert MergeFrom(a, b, i, j) == [v] + MergeFrom(a, b, i', j');
    SeqAssoc(taken, [v], MergeFrom(a, b, i', j'));
  }

  lemma SeqAssoc(p: seq<int>, q: seq<int>, r: seq<int>)
    ensures p + (q + r) == (p + q) + r
  {
  }

  /**
   * One step of selection sort on values: swapping the smallest value of
   * `s[i..]` into place `i` keeps the values and grows the sorted prefix.
   */
  lemma SelectStep(s: seq<int>, i: nat, m: nat, r: seq<int>)
    requires i <= m < |s| && r == s[m := s[i]][i := s[m]]
    requires Sorted(s[..i]) && forall p, q :: 0 <= p < i <= q < |s| ==> s[p] <= s[q]
    requires forall t :: i <= t < |s| ==> s[m] <= s[t]
    ensures multiset(r) == multiset(s)
    ensures Sorted(r[..i + 1]) && forall p, q :: 0 <= p < i + 1 <= q < |r| ==> r[p] <= r[q]
  {
  }

  /* ---------- Nodes and chains of nodes ---------- */

  /** `BaseNode`/`Node`: two links and a value (sentinels carry 0). */
  class Node {
    var prev: Node?
    var next: Node?
    var value: int

    /** A new node is unlinked. */
    constructor (value: int)
      ensures prev == null && next == null && this.value == value
    {
      prev := null;
      next := null;
      this.value := value;
    }

    /**
     * `append(other)`: link `this -> other` both ways. It writes no link but
     * `this.next` and `other.prev`, and a null `other` changes nothing.
     */
    method Append(other: Node?)
      modifies `next, {other}`prev
      ensures other == null ==> next == old(next)
      ensures other != null ==> next == other && other.prev == this
    {
      if other != null {
        next := other;
        other.prev := this;
      }
    }
  }

  lemma ElemsPair(a: Node, b: Node)
    ensures Elems([a, b]) == {a, b}
  {
    assert a in Elems([a, b]) && b in Elems([a, b]);
  }

  /** Each node of `c` links forward to the next one, and that one back to it. */
  ghost predicate Linked(c: seq<Node>)
    reads c`next, c`prev
  {
    (forall k {:trigger c[k].next} :: 0 <= k < |c| - 1 ==> c[k].next == c[k + 1]) &&
    (forall k {:trigger c[k].prev} :: 0 < k < |c| ==> c[k].prev == c[k - 1])
  }

  ghost predicate Distinct(c: seq<Node>)
  {
    forall i, j :: 0 <= i < j < |c| ==> c[i] != c[j]
  }

  ghost function Elems(c: seq<Node>): set<Node>
  {
    set n | n in c
  }

  /** The nodes of `ns` hold the values `vs`, one for one. */
  ghost predicate Holds(ns: seq<Node>, vs: seq<int>)
    reads ns`value
  {
    |ns| == |vs| && forall i {:trigger ns[i].value} :: 0 <= i < |ns| ==> ns[i].value == vs[i]
  }

  /**
   * A cursor of `merge` at index `i` of the element nodes `ns`, which end at
   * `tail`: it points at `ns[i]` (at `tail` once past the end), and the
   * nodes from there on still link forward to each other and to `tail`.
   */
  ghost predicate Cursor(h: Node, tail: Node, ns: seq<Node>, i: nat)
    requires i <= |ns|
    reads ns[i..]`next
  {
    h == (if i < |ns| then ns[i] else tail) &&
    (forall j {:trigger ns[j].next} :: i <= j < |ns| - 1 ==> ns[j].next == ns[j + 1]) &&
    (i < |ns| ==> ns[|ns| - 1].next == tail)
  }

  /** A cursor at the end sentinel has passed every element node. */
  lemma CursorEnd(h: Node, tail: Node, ns: seq<Node>, i: nat)
    requires i <= |ns| && Cursor(h, tail, ns, i) && h == tail && tail !in ns
    ensures i == |ns|
  {
  }

  /** `pos` maps each node of `c` to its index in `c`, and maps nothing else. */
  ghost predicate Indexed(c: seq<Node>, pos: map<Node, nat>)
  {
    (forall k :: 0 <= k < |c| ==> c[k] in pos && pos[c[k]] == k) &&
    (forall x :: x in pos ==> pos[x] < |c| && c[pos[x]] == x)
  }

  /** The nodes an index map covers are the nodes of its chain. */
  lemma IndexedKeys(c: seq<Node>, pos: map<Node, nat>)
    requires Indexed(c, pos)
    ensures pos.Keys == Elems(c)
  {
    forall x | x in pos ensures x in Elems(c) {
      assert c[pos[x]] == x;
    }
    forall x | x in Elems(c) ensures x in pos {
      var k :| 0 <= k < |c| && c[k] == x;
    }
  }

  /** A node occurs in an indexed chain once only. */
  lemma IndexedDistinct(c: seq<Node>, pos: map<Node, nat>)
    requires Indexed(c, pos)
    ensures Distinct(c)
  {
    forall i, j | 0 <= i < j < |c| ensures c[i] != c[j] {
      assert pos[c[i]] == i && pos[c[j]] == j;
    }
  }

  /** Two chains that share no node, each with its index map. */
  ghost predicate Apart(xs: seq<Node>, px: map<Node, nat>, ys: seq<Node>, py: map<Node, nat>)
  {
    Indexed(xs, px) && Indexed(ys, py) &&
    (forall t :: 0 <= t < |xs| ==> xs[t] !in py) &&
    (forall t :: 0 <= t < |ys| ==> ys[t] !in px)
  }

  /** Chains of distinct nodes that share no node have index maps. */
  lemma ApartMaps(xs: seq<Node>, ys: seq<Node>) returns (px: map<Node, nat>, py: map<Node, nat>)
    requires Distinct(xs) && Distinct(ys) && Elems(xs) !! Elems(ys)
    ensures Apart(xs, px, ys, py) && px.Keys == Elems(xs) && py.Keys == Elems(ys)
  {
    px := map k | 0 <= k < |xs| :: xs[k] := k;
    py := map k | 0 <= k < |ys| :: ys[k] := k;
    assert Indexed(xs, px);
    assert Indexed(ys, py);
    IndexedKeys(xs, px);
    IndexedKeys(ys, py);
    forall t | 0 <= t < |xs| ensures xs[t] !in py {
      assert xs[t] in Elems(xs);
    }
    forall t | 0 <= t < |ys| ensures ys[t] !in px {
      assert ys[t] in Elems(ys);
    }
  }

  /**
   * The run `m` that `merge` has linked so far, indexed by `pos`, holds
   * exactly the first `i` nodes of `xs` and the first `j` nodes of `ys`.
   */
  ghost predicate Drawn(m: seq<Node>, pos: map<Node, nat>, xs: seq<Node>, px: map<Node, nat>, i: nat,
                        ys: seq<Node>, py: map<Node, nat>, j: nat)
  {
    i <= |xs| && j <= |ys| && |m| == i + j && Indexed(m, pos) &&
    (forall t :: 0 <= t < i ==> xs[t] in pos) &&
    (forall t :: 0 <= t < j ==> ys[t] in pos) &&
    (forall k :: 0 <= k < |m| ==> (m[k] in px && px[m[k]] < i) || (m[k] in py && py[m[k]] < j))
  }

  /** `node` is the next node of `xs` (at `i`) or of `ys` (at `j`), and `i'`, `j'` the indices after it. */
  ghost predicate Takes(node: Node, xs: seq<Node>, i: nat, ys: seq<Node>, j: nat, i': nat, j': nat)
  {
    (i < |xs| && node == xs[i] && i' == i + 1 && j' == j) ||
    (j < |ys| && node == ys[j] && i' == i && j' == j + 1)
  }

  /** A node that holds `v` extends a run of nodes that hold `vs`. */
  lemma HoldsGrow(m: seq<Node>, vs: seq<int>, node: Node, v: int)
    requires Holds(m, vs) && node.value == v
    ensures Holds(m + [node], vs + [v])
  {
  }

  /**
   * Taking the next node of either input: it is not in the run yet, and
   * the longer run holds one more node of that input.
   */
  lemma DrawStep(m: seq<Node>, pos: map<Node, nat>, xs: seq<Node>, px: map<Node, nat>, i: nat,
                 ys: seq<Node>, py: map<Node, nat>, j: nat, node: Node, i': nat, j': nat)
    requires Apart(xs, px, ys, py) && Drawn(m, pos, xs, px, i, ys, py, j)
    requires Takes(node, xs, i, ys, j, i', j')
    ensures node !in pos
    ensures Drawn(m + [node], pos[node := |m|], xs, px, i', ys, py, j')
  {
    forall k | 0 <= k < |m| ensures m[k] != node {
    }
    var m', pos' := m + [node], pos[node := |m|];
    forall k | 0 <= k < |m'| ensures m'[k] in pos' && pos'[m'[k]] == k {
      if k < |m| {
        assert m'[k] == m[k];
      }
    }
    forall x | x in pos' ensures pos'[x] < |m'| && m'[pos'[x]] == x {
      if x != node {
        assert m'[pos[x]] == m[pos[x]];
      }
    }
    forall k | 0 <= k < |m'| ensures (m'[k] in px && px[m'[k]] < i') || (m'[k] in py && py[m'[k]] < j') {
      if k < |m| {
        assert m'[k] == m[k];
      }
    }
  }

  /** A node already in the run is not among the nodes still to come of either input. */
  lemma DrawnBehind(m: seq<Node>, pos: map<Node, nat>, xs: seq<Node>, px: map<Node, nat>, i: nat,
                    ys: seq<Node>, py: map<Node, nat>, j: nat, k: nat, i': nat, j': nat)
    requires Apart(xs, px, ys, py) && Drawn(m, pos, xs, px, i, ys, py, j)
    requires k < |m| && i <= i' <= |xs| && j <= j' <= |ys|
    ensures m[k] !in xs[i'..] && m[k] !in ys[j'..]
    ensures m[k] in px || m[k] in py
  {
    forall q | i' <= q < |xs| ensures xs[q] != m[k] {
    }
    forall q | j' <= q < |ys| ensures ys[q] != m[k] {
    }
  }

  /** A run that has drawn every node of both inputs holds exactly their nodes, once each. */
  lemma DrawnAll(m: seq<Node>, pos: map<Node, nat>, xs: seq<Node>, px: map<Node, nat>,
                 ys: seq<Node>, py: map<Node, nat>)
    requires Apart(xs, px, ys, py) && Drawn(m, pos, xs, px, |xs|, ys, py, |ys|)
    ensures Elems(m) == Elems(xs) + Elems(ys) && |m| == |xs| + |ys| && Distinct(m)
  {
    IndexedKeys(m, pos);
    IndexedKeys(xs, px);
    IndexedKeys(ys, py);
    IndexedDistinct(m, pos);
    forall x | x in pos ensures x in px || x in py {
      assert m[pos[x]] == x;
    }
    forall x | x in px ensures x in pos {
      assert xs[px[x]] == x;
    }
    forall x | x in py ensures x in pos {
      assert ys[py[x]] == x;
    }
  }

  /**
   * How far `merge` has got: `i` nodes of the first list and `j` of the
   * second are taken and linked into the run `m`, indexed by `pos`, whose
   * nodes hold the values `taken`.
   */
  datatype Progress = Progress(i: nat, j: nat, m: seq<Node>, pos: map<Node, nat>, taken: seq<int>)

  /**
   * The value half of the invariant of the loop of `merge` over the element
   * nodes `na` (holding `va`) and `nb` (holding `vb`): the run `p.m` holds
   * `p.taken`, and the values taken so far followed by the merge of the
   * rest are the merge of both lists.
   */
  ghost predicate Tally(p: Progress, na: seq<Node>, pa: map<Node, nat>, va: seq<int>,
                        nb: seq<Node>, pb: map<Node, nat>, vb: seq<int>)
    reads p.m`value, na`value, nb`value
  {
    Holds(na, va) && Holds(nb, vb) && Drawn(p.m, p.pos, na, pa, p.i, nb, pb, p.j) &&
    Holds(p.m, p.taken) && MergeFrom(va, vb, 0, 0) == p.taken + MergeFrom(va, vb, p.i, p.j)
  }

  /**
   * The link half of the same invariant: the cursors `head1` and `head2`
   * stand at the first untaken nodes of `na` (ending at `tail1`) and `nb`
   * (ending at `tail2`), and the run `p.m`, from `head` to `last`, is linked.
   */
  ghost predicate Threaded(p: Progress, head1: Node, tail1: Node, head2: Node, tail2: Node, head: Node?, last: Node?,
                           na: seq<Node>, nb: seq<Node>)
    reads p.m`next, p.m`prev, na`next, nb`next
  {
    p.i <= |na| && p.j <= |nb| && Linked(p.m) &&
    Cursor(head1, tail1, na, p.i) && Cursor(head2, tail2, nb, p.j) &&
    (p.m == [] ==> head == null && last == null) &&
    (p.m != [] ==> head == p.m[0] && last == p.m[|p.m| - 1])
  }

  /** The invariant of the loop of `merge`: both halves. */
  ghost predicate Weaving(p: Progress, head1: Node, tail1: Node, head2: Node, tail2: Node, head: Node?, last: Node?,
                          na: seq<Node>, pa: map<Node, nat>, va: seq<int>,
                          nb: seq<Node>, pb: map<Node, nat>, vb: seq<int>)
    reads p.m, na, nb
  {
    Tally(p, na, pa, va, nb, pb, vb) && Threaded(p, head1, tail1, head2, tail2, head, last, na, nb)
  }

  /**
   * Taking `node`, holding `v`, keeps the value half of the invariant and
   * leaves the last node of the run behind both cursors.
   */
  lemma Advance(p: Progress, na: seq<Node>, pa: map<Node, nat>, va: seq<int>,
                nb: seq<Node>, pb: map<Node, nat>, vb: seq<int>, node: Node, v: int, j1: nat, j2: nat)
    requires Apart(na, pa, nb, pb) && Tally(p, na, pa, va, nb, pb, vb)
    requires Choice(va, vb, p.i, p.j, v, j1, j2) && node.value == v && Takes(node, na, p.i, nb, p.j, j1, j2)
    ensures node !in p.pos && j1 <= |na| && j2 <= |nb|
    ensures p.m != [] ==> p.m[|p.m| - 1] !in na[j1..] && p.m[|p.m| - 1] !in nb[j2..]
    ensures Tally(Progress(j1, j2, p.m + [node], p.pos[node := |p.m|], p.taken + [v]), na, pa, va, nb, pb, vb)
  {
    MergeStep(va, vb, p.i, p.j, p.taken, v, j1, j2);
    if p.m != [] {
      DrawnBehind(p.m, p.pos, na, pa, p.i, nb, pb, p.j, |p.m| - 1, j1, j2);
    }
    DrawStep(p.m, p.pos, na, pa, p.i, nb, pb, p.j, node, j1, j2);
    HoldsGrow(p.m, p.taken, node, v);
  }

  /** Before the loop of `merge`: nothing taken, both cursors at the first nodes. */
  lemma WeaveBegin(first1: Node, tail1: Node, first2: Node, tail2: Node,
                   na: seq<Node>, pa: map<Node, nat>, va: seq<int>, nb: seq<Node>, pb: map<Node, nat>, vb: seq<int>)
    requires Apart(na, pa, nb, pb)
    requires Linked(na) && Holds(na, va)
    requires first1 == (if na == [] then tail1 else na[0]) && (na != [] ==> na[|na| - 1].next == tail1)
    requires Linked(nb) && Holds(nb, vb)
    requires first2 == (if nb == [] then tail2 else nb[0]) && (nb != [] ==> nb[|nb| - 1].next == tail2)
    ensures Weaving(Progress(0, 0, [], map[], []), first1, tail1, first2, tail2, null, null, na, pa, va, nb, pb, vb)
  {
  }

  /**
   * After the loop of `merge`: both cursors at their sentinels, so every
   * node is taken and the run holds the merge of both lists.
   */
  lemma WeaveEnd(p: Progress, tail1: Node, tail2: Node, head: Node?, last: Node?,
                 na: seq<Node>, pa: map<Node, nat>, va: seq<int>, nb: seq<Node>, pb: map<Node, nat>, vb: seq<int>)
    requires tail1 !in na && tail2 !in nb
    requires Weaving(p, tail1, tail1, tail2, tail2, head, last, na, pa, va, nb, pb, vb)
    ensures Drawn(p.m, p.pos, na, pa, |na|, nb, pb, |nb|)
    ensures Linked(p.m) && Holds(p.m, MergeFrom(va, vb, 0, 0))
    ensures p.m == [] ==> head == null && last == null
    ensures p.m != [] ==> head == p.m[0] && last == p.m[|p.m| - 1]
  {
    CursorEnd(tail1, tail1, na, p.i);
    CursorEnd(tail2, tail2, nb, p.j);
    assert p.taken == MergeFrom(va, vb, 0, 0);
  }

  /** In a chain of distinct nodes, a node sits at one index only. */
  lemma DistinctIndex(c: seq<Node>, i: nat, j: nat)
    requires Distinct(c) && i < |c| && j < |c| && c[i] == c[j]
    ensures i == j
  {
  }

  lemma LinkedSlice(c: seq<Node>, a: nat, b: nat)
    requires Linked(c) && a <= b <= |c|
    ensures Linked(c[a..b])
  {
    forall k | 0 <= k < b - a - 1 ensures c[a..b][k].next == c[a..b][k + 1] && c[a..b][k + 1].prev == c[a..b][k] {
      assert c[a..b][k] == c[a + k] && c[a..b][k + 1] == c[a + k + 1];
    }
  }

  lemma DistinctSlice(c: seq<Node>, a: nat, b: nat)
    requires Distinct(c) && a <= b <= |c|
    ensures Distinct(c[a..b])
  {
    forall i, j | 0 <= i < j < b - a ensures c[a..b][i] != c[a..b][j] {
      assert c[a..b][i] == c[a + i] && c[a..b][j] == c[a + j];
    }
  }

  /** Two sentinels around distinct nodes they are not among form a distinct chain. */
  lemma DistinctHang(f: Node, ns: seq<Node>, b: Node)
    requires Distinct(ns) && f !in ns && b !in ns && f != b
    ensures Distinct([f] + ns + [b])
  {
    var c := [f] + ns + [b];
    forall i, j | 0 <= i < j < |c| ensures c[i] != c[j] {
      if 0 < i && j < |c| - 1 {
        assert c[i] == ns[i - 1] && c[j] == ns[j - 1];
      }
    }
  }

  /** A chain of element nodes between two sentinels holds the sentinels and the element nodes. */
  lemma ElemsHang(f: Node, ns: seq<Node>, b: Node)
    ensures Elems([f] + ns + [b]) == {f, b} + Elems(ns)
  {
    var c := [f] + ns + [b];
    forall x | x in Elems(ns) ensures x in Elems(c) {
      var i :| 0 <= i < |ns| && ns[i] == x;
      assert c[i + 1] == x;
    }
  }

  /** The element nodes of a linked chain are linked, and the sentinels point at its ends. */
  lemma LinkedInner(f: Node, ns: seq<Node>, b: Node)
    requires Linked([f] + ns + [b])
    ensures Linked(ns)
    ensures f.next == (if ns == [] then b else ns[0])
    ensures ns != [] ==> ns[|ns| - 1].next == b
  {
    var c := [f] + ns + [b];
    assert c[0] == f && c[|ns| + 1] == b;
    forall k | 0 <= k < |ns| ensures c[k + 1] == ns[k] {
    }
    assert c[0].next == c[1];
    if ns != [] {
      assert c[|ns|].next == c[|ns| + 1];
    }
  }

  /** The sentinels at the ends of a chain of distinct nodes are not among its element nodes. */
  lemma EndsOutside(c: seq<Node>)
    requires Distinct(c) && |c| >= 2
    ensures c[0] !in Elems(c[1..|c| - 1]) && c[|c| - 1] !in Elems(c[1..|c| - 1])
  {
    var ns := c[1..|c| - 1];
    forall i | 0 <= i < |ns| ensures ns[i] != c[0] && ns[i] != c[|c| - 1] {
      assert ns[i] == c[i + 1];
    }
  }

  lemma ElemsConcat(a: seq<Node>, b: seq<Node>)
    ensures Elems(a + b) == Elems(a) + Elems(b)
  {
  }

  /** The chain `c` with `seg` spliced in after index `k` holds the nodes of both. */
  lemma ElemsSplice(c: seq<Node>, k: nat, seg: seq<Node>)
    requires k < |c|
    ensures Elems(c[..k + 1] + seg + c[k + 1..]) == Elems(c) + Elems(seg)
  {
    ElemsConcat(c[..k + 1] + seg, c[k + 1..]);
    ElemsConcat(c[..k + 1], seg);
    ElemsConcat(c[..k + 1], c[k + 1..]);
    assert c[..k + 1] + c[k + 1..] == c;
  }

  /** Splicing a run of distinct new nodes into a chain of distinct nodes keeps them distinct. */
  lemma DistinctSplice(c: seq<Node>, k: nat, seg: seq<Node>)
    requires Distinct(c) && Distinct(seg) && k < |c| && Elems(c) !! Elems(seg)
    ensures Distinct(c[..k + 1] + seg + c[k + 1..])
  {
    var nc := c[..k + 1] + seg + c[k + 1..];
    var m := |seg|;
    forall i, j | 0 <= i < j < |nc| ensures nc[i] != nc[j] {
      if j <= k {
        assert nc[i] == c[i] && nc[j] == c[j];
      } else if j <= k + m {
        assert nc[j] == seg[j - k - 1] && nc[j] in Elems(seg);
        if i <= k {
          assert nc[i] == c[i] && nc[i] in Elems(c);
        } else {
          assert nc[i] == seg[i - k - 1];
        }
      } else {
        assert nc[j] == c[j - m] && nc[j] in Elems(c);
        if i <= k {
          assert nc[i] == c[i];
        } else if i <= k + m {
          assert nc[i] == seg[i - k - 1] && nc[i] in Elems(seg);
        } else {
          assert nc[i] == c[i - m];
        }
      }
    }
  }

  /** Cutting one node out of a chain of distinct nodes keeps the rest distinct. */
  lemma DistinctCut(c: seq<Node>, k: nat)
    requires Distinct(c) && k + 1 < |c|
    ensures Distinct(c[..k + 1] + c[k + 2..])
  {
    var nc := c[..k + 1] + c[k + 2..];
    forall i, j | 0 <= i < j < |nc| ensures nc[i] != nc[j] {
      if j <= k {
        assert nc[i] == c[i] && nc[j] == c[j];
      } else if i <= k {
        assert nc[i] == c[i] && nc[j] == c[j + 1];
      } else {
        assert nc[i] == c[i + 1] && nc[j] == c[j + 1];
      }
    }
  }

  /** Splicing into the element nodes is splicing into the chain one place further on. */
  lemma ChainSplice(front: Node, ns: seq<Node>, back: Node, k: nat, seg: seq<Node>)
    requires k <= |ns|
    ensures [front] + (ns[..k] + seg + ns[k..]) + [back] ==
            ([front] + ns + [back])[..k + 1] + seg + ([front] + ns + [back])[k + 1..]
  {
    var c := [front] + ns + [back];
    assert c[..k + 1] == [front] + ns[..k];
    assert c[k + 1..] == ns[k..] + [back];
  }

  /** Cutting one element node is cutting the chain one place further on. */
  lemma ChainCut(front: Node, ns: seq<Node>, back: Node, k: nat)
    requires k < |ns|
    ensures [front] + (ns[..k] + ns[k + 1..]) + [back] ==
            ([front] + ns + [back])[..k + 1] + ([front] + ns + [back])[k + 2..]
  {
    var c := [front] + ns + [back];
    assert c[..k + 1] == [front] + ns[..k];
    assert c[k + 2..] == ns[k + 1..] + [back];
  }

  lemma ElemsCut(c: seq<Node>, k: nat)
    requires Distinct(c) && k + 1 < |c|
    ensures Elems(c[..k + 1] + c[k + 2..]) == Elems(c) - {c[k + 1]}
  {
    var nc := c[..k + 1] + c[k + 2..];
    forall n | n in Elems(nc) ensures n in Elems(c) && n != c[k + 1] {
      var i :| 0 <= i < |nc| && nc[i] == n;
      if i <= k {
        assert nc[i] == c[i];
      } else {
        assert nc[i] == c[i + 1];
      }
    }
    forall n | n in Elems(c) && n != c[k + 1] ensures n in Elems(nc) {
      var i :| 0 <= i < |c| && c[i] == n;
      if i <= k {
        assert nc[i] == n;
      } else {
        assert nc[i - 1] == n;
      }
    }
  }


  /** Splicing a run into a chain of nodes splices its values into the held values. */
  lemma HoldsSplice(a: seq<Node>, va: seq<int>, k: nat, seg: seq<Node>, vs: seq<int>)
    requires Holds(a, va) && Holds(seg, vs) && k <= |a|
    ensures Holds(a[..k] + seg + a[k..], va[..k] + vs + va[k..])
  {
    var na, nv := a[..k] + seg + a[k..], va[..k] + vs + va[k..];
    forall i | 0 <= i < |na| ensures na[i].value == nv[i] {
      if i < k {
        assert na[i] == a[i] && nv[i] == va[i];
      } else if i < k + |seg| {
        assert na[i] == seg[i - k] && nv[i] == vs[i - k];
      } else {
        assert na[i] == a[i - |seg|] && nv[i] == va[i - |seg|];
      }
    }
  }

  /** Cutting a node out of a chain cuts its value out of the held values. */
  lemma HoldsCut(a: seq<Node>, va: seq<int>, k: nat)
    requires Holds(a, va) && k < |a|
    ensures Holds(a[..k] + a[k + 1..], va[..k] + va[k + 1..])
  {
    var na, nv := a[..k] + a[k + 1..], va[..k] + va[k + 1..];
    forall i | 0 <= i < |na| ensures na[i].value == nv[i] {
      if i < k {
        assert na[i] == a[i] && nv[i] == va[i];
      } else {
        assert na[i] == a[i + 1] && nv[i] == va[i + 1];
      }
    }
  }

  /** Reversing a run of nodes keeps them distinct, keeps the same nodes and reverses the values. */
  lemma ReversedNodes(ns: seq<Node>, vs: seq<int>)
    requires Distinct(ns) && Holds(ns, vs)
    ensures Distinct(Sequences.Reversed(ns)) && Elems(Sequences.Reversed(ns)) == Elems(ns)
    ensures Holds(Sequences.Reversed(ns), Sequences.Reversed(vs))
  {
    var r := Sequences.Reversed(ns);
    var n := |ns|;
    forall i | 0 <= i < n ensures r[i] == ns[n - 1 - i] && Sequences.Reversed(vs)[i] == vs[n - 1 - i] {
      Sequences.ReversedAt(ns, i);
      Sequences.ReversedAt(vs, i);
    }
    forall x | x in Elems(ns) ensures x in Elems(r) {
      var i :| 0 <= i < n && ns[i] == x;
      assert r[n - 1 - i] == x;
    }
  }

  /**
   * Element nodes whose links were flipped, hung between `f` (after the old
   * last) and `b` (before the old first), form a linked chain in reverse order.
   */
  lemma LinkedReversed(f: Node, ns: seq<Node>, b: Node)
    requires |ns| >= 1
    requires f.next == ns[|ns| - 1] && ns[|ns| - 1].prev == f
    requires ns[0].next == b && b.prev == ns[0]
    requires forall j :: 0 < j < |ns| ==> ns[j].next == ns[j - 1]
    requires forall j :: 0 <= j < |ns| - 1 ==> ns[j].prev == ns[j + 1]
    ensures Linked([f] + Sequences.Reversed(ns) + [b])
  {
    var n := |ns|;
    var c := [f] + Sequences.Reversed(ns) + [b];
    forall t | 1 <= t <= n ensures c[t] == ns[n - t] {
      Sequences.ReversedAt(ns, t - 1);
    }
    forall t | 0 <= t < n + 1 ensures c[t].next == c[t + 1] {
      if 0 < t {
        assert c[t] == ns[n - t];
      }
    }
    forall t | 0 < t < n + 2 ensures c[t].prev == c[t - 1] {
      if t <= n {
        assert c[t] == ns[n - t];
      }
    }
  }

  /* ---------- The list ---------- */

  class List {
    /** `size_` */
    var size: nat
    /** The sentinels `front_` and `back_`: fixed objects whose links change. */
    const front: Node
    const back: Node
    /** The element nodes, first to last. */
    ghost var nodes: seq<Node>
    /** The elements, first to last: the values `begin() .. end()` visits. */
    ghost var contents: seq<int>
    ghost var Repr: set<object>

    /** The chain the links spell out, sentinels included. */
    ghost function Chain(): seq<Node>
      reads `nodes
    {
      [front] + nodes + [back]
    }

    /**
     * The object invariant: the list owns exactly its sentinels and element
     * nodes, the chain has no repeated node and is linked both ways, `size_`
     * counts the elements and the element nodes hold `contents`.
     */
    ghost predicate Valid()
      reads this, Repr
    {
      Repr == {this} + Elems(Chain()) &&
      Distinct(Chain()) &&
      Linked(Chain()) &&
      size == |nodes| &&
      Holds(nodes, contents)
    }

    /** `list()`: no elements, and the two sentinels linked to each other. */
    constructor Empty()
      ensures Valid() && fresh(Repr)
      ensures contents == [] && size == 0
      ensures front.next == back && back.prev == front
    {
      size := 0;
      front := new Node(0);
      back := new Node(0);
      nodes := [];
      contents := [];
      new;
      Reset();
    }

    /** `list(count, value)`: `count` copies of `value` (`list(count)`: of 0). */
    constructor Filled(count: nat, value: int)
      requires count >= 1
      ensures Valid() && fresh(Repr)
      ensures contents == seq(count, _ => value) && size == count
    {
      size := 0;
      front := new Node(0);
      back := new Node(0);
      nodes := [];
      contents := [];
      new;
      Reset();
      assert fresh(Repr) && back == Chain()[1];
      var _ := InsertCount(back, 0, count, value);
      EmptyAround([], seq(count, _ => value));
    }

    /** `list(const list &other)`: an empty list, then `emplace_back` of each element of `other`. */
    constructor Copy(other: List)
      requires other.Valid()
      ensures Valid() && fresh(Repr)
      ensures contents == other.contents && size == other.size
    {
      size := 0;
      front := new Node(0);
      back := new Node(0);
      nodes := [];
      contents := [];
      new;
      Reset();
      assert fresh(Repr);
      PushBackAll(other);
      EmptyAround([], other.contents);
    }

    /** The loop of the copy constructor: `emplace_back` of each element of `other`, in order. */
    method PushBackAll(other: List)
      requires Valid() && other.Valid() && Repr !! other.Repr
      modifies Repr
      ensures Valid() && fresh(Repr - old(Repr))
      ensures contents == old(contents) + other.contents
      ensures size == old(size) + other.size
    {
      ghost var s := contents;
      ghost var vals := other.contents;
      ghost var oc := other.Chain();
      ghost var n := |other.nodes|;
      assert oc[0] == other.front && oc[0].next == oc[1] && oc[n + 1] == other.back;
      var it := other.front.next;
      ghost var i := 0;
      while it != other.back
        invariant Valid() && fresh(Repr - old(Repr))
        invariant 0 <= i <= n && it == oc[i + 1]
        invariant size == old(size) + i
        invariant contents == s + vals[..i]
        decreases n - i
      {
        assert i < n;
        assert oc[i + 1] == other.nodes[i] && it.value == vals[i] && it.next == oc[i + 2];
        var value := it.value;
        it := it.next;
        TakeOneMore(s, vals, i);
        PushBack(value);
        i := i + 1;
      }
      DistinctIndex(oc, i + 1, n + 1);
      assert vals[..n] == vals;
    }

    /**
     * `list(list &&other)`: take over `other`'s nodes by relinking its first
     * and last element to this list's sentinels; `other` is left empty.
     */
    constructor Move(other: List)
      requires other.Valid()
      modifies other.Repr
      ensures Valid() && other.Valid()
      ensures contents == old(other.contents) && size == old(other.size)
      ensures other.contents == [] && other.size == 0
      ensures Repr == {this, front, back} + old(Elems(other.nodes))
      ensures other.Repr == {other, other.front, other.back}
    {
      ghost var seg := other.nodes;
      size := 0;
      front := new Node(0);
      back := new Node(0);
      nodes := [];
      contents := [];
      Repr := {this, front, back};
      new;
      if other.size != 0 {
        other.ValidHung();
        Settle(other, other.front.next, other.back.prev, other.size, seg, other.contents);
      } else {
        InitLink(0);
        assert Chain() == [front, back] && other.Chain() == [other.front, other.back];
        ElemsPair(other.front, other.back);
        ElemsPair(front, back);
      }
    }

    /**
     * `__init_link(new_size)`: set `size_`; when it is 0, also link the
     * sentinels to each other. No other link changes.
     */
    method InitLink(newSize: nat)
      requires front != back
      modifies `size, front`next, back`prev
      ensures size == newSize
      ensures newSize == 0 ==> front.next == back && back.prev == front
      ensures newSize != 0 ==> front.next == old(front.next) && back.prev == old(back.prev)
    {
      size := newSize;
      if newSize == 0 {
        back.prev := front;
        front.next := back;
      }
    }

    /** `__init_link(0)` with no elements left: the sentinels linked to each other. */
    method Reset()
      requires front != back
      modifies `size, `nodes, `contents, `Repr, front`next, back`prev
      ensures Valid() && nodes == [] && contents == [] && size == 0
      ensures Repr == {this, front, back}
    {
      InitLink(0);
      nodes := [];
      contents := [];
      Repr := {this, front, back};
      assert Chain() == [front, back];
    }

    /**
     * The relinking of the move constructor: hang the run `first .. last`
     * (the nodes `seg`, holding `vs`) between this list's sentinels.
     */
    method Adopt(first: Node, last: Node, ghost seg: seq<Node>, ghost vs: seq<int>)
      requires front != back && front !in seg && back !in seg
      requires size == |seg| && |seg| >= 1 && first == seg[0] && last == seg[|seg| - 1]
      requires Distinct(seg) && Linked(seg) && Holds(seg, vs)
      modifies `nodes, `contents, `Repr, front`next, back`prev, first`prev, last`next
      ensures Valid() && nodes == seg && contents == vs
      ensures Repr == {this, front, back} + Elems(seg)
    {
      ghost var ch := [front] + seg + [back];
      Gap(front, back, seg);
      LinkRun(front, first, last, back, [front, back], 0, seg);
      DistinctHang(front, seg, back);
      nodes, contents, Repr := seg, vs, {this} + Elems(ch);
    }

    /** Two distinct sentinels outside `seg` leave a gap that `seg` can fill. */
    static lemma Gap(front: Node, back: Node, seg: seq<Node>)
      requires front != back && front !in seg && back !in seg
      ensures Linked([front, back][..1]) && Linked([front, back][1..])
      ensures Distinct([front, back]) && Elems([front, back]) !! Elems(seg)
      ensures [front, back][..1] + seg + [front, back][1..] == [front] + seg + [back]
    {
      ElemsPair(front, back);
    }

    /**
     * `__create(count, value)`: `count` fresh nodes holding `value`, linked
     * to each other in order; both ends are null when `count` is 0.
     */
    static method Create(count: nat, value: int) returns (head: Node?, tail: Node?, ghost seg: seq<Node>)
      ensures |seg| == count && Distinct(seg) && Linked(seg) && fresh(Elems(seg))
      ensures Holds(seg, seq(count, _ => value))
      ensures count == 0 ==> head == null && tail == null
      ensures count > 0 ==> head == seg[0] && tail == seg[count - 1] && fresh(head) && fresh(tail)
    {
      head, tail := null, null;
      seg := [];
      for i := 0 to count
        invariant |seg| == i && Distinct(seg) && Linked(seg) && fresh(Elems(seg))
        invariant forall j :: 0 <= j < i ==> seg[j].value == value
        invariant i == 0 ==> head == null && tail == null
        invariant i > 0 ==> head == seg[0] && tail == seg[i - 1] && fresh(head) && fresh(tail)
      {
        var node := new Node(value);
        if head == null {
          head := node;
        } else {
          tail.Append(node);
        }
        tail := node;
        assert Elems(seg + [node]) == Elems(seg) + {node};
        seg := seg + [node];
      }
    }

    /**
     * The two `append` calls of `__insert` and of the move constructor:
     * `before -> first` and `last -> after`, where `before` and `after` are
     * `c[k]` and `c[k + 1]` of a chain linked on either side of that gap and
     * `first .. last` is the linked run `seg`. Afterwards the chain with
     * `seg` in the gap is linked.
     */
    static method LinkRun(before: Node, first: Node, last: Node, after: Node,
                          ghost c: seq<Node>, ghost k: nat, ghost seg: seq<Node>)
      requires k + 1 < |c| && before == c[k] && after == c[k + 1]
      requires Linked(c[..k + 1]) && Linked(c[k + 1..]) && Linked(seg)
      requires Distinct(c) && Distinct(seg) && Elems(c) !! Elems(seg)
      requires |seg| >= 1 && first == seg[0] && last == seg[|seg| - 1]
      modifies before`next, first`prev, last`next, after`prev
      ensures Linked(c[..k + 1] + seg + c[k + 1..])
    {
      assert before in Elems(c) && after in Elems(c) && first in Elems(seg) && last in Elems(seg);
      before.Append(first);
      last.Append(after);
      var nc := c[..k + 1] + seg + c[k + 1..];
      var m := |seg|;
      forall i | 0 <= i < |nc| - 1 ensures nc[i].next == nc[i + 1] && nc[i + 1].prev == nc[i] {
        if i < k {
          assert nc[i] == c[i] == c[..k + 1][i] && nc[i + 1] == c[i + 1] == c[..k + 1][i + 1];
          assert c[i] != c[k] && c[i + 1] != c[k + 1];
        } else if i == k {
          assert nc[i] == c[k] && nc[i + 1] == seg[0];
        } else if i < k + m {
          assert nc[i] == seg[i - k - 1] && nc[i + 1] == seg[i - k];
          assert seg[i - k - 1] != seg[m - 1] && seg[i - k] != seg[0];
        } else if i == k + m {
          assert nc[i] == seg[m - 1] && nc[i + 1] == c[k + 1];
        } else {
          assert nc[i] == c[i - m] == c[k + 1..][i - m - k - 1];
          assert nc[i + 1] == c[i - m + 1] == c[k + 1..][i - m - k];
          assert c[i - m] != c[k] && c[i - m + 1] != c[k + 1];
        }
      }
    }


    /**
     * `__insert(pos, first, last, count)`: splice the linked run
     * `first .. last` (the nodes `seg`, holding `vs`, owned by no list) in
     * before `pos`, the chain node at index `k + 1`, and add `count` to `size_`.
     */
    method InsertRange(pos: Node, ghost k: nat, first: Node, last: Node, count: nat,
                       ghost seg: seq<Node>, ghost vs: seq<int>)
      requires Valid()
      requires k <= |nodes| && pos == Chain()[k + 1]
      requires |seg| == count && count >= 1 && first == seg[0] && last == seg[count - 1]
      requires Distinct(seg) && Linked(seg) && Holds(seg, vs) && Repr !! Elems(seg)
      modifies this, {Chain()[k]}`next, pos`prev, first`prev, last`next
      ensures Valid()
      ensures nodes == old(nodes)[..k] + seg + old(nodes)[k..]
      ensures Repr == old(Repr) + Elems(seg)
      ensures contents == old(contents)[..k] + vs + old(contents)[k..]
    {
      ghost var c := Chain();
      ghost var oldNodes, oldContents := nodes, contents;
      assert c[k + 1] == pos;
      var prevNode := pos.prev;
      assert prevNode == c[k];
      LinkedSlice(c, 0, k + 1);
      LinkedSlice(c, k + 1, |c|);
      LinkRun(prevNode, first, last, pos, c, k, seg);
      size := size + count;
      nodes := nodes[..k] + seg + nodes[k..];
      contents := contents[..k] + vs + contents[k..];
      Repr := Repr + Elems(seg);
      ghost var nc := Chain();
      ChainSplice(front, oldNodes, back, k, seg);
      DistinctSplice(c, k, seg);
      ElemsSplice(c, k, seg);
      HoldsSplice(oldNodes, oldContents, k, seg, vs);
      assert nc == c[..k + 1] + seg + c[k + 1..];
      assert Distinct(Chain()) && Linked(Chain());
      assert Repr == {this} + Elems(Chain());
    }

    /** `insert(pos, value)` (and `emplace`): one new element just before `pos`; returns its node. */
    method Insert(pos: Node, ghost k: nat, value: int) returns (it: Node)
      requires Valid()
      requires k <= |nodes| && pos == Chain()[k + 1]
      modifies this, {Chain()[k]}`next, pos`prev
      ensures Valid() && fresh(it) && fresh(Repr - old(Repr))
      ensures nodes == old(nodes)[..k] + [it] + old(nodes)[k..]
      ensures contents == old(contents)[..k] + [value] + old(contents)[k..]
      ensures size == old(size) + 1
    {
      var head, tail, seg := Create(1, value);
      assert seg == [head] && seq(1, _ => value) == [value];
      InsertRange(pos, k, head, tail, 1, seg, [value]);
      it := head;
    }

    /** `insert(pos, count, value)`: `count` copies of `value` just before `pos`; returns the first. */
    method InsertCount(pos: Node, ghost k: nat, count: nat, value: int) returns (it: Node)
      requires Valid()
      requires k <= |nodes| && pos == Chain()[k + 1]
      requires count >= 1
      modifies this, {Chain()[k]}`next, pos`prev
      ensures Valid() && fresh(it) && fresh(Repr - old(Repr))
      ensures k < |nodes| && it == nodes[k]
      ensures contents == old(contents)[..k] + seq(count, _ => value) + old(contents)[k..]
      ensures size == old(size) + count
    {
      var head, tail, seg := Create(count, value);
      InsertRange(pos, k, head, tail, count, seg, seq(count, _ => value));
      it := head;
    }

    /**
     * The `append` of `erase`: link `c[k] -> c[k + 2]` both ways, which
     * leaves `c` without `c[k + 1]` linked.
     */
    static method Unlink(before: Node, after: Node, ghost c: seq<Node>, ghost k: nat)
      requires Linked(c) && Distinct(c) && k + 2 < |c| && before == c[k] && after == c[k + 2]
      modifies before`next, after`prev
      ensures Linked(c[..k + 1] + c[k + 2..])
    {
      before.Append(after);
      var nc := c[..k + 1] + c[k + 2..];
      forall i | 0 <= i < |nc| - 1 ensures nc[i].next == nc[i + 1] && nc[i + 1].prev == nc[i] {
        if i < k {
          assert nc[i] == c[i] && nc[i + 1] == c[i + 1];
          assert c[i] != c[k] && c[i + 1] != c[k + 2];
        } else if i == k {
          assert nc[i] == c[k] && nc[i + 1] == c[k + 2];
        } else {
          assert nc[i] == c[i + 1] && nc[i + 1] == c[i + 2];
          assert c[i + 1] != c[k] && c[i + 2] != c[k + 2];
        }
      }
    }

    /** `erase(pos)`: unlink the element node `pos`; returns the node after it. */
    method Erase(pos: Node, ghost k: nat) returns (next: Node)
      requires Valid()
      requires k < |nodes| && pos == nodes[k]
      modifies this, {Chain()[k]}`next, {Chain()[k + 2]}`prev
      ensures Valid() && Repr == old(Repr) - {pos}
      ensures next == old(Chain())[k + 2]
      ensures nodes == old(nodes)[..k] + old(nodes)[k + 1..]
      ensures contents == old(contents)[..k] + old(contents)[k + 1..]
      ensures size == old(size) - 1
    {
      ghost var c := Chain();
      ghost var oldNodes, oldContents := nodes, contents;
      assert c[k + 1] == pos && c[k + 2] == pos.next && c[k] == pos.prev;
      next := pos.next;
      var prevNode := pos.prev;
      Unlink(prevNode, next, c, k);
      size := size - 1;
      nodes := nodes[..k] + nodes[k + 1..];
      contents := contents[..k] + contents[k + 1..];
      Repr := Repr - {pos};
      ghost var nc := Chain();
      ChainCut(front, oldNodes, back, k);
      DistinctCut(c, k);
      ElemsCut(c, k);
      HoldsCut(oldNodes, oldContents, k);
      assert nc == c[..k + 1] + c[k + 2..];
      assert Distinct(Chain()) && Linked(Chain());
      assert Repr == {this} + Elems(Chain());
    }

    /** `push_back(value)` (and `emplace_back`): insert before `end()`. */
    method PushBack(value: int)
      requires Valid()
      modifies Repr
      ensures Valid() && fresh(Repr - old(Repr))
      ensures contents == old(contents) + [value]
      ensures size == old(size) + 1
    {
      ghost var c := Chain();
      assert back == c[|nodes| + 1];
      var _ := Insert(back, |nodes|, value);
      assert old(contents)[..|old(nodes)|] == old(contents);
    }

    /** `push_front(value)` (and `emplace_front`): insert before `begin()`. */
    method PushFront(value: int)
      requires Valid()
      modifies Repr
      ensures Valid() && fresh(Repr - old(Repr))
      ensures contents == [value] + old(contents)
      ensures size == old(size) + 1
    {
      ghost var c := Chain();
      assert c[0] == front && front.next == c[1];
      var _ := Insert(front.next, 0, value);
    }

    /** `pop_back()`: erase the node before `end()`; an empty list is outside its contract. */
    method PopBack()
      requires Valid() && size > 0
      modifies Repr
      ensures Valid() && Repr < old(Repr)
      ensures contents == old(contents)[..|old(contents)| - 1]
      ensures size == old(size) - 1
    {
      ghost var c := Chain();
      assert c[|nodes| + 1] == back && back.prev == c[|nodes|];
      var _ := Erase(back.prev, |nodes| - 1);
    }

    /** `pop_front()`: erase `begin()`; an empty list is outside its contract. */
    method PopFront()
      requires Valid() && size > 0
      modifies Repr
      ensures Valid() && Repr < old(Repr)
      ensures contents == old(contents)[1..]
      ensures size == old(size) - 1
    {
      ghost var c := Chain();
      assert c[0] == front && front.next == c[1];
      var _ := Erase(front.next, 0);
    }

    /** `clear()`: erase `begin()` until the list is empty. */
    method Clear()
      requires Valid()
      modifies Repr
      ensures Valid() && contents == [] && size == 0
      ensures Repr == {this, front, back}
    {
      while front.next != back
        invariant Valid() && Repr <= old(Repr)
        decreases |nodes|
      {
        ghost var c := Chain();
        assert c[0] == front && front.next == c[1] && c[|nodes| + 1] == back;
        var _ := Erase(front.next, 0);
      }
      ghost var c := Chain();
      assert c[0] == front && front.next == c[1] && c[|nodes| + 1] == back;
      DistinctIndex(c, 1, |nodes| + 1);
      assert Chain() == [front, back];
    }

    /** `erase(first, last)`: erase `first` until it reaches `last`; returns `last`. */
    method EraseRange(first: Node, last: Node, ghost k: nat, ghost n: nat) returns (it: Node)
      requires Valid()
      requires k + n <= |nodes| && first == Chain()[k + 1] && last == Chain()[k + n + 1]
      modifies Repr
      ensures Valid() && Repr <= old(Repr) && it == last
      ensures nodes == old(nodes)[..k] + old(nodes)[k + n..]
      ensures contents == old(contents)[..k] + old(contents)[k + n..]
      ensures size == old(size) - n
    {
      ghost var ns, vs := nodes, contents;
      assert ns[..k] + ns[k..] == ns && vs[..k] + vs[k..] == vs;
      var head := first;
      ghost var i: nat := 0;
      while head != last
        invariant Ranging(ns, vs, k, n, i, head, last) && Repr <= old(Repr)
        decreases n - i
      {
        head := EraseStep(ns, vs, k, n, i, head, last);
        i := i + 1;
      }
      DistinctIndex(Chain(), k + 1, k + n - i + 1);
      it := head;
    }

    /**
     * The state of the loop of `erase(first, last)` over the old nodes `ns`
     * and values `vs`: `i` of the `n` items after position `k` are gone,
     * `head` is the next to go and `last` is still where the range ends.
     */
    ghost predicate Ranging(ns: seq<Node>, vs: seq<int>, k: nat, n: nat, i: nat, head: Node, last: Node)
      reads this, Repr
    {
      Valid() && i <= n && k + n <= |ns| && |vs| == |ns| &&
      nodes == ns[..k] + ns[k + i..] && contents == vs[..k] + vs[k + i..] &&
      head == Chain()[k + 1] && last == Chain()[k + n - i + 1]
    }

    /** One turn of the loop of `erase(first, last)`: erase `head`, move to the node after it. */
    method EraseStep(ghost ns: seq<Node>, ghost vs: seq<int>, ghost k: nat, ghost n: nat, ghost i: nat,
                     head: Node, last: Node) returns (head': Node)
      requires Ranging(ns, vs, k, n, i, head, last) && head != last
      modifies Repr
      ensures Ranging(ns, vs, k, n, i + 1, head', last) && Repr <= old(Repr)
    {
      ghost var c := Chain();
      assert i < n;
      assert c[k + 1] == nodes[k];
      head' := Erase(head, k);
      DropNext(ns, k, i);
      DropNext(vs, k, i);
      assert Chain()[k + n - i] == c[k + n - i + 1];
    }

    /** `resize(count)`: `emplace_back(T())` while too short, then `pop_back()` while too long. */
    method Resize(count: nat)
      requires Valid()
      modifies Repr
      ensures Valid() && fresh(Repr - old(Repr))
      ensures contents == Resized(old(contents), count)
      ensures size == count
    {
      ghost var s := contents;
      while count > size
        invariant Valid() && fresh(Repr - old(Repr))
        invariant |s| <= size && (size == |s| || size <= count)
        invariant contents == s + seq(size - |s|, _ => 0)
        decreases count - size
      {
        PushBack(0);
      }
      ghost var t := contents;
      while count < size
        invariant Valid() && fresh(Repr - old(Repr))
        invariant count <= size <= |t|
        invariant contents == t[..size]
        decreases size
      {
        PopBack();
      }
    }

    /** `remove(value)`: walk the list, erasing each node that holds `value`. */
    method Remove(value: int)
      requires Valid()
      modifies Repr
      ensures Valid() && Repr <= old(Repr)
      ensures contents == RemoveAll(old(contents), value)
    {
      ghost var s := contents;
      ghost var i: nat := 0;
      ghost var j: nat := 0;
      assert Chain()[0] == front && Chain()[0].next == Chain()[1];
      var node: Node := front.next;
      while node != back
        invariant Removing(s, value, i, j, node) && Repr <= old(Repr)
        decreases |nodes| - i
      {
        node, i, j := RemoveStep(s, value, i, j, node);
      }
      ghost var c := Chain();
      assert c[i + 1] == back && c[|nodes| + 1] == back;
      DistinctIndex(c, i + 1, |nodes| + 1);
      assert contents[..i] == contents && s[..j] == s;
    }

    /**
     * The state of the loop of `remove(value)` over the old contents `s`:
     * the first `i` elements are what is kept of the first `j` of `s`, the
     * rest are the rest of `s`, and `node` is the element node at `i`.
     */
    ghost predicate Removing(s: seq<int>, value: int, i: nat, j: nat, node: Node)
      reads this, Repr
    {
      Valid() && i <= |nodes| && j <= |s| && |nodes| - i == |s| - j && node == Chain()[i + 1] &&
      contents[..i] == RemoveAll(s[..j], value) && contents[i..] == s[j..]
    }

    /** One turn of the loop of `remove(value)`: erase `node` if it holds `value`, else step past it. */
    method RemoveStep(ghost s: seq<int>, value: int, ghost i: nat, ghost j: nat, node: Node)
      returns (node': Node, ghost i': nat, ghost j': nat)
      requires Removing(s, value, i, j, node) && node != back
      modifies Repr
      ensures Removing(s, value, i', j', node') && Repr <= old(Repr)
      ensures |nodes| - i' < old(|nodes|) - i
    {
      ghost var c := Chain();
      assert c[|nodes| + 1] == back;
      assert i < |nodes|;
      assert c[i + 1] == nodes[i] && node.value == contents[i] == s[j];
      assert s[..j + 1][..j] == s[..j];
      ghost var before := contents;
      if node.value == value {
        node' := Erase(node, i);
        i' := i;
        RemoveDrop(s, value, j, before, i);
      } else {
        assert c[i + 2] == node.next;
        node' := node.next;
        i' := i + 1;
        RemoveKeep(s, value, j, before, i);
      }
      j' := j + 1;
    }

    /**
     * The element nodes hang between the sentinels as far as the sentinels'
     * own links go, but the first and last element may still point back at
     * another list's sentinels.
     */
    ghost predicate Hung()
      reads this, front, back, nodes
    {
      front != back && front !in nodes && back !in nodes &&
      Distinct(nodes) && Linked(nodes) && size == |nodes| && Holds(nodes, contents) &&
      (nodes != [] ==> front.next == nodes[0] && back.prev == nodes[|nodes| - 1])
    }

    /**
     * The repair step of `swap`, on a list whose sentinels were just
     * exchanged: when it has elements, `front_.next_->prev_ = &front_` and
     * `back_.prev_->next_ = &back_` hang them back on its own sentinels;
     * otherwise `__init_link()` links the sentinels to each other.
     */
    method Rehang()
      requires Hung()
      modifies `Repr, `size, front`next, back`prev, Elems(nodes)`next, Elems(nodes)`prev
      ensures Valid()
      ensures nodes == old(nodes) && contents == old(contents) && size == old(size)
    {
      ghost var n := |nodes|;
      DistinctHang(front, nodes, back);
      ghost var c := Chain();
      if size != 0 {
        assert c[1] == nodes[0] && c[n] == nodes[n - 1] && c[n + 1] == back && c[0] == front;
        front.next.prev := front;
        back.prev.next := back;
        forall i | 0 <= i < n + 1 ensures c[i].next == c[i + 1] {
          if 0 < i < n {
            assert c[i] == nodes[i - 1] && c[i + 1] == nodes[i] && c[i] != c[n];
          }
        }
        forall i | 0 < i < n + 2 ensures c[i].prev == c[i - 1] {
          if 1 < i <= n {
            assert c[i] == nodes[i - 1] && c[i - 1] == nodes[i - 2] && c[i] != c[1];
          }
        }
      } else {
        InitLink(0);
        assert c == [front, back];
      }
      Repr := {this} + Elems(Chain());
    }

    /**
     * `swap(other)`: exchange the sizes and the sentinels' links, then let
     * each list repair its own chain. A list swapped with itself exchanges
     * every field with itself and re-points links that already point back,
     * so nothing changes.
     */
    method Swap(other: List)
      requires Valid() && other.Valid() && (other == this || Repr !! other.Repr)
      modifies Repr, other.Repr
      ensures Valid() && other.Valid()
      ensures nodes == old(other.nodes) && other.nodes == old(nodes)
      ensures contents == old(other.contents) && other.contents == old(contents)
      ensures size == old(other.size) && other.size == old(size)
    {
      if other == this {
        return;
      }
      HungParted(other);
      Exchange(other);
      RehangBoth(other);
    }

    /** This list and `other` share no node: the state `swap(other)` works in. */
    ghost predicate Parted(other: List)
      reads this, other
    {
      other != this && Elems(nodes) !! Elems(other.nodes) && {front, back} !! {other.front, other.back} &&
      front !in other.nodes && back !in other.nodes && other.front !in nodes && other.back !in nodes
    }

    /** A valid list is hung, and its element nodes lie in its footprint. */
    lemma ValidHung()
      requires Valid()
      ensures Hung() && Elems(nodes) <= Repr
    {
      ghost var c := Chain();
      ghost var ns := nodes;
      LinkedSlice(c, 1, |ns| + 1);
      DistinctSlice(c, 1, |ns| + 1);
      assert c[1..|ns| + 1] == ns;
      assert front == c[0] && back == c[|ns| + 1];
      EndsOutside(c);
      ElemsHang(front, ns, back);
      assert ns != [] ==> front.next == ns[0] && back.prev == ns[|ns| - 1];
    }

    /** Two valid lists with disjoint footprints are hung and parted. */
    lemma HungParted(other: List)
      requires Valid() && other.Valid() && Repr !! other.Repr
      ensures Hung() && other.Hung() && Parted(other)
      ensures Elems(nodes) <= Repr && Elems(other.nodes) <= other.Repr
    {
      ValidHung();
      other.ValidHung();
      ElemsHang(front, nodes, back);
      ElemsHang(other.front, other.nodes, other.back);
    }

    /** `std::swap` of the links of two sentinels, outside the element runs `n1` and `n2`. */
    static method SwapLinks(a: Node, b: Node, ghost n1: seq<Node>, ghost n2: seq<Node>)
      requires a != b && a !in n1 && a !in n2 && b !in n1 && b !in n2 && Linked(n1) && Linked(n2)
      modifies a`next, a`prev, b`next, b`prev
      ensures a.next == old(b.next) && a.prev == old(b.prev) && b.next == old(a.next) && b.prev == old(a.prev)
      ensures Linked(n1) && Linked(n2)
    {
      a.prev, b.prev := b.prev, a.prev;
      a.next, b.next := b.next, a.next;
    }

    /** `std::swap` of the sizes of two lists, with the element records that go with them. */
    method SwapRecords(other: List)
      requires other != this
      modifies `size, `nodes, `contents, other`size, other`nodes, other`contents
      ensures size == old(other.size) && other.size == old(size)
      ensures nodes == old(other.nodes) && other.nodes == old(nodes)
      ensures contents == old(other.contents) && other.contents == old(contents)
    {
      size, other.size := other.size, size;
      nodes, other.nodes := other.nodes, nodes;
      contents, other.contents := other.contents, contents;
    }

    /** The field exchange of `swap(other)`: sizes, sentinel links and element records. */
    method Exchange(other: List)
      requires Hung() && other.Hung() && Parted(other)
      modifies `size, `nodes, `contents, other`size, other`nodes, other`contents
      modifies front`next, front`prev, back`next, back`prev
      modifies other.front`next, other.front`prev, other.back`next, other.back`prev
      ensures Hung() && other.Hung() && Parted(other)
      ensures nodes == old(other.nodes) && other.nodes == old(nodes)
      ensures contents == old(other.contents) && other.contents == old(contents)
      ensures size == old(other.size) && other.size == old(size)
    {
      ghost var n1, n2 := nodes, other.nodes;
      SwapLinks(front, other.front, n1, n2);
      SwapLinks(back, other.back, n1, n2);
      SwapRecords(other);
    }

    /** The relinking of `swap(other)`: both lists point their end elements back at their own sentinels. */
    method RehangBoth(other: List)
      requires Hung() && other.Hung() && Parted(other)
      modifies `Repr, `size, front`next, back`prev, Elems(nodes)`next, Elems(nodes)`prev
      modifies other`Repr, other`size, other.front`next, other.back`prev, Elems(other.nodes)`next, Elems(other.nodes)`prev
      ensures Valid() && other.Valid()
      ensures nodes == old(nodes) && contents == old(contents) && size == old(size)
      ensures other.nodes == old(other.nodes) && other.contents == old(other.contents) && other.size == old(other.size)
    {
      Rehang();
      other.Rehang();
    }

    /**
     * `splice(pos, other)`: move all of `other`'s nodes in before `pos` (the
     * chain node at index `k + 1`) and leave `other` empty; an empty `other`
     * changes nothing. Spliced into itself, a list ends up empty: the run
     * is looped back onto `pos`, then `other.__init_link()` re-initialises
     * this very list, and the element nodes are left unreachable.
     */
    method Splice(pos: Node, ghost k: nat, other: List)
      requires Valid() && other.Valid() && (other == this || Repr !! other.Repr)
      requires k <= |nodes| && pos == Chain()[k + 1]
      modifies Repr, other.Repr
      ensures Valid() && other.Valid()
      ensures other != this ==> contents == old(contents)[..k] + old(other.contents) + old(contents)[k..]
      ensures other != this ==> size == old(size) + old(other.size)
      ensures other.contents == [] && other.size == 0
    {
      if other.size == 0 {
        return;
      }
      if other == this {
        assert Chain()[0] == front && Chain()[|nodes| + 1] == back;
        Reset();
        return;
      }
      ghost var oc := other.Chain();
      ghost var seg := other.nodes;
      LinkedSlice(oc, 1, |seg| + 1);
      DistinctSlice(oc, 1, |seg| + 1);
      assert oc[1..|seg| + 1] == seg;
      assert oc[0] == other.front && oc[|seg| + 1] == other.back;
      assert other.front.next == seg[0] && other.back.prev == seg[|seg| - 1];
      assert other.front !in seg && other.back !in seg;
      InsertRange(pos, k, other.front.next, other.back.prev, other.size, seg, other.contents);
      other.Reset();
    }

    /**
     * The loop of `reverse`: walk from the first element node `first` up to
     * `end`, swapping each node's `next` and `prev`.
     */
    static method FlipLinks(first: Node, end: Node, ghost c: seq<Node>, ghost ns: seq<Node>)
      requires Linked(c) && Distinct(c) && |c| >= 3 && ns == c[1..|c| - 1]
      requires first == c[1] && end == c[|c| - 1]
      modifies Elems(ns)`next, Elems(ns)`prev
      ensures forall j :: 0 < j < |ns| ==> ns[j].next == ns[j - 1]
      ensures forall j :: 0 <= j < |ns| - 1 ==> ns[j].prev == ns[j + 1]
    {
      ghost var n := |ns|;
      var node := first;
      ghost var i := 0;
      while node != end
        invariant 0 <= i <= n && node == c[i + 1] && Flipped(c, i)
        decreases n - i
      {
        assert i < n;
        assert c[i + 1] == ns[i];
        FlipStep(node, c, i);
        node := node.prev;
        i := i + 1;
      }
      DistinctIndex(c, i + 1, n + 1);
      forall j | 0 <= j < n ensures ns[j] == c[j + 1] {
      }
    }

    /**
     * The element nodes `c[1..i]` of the chain `c` have their links swapped,
     * the ones after them not yet.
     */
    static ghost predicate Flipped(c: seq<Node>, i: nat)
      reads c`next, c`prev
    {
      i + 2 <= |c| &&
      (forall j :: 1 <= j <= i ==> c[j].next == c[j - 1] && c[j].prev == c[j + 1]) &&
      (forall j :: i < j < |c| - 1 ==> c[j].next == c[j + 1] && c[j].prev == c[j - 1])
    }

    /** Swap the two links of the element node at index `i + 1` of `c`. */
    static method FlipStep(node: Node, ghost c: seq<Node>, ghost i: nat)
      requires Distinct(c) && Flipped(c, i) && i + 2 < |c| && node == c[i + 1]
      modifies node`next, node`prev
      ensures Flipped(c, i + 1) && node.prev == c[i + 2]
    {
      node.next, node.prev := node.prev, node.next;
    }

    /**
     * The relinking of `reverse()`: flip the links of every element node of
     * the chain `c`, then hang the old last node after `front` and the old
     * first before `back`.
     */
    static method Relink(front: Node, back: Node, ghost c: seq<Node>, ghost ns: seq<Node>)
      requires Linked(c) && Distinct(c) && |c| >= 3 && ns == c[1..|c| - 1] && front == c[0] && back == c[|c| - 1]
      modifies front`next, back`prev, Elems(ns)`next, Elems(ns)`prev
      ensures Linked([front] + Sequences.Reversed(ns) + [back])
    {
      ghost var n := |ns|;
      assert c[1] == ns[0] && c[n] == ns[n - 1];
      FlipLinks(front.next, back, c, ns);
      var oldBack := back.prev;
      var oldFront := front.next;
      front.Append(oldBack);
      oldFront.Append(back);
      LinkedReversed(front, ns, back);
    }

    /** Replace the element records of the list. */
    ghost method Record(ns: seq<Node>, vs: seq<int>)
      modifies `nodes, `contents
      ensures nodes == ns && contents == vs
    {
      nodes, contents := ns, vs;
    }

    /**
     * `reverse()`: swap `next` and `prev` of every element node, then hang
     * the old last node after `front_` and the old first before `back_`.
     */
    method Reverse()
      requires Valid()
      modifies Repr
      ensures Valid() && Repr == old(Repr)
      ensures nodes == Sequences.Reversed(old(nodes))
      ensures contents == Sequences.Reversed(old(contents))
    {
      if size == 0 {
        assert nodes == [] && contents == [];
        return;
      }
      ghost var c := Chain();
      ghost var n := |nodes|;
      ghost var ns, vs := nodes, contents;
      assert c[0] == front && c[0].next == c[1] && c[n + 1] == back && c[n + 1].prev == c[n];
      assert c[1..n + 1] == ns;
      DistinctSlice(c, 1, n + 1);
      EndsOutside(c);
      Relink(front, back, c, ns);
      ReversedNodes(ns, vs);
      Record(Sequences.Reversed(nodes), Sequences.Reversed(contents));
      DistinctHang(front, nodes, back);
      ElemsHang(front, ns, back);
      ElemsHang(front, nodes, back);
    }

    /**
     * The inner loop of `sort`: walk from `current`, the chain node at index
     * `i`, up to `end` and return a node with the smallest value on the way.
     */
    static method MinFrom(current: Node, end: Node, ghost c: seq<Node>, ghost i: nat) returns (min: Node, ghost mi: nat)
      requires Linked(c) && Distinct(c) && 1 <= i < |c| - 1 && current == c[i] && end == c[|c| - 1]
      ensures i <= mi < |c| - 1 && min == c[mi]
      ensures forall t :: i <= t < |c| - 1 ==> min.value <= c[t].value
    {
      var pos := current.next;
      min := current;
      mi := i;
      ghost var j := i + 1;
      while pos != end
        invariant i < j < |c| && pos == c[j]
        invariant i <= mi < j && min == c[mi]
        invariant forall t :: i <= t < j ==> min.value <= c[t].value
        decreases |c| - j
      {
        assert j < |c| - 1;
        if pos.value < min.value {
          min := pos;
          mi := j;
        }
        pos := pos.next;
        j := j + 1;
      }
      DistinctIndex(c, j, |c| - 1);
    }

    /** `std::swap(x->value, y->value)` for the nodes `x == ns[p]` and `y == ns[q]`. */
    static method SwapValues(x: Node, y: Node, ghost ns: seq<Node>, ghost vs: seq<int>, ghost p: nat, ghost q: nat)
      requires Distinct(ns) && Holds(ns, vs) && p < |ns| && q < |ns| && x == ns[p] && y == ns[q]
      modifies x`value, y`value
      ensures Holds(ns, vs[p := vs[q]][q := vs[p]])
    {
      var tmp := x.value;
      x.value := y.value;
      y.value := tmp;
      forall t | 0 <= t < |ns| ensures ns[t].value == vs[p := vs[q]][q := vs[p]][t] {
        if t != p && t != q {
          assert ns[t] != ns[p] && ns[t] != ns[q];
        }
      }
    }

    /**
     * `sort()`: selection sort that leaves the links alone and swaps values:
     * for each node, find the smallest value from it to the end and swap it in.
     */
    method Sort()
      requires Valid()
      modifies `contents, Elems(nodes)`value
      ensures Valid()
      ensures Sorted(contents)
      ensures multiset(contents) == multiset(old(contents))
    {
      ghost var c := Chain();
      assert c[0] == front && c[|c| - 1] == back && c[1..|c| - 1] == nodes;
      DistinctSlice(c, 1, |c| - 1);
      ghost var vs := SortRun(front.next, back, c, nodes, contents);
      assert Linked(c) && Chain() == c && Repr == {this} + Elems(c);
      contents := vs;
    }

    /**
     * The loops of `sort()` over the element nodes `ns` of the chain `c`,
     * holding `vs`: for each node, find the smallest value from it to the
     * end and swap it in. The nodes end up holding `r`.
     */
    static method SortRun(first: Node, back: Node, ghost c: seq<Node>, ghost ns: seq<Node>, ghost vs: seq<int>)
      returns (ghost r: seq<int>)
      requires Linked(c) && Distinct(c) && |c| >= 2 && ns == c[1..|c| - 1] && first == c[1] && back == c[|c| - 1]
      requires Distinct(ns) && Holds(ns, vs)
      modifies Elems(ns)`value
      ensures Holds(ns, r) && Sorted(r) && multiset(r) == multiset(vs)
    {
      ghost var n := |ns|;
      var current := first;
      ghost var i := 0;
      r := vs;
      while current != back
        invariant 0 <= i <= n && current == c[i + 1]
        invariant Selecting(ns, vs, r, i)
        decreases n - i
      {
        assert i < n;
        assert c[i + 2] == current.next;
        r := SelectMin(current, back, c, ns, vs, r, i);
        current := current.next;
        i := i + 1;
      }
      DistinctIndex(c, i + 1, n + 1);
      assert r[..n] == r;
    }

    /**
     * Selection sort after `i` rounds: the nodes `ns` hold `r`, a permutation
     * of `vs` whose first `i` values are sorted and no larger than the rest.
     */
    static ghost predicate Selecting(ns: seq<Node>, vs: seq<int>, r: seq<int>, i: nat)
      reads ns`value
    {
      i <= |ns| && Holds(ns, r) && multiset(r) == multiset(vs) && Sorted(r[..i]) &&
      forall p, q :: 0 <= p < i <= q < |ns| ==> r[p] <= r[q]
    }

    /** One round of `sort()`: swap the smallest value from `current` on into `current`. */
    static method SelectMin(current: Node, back: Node, ghost c: seq<Node>, ghost ns: seq<Node>, ghost vs: seq<int>,
                            ghost r: seq<int>, ghost i: nat) returns (ghost r': seq<int>)
      requires Linked(c) && Distinct(c) && |c| >= 2 && ns == c[1..|c| - 1] && back == c[|c| - 1]
      requires Distinct(ns) && i < |ns| && current == c[i + 1] && Selecting(ns, vs, r, i)
      modifies Elems(ns)`value
      ensures Selecting(ns, vs, r', i + 1)
    {
      ghost var n := |ns|;
      assert c[i + 1] == ns[i];
      var min;
      ghost var mi;
      min, mi := MinFrom(current, back, c, i + 1);
      ghost var m := mi - 1;
      assert min == ns[m];
      forall t | i <= t < n ensures r[m] <= r[t] {
        assert c[t + 1] == ns[t];
      }
      SwapValues(min, current, ns, r, m, i);
      r' := r[m := r[i]][i := r[m]];
      SelectStep(r, i, m, r');
    }

    /** The `prev->append(node)` of `merge`: a linked run grows by `node` at its end. */
    static method Extend(last: Node, node: Node, ghost m: seq<Node>)
      requires Linked(m) && Distinct(m) && |m| >= 1 && last == m[|m| - 1] && node !in m
      modifies last`next, node`prev
      ensures Linked(m + [node])
    {
      last.Append(node);
      var nm := m + [node];
      forall t | 0 <= t < |nm| - 1 ensures nm[t].next == nm[t + 1] {
        if t < |m| - 1 {
          assert nm[t] == m[t] && nm[t + 1] == m[t + 1];
        }
      }
      forall t | 0 < t < |nm| ensures nm[t].prev == nm[t - 1] {
        if t < |m| {
          assert nm[t] == m[t] && nm[t - 1] == m[t - 1];
        }
      }
    }

    /**
     * The selection step of `merge`: of the two cursors, take the node with
     * the smaller value (the one of `na` on a tie), or the only one left,
     * and advance that cursor.
     */
    static method Pick(head1: Node, tail1: Node, head2: Node, tail2: Node,
                       ghost na: seq<Node>, ghost nb: seq<Node>, ghost va: seq<int>, ghost vb: seq<int>,
                       ghost i1: nat, ghost i2: nat)
      returns (node: Node, next1: Node, next2: Node, ghost v: int, ghost j1: nat, ghost j2: nat)
      requires i1 <= |na| && i2 <= |nb| && Cursor(head1, tail1, na, i1) && Cursor(head2, tail2, nb, i2)
      requires tail1 !in na && tail2 !in nb && Holds(na, va) && Holds(nb, vb)
      requires head1 != tail1 || head2 != tail2
      ensures Choice(va, vb, i1, i2, v, j1, j2) && node.value == v
      ensures Takes(node, na, i1, nb, i2, j1, j2)
      ensures j1 <= |na| && j2 <= |nb| && Cursor(next1, tail1, na, j1) && Cursor(next2, tail2, nb, j2)
    {
      assert head1 != tail1 ==> i1 < |na| && head1.next == (if i1 + 1 < |na| then na[i1 + 1] else tail1);
      assert head2 != tail2 ==> i2 < |nb| && head2.next == (if i2 + 1 < |nb| then nb[i2 + 1] else tail2);
      next1, next2 := head1, head2;
      if head1 != tail1 && head2 != tail2 {
        if head2.value < head1.value {
          node := head2;
          next2 := head2.next;
          v, j1, j2 := vb[i2], i1, i2 + 1;
        } else {
          node := head1;
          next1 := head1.next;
          v, j1, j2 := va[i1], i1 + 1, i2;
        }
      } else if head1 != tail1 {
        node := head1;
        next1 := head1.next;
        v, j1, j2 := va[i1], i1 + 1, i2;
      } else {
        node := head2;
        next2 := head2.next;
        v, j1, j2 := vb[i2], i1, i2 + 1;
      }
    }

    /**
     * The linking step of `merge`: `node` starts the run `p.m` when there is
     * none yet (`prev == nullptr`), and is appended to its last node
     * otherwise. The two cursors, which do not read `last`, stay valid.
     */
    static method Link(ghost p: Progress, ghost p': Progress, h1: Node, t1: Node, h2: Node, t2: Node,
                       head: Node?, last: Node?, node: Node, ghost na: seq<Node>, ghost nb: seq<Node>)
      returns (newHead: Node)
      requires Linked(p.m) && Indexed(p.m, p.pos)
      requires p.m == [] ==> head == null && last == null
      requires p.m != [] ==> head == p.m[0] && last == p.m[|p.m| - 1]
      requires p'.m == p.m + [node] && node !in p.pos
      requires p'.i <= |na| && p'.j <= |nb| && Cursor(h1, t1, na, p'.i) && Cursor(h2, t2, nb, p'.j)
      requires last != null ==> last !in na[p'.i..] && last !in nb[p'.j..]
      modifies {last}`next, node`prev
      ensures Threaded(p', h1, t1, h2, t2, newHead, node, na, nb)
    {
      if last == null {
        newHead := node;
        assert p'.m == [node];
      } else {
        IndexedDistinct(p.m, p.pos);
        Extend(last, node, p.m);
        newHead := head;
      }
    }

    /**
     * The loop of `merge`: walk the element nodes `na` (ending at the
     * sentinel `tail1`) and `nb` (ending at `tail2`), picking one node at a
     * time, and link the picked nodes into one run `m`, from `head` to `last`.
     */
    static method Weave(first1: Node, tail1: Node, first2: Node, tail2: Node,
                        ghost na: seq<Node>, ghost nb: seq<Node>, ghost va: seq<int>, ghost vb: seq<int>,
                        ghost pa: map<Node, nat>, ghost pb: map<Node, nat>)
      returns (head: Node?, last: Node?, ghost m: seq<Node>, ghost pos: map<Node, nat>)
      requires Apart(na, pa, nb, pb)
      requires Linked(na) && tail1 !in na && Holds(na, va)
      requires first1 == (if na == [] then tail1 else na[0]) && (na != [] ==> na[|na| - 1].next == tail1)
      requires Linked(nb) && tail2 !in nb && Holds(nb, vb)
      requires first2 == (if nb == [] then tail2 else nb[0]) && (nb != [] ==> nb[|nb| - 1].next == tail2)
      modifies pa.Keys`next, pa.Keys`prev, pb.Keys`next, pb.Keys`prev
      ensures Drawn(m, pos, na, pa, |na|, nb, pb, |nb|)
      ensures Linked(m) && Holds(m, MergeFrom(va, vb, 0, 0))
      ensures m == [] ==> head == null && last == null
      ensures m != [] ==> head == m[0] && last == m[|m| - 1]
    {
      var head1, head2 := first1, first2;
      head, last := null, null;
      ghost var p := Progress(0, 0, [], map[], []);
      WeaveBegin(first1, tail1, first2, tail2, na, pa, va, nb, pb, vb);
      while head1 != tail1 || head2 != tail2
        invariant Weaving(p, head1, tail1, head2, tail2, head, last, na, pa, va, nb, pb, vb)
        decreases |na| - p.i + |nb| - p.j
      {
        p, head1, head2, head, last := Turn(p, head1, tail1, head2, tail2, head, last, na, pa, va, nb, pb, vb);
      }
      WeaveEnd(p, tail1, tail2, head, last, na, pa, va, nb, pb, vb);
      m, pos := p.m, p.pos;
    }

    /**
     * The choosing half of one turn of the loop of `merge`: pick the node to
     * take next and advance past it, keeping the value half of the invariant.
     */
    static method Choose(ghost p: Progress, head1: Node, tail1: Node, head2: Node, tail2: Node, head: Node?, last: Node?,
                         ghost na: seq<Node>, ghost pa: map<Node, nat>, ghost va: seq<int>,
                         ghost nb: seq<Node>, ghost pb: map<Node, nat>, ghost vb: seq<int>)
      returns (node: Node, head1': Node, head2': Node, ghost p': Progress)
      requires Apart(na, pa, nb, pb) && tail1 !in na && tail2 !in nb
      requires Tally(p, na, pa, va, nb, pb, vb)
      requires Threaded(p, head1, tail1, head2, tail2, head, last, na, nb)
      requires head1 != tail1 || head2 != tail2
      ensures Tally(p', na, pa, va, nb, pb, vb) && Indexed(p.m, p.pos)
      ensures p'.m == p.m + [node] && node !in p.pos && p'.i + p'.j == p.i + p.j + 1
      ensures p'.i <= |na| && p'.j <= |nb| && Cursor(head1', tail1, na, p'.i) && Cursor(head2', tail2, nb, p'.j)
      ensures last != null ==> last !in na[p'.i..] && last !in nb[p'.j..]
    {
      ghost var v, j1, j2;
      node, head1', head2', v, j1, j2 := Pick(head1, tail1, head2, tail2, na, nb, va, vb, p.i, p.j);
      Advance(p, na, pa, va, nb, pb, vb, node, v, j1, j2);
      p' := Progress(j1, j2, p.m + [node], p.pos[node := |p.m|], p.taken + [v]);
    }

    /** One turn of the loop of `merge`, on its invariant. */
    static method Turn(ghost p: Progress, head1: Node, tail1: Node, head2: Node, tail2: Node, head: Node?, last: Node?,
                       ghost na: seq<Node>, ghost pa: map<Node, nat>, ghost va: seq<int>,
                       ghost nb: seq<Node>, ghost pb: map<Node, nat>, ghost vb: seq<int>)
      returns (ghost p': Progress, head1': Node, head2': Node, head': Node?, last': Node?)
      requires Apart(na, pa, nb, pb) && tail1 !in na && tail2 !in nb
      requires Weaving(p, head1, tail1, head2, tail2, head, last, na, pa, va, nb, pb, vb)
      requires head1 != tail1 || head2 != tail2
      modifies pa.Keys`next, pa.Keys`prev, pb.Keys`next, pb.Keys`prev
      ensures Weaving(p', head1', tail1, head2', tail2, head', last', na, pa, va, nb, pb, vb)
      ensures p'.i + p'.j == p.i + p.j + 1
    {
      p', head1', head2', head', last' := Step(p, head1, tail1, head2, tail2, head, last, na, pa, va, nb, pb, vb);
    }

    /** One turn of the loop of `merge`: take the chosen node and link it to the run. */
    static method Step(ghost p: Progress, head1: Node, tail1: Node, head2: Node, tail2: Node, head: Node?, last: Node?,
                       ghost na: seq<Node>, ghost pa: map<Node, nat>, ghost va: seq<int>,
                       ghost nb: seq<Node>, ghost pb: map<Node, nat>, ghost vb: seq<int>)
      returns (ghost p': Progress, head1': Node, head2': Node, head': Node?, last': Node?)
      requires Apart(na, pa, nb, pb) && tail1 !in na && tail2 !in nb
      requires Tally(p, na, pa, va, nb, pb, vb)
      requires Threaded(p, head1, tail1, head2, tail2, head, last, na, nb)
      requires head1 != tail1 || head2 != tail2
      modifies pa.Keys`next, pa.Keys`prev, pb.Keys`next, pb.Keys`prev
      ensures Tally(p', na, pa, va, nb, pb, vb)
      ensures Threaded(p', head1', tail1, head2', tail2, head', last', na, nb)
      ensures p'.i + p'.j == p.i + p.j + 1
    {
      var node;
      node, head1', head2', p' := Choose(p, head1, tail1, head2, tail2, head, last, na, pa, va, nb, pb, vb);
      head' := Link(p, p', head1', tail1, head2', tail2, head, last, node, na, nb);
      last' := node;
    }


    /**
     * `merge(other)`: weave the nodes of both lists into one run, then reset
     * both lists and insert the run into this one. Merging a list into
     * itself changes nothing; two empty lists are outside the contract.
     */
    method Merge(other: List)
      requires Valid() && other.Valid()
      requires other == this || (Repr !! other.Repr && size + other.size > 0)
      modifies Repr, other.Repr
      ensures Valid() && other.Valid()
      ensures other == this ==> contents == old(contents) && Repr == old(Repr)
      ensures other != this ==> contents == MergeSeq(old(contents), old(other.contents))
      ensures other != this ==> size == old(size) + old(other.size)
      ensures other != this ==> other.contents == [] && other.size == 0
    {
      if this == other {
        return;
      }
      MergeApart(other);
    }

    /** `merge(other)` for a list other than this one. */
    method MergeApart(other: List)
      requires Valid() && other.Valid() && other != this
      requires Repr !! other.Repr && size + other.size > 0
      modifies Repr, other.Repr
      ensures Valid() && other.Valid()
      ensures contents == MergeSeq(old(contents), old(other.contents))
      ensures size == old(size) + old(other.size)
      ensures other.contents == [] && other.size == 0
    {
      var newSize := size + other.size;
      ghost var va, vb := contents, other.contents;
      var head, last, m := Gather(other);
      Settle(other, head, last, newSize, m, MergeSeq(va, vb));
    }

    /**
     * The end of `merge(other)` and of the move constructor: hang the run
     * `first .. last` (the nodes `seg`, holding `vs`) between this list's
     * sentinels, then reset `other` to empty.
     */
    method Settle(other: List, first: Node?, last: Node?, count: nat, ghost seg: seq<Node>, ghost vs: seq<int>)
      requires other != this && front != back && other.front != other.back
      requires {front, back} !! {other.front, other.back}
      requires front !in seg && back !in seg && other.front !in seg && other.back !in seg
      requires |seg| == count && count >= 1 && first == seg[0] && last == seg[count - 1]
      requires Distinct(seg) && Linked(seg) && Holds(seg, vs)
      modifies this, other, front`next, back`prev, other.front`next, other.back`prev, first`prev, last`next
      ensures Valid() && other.Valid()
      ensures contents == vs && size == count && Repr == {this, front, back} + Elems(seg)
      ensures other.contents == [] && other.size == 0 && other.Repr == {other, other.front, other.back}
    {
      size := count;
      Adopt(first, last, seg, vs);
      other.Reset();
    }

    /**
     * The walk of `merge(other)`: weave the element nodes of both lists
     * into one linked run `m`, from `head` to `last`, that holds the merge
     * of both lists' values; only the links of element nodes change.
     */
    method Gather(other: List) returns (head: Node?, last: Node?, ghost m: seq<Node>)
      requires Valid() && other.Valid() && Repr !! other.Repr
      modifies Elems(nodes)`next, Elems(nodes)`prev, Elems(other.nodes)`next, Elems(other.nodes)`prev
      ensures Distinct(m) && Linked(m) && Holds(m, MergeSeq(contents, other.contents))
      ensures Elems(m) == Elems(nodes) + Elems(other.nodes) && |m| == size + other.size
      ensures m == [] ==> head == null && last == null
      ensures m != [] ==> head == m[0] && last == m[|m| - 1]
      ensures front != back && other.front != other.back && {front, back} !! {other.front, other.back}
      ensures front !in m && back !in m && other.front !in m && other.back !in m
      ensures Elems(m) <= Repr + other.Repr
      ensures m != [] ==> head in Repr + other.Repr && last in Repr + other.Repr
    {
      ghost var c1, c2 := Chain(), other.Chain();
      ghost var na, nb := nodes, other.nodes;
      ghost var va, vb := contents, other.contents;
      assert c1[1..|c1| - 1] == na && c2[1..|c2| - 1] == nb;
      LinkedInner(front, na, back);
      LinkedInner(other.front, nb, other.back);
      DistinctSlice(c1, 1, |c1| - 1);
      DistinctSlice(c2, 1, |c2| - 1);
      EndsOutside(c1);
      EndsOutside(c2);
      ElemsHang(front, na, back);
      ElemsHang(other.front, nb, other.back);
      ghost var pa, pb := ApartMaps(na, nb);
      ghost var pos;
      head, last, m, pos := Weave(front.next, back, other.front.next, other.back, na, nb, va, vb, pa, pb);
      DrawnAll(m, pos, na, pa, nb, pb);
      MergeAll(va, vb);
    }
  }
}
