/**
 * The depth-first iterator of src/foundation/immutable/detail/iterator.h.
 *
 * The source keeps m_way_to_root, an array of max_depth slot pointers: entry
 * 0 points at the map's root pointer and entry d at the slot of the node at
 * depth d inside its parent's children array. Here the root is a node value
 * and entry d (d >= 1) holds that slot's index in the parent's children, so
 * way[1..depth + 1] is the path from the root to the current node. The node
 * the source reaches through a slot is NodeAt(root, that path).
 *
 * The iterator is modelled on the tries it walks correctly (Tidy): inner
 * nodes only, at most max_depth levels, entries only in nodes without
 * children, and no empty node below the root.
 */
module HamtIterator {
  import opened HamtNode

  /** max_depth<6>: the number of slots in m_way_to_root. */
  const MaxDepth: nat := 11

  /**
   * The tries the iterator walks: every node is an inner node at most
   * `levels` levels deep, holds entries only if it has no children, and every
   * child holds something.
   */
  ghost predicate Tidy<K, V>(n: Node<K, V>, levels: nat)
    decreases n
  {
    && n.Inner? && levels > 0
    && (|n.body.children| > 0 ==> |n.body.data| == 0)
    && forall c :: c in n.body.children ==>
         && Tidy(c, levels - 1)
         && (|c.body.children| > 0 || |c.body.data| > 0)
  }

  /** The node reached from `n` by taking child p[0], then p[1], and so on; None off the trie. */
  function NodeAt<K, V>(n: Node<K, V>, p: seq<nat>): Option<Node<K, V>>
    decreases |p|
  {
    if |p| == 0 then Some(n)
    else
      match NodeAt(n, p[..|p| - 1])
      case None => None
      case Some(m) =>
        if m.Inner? && p[|p| - 1] < |m.body.children| then Some(m.body.children[p[|p| - 1]]) else None
  }

  /** The path from `n` down its first children to a node without children. */
  function Leftmost<K, V>(n: Node<K, V>): seq<nat>
    decreases n
  {
    if n.Inner? && |n.body.children| > 0 then [0] + Leftmost(n.body.children[0]) else []
  }

  /** Stepping to the first child keeps the leftmost path below `p`. */
  lemma LeftmostFirst<K, V>(p: seq<nat>, n: Node<K, V>)
    requires n.Inner? && |n.body.children| > 0
    ensures (p + [0]) + Leftmost(n.body.children[0]) == p + Leftmost(n)
  {
    assert (p + [0]) + Leftmost(n.body.children[0]) == p + ([0] + Leftmost(n.body.children[0]));
  }

  /**
   * Where the walk goes after the node at path `p` is exhausted: to the next
   * sibling of the deepest level that has one, and down its first children;
   * None when no level has a next sibling.
   */
  function Advance<K, V>(root: Node<K, V>, p: seq<nat>): Option<seq<nat>>
    requires NodeAt(root, p).Some?
    decreases |p|
  {
    if |p| == 0 then None
    else
      var q := p[..|p| - 1];
      var i := p[|p| - 1];
      var parent := NodeAt(root, q).value;
      if i + 1 < |parent.body.children| then Some(q + [i + 1] + Leftmost(parent.body.children[i + 1]))
      else Advance(root, q)
  }

  /** The path `p` leads to a node without children whose entry `i` exists. */
  ghost predicate At<K, V>(root: Node<K, V>, p: seq<nat>, i: nat) {
    && NodeAt(root, p).Some? && NodeAt(root, p).value.Inner?
    && |NodeAt(root, p).value.body.children| == 0
    && i < |NodeAt(root, p).value.body.data|
  }

  // ---------------------------------------------------------------------
  // Paths in a tidy trie.

  /** Following a path in a tidy trie stays within its levels and reaches a tidy node that holds something. */
  lemma {:induction false} TidyAt<K, V>(root: Node<K, V>, p: seq<nat>)
    requires Tidy(root, MaxDepth) && NodeAt(root, p).Some?
    ensures |p| < MaxDepth && Tidy(NodeAt(root, p).value, MaxDepth - |p|) && NodeAt(root, p).value.Inner?
    ensures |p| > 0 ==> |NodeAt(root, p).value.body.children| > 0 || |NodeAt(root, p).value.body.data| > 0
    decreases |p|
  {
    if |p| > 0 {
      var q := p[..|p| - 1];
      TidyAt(root, q);
      var m := NodeAt(root, q).value;
      assert m.body.children[p[|p| - 1]] in m.body.children;
    }
  }

  /** A root that some non-empty path leaves holds no entries of its own. */
  lemma {:induction false} RootHoldsNothing<K, V>(root: Node<K, V>, p: seq<nat>)
    requires Tidy(root, MaxDepth) && NodeAt(root, p).Some? && |p| > 0
    ensures |root.body.children| > 0 && |root.body.data| == 0
    decreases |p|
  {
    if |p| > 1 {
      RootHoldsNothing(root, p[..|p| - 1]);
    } else {
      assert p[..0] == [];
    }
  }

  /** One step down to the first child, and the leftmost path it starts. */
  lemma DescendStep<K, V>(root: Node<K, V>, p: seq<nat>, n: Node<K, V>)
    requires Tidy(root, MaxDepth) && NodeAt(root, p) == Some(n)
    requires n.Inner? && |n.body.children| > 0
    ensures NodeAt(root, p + [0]) == Some(n.body.children[0]) && n.body.children[0].Inner?
    ensures |p| + 1 < MaxDepth
    ensures Leftmost(n) == [0] + Leftmost(n.body.children[0])
  {
    assert (p + [0])[..|p|] == p;
    TidyAt(root, p + [0]);
  }

  /** A path followed by a path from the node it reaches. */
  lemma {:induction false} NodeAtAppend<K, V>(n: Node<K, V>, p: seq<nat>, r: seq<nat>)
    requires NodeAt(n, p).Some?
    ensures NodeAt(n, p + r) == NodeAt(NodeAt(n, p).value, r)
    decreases |r|
  {
    if |r| == 0 {
      assert p + r == p;
    } else {
      var r0 := r[..|r| - 1];
      assert (p + r)[..|p + r| - 1] == p + r0;
      NodeAtAppend(n, p, r0);
    }
  }

  /** The leftmost path below a node of a tidy trie ends at a node without children that holds an entry. */
  lemma {:induction false} LeftmostFrom<K, V>(root: Node<K, V>, p: seq<nat>)
    requires Tidy(root, MaxDepth) && NodeAt(root, p).Some? && |p| > 0
    ensures At(root, p + Leftmost(NodeAt(root, p).value), 0)
    decreases MaxDepth - |p|
  {
    TidyAt(root, p);
    var n := NodeAt(root, p).value;
    if |n.body.children| == 0 {
      assert p + Leftmost(n) == p;
    } else {
      DescendStep(root, p, n);
      LeftmostFrom(root, p + [0]);
      assert p + [0] + Leftmost(n.body.children[0]) == p + Leftmost(n);
    }
  }

  /** Leftmost ends at a node without children. */
  lemma LeftmostEnd<K, V>(n: Node<K, V>)
    requires n.Inner? && |n.body.children| == 0
    ensures Leftmost(n) == []
  {}

  /** One step of Advance: shift to the next sibling, or pop to the parent. */
  lemma AdvanceStep<K, V>(root: Node<K, V>, p: seq<nat>)
    requires NodeAt(root, p).Some? && |p| > 0
    ensures NodeAt(root, p[..|p| - 1]).Some? && NodeAt(root, p[..|p| - 1]).value.Inner?
    ensures p[|p| - 1] < |NodeAt(root, p[..|p| - 1]).value.body.children|
    ensures var q := p[..|p| - 1];
            var i := p[|p| - 1];
            var cs := NodeAt(root, q).value.body.children;
            && (i + 1 < |cs| ==> NodeAt(root, q + [i + 1]) == Some(cs[i + 1])
                                 && Advance(root, p) == Some(q + [i + 1] + Leftmost(cs[i + 1])))
            && (i + 1 >= |cs| ==> Advance(root, p) == Advance(root, q))
  {
    var q := p[..|p| - 1];
    assert (q + [p[|p| - 1] + 1])[..|q|] == q;
  }

  /** The path to the next sibling of the node at the end of `p`. */
  function Sibling(p: seq<nat>): seq<nat>
    requires |p| > 0
  {
    p[..|p| - 1] + [p[|p| - 1] + 1]
  }

  /** Where Advance goes when the node at `p` has a next sibling: down the sibling's first children. */
  lemma ShiftTarget<K, V>(root: Node<K, V>, p: seq<nat>)
    requires Tidy(root, MaxDepth) && NodeAt(root, p).Some? && |p| > 0
    requires NodeAt(root, p[..|p| - 1]).Some? && NodeAt(root, p[..|p| - 1]).value.Inner?
    requires p[|p| - 1] + 1 < |NodeAt(root, p[..|p| - 1]).value.body.children|
    ensures NodeAt(root, Sibling(p)).Some? && NodeAt(root, Sibling(p)).value.Inner? && |Sibling(p)| < MaxDepth
    ensures Advance(root, p) == Some(Sibling(p) + Leftmost(NodeAt(root, Sibling(p)).value))
    ensures At(root, Sibling(p) + Leftmost(NodeAt(root, Sibling(p)).value), 0)
  {
    AdvanceStep(root, p);
    TidyAt(root, Sibling(p));
    LeftmostFrom(root, Sibling(p));
  }

  /** Nothing follows the root itself. */
  lemma AdvanceEmpty<K, V>(root: Node<K, V>)
    ensures Advance(root, []) == None
  {}

  /** A leaf the walk reaches holds an entry. */
  lemma LeafHolds<K, V>(root: Node<K, V>, p: seq<nat>)
    requires Tidy(root, MaxDepth) && NodeAt(root, p).Some?
    requires NodeAt(root, p).value.Inner? && |NodeAt(root, p).value.body.children| == 0 && (|p| > 0 || |root.body.data| > 0)
    ensures |NodeAt(root, p).value.body.data| > 0
  {
    TidyAt(root, p);
  }

  // ---------------------------------------------------------------------
  // The walk moves forward.

  /** `p` comes strictly before `q` in depth-first order, neither being a prefix of the other. */
  predicate Before(p: seq<nat>, q: seq<nat>)
    decreases |p|
  {
    |p| > 0 && |q| > 0 && (p[0] < q[0] || (p[0] == q[0] && Before(p[1..], q[1..])))
  }

  /** Two paths that first differ where the first takes a smaller child. */
  lemma {:induction false} BeforeAt(prefix: seq<nat>, i: nat, j: nat, r: seq<nat>, s: seq<nat>)
    requires i < j
    ensures Before(prefix + [i] + r, prefix + [j] + s)
    decreases |prefix|
  {
    if |prefix| > 0 {
      assert (prefix + [i] + r)[1..] == prefix[1..] + [i] + r;
      assert (prefix + [j] + s)[1..] == prefix[1..] + [j] + s;
      BeforeAt(prefix[1..], i, j, r, s);
    }
  }

  /** Going deeper below a path keeps it before whatever it was before. */
  lemma {:induction false} BeforeExtend(p: seq<nat>, x: seq<nat>, q: seq<nat>)
    requires Before(p, q)
    ensures Before(p + x, q)
    decreases |p|
  {
    if p[0] == q[0] {
      assert (p + x)[1..] == p[1..] + x;
      BeforeExtend(p[1..], x, q[1..]);
    }
  }

  /**
   * The walk only moves forward: the next node comes strictly after the
   * current one in depth-first order, and it is a node without children
   * that holds an entry.
   */
  lemma {:induction false} AdvanceForward<K, V>(root: Node<K, V>, p: seq<nat>)
    requires Tidy(root, MaxDepth) && NodeAt(root, p).Some?
    ensures Advance(root, p).Some? ==> Before(p, Advance(root, p).value) && At(root, Advance(root, p).value, 0)
    decreases |p|
  {
    if |p| > 0 {
      AdvanceStep(root, p);
      var q := p[..|p| - 1];
      var i := p[|p| - 1];
      var cs := NodeAt(root, q).value.body.children;
      assert p == q + [i] + [] == q + [i];
      if i + 1 < |cs| {
        BeforeAt(q, i, i + 1, [], Leftmost(cs[i + 1]));
        TidyAt(root, q + [i + 1]);
        LeftmostFrom(root, q + [i + 1]);
      } else {
        AdvanceForward(root, q);
        if Advance(root, q).Some? {
          BeforeExtend(q, [i], Advance(root, q).value);
        }
      }
    }
  }

  /**
   * Iterator: the root it walks, m_way_to_root, m_current_depth (-1 at the
   * end) and m_data_id.
   */
  class Iterator<K(==), V(==)> {
    const root: Node<K, V>
    const way: array<nat>
    var depth: int
    var dataId: nat

    /** The path from the root to the current node. */
    function Path(): seq<nat>
      reads this, way
      requires 0 <= depth < way.Length
    {
      way[1..depth + 1]
    }

    /** The iterator is at the end, or at an entry of a node without children. */
    ghost predicate Valid()
      reads this, way
    {
      && way.Length == MaxDepth && Tidy(root, MaxDepth)
      && (depth == -1 || (
            && 0 <= depth < MaxDepth
            && At(root, Path(), dataId)))
    }

    /** Iterator(): the end iterator. */
    constructor End()
      ensures Valid() && depth == -1
      ensures fresh(way)
    {
      root := EmptyInner();
      way := new nat[MaxDepth];
      depth := -1;
      dataId := 0;
    }

    /**
     * Iterator(root): the end iterator for an empty root; otherwise the
     * first entry of the leftmost node without children.
     */
    constructor(root: Node<K, V>)
      requires Tidy(root, MaxDepth)
      ensures Valid() && this.root == root && fresh(way)
      ensures |root.body.children| == 0 && |root.body.data| == 0 ==> depth == -1
      ensures |root.body.children| != 0 || |root.body.data| != 0 ==>
                depth >= 0 && Path() == Leftmost(root) && dataId == 0
    {
      this.root := root;
      way := new nat[MaxDepth];
      depth := -1;
      dataId := 0;
      new;
      if |root.body.children| != 0 || |root.body.data| != 0 {
        depth := 0;
        way[0] := 0;
        assert Path() == [];
        Descend();
        LeafHolds(root, Path());
      }
    }

    /** The copy the post-increment returns: the same position, in a new array. */
    constructor Copy(other: Iterator<K, V>)
      requires other.Valid()
      ensures Valid() && root == other.root && depth == other.depth && dataId == other.dataId
      ensures way[..] == other.way[..] && fresh(way)
    {
      root := other.root;
      way := new nat[MaxDepth](i requires 0 <= i < MaxDepth reads other, other.way => other.way[i]);
      depth := other.depth;
      dataId := other.dataId;
      new;
      assert way[..] == other.way[..];
      if depth >= 0 {
        assert Path() == other.Path();
      }
    }

    /**
     * operator==: two end iterators are equal; otherwise the depth, the slot
     * at that depth and the entry index are compared. The slot is identified
     * by the root and the path to it.
     */
    method Equals(other: Iterator<K, V>) returns (r: bool)
      requires Valid() && other.Valid()
      ensures r <==> ((depth == -1 && other.depth == -1)
                      || (depth == other.depth && depth >= 0 && root == other.root
                          && Path() == other.Path() && dataId == other.dataId))
    {
      if depth == -1 && other.depth == -1 {
        return true;
      }
      if depth != other.depth || depth < 0 {
        return false;
      }
      r := root == other.root && way[1..depth + 1] == other.way[1..depth + 1] && dataId == other.dataId;
    }

    /** operator*: the entry under the cursor. */
    function Current(): (e: Entry<K, V>)
      reads this, way
      requires Valid() && depth >= 0
      ensures e in NodeAt(root, Path()).value.body.data
    {
      NodeAt(root, Path()).value.body.data[dataId]
    }

    /** The cursor is at some node of a tidy trie, within the slots of m_way_to_root. */
    ghost predicate Placed()
      reads this, way
    {
      way.Length == MaxDepth && Tidy(root, MaxDepth) && 0 <= depth < MaxDepth && NodeAt(root, Path()).Some?
    }

    /** can_i_shift: the current node has a next sibling in its parent. */
    function CanShift(): (r: bool)
      reads this, way
      requires Placed() && depth >= 1
      ensures NodeAt(root, Path()[..depth - 1]).Some? && NodeAt(root, Path()[..depth - 1]).value.Inner?
      ensures r <==> NodeAt(root, Sibling(Path())).Some?
    {
      AdvanceStep(root, Path());
      assert Path()[..depth - 1] == way[1..depth];
      assert Sibling(Path())[..depth - 1] == way[1..depth];
      way[depth] + 1 < |NodeAt(root, way[1..depth]).value.body.children|
    }

    /**
     * discent: from the current node down its first children to a node
     * without children, recording each slot.
     */
    method Descend()
      requires Placed() && NodeAt(root, Path()).value.Inner?
      modifies this, way
      ensures Placed() && dataId == old(dataId) && old(depth) <= depth
      ensures Path() == old(Path()) + Leftmost(NodeAt(root, old(Path())).value)
      ensures NodeAt(root, Path()).value.Inner? && |NodeAt(root, Path()).value.body.children| == 0
    {
      ghost var p0 := Path();
      ghost var n0 := NodeAt(root, p0).value;
      var node := NodeAt(root, way[1..depth + 1]).value;
      ghost var p := p0;
      while |node.body.children| > 0
        invariant old(depth) <= depth < MaxDepth && p == Path() && dataId == old(dataId)
        invariant NodeAt(root, p) == Some(node) && node.Inner?
        invariant p + Leftmost(node) == p0 + Leftmost(n0)
        decreases MaxDepth - depth
      {
        DescendStep(root, p, node);
        LeftmostFirst(p, node);
        node := node.body.children[0];
        StepDown();
        p := p + [0];
      }
      LeftmostEnd(node);
    }

    /** One level down discent: the next slot of m_way_to_root records the first child. */
    method StepDown()
      requires way.Length == MaxDepth && 0 <= depth && depth + 1 < MaxDepth
      modifies this, way
      ensures depth == old(depth) + 1 && dataId == old(dataId)
      ensures Path() == old(Path()) + [0]
    {
      depth := depth + 1;
      way[depth] := 0;
      assert Path() == old(Path()) + [0];
    }

    /** The shifting branch of next_node: move to the next sibling and descend from it. */
    method Shift()
      requires Placed() && depth >= 1 && CanShift()
      modifies this, way
      ensures Placed() && dataId == old(dataId) && depth >= 1
      ensures Advance(root, old(Path())).Some? && Path() == Advance(root, old(Path())).value && At(root, Path(), 0)
    {
      ghost var p := Path();
      assert p[..|p| - 1] == Path()[..depth - 1] && p[|p| - 1] == way[depth];
      ShiftTarget(root, p);
      Bump();
      Descend();
    }

    /** ++m_way_to_root[m_current_depth]: the slot moves to the next sibling. */
    method Bump()
      requires way.Length == MaxDepth && 1 <= depth < MaxDepth
      modifies way
      ensures Path() == Sibling(old(Path()))
    {
      ghost var p := Path();
      way[depth] := way[depth] + 1;
      assert Path() == p[..|p| - 1] + [p[|p| - 1] + 1];
    }

    /**
     * next_node: the next entry of the current node; otherwise the first
     * entry of the next node in the walk, or the end. Nothing changes at the
     * end.
     */
    method Next()
      requires Valid()
      modifies this, way
      ensures Valid()
      ensures old(depth) == -1 ==> depth == -1
      ensures old(depth) >= 0 && old(dataId) + 1 < |NodeAt(root, old(Path())).value.body.data| ==>
                depth == old(depth) && Path() == old(Path()) && dataId == old(dataId) + 1
      ensures old(depth) >= 0 && old(dataId) + 1 >= |NodeAt(root, old(Path())).value.body.data| ==>
                match Advance(root, old(Path()))
                case None => depth == -1
                case Some(p) => depth >= 0 && Path() == p && dataId == 0
    {
      if depth == -1 {
        return;
      }
      var node := NodeAt(root, way[1..depth + 1]).value;
      if |node.body.data| > dataId + 1 {
        dataId := dataId + 1;
      } else if depth != 0 {
        Walk();
        dataId := 0;
      } else {
        depth := -1;
      }
    }

    /** operator++(int): a copy of the position before the step, then the step. */
    method PostIncrement() returns (prev: Iterator<K, V>)
      requires Valid()
      modifies this, way
      ensures fresh(prev) && fresh(prev.way) && prev.Valid()
      ensures prev.root == root && prev.depth == old(depth) && prev.dataId == old(dataId)
      ensures prev.way[..] == old(way[..])
      ensures Valid()
    {
      prev := new Iterator.Copy(this);
      Next();
    }

    /** The while loop of next_node: shift to a next sibling and descend, or pop a level. */
    method Walk()
      requires Placed() && depth >= 1
      modifies this, way
      ensures dataId == old(dataId)
      ensures match Advance(root, old(Path()))
              case None => depth == -1
              case Some(p) => 0 <= depth < MaxDepth && Path() == p && At(root, p, 0)
    {
      ghost var p0 := Path();
      while depth != -1
        invariant dataId == old(dataId)
        invariant depth == -1 || (1 <= depth && Placed())
        invariant depth == -1 ==> Advance(root, p0) == None
        invariant depth >= 1 ==> Advance(root, p0) == Advance(root, Path())
        decreases depth
      {
        if CanShift() {
          Shift();
          break;
        }
        Pop();
      }
    }

    /**
     * The popping branch of next_node: up one level, and to the end when
     * that reaches a root holding no entries.
     */
    method Pop()
      requires Placed() && depth >= 1 && !CanShift()
      modifies this
      ensures dataId == old(dataId) && depth < old(depth)
      ensures depth == -1 ==> Advance(root, old(Path())) == None
      ensures depth != -1 ==> 1 <= depth && Placed() && Advance(root, old(Path())) == Advance(root, Path())
    {
      ghost var p := Path();
      AdvanceStep(root, p);
      assert p[..|p| - 1] == Path()[..depth - 1];
      depth := depth - 1;
      assert Path() == p[..|p| - 1];
      if depth == 0 && |root.body.data| == 0 {
        depth := -1;
        AdvanceEmpty(root);
      }
      if depth == 0 {
        RootHoldsNothing(root, p);
        assert false;
      }
    }
  }

  /**
   * A trie holding a single entry at its root: begin differs from end, it
   * reads that entry, and one step brings it to end.
   */
  method SingleEntry<K(==), V(==)>(root: Node<K, V>) returns (differs: bool, first: Entry<K, V>, atEnd: bool)
    requires root.Inner? && |root.body.children| == 0 && |root.body.data| == 1
    ensures differs && first == root.body.data[0] && atEnd
  {
    var begin := new Iterator(root);
    var end := new Iterator.End();
    var same := begin.Equals(end);
    differs := !same;
    first := begin.Current();
    begin.Next();
    atEnd := begin.Equals(end);
  }
}
