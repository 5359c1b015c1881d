/**
 * The bone hierarchy that LineGeometry walks (src/LineGeometry.js:58-68), and
 * the breadth-first order in which it visits it.
 *
 * A node is a three.js Object3D seen through the members the builder reads:
 * its identity, its `parent`, the `isBone` flag, the optional `width` and
 * `color` overrides, and its `children`. The tree is a datatype, so it is
 * finite and acyclic by construction; object identity is the `id` field.
 */
module Skeleton {
  import opened Wrappers

  type NodeId = nat

  /** An RGB colour, as three.js `Color` holds it. */
  datatype Color = Color(r: real, g: real, b: real)

  datatype Node = Node(
    id: NodeId,
    parent: Option<NodeId>,
    isBone: bool,
    width: Option<real>,
    color: Option<Color>,
    children: seq<Node>)

  /** How many members of `s` are flagged `isBone`. */
  function CountBones(s: seq<Node>): nat
  {
    if s == [] then 0 else CountBones(s[..|s| - 1]) + (if s[|s| - 1].isBone then 1 else 0)
  }

  /** The members of `s` that the child loop enqueues: those flagged `isBone`. */
  function BonesOf(s: seq<Node>): (r: seq<Node>)
    ensures |r| <= |s|
    ensures forall c :: c in r <==> c in s && c.isBone
  {
    if s == [] then []
    else
      assert s == s[..|s| - 1] + [s[|s| - 1]];
      BonesOf(s[..|s| - 1]) + (if s[|s| - 1].isBone then [s[|s| - 1]] else [])
  }

  /**
   * `BonesOf` keeps the bones of `s` in their given order and with their
   * multiplicity: the bone at position `k` of `s` lands at the position that
   * counts the bones before it, and nothing else is kept.
   */
  lemma {:induction false} BonesOfInOrder(s: seq<Node>)
    ensures |BonesOf(s)| == CountBones(s)
    ensures forall k :: 0 <= k < |s| && s[k].isBone ==>
              CountBones(s[..k]) < |BonesOf(s)| && BonesOf(s)[CountBones(s[..k])] == s[k]
  {
    if s != [] {
      var front := s[..|s| - 1];
      BonesOfInOrder(front);
      assert s == front + [s[|s| - 1]];
      var r, rf := BonesOf(s), BonesOf(front);
      assert r == rf + (if s[|s| - 1].isBone then [s[|s| - 1]] else []);
      forall k | 0 <= k < |s| && s[k].isBone
        ensures CountBones(s[..k]) < |r| && r[CountBones(s[..k])] == s[k]
      {
        if k < |front| {
          assert s[..k] == front[..k];
          assert front[k] == s[k];
        } else {
          assert s[..k] == front;
        }
      }
    }
  }

  lemma {:induction false} BonesOfAppend(s: seq<Node>, c: Node)
    ensures BonesOf(s + [c]) == BonesOf(s) + (if c.isBone then [c] else [])
  {
    assert (s + [c])[..|s + [c]| - 1] == s;
  }

  function BoneChildren(n: Node): seq<Node>
  {
    BonesOf(n.children)
  }

  /** No two entries of `s` are the same object. */
  ghost predicate IdsDistinct(s: seq<Node>)
  {
    forall i, j :: 0 <= i < j < |s| ==> s[i].id != s[j].id
  }

  /** The position of the first entry of `s` with this id; |s| when there is none. */
  function IndexOfId(s: seq<Node>, id: NodeId): (k: nat)
    ensures k <= |s|
    ensures k < |s| ==> s[k].id == id
    ensures forall j :: 0 <= j < k ==> s[j].id != id
  {
    if s == [] then 0
    else if s[0].id == id then 0
    else 1 + IndexOfId(s[1..], id)
  }

  /**
   * The bone index of `n`'s parent, given the bones recorded before `n`:
   * the position of the first of them whose id is `n.parent`, and
   * |before| when there is none (no parent, or not recorded yet).
   */
  function ParentSlot(before: seq<Node>, n: Node): nat
  {
    if n.parent.Some? then IndexOfId(before, n.parent.value) else |before|
  }

  /** Every bone but the first has its parent among the bones recorded before it. */
  ghost predicate ParentsFirst(bones: seq<Node>)
  {
    forall k :: 0 < k < |bones| ==> ParentSlot(bones[..k], bones[k]) < k
  }

  /** Every bone child records the node that holds it as its `parent`. */
  predicate Linked(n: Node)
    decreases n
  {
    forall c :: c in BoneChildren(n) ==> c.parent == Some(n.id) && Linked(c)
  }

  // ---------------------------------------------------------------------
  // Reference traversal: depth-first preorder over bone children.
  // ---------------------------------------------------------------------

  /** `n` followed by the preorder of each bone child, in order. */
  function Preorder(n: Node): seq<Node>
    decreases n, 1
  {
    [n] + PreorderFrom(n, 0)
  }

  function PreorderFrom(n: Node, k: nat): seq<Node>
    decreases n, 0, |BoneChildren(n)| - k
  {
    var cs := BoneChildren(n);
    if k >= |cs| then []
    else
      assert cs[k] in n.children;
      Preorder(cs[k]) + PreorderFrom(n, k + 1)
  }

  /** The preorders of the trees rooted at the members of `q`, one after another. */
  function Forest(q: seq<Node>): seq<Node>
  {
    if q == [] then [] else Preorder(q[0]) + Forest(q[1..])
  }

  /**
   * A tree the builder can walk: bone children point back at their parent,
   * and no object occurs twice among the nodes it reaches.
   */
  ghost predicate WellFormed(root: Node)
  {
    Linked(root) && IdsDistinct(Preorder(root))
  }

  lemma {:induction false} ForestAppend(a: seq<Node>, b: seq<Node>)
    ensures Forest(a + b) == Forest(a) + Forest(b)
  {
    if a == [] {
      assert a + b == b;
    } else {
      assert (a + b)[1..] == a[1..] + b;
      ForestAppend(a[1..], b);
    }
  }

  lemma {:induction false} PreorderFromForest(n: Node, k: nat)
    requires k <= |BoneChildren(n)|
    ensures PreorderFrom(n, k) == Forest(BoneChildren(n)[k..])
    decreases |BoneChildren(n)| - k
  {
    var cs := BoneChildren(n);
    if k < |cs| {
      PreorderFromForest(n, k + 1);
      assert cs[k..][1..] == cs[k + 1..];
    }
  }

  /** The preorder of a node is the node followed by the forest of its bone children. */
  lemma PreorderUnfold(n: Node)
    ensures Preorder(n) == [n] + Forest(BoneChildren(n))
  {
    PreorderFromForest(n, 0);
    assert BoneChildren(n)[0..] == BoneChildren(n);
  }

  /** Dequeuing the head and enqueuing its bone children removes exactly the head from the pending forest. */
  lemma ForestStep(q: seq<Node>)
    requires q != []
    ensures |Forest(q[1..] + BoneChildren(q[0]))| + 1 == |Forest(q)|
    ensures multiset(Forest(q)) == multiset{q[0]} + multiset(Forest(q[1..] + BoneChildren(q[0])))
  {
    PreorderUnfold(q[0]);
    ForestAppend(q[1..], BoneChildren(q[0]));
  }

  /** Dequeuing a node and enqueuing its bone children leaves fewer nodes to visit. */
  lemma ForestShrinks(q: seq<Node>)
    requires q != []
    ensures |Forest(q[1..] + BoneChildren(q[0]))| < |Forest(q)|
  {
    ForestStep(q);
  }

  // ---------------------------------------------------------------------
  // The traversal order of the `while (nodes.length)` loop.
  // ---------------------------------------------------------------------

  /**
   * The order in which a FIFO queue that starts as `q` is drained, when each
   * dequeued node appends its bone children to the back.
   */
  function BfsFrom(q: seq<Node>): seq<Node>
    decreases |Forest(q)|
  {
    if q == [] then []
    else
      ForestShrinks(q);
      [q[0]] + BfsFrom(q[1..] + BoneChildren(q[0]))
  }

  /** The `bones` order produced from `root`: the queue starts as `[root]`. */
  function Bfs(root: Node): (r: seq<Node>)
    ensures |r| >= 1 && r[0] == root
  {
    BfsFrom([root])
  }

  /** The bone children of the members of `q`, in queue order: the next level. */
  function Layer(q: seq<Node>): seq<Node>
  {
    if q == [] then [] else BoneChildren(q[0]) + Layer(q[1..])
  }

  lemma BfsFromCons(q: seq<Node>)
    requires q != []
    ensures BfsFrom(q) == [q[0]] + BfsFrom(q[1..] + BoneChildren(q[0]))
  {
  }

  /** Draining `q + r` visits `q` first, then drains `r` followed by the children of `q`. */
  lemma {:induction false} BfsFromAppend(q: seq<Node>, r: seq<Node>)
    ensures BfsFrom(q + r) == q + BfsFrom(r + Layer(q))
    decreases |q|
  {
    if q == [] {
      assert q + r == r && r + Layer(q) == r;
    } else {
      var c := BoneChildren(q[0]);
      var qr := q + r;
      assert qr[0] == q[0] && qr[1..] == q[1..] + r;
      AppendAssoc(q[1..], r, c);
      BfsFromCons(qr);
      BfsFromAppend(q[1..], r + c);
      AppendAssoc(r, c, Layer(q[1..]));
      AppendAssoc([q[0]], q[1..], BfsFrom(r + Layer(q)));
      assert [q[0]] + q[1..] == q;
    }
  }

  lemma AppendAssoc<T>(a: seq<T>, b: seq<T>, c: seq<T>)
    ensures a + (b + c) == (a + b) + c
  {
  }

  /**
   * Breadth-first, level by level: the queue is visited in order, and then
   * the bone children of its members, each node's children in their given
   * order and in the order of their parents.
   */
  lemma BfsLevelOrder(q: seq<Node>)
    ensures BfsFrom(q) == q + BfsFrom(Layer(q))
  {
    BfsFromAppend(q, []);
    assert q + [] == q && [] + Layer(q) == Layer(q);
  }

  lemma {:induction false} BfsFromPermutesForest(q: seq<Node>)
    ensures multiset(BfsFrom(q)) == multiset(Forest(q))
    decreases |Forest(q)|
  {
    if q != [] {
      ForestStep(q);
      BfsFromPermutesForest(q[1..] + BoneChildren(q[0]));
    }
  }

  /** The breadth-first walk visits exactly the nodes of the preorder walk, as often as it does. */
  lemma BfsPermutesPreorder(root: Node)
    ensures multiset(Bfs(root)) == multiset(Preorder(root))
  {
    BfsFromPermutesForest([root]);
    assert [root][1..] == [];
    assert Forest([root]) == Preorder(root) + Forest([]);
  }

  lemma {:induction false} BfsFromOnlyBones(q: seq<Node>)
    requires forall c :: c in q ==> c.isBone
    ensures forall c :: c in BfsFrom(q) ==> c.isBone
    decreases |Forest(q)|
  {
    if q != [] {
      ForestStep(q);
      BfsFromOnlyBones(q[1..] + BoneChildren(q[0]));
    }
  }

  /** Apart from the root, which is always visited, only nodes flagged `isBone` are visited. */
  lemma BfsNonRootAreBones(root: Node)
    ensures forall k :: 1 <= k < |Bfs(root)| ==> Bfs(root)[k].isBone
  {
    var cs := BoneChildren(root);
    assert [root][1..] + cs == cs;
    assert Bfs(root) == [root] + BfsFrom(cs);
    BfsFromOnlyBones(cs);
    forall k | 1 <= k < |Bfs(root)| ensures Bfs(root)[k].isBone {
      assert Bfs(root)[k] in BfsFrom(cs);
    }
  }

  // ---------------------------------------------------------------------
  // Visiting each node exactly once.
  // ---------------------------------------------------------------------

  lemma TwiceCounted(s: seq<Node>, i: nat, j: nat)
    requires i < j < |s| && s[i] == s[j]
    ensures multiset(s)[s[i]] >= 2
  {
    assert s == s[..j] + [s[j]] + s[j + 1..];
    assert s[i] in s[..j];
  }

  lemma {:induction false} TwoPositions(t: seq<Node>, x: Node)
    requires multiset(t)[x] >= 2
    ensures exists i, j :: 0 <= i < j < |t| && t[i] == x && t[j] == x
  {
    assert t == [t[0]] + t[1..];
    if t[0] == x {
      assert x in multiset(t[1..]);
      var j :| 0 <= j < |t[1..]| && t[1..][j] == x;
      assert t[0] == x && t[j + 1] == x;
    } else {
      TwoPositions(t[1..], x);
      var i, j :| 0 <= i < j < |t[1..]| && t[1..][i] == x && t[1..][j] == x;
      assert t[i + 1] == x && t[j + 1] == x;
    }
  }

  /** Reordering a sequence keeps its ids distinct. */
  lemma PermutationKeepsIdsDistinct(s: seq<Node>, t: seq<Node>)
    requires multiset(s) == multiset(t) && IdsDistinct(t)
    ensures IdsDistinct(s)
  {
    forall i, j | 0 <= i < j < |s| ensures s[i].id != s[j].id {
      if s[i] == s[j] {
        TwiceCounted(s, i, j);
        TwoPositions(t, s[i]);
      } else {
        assert s[i] in multiset(t) && s[j] in multiset(t);
        var i' :| 0 <= i' < |t| && t[i'] == s[i];
        var j' :| 0 <= j' < |t| && t[j'] == s[j];
        if i' < j' {
          assert t[i'].id != t[j'].id;
        } else {
          assert t[j'].id != t[i'].id;
        }
      }
    }
  }

  /**
   * On a well-formed tree the walk visits every node the preorder reaches
   * (the root, and every bone reached through bone children), and each
   * of them exactly once.
   */
  lemma BfsVisitsEachOnce(root: Node)
    requires IdsDistinct(Preorder(root))
    ensures forall n :: n in Bfs(root) <==> n in Preorder(root)
    ensures IdsDistinct(Bfs(root))
  {
    BfsPermutesPreorder(root);
    PermutationKeepsIdsDistinct(Bfs(root), Preorder(root));
    forall n ensures n in Bfs(root) <==> n in Preorder(root) {
      assert n in Bfs(root) <==> n in multiset(Bfs(root));
      assert n in Preorder(root) <==> n in multiset(Preorder(root));
    }
  }

  /** The walk of a well-formed tree never visits the same object twice. */
  lemma BfsIdsDistinct(root: Node)
    requires WellFormed(root)
    ensures IdsDistinct(Bfs(root))
  {
    BfsVisitsEachOnce(root);
  }

  // ---------------------------------------------------------------------
  // Facts the builder loop uses about the bones recorded so far.
  // ---------------------------------------------------------------------

  /** Among distinct ids, the first position holding the id of entry k is k. */
  lemma IndexOfIdDistinct(s: seq<Node>, k: nat)
    requires IdsDistinct(s) && k < |s|
    ensures IndexOfId(s, s[k].id) == k
  {
  }

  /** Recording a bone whose parent is already recorded keeps the parents-first order. */
  lemma ParentsFirstAppend(bones: seq<Node>, n: Node)
    requires ParentsFirst(bones)
    requires bones != [] ==> ParentSlot(bones, n) < |bones|
    ensures ParentsFirst(bones + [n])
  {
    var s := bones + [n];
    forall k | 0 < k < |s| ensures ParentSlot(s[..k], s[k]) < k {
      if k < |bones| {
        assert s[..k] == bones[..k];
      } else {
        assert s[..k] == bones;
      }
    }
  }
}
