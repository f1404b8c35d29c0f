/** The Huffman tree (`HuffmanNode`) and the queue-merging loop shared by
    `HuffmanTree.Build` and `HuffmanTree.BuildFromFrequencyTable`.

    The source seeds a .NET `PriorityQueue` keyed by weight. That queue does
    not specify how it orders equal keys, so this model fixes a rule of its
    own and does not claim it reproduces .NET's: the queue is a sequence,
    `Enqueue` appends, and `Dequeue` takes the earliest element of minimum
    weight. What matters for decompression is only that the tree is a
    function of the ordered entry sequence, which any fixed rule gives. */
module HuffmanTree {
  import opened Bytes
  import opened Outcomes
  import opened Frequency
  import opened Sequences

  /** A leaf carries a symbol and its weight; an internal node has both
      children and no symbol. (The source's nullable fields allow a leaf
      without a symbol or a node with one child; its builder never makes
      either, so this type leaves them out.) */
  datatype Tree =
    | Leaf(sym: byte, weight: int)
    | Node(left: Tree, right: Tree, weight: int)

  /** The two-child `HuffmanNode` constructor: its weight is the sum of the
      children's, computed as unchecked C# `long` addition. */
  function Parent(left: Tree, right: Tree): (r: Tree)
    ensures r.Node? && r.left == left && r.right == right
  {
    Node(left, right, Wrap64(left.weight + right.weight))
  }

  /** Every internal node weighs the (wrapped) sum of its children. */
  predicate WellWeighted(t: Tree) {
    match t
    case Leaf(_, _) => true
    case Node(l, r, w) => w == Wrap64(l.weight + r.weight) && WellWeighted(l) && WellWeighted(r)
  }

  /** The leaves of `t`, each as the table entry it came from. */
  function LeafBag(t: Tree): multiset<Entry> {
    match t
    case Leaf(s, w) => multiset{Entry(s, w)}
    case Node(l, r, _) => LeafBag(l) + LeafBag(r)
  }

  function Syms(t: Tree): set<byte> {
    match t
    case Leaf(s, _) => {s}
    case Node(l, r, _) => Syms(l) + Syms(r)
  }

  function LeafCount(t: Tree): nat {
    match t
    case Leaf(_, _) => 1
    case Node(l, r, _) => LeafCount(l) + LeafCount(r)
  }

  function InternalCount(t: Tree): nat {
    match t
    case Leaf(_, _) => 0
    case Node(l, r, _) => 1 + InternalCount(l) + InternalCount(r)
  }

  /** No symbol labels two leaves. */
  predicate DistinctLeaves(t: Tree) {
    match t
    case Leaf(_, _) => true
    case Node(l, r, _) => Syms(l) !! Syms(r) && DistinctLeaves(l) && DistinctLeaves(r)
  }

  /** The leaves of every tree in the queue. */
  function QueueBag(q: seq<Tree>): multiset<Entry> {
    if |q| == 0 then multiset{} else QueueBag(q[..|q| - 1]) + LeafBag(q[|q| - 1])
  }

  /** Index of the element `Dequeue` removes: minimum weight, earliest
      position among equal weights. */
  function MinIndex(q: seq<Tree>): (i: nat)
    requires |q| > 0
    ensures i < |q|
    ensures forall j :: 0 <= j < |q| ==> q[i].weight <= q[j].weight
    ensures forall j :: 0 <= j < i ==> q[i].weight < q[j].weight
  {
    if |q| == 1 then 0
    else
      var k := MinIndex(q[..|q| - 1]);
      if q[|q| - 1].weight < q[k].weight then |q| - 1 else k
  }

  /** `Dequeue` on a non-empty queue: the removed element and the rest, in order. */
  function DequeueMin(q: seq<Tree>): (r: (Tree, seq<Tree>))
    requires |q| > 0
    ensures |r.1| == |q| - 1
    ensures r.0 == q[MinIndex(q)]
    ensures r.1 == q[..MinIndex(q)] + q[MinIndex(q) + 1..]
    ensures r.0 in q && forall t :: t in r.1 ==> t in q
    ensures QueueBag(q) == QueueBag(r.1) + LeafBag(r.0)
    ensures forall j :: 0 <= j < |q| ==> r.0.weight <= q[j].weight
  {
    var i := MinIndex(q);
    QueueBagRemove(q, i);
    (q[i], q[..i] + q[i + 1..])
  }

  /** Taking one tree out of a queue splits its leaves between that tree and
      the rest. */
  lemma QueueBagRemove(q: seq<Tree>, i: nat)
    requires i < |q|
    ensures QueueBag(q) == QueueBag(q[..i] + q[i + 1..]) + LeafBag(q[i])
  {
    var a, b := q[..i], q[i + 1..];
    var am := a + [q[i]];
    SplitAt(q, i);
    QueueBagSnoc(a, q[i]);
    QueueBagAppend(am, b);
    QueueBagAppend(a, b);
  }

  lemma QueueBagSnoc(a: seq<Tree>, t: Tree)
    ensures QueueBag(a + [t]) == QueueBag(a) + LeafBag(t)
  {
    var am := a + [t];
    assert am[..|am| - 1] == a && am[|am| - 1] == t;
  }

  /** `Dequeue` neither loses nor invents a tree: the queue is the removed
      tree plus the rest, as a multiset. */
  lemma DequeueMinPerm(q: seq<Tree>)
    requires |q| > 0
    ensures multiset(q) == multiset(DequeueMin(q).1) + multiset{DequeueMin(q).0}
  {
    var i := MinIndex(q);
    SplitAt(q, i);
  }

  /** `PriorityQueue.Dequeue`, which throws on an empty queue. */
  function Dequeue(q: seq<Tree>): (r: Result<(Tree, seq<Tree>)>)
    ensures r.Failure? <==> |q| == 0
    ensures r.Failure? ==> r.error == EmptyQueue
  {
    if |q| == 0 then Failure(EmptyQueue) else Success(DequeueMin(q))
  }

  /** One leaf per table entry, enqueued in table order. */
  function Seed(t: Table): (q: seq<Tree>)
    ensures |q| == |t|
  {
    if |t| == 0 then [] else Seed(t[..|t| - 1]) + [Leaf(t[|t| - 1].sym, t[|t| - 1].count)]
  }

  /** One iteration of the `while (nodes.Count > 1)` loop: take the two
      lightest trees and enqueue their parent. */
  function MergeStep(q: seq<Tree>): (r: seq<Tree>)
    requires |q| > 1
    ensures |r| == |q| - 1
  {
    var (left, q1) := DequeueMin(q);
    var (right, q2) := DequeueMin(q1);
    q2 + [Parent(left, right)]
  }

  /** A merge keeps the leaves of the queue... */
  lemma MergeStepBag(q: seq<Tree>)
    requires |q| > 1
    ensures QueueBag(MergeStep(q)) == QueueBag(q)
  {
    var (left, q1) := DequeueMin(q);
    var (right, q2) := DequeueMin(q1);
    var p := Parent(left, right);
    var r := q2 + [p];
    assert r[..|r| - 1] == q2 && r[|r| - 1] == p;
    assert QueueBag(r) == QueueBag(q2) + LeafBag(p);
  }

  /** ... and the well-weightedness of every tree in it. */
  lemma MergeStepWeighted(q: seq<Tree>)
    requires |q| > 1
    requires forall t :: t in q ==> WellWeighted(t)
    ensures forall t :: t in MergeStep(q) ==> WellWeighted(t)
  {
    var (left, q1) := DequeueMin(q);
    var (right, q2) := DequeueMin(q1);
    var p := Parent(left, right);
    forall t | t in q2 + [p]
      ensures WellWeighted(t)
    {
      if t != p {
        assert t in q2;
      }
    }
  }

  /** The whole loop: merge until at most one tree is left. */
  function MergeAll(q: seq<Tree>): (r: seq<Tree>)
    ensures |r| == if |q| == 0 then 0 else 1
    decreases |q|
  {
    if |q| <= 1 then q else MergeAll(MergeStep(q))
  }

  /** Tree construction from an ordered table, then `_root = nodes.Dequeue()`. */
  function Build(t: Table): Result<Tree> {
    var (root, _) :- Dequeue(MergeAll(Seed(t)));
    Success(root)
  }

  lemma {:induction false} QueueBagAppend(a: seq<Tree>, b: seq<Tree>)
    ensures QueueBag(a + b) == QueueBag(a) + QueueBag(b)
    decreases |b|
  {
    if |b| > 0 {
      var n := |b| - 1;
      assert (a + b)[..|a + b| - 1] == a + b[..n];
      QueueBagAppend(a, b[..n]);
    } else {
      assert a + b == a;
    }
  }

  /** The seeded queue holds one leaf per entry. */
  lemma {:induction false} SeedBag(t: Table)
    ensures QueueBag(Seed(t)) == multiset(t)
    ensures forall q :: q in Seed(t) ==> q.Leaf? && WellWeighted(q)
  {
    if |t| > 0 {
      var n := |t| - 1;
      var s, e := Seed(t), t[n];
      SeedBag(t[..n]);
      assert s[..n] == Seed(t[..n]) && s[n] == Leaf(e.sym, e.count);
      assert LeafBag(s[n]) == multiset{e};
      MultisetSnoc(t);
    }
  }

  /** Merging preserves the leaves of the queue and keeps every tree in it
      well weighted. */
  lemma {:induction false} MergeAllSpec(q: seq<Tree>)
    requires forall t :: t in q ==> WellWeighted(t)
    ensures QueueBag(MergeAll(q)) == QueueBag(q)
    ensures forall t :: t in MergeAll(q) ==> WellWeighted(t)
    decreases |q|
  {
    if |q| > 1 {
      MergeStepBag(q);
      MergeStepWeighted(q);
      MergeAllSpec(MergeStep(q));
    }
  }

  lemma {:induction false} InternalCountSpec(t: Tree)
    ensures InternalCount(t) + 1 == LeafCount(t) == |LeafBag(t)|
  {
    match t
    case Leaf(_, _) =>
    case Node(l, r, _) =>
      InternalCountSpec(l);
      InternalCountSpec(r);
  }

  /** The build fails exactly on an empty table (the final `Dequeue` throws);
      otherwise its leaves are exactly the table's entries, each symbol
      carrying its count, every internal node weighs the sum of its children,
      and n entries give n leaves joined by n - 1 merges. */
  lemma BuildSpec(t: Table)
    ensures Build(t).Failure? <==> |t| == 0
    ensures Build(t).Failure? ==> Build(t).error == EmptyQueue
    ensures Build(t).Success? ==>
              && LeafBag(Build(t).value) == multiset(t)
              && WellWeighted(Build(t).value)
              && LeafCount(Build(t).value) == |t|
              && InternalCount(Build(t).value) == |t| - 1
  {
    SeedBag(t);
    MergeAllSpec(Seed(t));
    var r := MergeAll(Seed(t));
    if |t| > 0 {
      assert r == [r[0]];
      assert QueueBag(r) == LeafBag(r[0]);
      assert Build(t) == Success(r[0]);
      InternalCountSpec(r[0]);
    }
  }

  /** One entry gives a single leaf; no merge runs. */
  lemma BuildSingle(e: Entry)
    ensures Build([e]) == Success(Leaf(e.sym, e.count))
  {
  }

  // ---- Distinct symbols in the table give distinct leaf symbols ----

  /** No two elements of the bag share a symbol, and none is repeated. */
  ghost predicate UniqueSyms(bag: multiset<Entry>) {
    forall e, f :: e in bag && f in bag && e.sym == f.sym ==> e == f && bag[e] == 1
  }

  lemma {:induction false} DistinctTableUnique(t: Table)
    requires DistinctSymbols(t)
    ensures UniqueSyms(multiset(t))
  {
    if |t| > 0 {
      var n := |t| - 1;
      DistinctTableUnique(t[..n]);
      assert t == t[..n] + [t[n]];
      forall e | e in multiset(t[..n]) ensures e.sym != t[n].sym {
        var i :| 0 <= i < n && t[..n][i] == e;
        assert t[i] == e;
      }
    }
  }

  lemma {:induction false} SymsOfBag(t: Tree, s: byte)
    ensures s in Syms(t) <==> exists e :: e in LeafBag(t) && e.sym == s
  {
    match t
    case Leaf(_, _) =>
    case Node(l, r, _) =>
      SymsOfBag(l, s);
      SymsOfBag(r, s);
  }

  lemma {:induction false} UniqueSymsDistinctLeaves(t: Tree)
    requires UniqueSyms(LeafBag(t))
    ensures DistinctLeaves(t)
  {
    match t
    case Leaf(_, _) =>
    case Node(l, r, _) =>
      var bag := LeafBag(t);
      assert UniqueSyms(LeafBag(l)) by {
        forall e, f | e in LeafBag(l) && f in LeafBag(l) && e.sym == f.sym
          ensures e == f && LeafBag(l)[e] == 1
        {
          assert e in bag && f in bag;
        }
      }
      assert UniqueSyms(LeafBag(r)) by {
        forall e, f | e in LeafBag(r) && f in LeafBag(r) && e.sym == f.sym
          ensures e == f && LeafBag(r)[e] == 1
        {
          assert e in bag && f in bag;
        }
      }
      UniqueSymsDistinctLeaves(l);
      UniqueSymsDistinctLeaves(r);
      forall s | s in Syms(l) ensures s !in Syms(r) {
        SymsOfBag(l, s);
        SymsOfBag(r, s);
      }
  }

  /** A table with distinct symbols (every table the source can build from)
      gives a tree whose leaves carry distinct symbols, the table's. */
  lemma BuildDistinctLeaves(t: Table)
    requires DistinctSymbols(t)
    requires Build(t).Success?
    ensures DistinctLeaves(Build(t).value)
    ensures forall s :: s in Syms(Build(t).value) <==> s in Symbols(t)
  {
    BuildSpec(t);
    var root := Build(t).value;
    DistinctTableUnique(t);
    UniqueSymsDistinctLeaves(root);
    forall s ensures s in Syms(root) <==> s in Symbols(t) {
      SymsOfBag(root, s);
      if s in Symbols(t) {
        var i :| 0 <= i < |t| && t[i].sym == s;
        assert t[i] in multiset(t);
      }
      if s in Syms(root) {
        var e :| e in LeafBag(root) && e.sym == s;
        assert e in t;
      }
    }
  }
}
