/** Code generation: `HuffmanTree.GenerateCodes`. A code is a sequence of
    bits, `false` for the source's '0' (left edge) and `true` for its '1'
    (right edge). */
module CodeTable {
  import opened Bytes
  import opened HuffmanTree

  type Code = seq<bool>

  /** The depth-first walk from `t` with the path accumulated so far. The left
      subtree is walked first, so on a repeated symbol the right one's
      assignment (the later `codes[c] = currentCode`) wins, as `+` on maps does. */
  function Codes(t: Tree, prefix: Code): map<byte, Code> {
    match t
    case Leaf(s, _) => map[s := prefix]
    case Node(l, r, _) => Codes(l, prefix + [false]) + Codes(r, prefix + [true])
  }

  /** The code table of a whole tree: `GenerateCodes(_root, "", codes)`. */
  function CodesOf(t: Tree): map<byte, Code> {
    Codes(t, [])
  }

  /** Following `path` from the root of `t` (left on `false`, right on `true`)
      ends at a leaf holding `s`. The length of `path` is that leaf's depth. */
  predicate LeafAt(t: Tree, path: Code, s: byte)
    decreases path
  {
    if |path| == 0 then t.Leaf? && t.sym == s
    else t.Node? && LeafAt(if path[0] then t.right else t.left, path[1..], s)
  }

  /** Every symbol of the tree gets a code, and each code is the accumulated
      prefix followed by the root-to-leaf path of a leaf holding that symbol. */
  lemma {:induction false} CodesArePaths(t: Tree, prefix: Code)
    ensures Codes(t, prefix).Keys == Syms(t)
    ensures forall s :: s in Codes(t, prefix) ==>
              && prefix <= Codes(t, prefix)[s]
              && LeafAt(t, Codes(t, prefix)[s][|prefix|..], s)
  {
    match t
    case Leaf(s, _) =>
      assert Codes(t, prefix)[s][|prefix|..] == [];
    case Node(l, r, _) =>
      var pl, pr := prefix + [false], prefix + [true];
      CodesArePaths(l, pl);
      CodesArePaths(r, pr);
      var c := Codes(t, prefix);
      forall s | s in c
        ensures prefix <= c[s] && LeafAt(t, c[s][|prefix|..], s)
      {
        var p := c[s];
        if s in Codes(r, pr) {
          assert p == Codes(r, pr)[s];
          assert p[|prefix|..][1..] == p[|pr|..];
          assert p[|prefix|] == true;
        } else {
          assert p == Codes(l, pl)[s];
          assert p[|prefix|..][1..] == p[|pl|..];
          assert p[|prefix|] == false;
        }
      }
  }

  /** A path that reaches a leaf cannot be extended to reach another one. */
  lemma {:induction false} LeafPathsPrefixFree(t: Tree, p: Code, s: byte, q: Code, s': byte)
    requires LeafAt(t, p, s) && LeafAt(t, q, s')
    requires p <= q
    ensures p == q && s == s'
    decreases p
  {
    if |p| > 0 {
      assert q[0] == p[0];
      assert p[1..] <= q[1..];
      LeafPathsPrefixFree(if p[0] then t.right else t.left, p[1..], s, q[1..], s');
    }
  }

  /** The code table maps each symbol of the tree to the path of a leaf
      holding it, its length that leaf's depth, and it is prefix-free: no two
      symbols share a code and no code is a prefix of another. */
  lemma CodesOfSpec(t: Tree)
    ensures CodesOf(t).Keys == Syms(t)
    ensures forall s :: s in CodesOf(t) ==> LeafAt(t, CodesOf(t)[s], s)
    ensures forall s, s' :: s in CodesOf(t) && s' in CodesOf(t) && s != s' ==>
              !(CodesOf(t)[s] <= CodesOf(t)[s'])
  {
    var c := CodesOf(t);
    CodesArePaths(t, []);
    forall s | s in c ensures LeafAt(t, c[s], s) {
      assert c[s][0..] == c[s];
    }
    forall s, s' | s in c && s' in c && s != s' ensures !(c[s] <= c[s']) {
      if c[s] <= c[s'] {
        LeafPathsPrefixFree(t, c[s], s, c[s'], s');
      }
    }
  }

  /** A tree that is a single leaf gives its symbol the empty code. */
  lemma SingleLeafCode(s: byte, w: int)
    ensures CodesOf(Leaf(s, w)) == map[s := []]
  {
  }
}
