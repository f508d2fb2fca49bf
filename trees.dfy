/**
 * Translation trees (`NextLocTypes.Internal.Reference`, source/types/index.d.ts:17-19), the
 * segment-by-segment walk both resolvers perform, and the right-priority deep merge the
 * dictionary compiler builds with `createMerger({ priority: "right" })`.
 */
module Trees {

  /** A translation tree: a string, or an object whose values are strings or trees. */
  datatype Reference = Leaf(text: string) | Node(children: map<string, Reference>)

  /** An object of translation trees: a `LocaleDictionary` (namespace -> tree) is one. */
  type Tree = map<string, Reference>

  /**
   * Where a walk ends: on a node, at a key the current object lacks (`Missing`), or
   * on a string it was asked to descend into (`Blocked`).
   */
  datatype Step = Reached(node: Reference) | Missing | Blocked

  /** Follows `path` from `t` one key at a time, as the resolvers' `for` loop does. */
  function Walk(t: Reference, path: seq<string>): Step
    decreases |path|
  {
    if path == [] then Reached(t)
    else match t
      case Leaf(_) => Blocked
      case Node(c) => if path[0] in c then Walk(c[path[0]], path[1..]) else Missing
  }

  /** Walking `p + q` is walking `p` and then, from where that ends, walking `q`. */
  lemma {:induction false} WalkConcat(t: Reference, p: seq<string>, q: seq<string>)
    ensures Walk(t, p + q) == match Walk(t, p)
                              case Reached(n) => Walk(n, q)
                              case other => other
    decreases |p|
  {
    if p != [] {
      assert (p + q)[0] == p[0] && (p + q)[1..] == p[1..] + q;
      if t.Node? && p[0] in t.children {
        WalkConcat(t.children[p[0]], p[1..], q);
      }
    } else {
      assert p + q == q;
    }
  }

  /**
   * The deep merge with right priority: where both sides are objects their keys are
   * merged one by one; anywhere else the overlay replaces the base outright.
   */
  function Merge(base: Reference, overlay: Reference): (r: Reference)
    ensures r.Node? == overlay.Node?
    decreases base
  {
    if base.Node? && overlay.Node? then
      Node(map k | k in base.children.Keys + overlay.children.Keys ::
        if k in base.children && k in overlay.children then Merge(base.children[k], overlay.children[k])
        else if k in overlay.children then overlay.children[k]
        else base.children[k])
    else overlay
  }

  /** `merger(base, overlay)` on two objects, such as two locale dictionaries. */
  function MergeTrees(base: Tree, overlay: Tree): (r: Tree)
    ensures r.Keys == base.Keys + overlay.Keys
    ensures forall k :: k in overlay && (k !in base || !base[k].Node? || !overlay[k].Node?) ==> r[k] == overlay[k]
    ensures forall k :: k in base && k !in overlay ==> r[k] == base[k]
    ensures forall k :: k in base && k in overlay ==> r[k] == Merge(base[k], overlay[k])
  {
    var r := Merge(Node(base), Node(overlay)).children;
    assert forall k :: k in base && k in overlay && (!base[k].Node? || !overlay[k].Node?) ==>
      Merge(base[k], overlay[k]) == overlay[k];
    r
  }

  /** Merging an empty object over a tree changes nothing. */
  lemma MergeTreesEmpty(base: Tree)
    ensures MergeTrees(base, map[]) == base
  {
    var r := MergeTrees(base, map[]);
    assert forall k :: k in r ==> r[k] == base[k];
  }

  /** Strings laid over every key of the base replace it outright. */
  lemma MergeTreesOverLeaves(base: Tree, overlay: Tree)
    requires base.Keys <= overlay.Keys
    requires forall k :: k in overlay ==> overlay[k].Leaf?
    ensures MergeTrees(base, overlay) == overlay
  {
    var r := MergeTrees(base, overlay);
    assert r.Keys == overlay.Keys;
    assert forall k :: k in r ==> r[k] == overlay[k];
  }

  /** Merging two objects gives an object: the one `MergeTrees` returns. */
  lemma MergeTreesNode(base: Tree, overlay: Tree)
    ensures Node(MergeTrees(base, overlay)) == Merge(Node(base), Node(overlay))
  {
  }

  /**
   * What a walk of a merged tree finds, in terms of the walks of its two sides:
   * the overlay decides wherever it reaches or is blocked; where it is missing,
   * the base shows through.
   */
  lemma {:induction false} MergeWalk(b: Reference, o: Reference, p: seq<string>)
    ensures Walk(o, p).Reached? ==>
      Walk(Merge(b, o), p) == Reached(if Walk(b, p).Reached? then Merge(Walk(b, p).node, Walk(o, p).node) else Walk(o, p).node)
    ensures Walk(o, p).Blocked? ==> Walk(Merge(b, o), p).Blocked?
    ensures Walk(o, p).Missing? && Walk(b, p).Reached? ==> Walk(Merge(b, o), p) == Walk(b, p)
    ensures Walk(o, p).Missing? && !Walk(b, p).Reached? ==> !Walk(Merge(b, o), p).Reached?
    ensures Walk(o, p).Missing? && Walk(b, p).Missing? ==> Walk(Merge(b, o), p).Missing?
    decreases |p|
  {
    if p != [] && b.Node? && o.Node? {
      var k := p[0];
      if k in b.children && k in o.children {
        MergeWalk(b.children[k], o.children[k], p[1..]);
      }
    }
  }

  /**
   * Right bias at the leaves: a merged tree holds the string `s` at `p` exactly when the
   * overlay holds it there, or the overlay has nothing on that path and the base holds it.
   */
  lemma MergeLeaf(b: Reference, o: Reference, p: seq<string>, s: string)
    ensures Walk(Merge(b, o), p) == Reached(Leaf(s)) <==>
      (Walk(o, p) == Reached(Leaf(s)) || (Walk(o, p).Missing? && Walk(b, p) == Reached(Leaf(s))))
  {
    MergeWalk(b, o, p);
  }

  /** Walking a merged object from its root is walking the `Node` of the two objects. */
  lemma MergeTreesLeaf(b: Tree, o: Tree, p: seq<string>, s: string)
    ensures Walk(Node(MergeTrees(b, o)), p) == Reached(Leaf(s)) <==>
      (Walk(Node(o), p) == Reached(Leaf(s)) || (Walk(Node(o), p).Missing? && Walk(Node(b), p) == Reached(Leaf(s))))
  {
    MergeTreesNode(b, o);
    MergeLeaf(Node(b), Node(o), p, s);
  }

  /** Merging a tree into itself changes nothing. */
  lemma {:induction false} MergeSelf(x: Reference)
    ensures Merge(x, x) == x
    decreases x
  {
    if x.Node? {
      forall k | k in x.children
        ensures Merge(x.children[k], x.children[k]) == x.children[k]
      {
        MergeSelf(x.children[k]);
      }
      assert Merge(x, x).children == x.children;
    }
  }

  /** Laying the same base under a tree twice is the same as laying it once. */
  lemma {:induction false} MergeAbsorb(a: Reference, b: Reference)
    ensures Merge(a, Merge(a, b)) == Merge(a, b)
    decreases a
  {
    if a.Node? && b.Node? {
      var m := Merge(a, b);
      forall k | k in a.children
        ensures Merge(a.children[k], m.children[k]) == m.children[k]
      {
        if k in b.children {
          MergeAbsorb(a.children[k], b.children[k]);
        } else {
          MergeSelf(a.children[k]);
        }
      }
      assert Merge(a, m).children == m.children;
    }
  }

  /** `MergeAbsorb` for objects. */
  lemma MergeTreesAbsorb(a: Tree, b: Tree)
    ensures MergeTrees(a, MergeTrees(a, b)) == MergeTrees(a, b)
  {
    MergeAbsorb(Node(a), Node(b));
  }

  /**
   * The merge is not associative: a string in the middle hides the base's keys from the
   * grouping on the right but not from the grouping on the left. So the order in which the
   * compiler nests its merges matters, and the model keeps it.
   */
  lemma MergeNotAssociative()
    ensures var a, b, c := Node(map["x" := Leaf("1")]), Leaf("s"), Node(map["y" := Leaf("2")]);
      Merge(a, Merge(b, c)) != Merge(Merge(a, b), c)
  {
    var a, b, c := Node(map["x" := Leaf("1")]), Leaf("s"), Node(map["y" := Leaf("2")]);
    assert "x" in Merge(a, Merge(b, c)).children;
    assert "x" !in Merge(Merge(a, b), c).children;
  }
}
