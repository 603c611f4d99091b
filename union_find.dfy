/** The union-find forest of the labeller: an arena of parent indices that
    grows by one entry per fresh label, with path halving in `Find` and
    union by arbitrary root choice in `Unite`. */
module UnionFind {

  /** The forest invariant on plain values: parent links stay in the table,
      `root` names for every node the root its links lead to, and the ghost
      `rank` grows strictly along every link, which bounds every path. */
  ghost predicate WellLinked(parent: seq<int>, root: seq<int>, rank: seq<nat>, maxRank: nat)
  {
    |root| == |parent| && |rank| == |parent| &&
    (forall i :: 0 <= i < |parent| ==> 0 <= parent[i] < |parent| && 0 <= root[i] < |parent|) &&
    (forall i {:trigger root[i]} :: 0 <= i < |parent| ==> parent[root[i]] == root[i]) &&
    (forall i {:trigger root[parent[i]]} :: 0 <= i < |parent| ==> root[parent[i]] == root[i]) &&
    (forall i {:trigger root[i]} :: 0 <= i < |parent| && parent[i] == i ==> root[i] == i) &&
    (forall i :: 0 <= i < |parent| && parent[i] != i ==> rank[i] < rank[parent[i]]) &&
    (forall i :: 0 <= i < |parent| ==> rank[i] <= maxRank)
  }

  /** Re-linking a non-root node to its grandparent keeps the invariant and every root. */
  lemma HalvingKeepsForest(parent: seq<int>, root: seq<int>, rank: seq<nat>, maxRank: nat, a: int)
    requires WellLinked(parent, root, rank, maxRank) && 0 <= a < |parent| && parent[a] != a
    ensures WellLinked(parent[a := parent[parent[a]]], root, rank, maxRank)
    ensures rank[a] < rank[parent[parent[a]]]
  {
    var p := parent[a];
    var gp := parent[p];
    var parent' := parent[a := gp];
    forall i | 0 <= i < |parent'| ensures parent'[root[i]] == root[i] {
      assert root[i] != a by { assert parent[root[i]] == root[i]; }
    }
    forall i | 0 <= i < |parent'| && parent'[i] != i ensures rank[i] < rank[parent'[i]] {
      if i == a {
        if gp != p { assert rank[p] < rank[gp]; }
      }
    }
  }

  /** Roots after the set of root `from` joins the set of root `to`. */
  function Relabel(root: seq<int>, from: int, to: int): (r: seq<int>)
    ensures |r| == |root| && forall i :: 0 <= i < |root| ==> r[i] == if root[i] == from then to else root[i]
  {
    seq(|root|, i requires 0 <= i < |root| => if root[i] == from then to else root[i])
  }

  /** Linking root rb under root ra keeps the invariant once ra's rank exceeds rb's. */
  lemma LinkKeepsForest(parent: seq<int>, root: seq<int>, rank: seq<nat>, maxRank: nat, ra: int, rb: int)
    requires WellLinked(parent, root, rank, maxRank)
    requires 0 <= ra < |parent| && 0 <= rb < |parent| && ra != rb
    requires parent[ra] == ra && parent[rb] == rb
    ensures var up := if rank[ra] > rank[rb] then rank[ra] else rank[rb] + 1;
      WellLinked(parent[rb := ra], Relabel(root, rb, ra), rank[ra := up], if maxRank < up then up else maxRank)
  {
    var up := if rank[ra] > rank[rb] then rank[ra] else rank[rb] + 1;
    var parent' := parent[rb := ra];
    var root' := Relabel(root, rb, ra);
    var rank' := rank[ra := up];
    assert root[ra] == ra && root[rb] == rb;
    forall i | 0 <= i < |parent'| ensures root'[parent'[i]] == root'[i] {
      if i != rb { assert root[parent[i]] == root[i]; }
    }
    forall i | 0 <= i < |parent'| && parent'[i] != i ensures rank'[i] < rank'[parent'[i]] {
      if i != rb { assert rank[i] < rank[parent[i]]; }
    }
  }

  class Forest {
    /** parent[i] is the parent of label i; a root is its own parent. */
    var parent: seq<int>
    /** root[i] is the root reached from i by following parent links. */
    ghost var root: seq<int>
    ghost var rank: seq<nat>
    ghost var maxRank: nat

    ghost predicate Valid()
      reads this
    {
      WellLinked(parent, root, rank, maxRank)
    }

    /** `i` is a root of the forest. */
    ghost predicate IsRoot(i: int)
      reads this
    {
      0 <= i < |parent| && parent[i] == i
    }

    /** The table starts as [0, 1]: label 0 (background) and the pre-allocated
        label 1, each its own root. */
    constructor ()
      ensures Valid()
      ensures parent == [0, 1] && root == [0, 1]
    {
      parent := [0, 1];
      root := [0, 1];
      rank := [0, 0];
      maxRank := 0;
    }

    /** Register label `l`, the next index of the table, as a new singleton set. */
    method MakeSet(l: int)
      requires Valid() && l == |parent|
      modifies this
      ensures Valid()
      ensures parent == old(parent) + [l] && root == old(root) + [l]
    {
      parent := parent + [l];
      root := root + [l];
      rank := rank + [0];
    }

    /** Follow parent links to the root, halving the path on the way: every
        visited node is re-linked to its grandparent. No node changes root. */
    method Find(a0: int) returns (r: int)
      requires Valid() && 0 <= a0 < |parent|
      modifies this
      ensures |parent| == old(|parent|) && root == old(root)
      ensures Valid() && r == root[a0] && IsRoot(r)
    {
      var a := a0;
      while parent[a] != a
        invariant |parent| == old(|parent|) && root == old(root)
        invariant Valid() && 0 <= a < |parent|
        invariant root[a] == root[a0]
        invariant rank == old(rank) && maxRank == old(maxRank)
        decreases maxRank - rank[a]
      {
        HalvingKeepsForest(parent, root, rank, maxRank, a);
        var gp := parent[parent[a]];
        parent := parent[a := gp];
        a := gp;
      }
      r := a;
    }

    /** Join the sets of `a` and `b`: the root of `b` is linked under the root
        of `a`. Every member of b's set now has a's root; nothing else moves. */
    method Unite(a: int, b: int)
      requires Valid() && 0 <= a < |parent| && 0 <= b < |parent|
      modifies this
      ensures |parent| == old(|parent|) && |root| == |parent|
      ensures Valid() && root[a] == root[b] && root[a] == old(root[a])
      ensures forall i :: 0 <= i < |root| ==>
        root[i] == if old(root[i]) == old(root[b]) then old(root[a]) else old(root[i])
    {
      var ra := Find(a);
      var rb := Find(b);
      if ra != rb {
        Link(ra, rb);
      }
    }

    /** The link step of Unite: root `rb` becomes a child of root `ra`. */
    method Link(ra: int, rb: int)
      requires Valid() && IsRoot(ra) && IsRoot(rb) && ra != rb
      modifies this
      ensures Valid() && parent == old(parent)[rb := ra] && root == Relabel(old(root), rb, ra)
    {
      LinkKeepsForest(parent, root, rank, maxRank, ra, rb);
      var up := if rank[ra] > rank[rb] then rank[ra] else rank[rb] + 1;
      parent := parent[rb := ra];
      root, rank, maxRank := Relabel(root, rb, ra), rank[ra := up], if maxRank < up then up else maxRank;
    }
  }
}
