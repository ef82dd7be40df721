/**
  The ledger of collected clues: an unbalanced binary search tree ordered by
  `strcmp`. `Tree` is the value a ledger stands for; `ClueNode` is the
  pointer structure the program builds and updates in place.
*/
module ClueLedger {
  import opened CString

  datatype Tree = Empty | Node(left: Tree, clue: CStr, right: Tree)

  /** The set of clues stored in a tree. */
  function Elems(t: Tree): set<CStr> {
    match t
    case Empty => {}
    case Node(l, c, r) => Elems(l) + {c} + Elems(r)
  }

  /** The number of nodes of a tree. */
  function Size(t: Tree): nat {
    match t
    case Empty => 0
    case Node(l, _, r) => Size(l) + 1 + Size(r)
  }

  /** Every clue of the left subtree is below the node's clue, every clue of the right subtree above it. */
  predicate IsBst(t: Tree) {
    match t
    case Empty => true
    case Node(l, c, r) =>
      && IsBst(l) && IsBst(r)
      && (forall x :: x in Elems(l) ==> Less(x, c))
      && (forall x :: x in Elems(r) ==> Less(c, x))
  }

  predicate StrictlyAscending(s: seq<CStr>) {
    forall i, j :: 0 <= i < j < |s| ==> Less(s[i], s[j])
  }

  /** The clues in the order the in-order listing prints them. */
  function InOrder(t: Tree): (s: seq<CStr>)
    ensures |s| == Size(t)
    ensures forall x :: x in s <==> x in Elems(t)
  {
    match t
    case Empty => []
    case Node(l, c, r) => InOrder(l) + [c] + InOrder(r)
  }

  /**
    Insertion of a clue. An empty clue leaves the tree as it is; a clue equal
    to a node's clue stops the descent; otherwise the clue goes left when it
    compares below the node's clue and right when above.
  */
  function Insert(t: Tree, p: CStr): (r: Tree)
    ensures Elems(r) == if p == [] then Elems(t) else Elems(t) + {p}
    ensures p == [] ==> r == t
    ensures p != [] ==> r != Empty
  {
    if p == [] then t
    else match t
      case Empty => Node(Empty, p, Empty)
      case Node(l, c, r) =>
        var cmp := Strcmp(p, c);
        if cmp == 0 then t
        else if cmp < 0 then Node(Insert(l, p), c, r)
        else Node(l, c, Insert(r, p))
  }

  /** The ledger after the clues of `ps` are inserted one after another. */
  function InsertAll(t: Tree, ps: seq<CStr>): Tree
    decreases |ps|
  {
    if ps == [] then t else InsertAll(Insert(t, ps[0]), ps[1..])
  }

  /** The distinct non-empty strings of `ps`. */
  function NonEmpty(ps: seq<CStr>): set<CStr> {
    set p | p in ps && p != []
  }

  /** Inserting a clue that is already stored gives back the same tree. */
  lemma {:induction false} InsertPresent(t: Tree, p: CStr)
    requires IsBst(t) && p in Elems(t)
    ensures Insert(t, p) == t
  {
    match t
    case Node(l, c, r) =>
      if p in Elems(l) {
        InsertPresent(l, p);
      } else if p in Elems(r) {
        LessTrichotomy(c, p);
        InsertPresent(r, p);
      }
  }

  /** Insertion is idempotent on every tree: the second insertion follows the path of the first and stops at the clue it placed. */
  lemma {:induction false} InsertIdempotent(t: Tree, p: CStr)
    ensures Insert(Insert(t, p), p) == Insert(t, p)
  {
    match t
    case Empty =>
    case Node(l, c, r) =>
      if p != [] {
        if Strcmp(p, c) < 0 {
          InsertIdempotent(l, p);
        } else if Strcmp(p, c) > 0 {
          InsertIdempotent(r, p);
        }
      }
  }

  lemma {:induction false} InsertKeepsBst(t: Tree, p: CStr)
    requires IsBst(t)
    ensures IsBst(Insert(t, p))
  {
    if p != [] {
      match t
      case Empty =>
      case Node(l, c, r) =>
        LessTrichotomy(p, c);
        if Strcmp(p, c) < 0 {
          InsertKeepsBst(l, p);
        } else if Strcmp(p, c) > 0 {
          InsertKeepsBst(r, p);
        }
    }
  }

  /** The in-order listing of a search tree is strictly ascending, so it holds no clue twice. */
  lemma {:induction false} InOrderAscending(t: Tree)
    requires IsBst(t)
    ensures StrictlyAscending(InOrder(t))
  {
    match t
    case Empty =>
    case Node(l, c, r) =>
      InOrderAscending(l);
      InOrderAscending(r);
      var sl, sr := InOrder(l), InOrder(r);
      var s := sl + [c] + sr;
      forall i, j | 0 <= i < j < |s| ensures Less(s[i], s[j]) {
        if j < |sl| {
          assert s[i] == sl[i] && s[j] == sl[j];
        } else if i > |sl| {
          assert s[i] == sr[i - |sl| - 1] && s[j] == sr[j - |sl| - 1];
        } else if i == |sl| {
          assert s[j] == sr[j - |sl| - 1];
          assert s[j] in Elems(r);
        } else if j == |sl| {
          assert s[i] == sl[i];
          assert s[i] in Elems(l);
        } else {
          assert s[i] == sl[i] && s[j] == sr[j - |sl| - 1];
          assert s[i] in Elems(l) && s[j] in Elems(r);
          LessTransitive(s[i], c, s[j]);
        }
      }
  }

  /** In a search tree the node's clue and the clues of its two subtrees are pairwise distinct. */
  lemma BstPartsDisjoint(l: Tree, c: CStr, r: Tree)
    requires IsBst(Node(l, c, r))
    ensures c !in Elems(l) && c !in Elems(r) && Elems(l) !! Elems(r)
  {
    forall x | x in Elems(l) ensures x != c && x !in Elems(r) {
      LessTrichotomy(x, c);
      if x in Elems(r) {
        LessTrichotomy(c, x);
      }
    }
    forall x | x in Elems(r) ensures x != c {
      LessTrichotomy(c, x);
    }
  }

  /** No clue occurs in two nodes of the tree. */
  predicate NoDuplicates(t: Tree) {
    match t
    case Empty => true
    case Node(l, c, r) =>
      && NoDuplicates(l) && NoDuplicates(r)
      && c !in Elems(l) && c !in Elems(r) && Elems(l) !! Elems(r)
  }

  lemma {:induction false} BstHasNoDuplicates(t: Tree)
    requires IsBst(t)
    ensures NoDuplicates(t)
  {
    match t
    case Empty =>
    case Node(l, c, r) =>
      BstHasNoDuplicates(l);
      BstHasNoDuplicates(r);
      BstPartsDisjoint(l, c, r);
  }

  /** A tree without duplicates has as many nodes as distinct clues. */
  lemma {:induction false} SizeIsCardinality(t: Tree)
    requires NoDuplicates(t)
    ensures Size(t) == |Elems(t)|
  {
    match t
    case Empty =>
    case Node(l, c, r) =>
      SizeIsCardinality(l);
      SizeIsCardinality(r);
      DisjointUnionSize(Elems(l), {c});
      DisjointUnionSize(Elems(l) + {c}, Elems(r));
  }

  lemma DisjointUnionSize(a: set<CStr>, b: set<CStr>)
    requires a !! b
    ensures |a + b| == |a| + |b|
  {
    if a != {} {
      var x :| x in a;
      DisjointUnionSize(a - {x}, b);
      assert (a - {x}) + b == (a + b) - {x};
    }
  }

  /**
    Deduplication: after any sequence of insertions into an empty ledger the
    ledger is a search tree and holds exactly the distinct non-empty strings
    inserted, one node each, whatever the order and the repeats.
  */
  lemma {:induction false} InsertAllStoresDistinct(ps: seq<CStr>)
    ensures IsBst(InsertAll(Empty, ps))
    ensures Elems(InsertAll(Empty, ps)) == NonEmpty(ps)
    ensures Size(InsertAll(Empty, ps)) == |NonEmpty(ps)|
  {
    InsertAllFrom(Empty, ps);
    BstHasNoDuplicates(InsertAll(Empty, ps));
    SizeIsCardinality(InsertAll(Empty, ps));
  }

  lemma {:induction false} InsertAllFrom(t: Tree, ps: seq<CStr>)
    requires IsBst(t)
    ensures IsBst(InsertAll(t, ps))
    ensures Elems(InsertAll(t, ps)) == Elems(t) + NonEmpty(ps)
    decreases |ps|
  {
    if ps != [] {
      InsertKeepsBst(t, ps[0]);
      InsertAllFrom(Insert(t, ps[0]), ps[1..]);
      NonEmptyCons(ps);
    }
  }

  lemma NonEmptyCons(ps: seq<CStr>)
    requires ps != []
    ensures NonEmpty(ps) == (if ps[0] == [] then {} else {ps[0]}) + NonEmpty(ps[1..])
  {
    assert ps == [ps[0]] + ps[1..];
  }

  /** One node of the ledger as the program allocates it. */
  class ClueNode {
    const clue: CStr
    var left: ClueNode?
    var right: ClueNode?
    /** The nodes of the subtree rooted here. */
    ghost var Repr: set<ClueNode>
    /** The tree value of the subtree rooted here. */
    ghost var Model: Tree

    ghost predicate Valid()
      reads this, Repr
      decreases Repr
    {
      && this in Repr
      && (left != null ==>
            left in Repr && left.Repr <= Repr && this !in left.Repr && left.Valid())
      && (right != null ==>
            right in Repr && right.Repr <= Repr && this !in right.Repr && right.Valid())
      && (left != null && right != null ==> left.Repr !! right.Repr)
      && Model == Node(ModelOf(left), clue, ModelOf(right))
    }

    /** A leaf holding clue `p`, as the allocation of a new node does it. */
    constructor Leaf(p: Clue)
      ensures Valid() && fresh(Repr)
      ensures clue == p && left == null && right == null
      ensures Model == Node(Empty, p, Empty)
    {
      clue, left, right := p, null, null;
      Repr := {this};
      Model := Node(Empty, p, Empty);
    }

    /**
      Insertion of the non-empty clue `p` below this node: the recursive
      case of the ledger insertion, which writes the child pointer it
      descends into.
    */
    method Add(p: Clue)
      requires Valid() && p != []
      modifies Repr
      ensures Valid()
      ensures Model == Insert(old(Model), p)
      ensures fresh(Repr - old(Repr))
      decreases Repr
    {
      var cmp := Strcmp(p, clue);
      if cmp < 0 {
        if left == null {
          left := new ClueNode.Leaf(p);
        } else {
          left.Add(p);
        }
        Repr := Repr + left.Repr;
        Model := Node(left.Model, clue, ModelOf(right));
      } else if cmp > 0 {
        if right == null {
          right := new ClueNode.Leaf(p);
        } else {
          right.Add(p);
        }
        Repr := Repr + right.Repr;
        Model := Node(ModelOf(left), clue, right.Model);
      }
    }

    /**
      Insertion into the ledger rooted at `root`: an empty clue changes
      nothing, an empty ledger gets a new root, and otherwise the root stays
      and the clue is added below it.
    */
    static method InsertClue(root: ClueNode?, p: Clue) returns (r: ClueNode?)
      requires Ledger(root)
      modifies Footprint(root)
      ensures Ledger(r)
      ensures ModelOf(r) == Insert(old(ModelOf(root)), p)
      ensures root != null ==> r == root
      ensures fresh(Footprint(r) - old(Footprint(root)))
    {
      if p == [] {
        return root;
      }
      if root == null {
        r := new ClueNode.Leaf(p);
        return;
      }
      root.Add(p);
      r := root;
    }
  }

  ghost function Footprint(n: ClueNode?): set<ClueNode>
    reads n
  {
    if n == null then {} else n.Repr
  }

  /** `n` is the root of a well-formed ledger; `null` is the empty ledger. */
  ghost predicate Ledger(n: ClueNode?)
    reads n, Footprint(n)
  {
    n != null ==> n.Valid()
  }

  ghost function ModelOf(n: ClueNode?): Tree
    reads n
  {
    if n == null then Empty else n.Model
  }
}
