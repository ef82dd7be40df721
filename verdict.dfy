/**
  The verdict on an accusation: count the collected clues whose indexed
  suspect is exactly the accused name, and convict on two or more.
*/
module Verdict {
  import opened CString
  import opened Wrappers
  import opened ClueLedger
  import opened SuspectIndex
  import opened Explorer

  /** Least number of matching clues that convicts. */
  const THRESHOLD := 2

  /** The number of nodes of `t` whose clue the index attributes to `accused`, counted left, node, right. */
  function Count(t: Tree, index: map<CStr, CStr>, accused: CStr): (n: nat)
    ensures n <= Size(t)
    ensures t == Empty ==> n == 0
  {
    match t
    case Empty => 0
    case Node(l, c, r) =>
      Count(l, index, accused) + (if Get(index, c) == Some(accused) then 1 else 0) + Count(r, index, accused)
  }

  /** The clues of `clues` that the index attributes to `accused`. */
  function Matching(clues: set<CStr>, index: map<CStr, CStr>, accused: CStr): set<CStr> {
    set c | c in clues && Get(index, c) == Some(accused)
  }

  lemma MatchingUnion(a: set<CStr>, b: set<CStr>, index: map<CStr, CStr>, accused: CStr)
    ensures Matching(a + b, index, accused) == Matching(a, index, accused) + Matching(b, index, accused)
    ensures Matching(a, index, accused) <= a
  {
  }

  /** Splitting the clue set of a node without duplicates splits the matching clues. */
  lemma MatchingSplit(el: set<CStr>, c: CStr, er: set<CStr>, index: map<CStr, CStr>, accused: CStr)
    requires el !! er && c !in el && c !in er
    ensures |Matching(el + {c} + er, index, accused)|
         == |Matching(el, index, accused)| + (if Get(index, c) == Some(accused) then 1 else 0)
            + |Matching(er, index, accused)|
  {
    var ml, mr := Matching(el, index, accused), Matching(er, index, accused);
    var mc := Matching({c}, index, accused);
    MatchingUnion(el, {c}, index, accused);
    MatchingUnion(el + {c}, er, index, accused);
    MatchingUnion(er, {}, index, accused);
    assert mc == if Get(index, c) == Some(accused) then {c} else {};
    DisjointUnionSize(ml, mc);
    DisjointUnionSize(ml + mc, mr);
  }

  /** Without duplicates the count is the number of distinct stored clues pointing at the accused. */
  lemma {:induction false} CountIsMatching(t: Tree, index: map<CStr, CStr>, accused: CStr)
    requires NoDuplicates(t)
    ensures Count(t, index, accused) == |Matching(Elems(t), index, accused)|
  {
    match t
    case Empty =>
      assert Matching({}, index, accused) == {};
    case Node(l, c, r) =>
      CountIsMatching(l, index, accused);
      CountIsMatching(r, index, accused);
      MatchingSplit(Elems(l), c, Elems(r), index, accused);
  }

  /**
    The recursive tally over the ledger rooted at `root`, looking each clue up
    in the table and comparing the suspect with `accused` by `strcmp`.
  */
  method Tally(root: ClueNode?, table: Table, accused: CStr) returns (count: nat)
    requires Ledger(root) && table.Valid()
    ensures count == Count(ModelOf(root), table.Contents, accused)
    decreases Footprint(root)
  {
    if root == null {
      return 0;
    }
    count := 0;
    var fromLeft := Tally(root.left, table, accused);
    count := count + fromLeft;
    var sus := table.Find(root.clue);
    if sus.Some? && Strcmp(sus.value, accused) == 0 {
      count := count + 1;
    }
    var fromRight := Tally(root.right, table, accused);
    count := count + fromRight;
  }

  /** How a game ends. */
  datatype Outcome = NoClues | Convicted | Acquitted

  /**
    The end of the game: with an empty ledger there is no accusation;
    otherwise the accused is convicted when at least `THRESHOLD` collected
    clues point at them.
  */
  function Judge(ledger: Tree, index: map<CStr, CStr>, accused: CStr): (r: Outcome)
    ensures r == NoClues <==> ledger == Empty
    ensures r == Convicted <==> ledger != Empty && Count(ledger, index, accused) >= THRESHOLD
    ensures r == Acquitted <==> ledger != Empty && Count(ledger, index, accused) < THRESHOLD
  {
    if ledger == Empty then NoClues
    else if Count(ledger, index, accused) >= THRESHOLD then Convicted
    else Acquitted
  }

  /** The decision in terms of the distinct clues pointing at the accused. */
  lemma JudgeByMatchingClues(ledger: Tree, index: map<CStr, CStr>, accused: CStr)
    requires IsBst(ledger)
    ensures Judge(ledger, index, accused) == NoClues <==> Elems(ledger) == {}
    ensures Judge(ledger, index, accused) == Convicted <==>
      Elems(ledger) != {} && |Matching(Elems(ledger), index, accused)| >= THRESHOLD
  {
    BstHasNoDuplicates(ledger);
    CountIsMatching(ledger, index, accused);
    if ledger != Empty {
      assert ledger.clue in Elems(ledger);
    }
  }

  /** An empty ledger tallies zero for every name and ends the game without an accusation. */
  lemma EmptyLedger(index: map<CStr, CStr>, accused: CStr)
    ensures Count(Empty, index, accused) == 0
    ensures Judge(Empty, index, accused) == NoClues
  {
  }

  /** A ledger holding three distinct clues attributed to the accused convicts. */
  lemma ThreeCluesConvict(t: Tree, p1: CStr, p2: CStr, p3: CStr, index: map<CStr, CStr>, accused: CStr)
    requires IsBst(t) && p1 in Elems(t) && p2 in Elems(t) && p3 in Elems(t)
    requires p1 != p2 && p2 != p3 && p1 != p3
    requires Get(index, p1) == Some(accused) && Get(index, p2) == Some(accused) && Get(index, p3) == Some(accused)
    ensures Count(t, index, accused) >= 3
    ensures Judge(t, index, accused) == Convicted
  {
    BstHasNoDuplicates(t);
    CountIsMatching(t, index, accused);
    AtLeastThree(Matching(Elems(t), index, accused), p1, p2, p3);
  }

  lemma AtLeastThree(m: set<CStr>, p1: CStr, p2: CStr, p3: CStr)
    requires p1 in m && p2 in m && p3 in m
    requires p1 != p2 && p2 != p3 && p1 != p3
    ensures |m| >= 3
  {
    var three := {p1, p2, p3};
    assert |three| == 3;
    assert m == three + (m - three);
    DisjointUnionSize(three, m - three);
  }

  /** A single collected clue never convicts, whoever it points at. */
  lemma OneClueAcquits(p: CStr, index: map<CStr, CStr>, accused: CStr)
    requires p != []
    ensures Count(Insert(Empty, p), index, accused) == (if Get(index, p) == Some(accused) then 1 else 0)
    ensures Judge(Insert(Empty, p), index, accused) == Acquitted
  {
  }

  /**
    A game after setup: explore from `hall` with an empty ledger on the
    choices `input`; with no clue collected there is no accusation;
    otherwise tally the clues against `accused` and apply the threshold.
  */
  method Play(hall: Room, table: Table, input: seq<char>, accused: CStr, ghost rooms: set<Room>)
      returns (outcome: Outcome, count: nat)
    requires Closed(rooms) && hall in rooms && table.Valid()
    modifies rooms`visited
    ensures var fin := Run(Config(hall, old(VisitedSet(rooms)), Empty), input, rooms);
      && outcome == Judge(fin.ledger, table.Contents, accused)
      && count == Count(fin.ledger, table.Contents, accused)
  {
    var root := Explore(hall, null, input, rooms);
    if root == null {
      return NoClues, 0;
    }
    count := Tally(root, table, accused);
    outcome := if count >= THRESHOLD then Convicted else Acquitted;
  }
}
