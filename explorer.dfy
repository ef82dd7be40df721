/**
  The exploration of the manor: a binary tree of rooms walked from the
  entrance, one choice per prompt, collecting each room's clue into the
  ledger on the room's first visit.
*/
module Explorer {
  import opened CString
  import opened ClueLedger

  /**
    A room of the manor. Its name, clue and children are fixed once the
    layout is built; only `visited` changes during play.
  */
  class Room {
    const name: Name
    const clue: Clue
    const left: Room?
    const right: Room?
    var visited: bool

    /** A room that has not been visited yet, with the children the layout gives it. */
    constructor (name: Name, clue: Clue, left: Room?, right: Room?)
      ensures this.name == name && this.clue == clue
      ensures this.left == left && this.right == right
      ensures !visited
    {
      this.name, this.clue := name, clue;
      this.left, this.right := left, right;
      visited := false;
    }
  }

  /** Every child of a room of `rooms` is in `rooms`. */
  ghost predicate Closed(rooms: set<Room>)
  {
    forall r :: r in rooms ==>
      (r.left != null ==> r.left in rooms) && (r.right != null ==> r.right in rooms)
  }

  /** The rooms whose flag says they have been visited. */
  ghost function VisitedSet(rooms: set<Room>): set<Room>
    reads rooms
  {
    set r | r in rooms && r.visited
  }

  /** The non-empty clues of a set of rooms. */
  function CluesOf(rs: set<Room>): set<CStr> {
    set r | r in rs && r.clue != [] :: r.clue
  }

  /** What one choice character asks for. */
  datatype Move = GoLeft | GoRight | Quit | Invalid

  /** The choice tests of the exploration loop, upper and lower case alike. */
  function Decode(opcao: char): (m: Move)
    ensures m == GoLeft <==> opcao in "eE"
    ensures m == GoRight <==> opcao in "dD"
    ensures m == Quit <==> opcao in "sS"
    ensures m == Invalid <==> opcao !in "eEdDsS"
  {
    if opcao == 'e' || opcao == 'E' then GoLeft
    else if opcao == 'd' || opcao == 'D' then GoRight
    else if opcao == 's' || opcao == 'S' then Quit
    else Invalid
  }

  /** The state of the explorer: where it stands, the rooms visited so far, and the ledger. */
  datatype Config = Config(at: Room, visited: set<Room>, ledger: Tree)

  datatype StepResult = Continue(next: Config) | Finished(last: Config)

  function After(o: StepResult): Config {
    match o
    case Continue(next) => next
    case Finished(last) => last
  }

  /** The first part of an iteration: on a first visit the room's clue, if any, enters the ledger and the room is marked. */
  function Collect(c: Config): (d: Config)
    ensures d.at == c.at && d.visited == c.visited + {c.at}
    ensures Elems(d.ledger) == Elems(c.ledger) + (if c.at !in c.visited && c.at.clue != [] then {c.at.clue} else {})
    ensures c.at in c.visited ==> d.ledger == c.ledger
  {
    if c.at in c.visited then c
    else
      var ledger := if |c.at.clue| > 0 then Insert(c.ledger, c.at.clue) else c.ledger;
      Config(c.at, c.visited + {c.at}, ledger)
  }

  /**
    One iteration of the exploration loop on the choice `opcao`: collect,
    then move to the requested child if it exists, stay on a missing child or
    an unrecognised choice, and finish on an exit.
  */
  function Step(c: Config, opcao: char): (o: StepResult)
    ensures After(o).visited == c.visited + {c.at}
    ensures After(o).ledger == if c.at in c.visited then c.ledger else Insert(c.ledger, c.at.clue)
    ensures o.Finished? <==> Decode(opcao) == Quit
    ensures Decode(opcao) == GoLeft && c.at.left != null ==> After(o).at == c.at.left
    ensures Decode(opcao) == GoRight && c.at.right != null ==> After(o).at == c.at.right
    ensures (Decode(opcao) == GoLeft && c.at.left == null) || (Decode(opcao) == GoRight && c.at.right == null)
            || Decode(opcao) == Invalid || Decode(opcao) == Quit
            ==> After(o).at == c.at
  {
    var d := Collect(c);
    var m := Decode(opcao);
    if m == Quit then Finished(d) else Continue(d.(at := Target(c.at, m)))
  }

  /** The room a move leads to from `at`: the requested child when it exists, `at` itself otherwise. */
  function Target(at: Room, m: Move): (r: Room)
    ensures m == GoLeft && at.left != null ==> r == at.left
    ensures m == GoRight && at.right != null ==> r == at.right
    ensures r == at || (m == GoLeft && r == at.left) || (m == GoRight && r == at.right)
  {
    match m
    case GoLeft => if at.left != null then at.left else at
    case GoRight => if at.right != null then at.right else at
    case _ => at
  }

  /**
    The whole exploration from `c` on the choices `input`, read one per
    prompt. When the input is exhausted the read fails and the choice is
    taken to be 's', which ends the exploration.
  */
  function Run(c: Config, input: seq<char>, rooms: set<Room>): (r: Config)
    requires c.at in rooms && Closed(rooms)
    ensures r.at in rooms
    decreases |input|
  {
    var opcao := if input == [] then 's' else input[0];
    match Step(c, opcao)
    case Finished(last) => last
    case Continue(next) => if input == [] then next else Run(next, input[1..], rooms)
  }

  /** Visited flags are only ever set: the exploration visits its entrance and never unmarks a room. */
  lemma {:induction false} RunVisitedGrows(c: Config, input: seq<char>, rooms: set<Room>)
    requires c.at in rooms && Closed(rooms)
    ensures c.visited + {c.at} <= Run(c, input, rooms).visited <= c.visited + rooms
    decreases |input|
  {
    var opcao := if input == [] then 's' else input[0];
    if Step(c, opcao).Continue? && input != [] {
      RunVisitedGrows(After(Step(c, opcao)), input[1..], rooms);
    }
  }

  lemma CluesOfUnion(a: set<Room>, b: set<Room>)
    ensures CluesOf(a + b) == CluesOf(a) + CluesOf(b)
  {
  }

  /**
    The ledger at the end of an exploration holds exactly the clues it held
    at the start plus the non-empty clues of the rooms visited for the first
    time: every collected clue comes from a first visit.
  */
  lemma {:induction false} RunCollectsFirstVisits(c: Config, input: seq<char>, rooms: set<Room>)
    requires c.at in rooms && Closed(rooms)
    ensures var r := Run(c, input, rooms);
      Elems(r.ledger) == Elems(c.ledger) + CluesOf(r.visited - c.visited)
    decreases |input|
  {
    var r := Run(c, input, rooms);
    var opcao := if input == [] then 's' else input[0];
    var n := After(Step(c, opcao));
    if c.at in c.visited {
      assert n.visited - c.visited == {};
    } else {
      assert n.visited - c.visited == {c.at};
    }
    assert Elems(n.ledger) == Elems(c.ledger) + CluesOf(n.visited - c.visited);
    if Step(c, opcao).Continue? && input != [] {
      RunCollectsFirstVisits(n, input[1..], rooms);
      RunVisitedGrows(n, input[1..], rooms);
      assert r.visited - c.visited == (r.visited - n.visited) + (n.visited - c.visited);
      CluesOfUnion(r.visited - n.visited, n.visited - c.visited);
    }
  }

  /** An exploration keeps the ledger a search tree. */
  lemma {:induction false} RunKeepsBst(c: Config, input: seq<char>, rooms: set<Room>)
    requires c.at in rooms && Closed(rooms) && IsBst(c.ledger)
    ensures IsBst(Run(c, input, rooms).ledger)
    decreases |input|
  {
    var opcao := if input == [] then 's' else input[0];
    InsertKeepsBst(c.ledger, c.at.clue);
    if Step(c, opcao).Continue? && input != [] {
      RunKeepsBst(After(Step(c, opcao)), input[1..], rooms);
    }
  }

  /**
    Revisiting is idempotent: the state after a collection is not changed by
    collecting again, so a room's clue is inserted at most once.
  */
  lemma CollectIdempotent(c: Config)
    ensures Collect(Collect(c)) == Collect(c)
  {
  }

  /** Input that can no longer be read ends the exploration right after the current room's collection. */
  lemma ExhaustedInputEnds(c: Config, rooms: set<Room>)
    requires c.at in rooms && Closed(rooms)
    ensures Step(c, 's').Finished?
    ensures Run(c, [], rooms) == Collect(c)
  {
  }

  /** `Run` takes one step when a choice is available and the step does not finish. */
  lemma RunUnfold(c: Config, input: seq<char>, rooms: set<Room>)
    requires c.at in rooms && Closed(rooms)
    requires input != [] && Step(c, input[0]).Continue?
    ensures After(Step(c, input[0])).at in rooms
    ensures Run(c, input, rooms) == Run(After(Step(c, input[0])), input[1..], rooms)
  {
  }

  /**
    One iteration on the heap for the choice `opcao`: the collection on a
    first visit (the room's non-empty clue goes into the ledger and its flag
    is set), then the decision. The new state is the one `Step` gives.
  */
  method Iterate(at: Room, root: ClueNode?, opcao: char, ghost rooms: set<Room>)
      returns (next: Room, quit: bool, r: ClueNode?)
    requires at in rooms && Ledger(root)
    modifies at`visited, Footprint(root)
    ensures Ledger(r) && fresh(Footprint(r) - old(Footprint(root)))
    ensures var o := Step(Config(at, old(VisitedSet(rooms)), old(ModelOf(root))), opcao);
      quit == o.Finished? && After(o) == Config(if quit then at else next, VisitedSet(rooms), ModelOf(r))
  {
    r := root;
    if !at.visited {
      if |at.clue| > 0 {
        r := ClueNode.InsertClue(root, at.clue);
      }
      at.visited := true;
      assert VisitedSet(rooms) == old(VisitedSet(rooms)) + {at};
    } else {
      assert VisitedSet(rooms) == old(VisitedSet(rooms));
    }
    next, quit := Choose(at, opcao);
  }

  /**
    The decision part of an iteration on the choice `opcao`: the room to go
    to, or an exit. A missing child or an unrecognised choice keeps `at`.
  */
  method Choose(at: Room, opcao: char) returns (next: Room, quit: bool)
    ensures quit <==> Decode(opcao) == Quit
    ensures next == Target(at, Decode(opcao))
  {
    next, quit := at, false;
    if opcao == 'e' || opcao == 'E' {
      if at.left != null {
        next := at.left;
      }
    } else if opcao == 'd' || opcao == 'D' {
      if at.right != null {
        next := at.right;
      }
    } else if opcao == 's' || opcao == 'S' {
      quit := true;
    }
  }

  /**
    The exploration loop. `start` is the entrance (nothing happens when it is
    absent), `ledger` the root of the ledger, and `input` the choices read at
    the successive prompts. Returns the new root of the ledger; the final
    ledger and the visited flags are those `Run` gives.
  */
  method Explore(start: Room?, ledger: ClueNode?, input: seq<char>, ghost rooms: set<Room>)
      returns (root: ClueNode?)
    requires Closed(rooms) && (start != null ==> start in rooms)
    requires Ledger(ledger)
    modifies rooms`visited, Footprint(ledger)
    ensures Ledger(root) && fresh(Footprint(root) - old(Footprint(ledger)))
    ensures start == null ==> root == ledger && VisitedSet(rooms) == old(VisitedSet(rooms))
    ensures start != null ==>
      var fin := Run(Config(start, old(VisitedSet(rooms)), old(ModelOf(ledger))), input, rooms);
      ModelOf(root) == fin.ledger && VisitedSet(rooms) == fin.visited
  {
    root := ledger;
    if start == null {
      return;
    }
    ghost var goal := Run(Config(start, VisitedSet(rooms), ModelOf(ledger)), input, rooms);
    var at: Room := start;
    var i := 0;
    while true
      invariant 0 <= i <= |input|
      invariant at in rooms
      invariant Ledger(root) && fresh(Footprint(root) - old(Footprint(ledger)))
      invariant Run(Config(at, VisitedSet(rooms), ModelOf(root)), input[i..], rooms) == goal
      decreases |input| - i
    {
      ghost var cur := Config(at, VisitedSet(rooms), ModelOf(root));
      ghost var rest := input[i..];
      // a failed read is taken as the exit choice
      var opcao: char;
      if i < |input| {
        opcao := input[i];
        i := i + 1;
      } else {
        opcao := 's';
      }
      var next, quit;
      next, quit, root := Iterate(at, root, opcao, rooms);
      if quit {
        return;
      }
      at := next;
      assert rest[1..] == input[i..];
      RunUnfold(cur, rest, rooms);
    }
  }
}
