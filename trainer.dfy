/** The orbital game (src/InteractiveMode.jsx): a second, truncated generator
    whose table stops at 4d and derives each capacity from the subshell letter,
    and the game session in which a player builds a diagram row by row and
    checks it against the generated solution. */
module Trainer {
  import opened Aufbau
  import Viewer

  /** The subshells the game fills, in fill order, up to 4d. */
  const TrainerOrder: seq<string> := ["1s", "2s", "2p", "3s", "3p", "4s", "3d", "4p", "5s", "4d"]

  /** Capacity per subshell letter. */
  const MaxElectrons: map<char, nat> := map['s' := 2, 'p' := 6, 'd' := 10]

  const Correct: string := "✅ Correct!"
  const Incorrect: string := "❌ Incorrect. Try again or reveal the solution."

  /** Position k holds the first subshell letter of the label. */
  predicate FirstLetterAt(sub: string, k: int)
  {
    0 <= k < |sub| && sub[k] in MaxElectrons && forall j :: 0 <= j < k ==> sub[j] !in MaxElectrons
  }

  /** The subshell letter of a label: its first character that is s, p or d.
      None when it has none (the application would fail on such a label). */
  function SubshellType(sub: string): (t: Option<char>)
    ensures t.Some? ==> exists k :: FirstLetterAt(sub, k) && sub[k] == t.value
    ensures t.None? ==> forall k :: 0 <= k < |sub| ==> sub[k] !in MaxElectrons
  {
    if sub == [] then None
    else if sub[0] in MaxElectrons then
      assert FirstLetterAt(sub, 0);
      Some(sub[0])
    else
      var t := SubshellType(sub[1..]);
      if t.Some? then
        var k :| FirstLetterAt(sub[1..], k) && sub[1..][k] == t.value;
        assert FirstLetterAt(sub, k + 1);
        t
      else t
  }

  /** Capacity of a subshell from its letter. */
  function Capacity(sub: string): (c: Option<nat>)
    ensures c.Some? <==> SubshellType(sub).Some?
    ensures c.Some? ==> c.value == 2 || c.value == 6 || c.value == 10
  {
    match SubshellType(sub)
    case None => None
    case Some(t) => assert t in MaxElectrons by { var k :| FirstLetterAt(sub, k) && sub[k] == t; } Some(MaxElectrons[t])
  }

  /** Every label has a subshell letter. */
  predicate Typed(subshells: seq<string>)
  {
    forall i :: 0 <= i < |subshells| ==> Capacity(subshells[i]).Some?
  }

  /** A table of labels, each with the capacity of its letter. */
  function TableOf(subshells: seq<string>): (t: seq<Subshell>)
    requires Typed(subshells)
    ensures |t| == |subshells| && WellFormed(t)
    ensures forall i :: 0 <= i < |t| ==> t[i] == Subshell(subshells[i], Capacity(subshells[i]).value)
  {
    seq(|subshells|, i requires 0 <= i < |subshells| => Subshell(subshells[i], Capacity(subshells[i]).value))
  }

  /** Every label of the game's table has a letter. */
  lemma TrainerOrderTyped()
    ensures Typed(TrainerOrder)
  {
  }

  /** The game's table: each label with the capacity of its letter. */
  function TrainerTable(): (t: seq<Subshell>)
    ensures |t| == |TrainerOrder| && WellFormed(t)
  {
    TrainerOrderTyped();
    TableOf(TrainerOrder)
  }

  /** The solution the game grades against: the rows of the greedy fill of the
      game's table, in fill order. */
  function Solution(z: int): (s: seq<Row>)
    ensures |s| <= |TrainerOrder|
    ensures s == [] <==> z <= 0
  {
    GreedyFillShape(z, TrainerTable());
    Rows(GreedyFill(z, TrainerTable()))
  }

  /** The capacity of a label is fixed by its first subshell letter: s holds
      2, p holds 6 and d holds 10 electrons. */
  lemma CapacityByLetter(sub: string, k: int)
    requires FirstLetterAt(sub, k)
    ensures Capacity(sub) == Some(if sub[k] == 's' then 2 else if sub[k] == 'p' then 6 else 10)
  {
    var t := SubshellType(sub);
    var j :| FirstLetterAt(sub, j) && sub[j] == t.value;
  }

  /** The game's table is the viewer's table cut after 4d: same labels, same
      capacities, in the same order. */
  lemma TrainerTableIsViewerPrefix()
    ensures TrainerTable() == Viewer.FillOrder[..|TrainerOrder|]
  {
    var t := TrainerTable();
    var v := Viewer.FillOrder[..|TrainerOrder|];
    forall i | 0 <= i < |TrainerOrder|
      ensures t[i] == v[i]
    {
      CapacityByLetter(TrainerOrder[i], 1);
    }
  }

  /** The game's table holds 48 electrons in all. */
  lemma TrainerTableFacts()
    ensures WellFormed(TrainerTable())
    ensures TotalCapacity(TrainerTable()) == 48
  {
    TrainerTableIsViewerPrefix();
    Viewer.FillOrderFacts();
    PrefixCapacityOfPrefix(Viewer.FillOrder, |TrainerOrder|, |TrainerOrder|);
    assert PrefixCapacity(Viewer.FillOrder, 3) == 10;
    assert PrefixCapacity(Viewer.FillOrder, 6) == 20;
    assert PrefixCapacity(Viewer.FillOrder, 9) == 38;
  }

  /** The inner loop of the game's generator for one subshell of capacity
      max: it places min(electrons, max) electrons, one at a time, an up-arrow
      in slot `placed` while placed is below the orbital count and otherwise a
      down-arrow appended to slot `placed % orbitals`. */
  method PlaceSubshell(electrons: int, max: nat) returns (row: seq<string>, placed: nat)
    requires max % 2 == 0
    ensures placed == (if electrons <= 0 then 0 else Min(electrons, max))
    ensures row == Arrows(placed, max / 2)
    ensures RowOccupancy(row) == placed && Hund(row)
  {
    var orbitals := max / 2;
    var slots := new string[orbitals](_ => "");
    var remaining := electrons;
    placed := 0;
    while remaining > 0 && placed < max
      invariant 0 <= placed <= max
      invariant remaining == electrons - placed
      invariant placed > 0 ==> placed <= electrons
      invariant forall k :: 0 <= k < orbitals ==> slots[k] == Slot(placed, orbitals, k)
    {
      var index := if placed < orbitals then placed else placed % orbitals;
      var arrow := if placed < orbitals then Up else Down;
      if placed >= orbitals {
        SecondPassSlot(placed, orbitals);
      }
      slots[index] := slots[index] + arrow;
      placed := placed + 1;
      remaining := remaining - 1;
    }
    row := slots[..];
    ArrowsPlaceAll(placed, orbitals);
  }

  /** The loop of the game's generator over a list of labels: for each label
      while electrons remain, look up the capacity of its letter and place up
      to that many electrons; rows stay in fill order. */
  method FillLabels(z: int, subshells: seq<string>) returns (output: seq<Row>)
    requires Typed(subshells)
    ensures output == Rows(GreedyFill(z, TableOf(subshells)))
  {
    ghost var table := TableOf(subshells);
    var electrons := z;
    output := [];
    ghost var done: seq<Filled> := [];

    var i := 0;
    while i < |subshells| && electrons > 0
      invariant 0 <= i <= |subshells|
      invariant GreedyFill(z, table) == done + GreedyFill(electrons, table[i..])
      invariant output == Rows(done)
    {
      var sub := subshells[i];
      var letter := SubshellType(sub);
      var max := MaxElectrons[letter.value];
      GreedyFillAdvance(z, table, done, electrons, i);

      var row, placed := PlaceSubshell(electrons, max);
      electrons := electrons - placed;

      ghost var f := Filled(sub, max, placed);
      RowsAppend(done, f);
      output := output + [Row(sub, row)];
      done := done + [f];
      i := i + 1;
    }
    GreedyFillDone(electrons, table, i);
    assert GreedyFill(z, table) == done + [] == done;
  }

  /** The game's generator: the fill of the 1s..4d table, which places
      min(z, 48) electrons and leaves the rest unplaced without an error. */
  method GenerateCorrectDiagram(z: int) returns (output: seq<Row>)
    ensures output == Solution(z)
    ensures TotalOccupancy(output) == (if z <= 0 then 0 else Min(z, 48))
  {
    TrainerOrderTyped();
    output := FillLabels(z, TrainerOrder);
    TrainerTableFacts();
    FillDiagramConserves(z, TrainerTable());
  }

  /** Facts about every solution the game can ask for: at least one row, at
      most ten, row i labelled with the i-th subshell of the table, every row
      holding at least one electron and obeying Hund's rule, and min(z, 48)
      electrons in all. */
  lemma SolutionFacts(z: int)
    requires z >= 1
    ensures var s := Solution(z);
      && 1 <= |s| <= |TrainerOrder|
      && (forall i :: 0 <= i < |s| ==> s[i].sub == TrainerOrder[i])
      && (forall i :: 0 <= i < |s| ==> RowOccupancy(s[i].arrows) >= 1 && Hund(s[i].arrows))
      && TotalOccupancy(s) == Min(z, 48)
  {
    TrainerTableFacts();
    FillDiagramConserves(z, TrainerTable());
    TrainerOrderTyped();
    var t := TrainerTable();
    assert t[0].capacity > 0;
    assert GreedyFill(z, t) != [];
  }

  /** From 48 electrons on, the solution is all ten rows 1s..4d with every
      slot paired: the electrons beyond 48 are dropped without an error. */
  lemma SolutionSaturates(z: int)
    requires z >= 48
    ensures var s := Solution(z);
      && |s| == |TrainerOrder|
      && forall i, k :: 0 <= i < |s| && 0 <= k < |s[i].arrows| ==> s[i].arrows[k] == Paired
  {
    TrainerTableFacts();
    SaturatedRowsPaired(z, TrainerTable());
  }

  /** A blank row with the label and width of a given row. */
  function BlankRow(r: Row): (b: Row)
    ensures b.sub == r.sub && |b.arrows| == |r.arrows| && RowOccupancy(b.arrows) == 0
    ensures forall k :: 0 <= k < |b.arrows| ==> b.arrows[k] == Empty
  {
    var arrows := seq(|r.arrows|, _ => Empty);
    assert forall m :: 0 <= m <= |arrows| ==> RowOccupancy(arrows[..m]) == 0 by {
      forall m | 0 <= m <= |arrows|
        ensures RowOccupancy(arrows[..m]) == 0
      {
        BlankPrefix(arrows, m);
      }
    }
    assert arrows[..|arrows|] == arrows;
    Row(r.sub, arrows)
  }

  lemma {:induction false} BlankPrefix(arrows: seq<string>, m: nat)
    requires m <= |arrows| && forall k :: 0 <= k < |arrows| ==> arrows[k] == Empty
    ensures RowOccupancy(arrows[..m]) == 0
  {
    if m > 0 {
      assert arrows[..m][..m - 1] == arrows[..m - 1];
      BlankPrefix(arrows, m - 1);
    }
  }

  /** The player's diagram has the shape of a prefix of the solution: between
      one row and as many rows as the solution, row i with the label and width
      of solution row i. */
  predicate ShapePrefix(user: seq<Row>, solution: seq<Row>)
  {
    && 1 <= |user| <= |solution|
    && forall i :: 0 <= i < |user| ==> user[i].sub == solution[i].sub && |user[i].arrows| == |solution[i].arrows|
  }

  /** One click on a slot: empty becomes an up-arrow, an up-arrow becomes a
      pair, and anything else becomes empty. */
  function Toggle(a: string): (b: string)
    ensures Canonical(b) && b != a
    ensures !Canonical(a) ==> b == Empty
  {
    if a == Empty then Up else if a == Up then Paired else Empty
  }

  /** Three clicks bring every slot the generators write back to where it was. */
  lemma ToggleThrice(a: string)
    requires Canonical(a)
    ensures Toggle(Toggle(Toggle(a))) == a
  {
  }

  /** The diagram after a click on slot b of row r: that slot toggles and
      nothing else changes. */
  function ToggleCell(d: seq<Row>, r: nat, b: nat): (e: seq<Row>)
    requires r < |d| && b < |d[r].arrows|
    ensures |e| == |d|
    ensures forall i :: 0 <= i < |d| ==> e[i].sub == d[i].sub && |e[i].arrows| == |d[i].arrows|
    ensures e[r].arrows[b] == Toggle(d[r].arrows[b])
    ensures forall i, j :: 0 <= i < |d| && 0 <= j < |d[i].arrows| && (i != r || j != b) ==> e[i].arrows[j] == d[i].arrows[j]
  {
    d[r := Row(d[r].sub, d[r].arrows[b := Toggle(d[r].arrows[b])])]
  }

  /** The arrows of each row, labels dropped: what CheckDiagram compares. */
  function ArrowRows(diagram: seq<Row>): (a: seq<seq<string>>)
    ensures |a| == |diagram| && forall i :: 0 <= i < |a| ==> a[i] == diagram[i].arrows
  {
    seq(|diagram|, i requires 0 <= i < |diagram| => diagram[i].arrows)
  }

  /** The answer comparison: the player's diagram is correct when it has as many rows as
      the solution and the same arrows row by row; labels are not compared. */
  function Matches(user: seq<Row>, solution: seq<Row>): (r: bool)
    ensures r <==> |user| == |solution| && forall i :: 0 <= i < |user| ==> user[i].arrows == solution[i].arrows
  {
    var u, s := ArrowRows(user), ArrowRows(solution);
    assert |u| == |user| && forall i :: 0 <= i < |user| ==> u[i] == user[i].arrows;
    assert |s| == |solution| && forall i :: 0 <= i < |solution| ==> s[i] == solution[i].arrows;
    u == s
  }

  /** Within the game, "correct" means the player rebuilt the solution itself:
      a diagram of the solution's shape matches it exactly when it equals it. */
  lemma MatchesExactlySolution(user: seq<Row>, solution: seq<Row>)
    requires ShapePrefix(user, solution)
    ensures Matches(user, solution) <==> user == solution
  {
    if Matches(user, solution) {
      assert forall i :: 0 <= i < |user| ==> user[i] == Row(solution[i].sub, solution[i].arrows);
    }
  }

  /** A click on any slot of a correct diagram makes it incorrect. */
  lemma ToggleBreaksMatch(user: seq<Row>, solution: seq<Row>, r: nat, b: nat)
    requires r < |user| && b < |user[r].arrows|
    requires Matches(user, solution)
    ensures !Matches(ToggleCell(user, r, b), solution)
  {
    var e := ToggleCell(user, r, b);
    assert e[r].arrows[b] != solution[r].arrows[b];
  }

  /** Adding the next blank row keeps the diagram a shape-prefix. */
  lemma ShapePrefixAdd(user: seq<Row>, solution: seq<Row>)
    requires ShapePrefix(user, solution) && |user| < |solution|
    ensures ShapePrefix(user + [BlankRow(solution[|user|])], solution)
  {
  }

  /** Dropping the last of several rows keeps the diagram a shape-prefix. */
  lemma ShapePrefixRemove(user: seq<Row>, solution: seq<Row>)
    requires ShapePrefix(user, solution) && |user| > 1
    ensures ShapePrefix(user[..|user| - 1], solution)
  {
  }

  /** A click keeps the diagram a shape-prefix. */
  lemma ShapePrefixToggle(user: seq<Row>, solution: seq<Row>, r: nat, b: nat)
    requires ShapePrefix(user, solution) && r < |user| && b < |user[r].arrows|
    ensures ShapePrefix(ToggleCell(user, r, b), solution)
  {
  }

  /** The state of one game session. */
  class Session {
    var atomicNumber: int
    var solution: seq<Row>
    var userDiagram: seq<Row>
    var feedback: string
    var showSolution: bool

    /** The session invariant: the solution belongs to the atomic number and
        the player's diagram is a shape-prefix of it. */
    ghost predicate Valid()
      reads this
    {
      1 <= atomicNumber && solution == Solution(atomicNumber) && ShapePrefix(userDiagram, solution)
    }

    /** Mounting the game with a drawn atomic number: the solution is
        generated and the player starts from one blank row shaped like the
        solution's first. */
    constructor (rand: int)
      requires 1 <= rand <= 118
      ensures Valid()
      ensures atomicNumber == rand && userDiagram == [BlankRow(solution[0])]
      ensures feedback == "" && !showSolution
    {
      atomicNumber := rand;
      var correct := GenerateCorrectDiagram(rand);
      SolutionFacts(rand);
      solution := correct;
      userDiagram := [BlankRow(correct[0])];
      feedback := "";
      showSolution := false;
    }

    /** A new drawn atomic number resets the whole session. */
    method Reroll(rand: int)
      requires 1 <= rand <= 30
      modifies this
      ensures Valid()
      ensures atomicNumber == rand && userDiagram == [BlankRow(solution[0])]
      ensures feedback == "" && !showSolution
    {
      atomicNumber := rand;
      var correct := GenerateCorrectDiagram(rand);
      SolutionFacts(rand);
      solution := correct;
      showSolution := false;
      feedback := "";
      userDiagram := [BlankRow(correct[0])];
    }

    /** A click on slot boxIdx of row orbitalIdx. */
    method ToggleArrow(orbitalIdx: nat, boxIdx: nat)
      requires Valid()
      requires orbitalIdx < |userDiagram| && boxIdx < |userDiagram[orbitalIdx].arrows|
      modifies this
      ensures Valid()
      ensures userDiagram == ToggleCell(old(userDiagram), orbitalIdx, boxIdx)
      ensures atomicNumber == old(atomicNumber) && solution == old(solution)
      ensures feedback == old(feedback) && showSolution == old(showSolution)
    {
      var row := userDiagram[orbitalIdx];
      var state := row.arrows[boxIdx];
      var next := if state == Empty then Up else if state == Up then Paired else Empty;
      ShapePrefixToggle(userDiagram, solution, orbitalIdx, boxIdx);
      userDiagram := userDiagram[orbitalIdx := Row(row.sub, row.arrows[boxIdx := next])];
    }

    /** Adds the next row of the solution's shape, blank, while the diagram is
        shorter than the solution; otherwise nothing changes. */
    method AddOrbital()
      requires Valid()
      modifies this
      ensures Valid()
      ensures userDiagram == if |old(userDiagram)| < |solution|
        then old(userDiagram) + [BlankRow(solution[|old(userDiagram)|])]
        else old(userDiagram)
      ensures atomicNumber == old(atomicNumber) && solution == old(solution)
      ensures feedback == old(feedback) && showSolution == old(showSolution)
    {
      if |userDiagram| < |solution| {
        var next := solution[|userDiagram|];
        ShapePrefixAdd(userDiagram, solution);
        userDiagram := userDiagram + [BlankRow(next)];
      }
    }

    /** Drops the last row while more than one remains; otherwise nothing
        changes. */
    method RemoveOrbital()
      requires Valid()
      modifies this
      ensures Valid()
      ensures userDiagram == if |old(userDiagram)| > 1
        then old(userDiagram)[..|old(userDiagram)| - 1]
        else old(userDiagram)
      ensures atomicNumber == old(atomicNumber) && solution == old(solution)
      ensures feedback == old(feedback) && showSolution == old(showSolution)
    {
      if |userDiagram| > 1 {
        ShapePrefixRemove(userDiagram, solution);
        userDiagram := userDiagram[..|userDiagram| - 1];
      }
    }

    /** The show/hide-solution button flips the flag and nothing else. */
    method ToggleShowSolution()
      requires Valid()
      modifies this
      ensures Valid()
      ensures showSolution == !old(showSolution)
      ensures atomicNumber == old(atomicNumber) && solution == old(solution)
      ensures userDiagram == old(userDiagram) && feedback == old(feedback)
    {
      showSolution := !showSolution;
    }

    /** Grades the player's diagram against the solution. */
    method CheckDiagram()
      requires Valid()
      modifies this
      ensures Valid()
      ensures feedback == if Matches(userDiagram, solution) then Correct else Incorrect
      ensures feedback == Correct <==> userDiagram == solution
      ensures atomicNumber == old(atomicNumber) && solution == old(solution)
      ensures userDiagram == old(userDiagram) && showSolution == old(showSolution)
    {
      var correct := ArrowRows(solution);
      var user := ArrowRows(userDiagram);
      feedback := if user == correct then Correct else Incorrect;
      MatchesExactlySolution(userDiagram, solution);
    }
  }
}
