/** The orbital viewer (src/App.jsx): the full 19-subshell fill-order table,
    the generator that turns an atomic number into configuration text and
    orbital rows, and the table of known Aufbau exceptions. */
module Viewer {
  import opened Aufbau
  import opened ConfigText

  /** The subshells in the order they are filled (the n+l rule, 1s to 7p),
      with their capacities. */
  const FillOrder: seq<Subshell> := [
    Subshell("1s", 2), Subshell("2s", 2), Subshell("2p", 6), Subshell("3s", 2), Subshell("3p", 6),
    Subshell("4s", 2), Subshell("3d", 10), Subshell("4p", 6), Subshell("5s", 2), Subshell("4d", 10),
    Subshell("5p", 6), Subshell("6s", 2), Subshell("4f", 14), Subshell("5d", 10), Subshell("6p", 6),
    Subshell("7s", 2), Subshell("5f", 14), Subshell("6d", 10), Subshell("7p", 6)
  ]

  const InvalidMessage: string := "Please enter a valid atomic number (1–118)"

  /** What the generator leaves in the viewer: the configuration text, the
      diagram rows in display order, and the atomic number under which element
      information is looked up (None: no element is shown). */
  datatype Display = Display(config: string, diagram: seq<Row>, element: Option<int>)

  /** The parsed input is a number between 1 and 118; None stands for NaN. */
  predicate ValidInput(input: Option<int>)
  {
    input.Some? && 1 <= input.value <= 118
  }

  function Reversed(rows: seq<Row>): (r: seq<Row>)
    ensures |r| == |rows|
  {
    if rows == [] then [] else Reversed(rows[1..]) + [rows[0]]
  }

  /** The display for an input: the error message and nothing else for an
      invalid one; otherwise the header and the tokens of the greedy fill over
      FillOrder, and its rows reversed. */
  function Expected(input: Option<int>): (d: Display)
    ensures d.element.Some? <==> ValidInput(input)
    ensures !ValidInput(input) ==> d == Display(InvalidMessage, [], None)
    ensures ValidInput(input) ==> d.element == Some(input.value) && |Header(input.value)| <= |d.config| && d.config[..|Header(input.value)|] == Header(input.value)
  {
    if !ValidInput(input) then Display(InvalidMessage, [], None)
    else
      var F := GreedyFill(input.value, FillOrder);
      Display(Header(input.value) + ConfigBody(F), Reversed(Rows(F)), Some(input.value))
  }

  /** The table's capacities are positive and even, sum to exactly 118, and
      its labels fit the token syntax. */
  lemma FillOrderFacts()
    ensures WellFormed(FillOrder)
    ensures TotalCapacity(FillOrder) == 118
    ensures forall i :: 0 <= i < |FillOrder| ==> PlainLabel(FillOrder[i].name)
  {
    FillOrderWellFormed();
    FillOrderTotal();
    FillOrderLabels();
  }

  lemma FillOrderWellFormed()
    ensures WellFormed(FillOrder)
  {
  }

  lemma FillOrderTotal()
    ensures TotalCapacity(FillOrder) == 118
  {
    assert PrefixCapacity(FillOrder, 3) == 10;
    assert PrefixCapacity(FillOrder, 6) == 20;
    assert PrefixCapacity(FillOrder, 9) == 38;
    assert PrefixCapacity(FillOrder, 12) == 56;
    assert PrefixCapacity(FillOrder, 15) == 86;
    assert PrefixCapacity(FillOrder, 18) == 112;
    assert PrefixCapacity(FillOrder, 19) == 118;
  }

  lemma FillOrderLabels()
    ensures forall i :: 0 <= i < |FillOrder| ==> PlainLabel(FillOrder[i].name)
  {
    forall i | 0 <= i < |FillOrder|
      ensures PlainLabel(FillOrder[i].name)
    {
      var sub := FillOrder[i].name;
      assert |sub| == 2 && sub[0] in "1234567" && sub[1] in "spdf";
    }
  }

  lemma {:induction false} ReversedAt(rows: seq<Row>, k: nat)
    requires k < |rows|
    ensures |Reversed(rows)| == |rows| && Reversed(rows)[k] == rows[|rows| - 1 - k]
  {
    if |rows| > 1 {
      ReversedAt(rows[1..], if k < |rows| - 1 then k else 0);
    }
  }

  lemma {:induction false} TotalOccupancyAppend(rows: seq<Row>, r: Row)
    ensures TotalOccupancy(rows + [r]) == TotalOccupancy(rows) + RowOccupancy(r.arrows)
  {
    if rows != [] {
      assert (rows + [r])[1..] == rows[1..] + [r];
      TotalOccupancyAppend(rows[1..], r);
    }
  }

  /** Reversing the rows for display neither adds nor loses electrons. */
  lemma {:induction false} TotalOccupancyReversed(rows: seq<Row>)
    ensures TotalOccupancy(Reversed(rows)) == TotalOccupancy(rows)
  {
    if rows != [] {
      TotalOccupancyReversed(rows[1..]);
      TotalOccupancyAppend(Reversed(rows[1..]), rows[0]);
    }
  }

  /** Reverses the rows in place. */
  method ReverseRows(a: array<Row>)
    modifies a
    ensures a[..] == Reversed(old(a[..]))
  {
    var n, i := a.Length, 0;
    while i < n / 2
      invariant 0 <= i <= n / 2
      invariant forall k :: 0 <= k < i ==> a[k] == old(a[n - 1 - k]) && a[n - 1 - k] == old(a[k])
      invariant forall k :: i <= k < n - i ==> a[k] == old(a[k])
    {
      a[i], a[n - 1 - i] := a[n - 1 - i], a[i];
      i := i + 1;
    }
    ghost var before := old(a[..]);
    forall k | 0 <= k < n
      ensures |Reversed(before)| == n && a[..][k] == Reversed(before)[k]
    {
      ReversedAt(before, k);
    }
    if n == 0 {
      assert before == [];
    }
  }

  /** The arrow row of one subshell: capacity/2 empty slots, then for each of
      the filled electrons an up-arrow in slot i while i is below the orbital
      count, and afterwards a down-arrow appended to slot i % count. */
  method PlaceArrows(filled: nat, orbitalCount: nat) returns (arrows: seq<string>)
    requires filled <= 2 * orbitalCount
    ensures arrows == Arrows(filled, orbitalCount)
    ensures RowOccupancy(arrows) == filled && Hund(arrows)
  {
    var slots := new string[orbitalCount](_ => "");
    for i := 0 to filled
      invariant forall k :: 0 <= k < orbitalCount ==> slots[k] == Slot(i, orbitalCount, k)
    {
      if i < orbitalCount {
        slots[i] := Up;
      } else {
        SecondPassSlot(i, orbitalCount);
        slots[i % orbitalCount] := slots[i % orbitalCount] + Down;
      }
    }
    arrows := slots[..];
    ArrowsPlaceAll(filled, orbitalCount);
  }

  /** The fill loop of the generator, over a fill-order table: each subshell
      gets min(remaining, capacity) electrons, a `sub^filled ` token and an
      arrow row; the loop stops as soon as no electrons remain. */
  method FillSubshells(z: int, table: seq<Subshell>) returns (configString: string, diagramRows: seq<Row>)
    requires WellFormed(table)
    ensures configString == ConfigBody(GreedyFill(z, table))
    ensures diagramRows == Rows(GreedyFill(z, table))
  {
    var electrons := z;
    configString := "";
    diagramRows := [];
    ghost var done: seq<Filled> := [];

    var i := 0;
    while i < |table|
      invariant 0 <= i <= |table|
      invariant GreedyFill(z, table) == done + GreedyFill(electrons, table[i..])
      invariant configString == ConfigBody(done)
      invariant diagramRows == Rows(done)
    {
      if electrons <= 0 {
        break;
      }
      var sub, max := table[i].name, table[i].capacity;
      var filled := Min(electrons, max);
      GreedyFillAdvance(z, table, done, electrons, i);
      ghost var f := Filled(sub, max, filled);
      ConfigBodyAppend(done, f);
      var token := sub + "^" + Decimal(filled) + " ";
      configString := configString + token;
      electrons := electrons - filled;

      var arrows := PlaceArrows(filled, max / 2);

      RowsAppend(done, f);
      diagramRows := diagramRows + [Row(sub, arrows)];
      done := done + [f];
      i := i + 1;
    }
    GreedyFillDone(electrons, table, i);
    assert GreedyFill(z, table) == done + [] == done;
  }

  /** The generator: validate the atomic number, fill FillOrder, then reverse
      the rows for display. An invalid number leaves the error message, no
      rows and no element. */
  method GenerateDiagram(input: Option<int>) returns (view: Display)
    ensures view == Expected(input)
    ensures !ValidInput(input) ==> view == Display(InvalidMessage, [], None)
    ensures ValidInput(input) ==> TotalOccupancy(view.diagram) == input.value
  {
    if input.None? || input.value < 1 || input.value > 118 {
      return Display(InvalidMessage, [], None);
    }
    var z := input.value;
    FillOrderFacts();
    var configString, diagramRows := FillSubshells(z, FillOrder);

    var display := new Row[|diagramRows|](k requires 0 <= k < |diagramRows| => diagramRows[k]);
    assert display[..] == diagramRows;
    ReverseRows(display);
    view := Display("Electron Configuration for Z=" + Decimal(z) + ":\n" + configString, display[..], Some(z));

    DisplayedFill(z, FillOrder);
  }

  /** The displayed rows of a greedy fill over any well-formed table hold
      min(electrons, capacity) electrons; each holds at least one electron and
      obeys Hund's rule; row k shows the subshell |rows|-1-k of the table. */
  lemma DisplayedFill(electrons: int, table: seq<Subshell>)
    requires WellFormed(table)
    ensures var rows := Rows(GreedyFill(electrons, table));
      var d := Reversed(rows);
      && |d| == |rows| <= |table|
      && TotalOccupancy(d) == (if electrons <= 0 then 0 else Min(electrons, TotalCapacity(table)))
      && (forall k :: 0 <= k < |d| ==> d[k] == rows[|d| - 1 - k] && d[k].sub == table[|d| - 1 - k].name)
      && (forall k :: 0 <= k < |d| ==> RowOccupancy(d[k].arrows) >= 1 && Hund(d[k].arrows))
  {
    var rows := Rows(GreedyFill(electrons, table));
    FillDiagramConserves(electrons, table);
    TotalOccupancyReversed(rows);
    if rows == [] {
      assert Reversed(rows) == [];
    } else {
      ReversedAt(rows, 0);
    }
    forall k | 0 <= k < |rows|
      ensures |Reversed(rows)| == |rows| && Reversed(rows)[k] == rows[|rows| - 1 - k]
    {
      ReversedAt(rows, k);
    }
  }

  /** Conservation for the viewer: every valid atomic number is placed in full,
      every displayed row holds at least one electron and obeys Hund's rule,
      and the first displayed row is the last subshell filled. */
  lemma ViewerConserves(z: int)
    requires 1 <= z <= 118
    ensures var d := Expected(Some(z)).diagram;
      && TotalOccupancy(d) == z
      && (forall k :: 0 <= k < |d| ==> RowOccupancy(d[k].arrows) >= 1 && Hund(d[k].arrows))
      && |d| <= |FillOrder|
      && (forall k :: 0 <= k < |d| ==> d[k].sub == FillOrder[|d| - 1 - k].name)
  {
    FillOrderWellFormed();
    FillOrderTotal();
    DisplayedInFull(z, FillOrder);
    assert Expected(Some(z)).diagram == Reversed(Rows(GreedyFill(z, FillOrder)));
  }

  /** Over any well-formed table holding at least z electrons, the displayed
      rows of the fill hold all z, each row holds at least one electron and
      obeys Hund's rule, and displayed row k shows subshell |d|-1-k. */
  lemma DisplayedInFull(z: int, table: seq<Subshell>)
    requires WellFormed(table) && 1 <= z <= TotalCapacity(table)
    ensures var d := Reversed(Rows(GreedyFill(z, table)));
      && TotalOccupancy(d) == z
      && (forall k :: 0 <= k < |d| ==> RowOccupancy(d[k].arrows) >= 1 && Hund(d[k].arrows))
      && |d| <= |table|
      && (forall k :: 0 <= k < |d| ==> d[k].sub == table[|d| - 1 - k].name)
  {
    DisplayedFill(z, table);
  }

  /** The configuration text is the header followed by the fill's tokens, and
      reading the tokens back gives each emitted subshell with its count, in
      fill order. */
  lemma ViewerConfigRoundTrip(z: int)
    requires 1 <= z <= 118
    ensures var F := GreedyFill(z, FillOrder);
      var text := Expected(Some(z)).config;
      && text[..|Header(z)|] == Header(z)
      && ParseBody(text[|Header(z)|..]) == Some(Pairs(F))
  {
    FillOrderFacts();
    var F := GreedyFill(z, FillOrder);
    FillTextRoundTrip(z, FillOrder);
    var text := Expected(Some(z)).config;
    assert text == Header(z) + ConfigBody(F);
    assert text[|Header(z)|..] == ConfigBody(F);
  }

  /** Known deviations from the textbook fill order (Cr, Cu, Ag, Au), shown
      next to the computed configuration and never applied to it. */
  const Exceptions: map<int, string> := map[
    24 := "[Ar] 4s¹ 3d⁵",
    29 := "[Ar] 4s¹ 3d¹⁰",
    47 := "[Kr] 5s¹ 4d¹⁰",
    79 := "[Xe] 6s¹ 4f¹⁴ 5d¹⁰"
  ]

  lemma FillOrderThroughThreeD()
    ensures PrefixCapacity(FillOrder, 6) == 20 && PrefixCapacity(FillOrder, 7) == 30
    ensures FillOrder[..7] == [Subshell("1s", 2), Subshell("2s", 2), Subshell("2p", 6),
      Subshell("3s", 2), Subshell("3p", 6), Subshell("4s", 2), Subshell("3d", 10)]
  {
    assert PrefixCapacity(FillOrder, 3) == 10;
  }

  /** The pairs of a fill that stops inside the seventh subshell of a table
      beginning 1s 2s 2p 3s 3p 4s 3d. */
  lemma StopsInThreeD(electrons: int, table: seq<Subshell>)
    requires WellFormed(table) && 7 <= |table|
    requires table[..7] == [Subshell("1s", 2), Subshell("2s", 2), Subshell("2p", 6),
      Subshell("3s", 2), Subshell("3p", 6), Subshell("4s", 2), Subshell("3d", 10)]
    requires PrefixCapacity(table, 6) == 20 && PrefixCapacity(table, 7) == 30
    requires 20 < electrons <= 30
    ensures Pairs(GreedyFill(electrons, table)) ==
      [("1s", 2), ("2s", 2), ("2p", 6), ("3s", 2), ("3p", 6), ("4s", 2), ("3d", electrons - 20)]
  {
    GreedyFillStopsAt(electrons, table, 7);
    assert forall i :: 0 <= i < 7 ==> table[i] == table[..7][i];
  }

  /** For chromium and copper the generator computes the textbook fill (3d4
      and 3d9 after 4s2), which differs from the listed exceptions (4s1 3d5,
      4s1 3d10): the table is shown beside the computed configuration and does
      not replace it. */
  lemma ExceptionsNotApplied()
    ensures Pairs(GreedyFill(24, FillOrder)) ==
      [("1s", 2), ("2s", 2), ("2p", 6), ("3s", 2), ("3p", 6), ("4s", 2), ("3d", 4)]
    ensures Pairs(GreedyFill(29, FillOrder)) ==
      [("1s", 2), ("2s", 2), ("2p", 6), ("3s", 2), ("3p", 6), ("4s", 2), ("3d", 9)]
  {
    FillOrderFacts();
    FillOrderThroughThreeD();
    StopsInThreeD(24, FillOrder);
    StopsInThreeD(29, FillOrder);
  }

  function ExceptionFor(z: int): (r: Option<string>)
    ensures r.Some? <==> z == 24 || z == 29 || z == 47 || z == 79
    ensures z == 24 ==> r == Some("[Ar] 4s¹ 3d⁵")
    ensures z == 29 ==> r == Some("[Ar] 4s¹ 3d¹⁰")
    ensures z == 47 ==> r == Some("[Kr] 5s¹ 4d¹⁰")
    ensures z == 79 ==> r == Some("[Xe] 6s¹ 4f¹⁴ 5d¹⁰")
  {
    if z in Exceptions then Some(Exceptions[z]) else None
  }
}
