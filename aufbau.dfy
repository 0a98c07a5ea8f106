/** The Aufbau filling model shared by the orbital viewer and the orbital game:
    a fill-order table of subshells, the greedy distribution of electrons over it,
    and the two-pass (Hund's rule) placement of a subshell's electrons into its
    orbital slots. Both generators in the application are proved against the
    functions of this module. */
module Aufbau {

  datatype Option<T> = None | Some(value: T)

  /** One entry of a fill-order table: a subshell name such as "3d" and the
      number of electrons it can hold. */
  datatype Subshell = Subshell(name: string, capacity: nat)

  /** What the greedy fill gave one subshell: its label, its capacity and the
      number of electrons placed in it. */
  datatype Filled = Filled(sub: string, capacity: nat, count: nat)

  /** One row of an orbital diagram: the subshell label and one arrow string
      per orbital slot. */
  datatype Row = Row(sub: string, arrows: seq<string>)

  /** The slot contents the application writes: empty, one spin-up electron,
      and a pair (spin-up with a spin-down appended). */
  const Empty: string := ""
  const Up: string := "↑"
  const Down: string := "↓"
  const Paired: string := "↑↓"

  function Min(a: int, b: int): (m: int)
    ensures m <= a && m <= b && (m == a || m == b)
  {
    if a < b then a else b
  }

  /** Sum of the capacities of the first n entries of a table. */
  function PrefixCapacity(table: seq<Subshell>, n: nat): nat
    requires n <= |table|
  {
    if n == 0 then 0 else PrefixCapacity(table, n - 1) + table[n - 1].capacity
  }

  /** Sum of the capacities of a table. */
  function TotalCapacity(table: seq<Subshell>): nat
  {
    PrefixCapacity(table, |table|)
  }

  lemma {:induction false} PrefixCapacityCons(table: seq<Subshell>, n: nat)
    requires 1 <= n <= |table|
    ensures PrefixCapacity(table, n) == table[0].capacity + PrefixCapacity(table[1..], n - 1)
  {
    if n > 1 {
      PrefixCapacityCons(table, n - 1);
    }
  }

  /** A prefix sum does not look past its prefix. */
  lemma {:induction false} PrefixCapacityOfPrefix(table: seq<Subshell>, m: nat, n: nat)
    requires n <= m <= |table|
    ensures PrefixCapacity(table[..m], n) == PrefixCapacity(table, n)
  {
    if n > 0 {
      PrefixCapacityOfPrefix(table, m, n - 1);
    }
  }

  /** Every capacity is positive and even: an orbital holds two electrons. */
  predicate WellFormed(table: seq<Subshell>)
  {
    forall i :: 0 <= i < |table| ==> table[i].capacity > 0 && table[i].capacity % 2 == 0
  }

  /** The greedy fill: walk the table in order, give each subshell
      min(remaining, capacity) electrons, and stop as soon as nothing remains. */
  function GreedyFill(electrons: int, table: seq<Subshell>): seq<Filled>
    decreases |table|
  {
    if table == [] || electrons <= 0 then []
    else
      var f := Min(electrons, table[0].capacity);
      [Filled(table[0].name, table[0].capacity, f)] + GreedyFill(electrons - f, table[1..])
  }

  /** One step of the fill from position i of a table. */
  lemma GreedyFillStep(electrons: int, table: seq<Subshell>, i: nat)
    requires i < |table| && electrons > 0
    ensures GreedyFill(electrons, table[i..]) ==
      [Filled(table[i].name, table[i].capacity, Min(electrons, table[i].capacity))]
      + GreedyFill(electrons - Min(electrons, table[i].capacity), table[i + 1..])
  {
    assert table[i..][1..] == table[i + 1..];
  }

  /** One step of a loop that walks the table: the fill so far grows by the
      entry of subshell i and the rest of the fill continues after it. */
  lemma GreedyFillAdvance(z: int, table: seq<Subshell>, done: seq<Filled>, electrons: int, i: nat)
    requires i < |table| && electrons > 0
    requires GreedyFill(z, table) == done + GreedyFill(electrons, table[i..])
    ensures var f := Filled(table[i].name, table[i].capacity, Min(electrons, table[i].capacity));
      GreedyFill(z, table) == (done + [f]) + GreedyFill(electrons - f.count, table[i + 1..])
  {
    GreedyFillStep(electrons, table, i);
  }

  /** No step is left once the electrons are used up or the table ends. */
  lemma GreedyFillDone(electrons: int, table: seq<Subshell>, i: nat)
    requires i <= |table| && (electrons <= 0 || i == |table|)
    ensures GreedyFill(electrons, table[i..]) == []
  {
  }

  /** The fill stops at the subshell where the running capacity first
      reaches the electron count: if the first n-1 subshells hold fewer
      electrons and the first n hold enough, the fill has exactly n entries,
      the first n-1 full and the last holding what remains. */
  lemma {:induction false} GreedyFillStopsAt(electrons: int, table: seq<Subshell>, n: nat)
    requires WellFormed(table)
    requires 1 <= n <= |table|
    requires PrefixCapacity(table, n - 1) < electrons <= PrefixCapacity(table, n)
    ensures var F := GreedyFill(electrons, table);
      && |F| == n
      && (forall i :: 0 <= i < n ==> F[i].sub == table[i].name && F[i].capacity == table[i].capacity)
      && (forall i :: 0 <= i < n - 1 ==> F[i].count == table[i].capacity)
      && F[n - 1].count == electrons - PrefixCapacity(table, n - 1)
  {
    var F := GreedyFill(electrons, table);
    PrefixCapacityCons(table, n);
    if n == 1 {
      assert GreedyFill(0, table[1..]) == [];
    } else {
      PrefixCapacityCons(table, n - 1);
      var rest := electrons - table[0].capacity;
      GreedyFillStopsAt(rest, table[1..], n - 1);
      var R := GreedyFill(rest, table[1..]);
      assert F == [Filled(table[0].name, table[0].capacity, table[0].capacity)] + R;
      assert forall i :: 1 <= i < n ==> F[i] == R[i - 1] && table[i] == table[1..][i - 1];
    }
  }

  /** Number of electrons a fill placed. */
  function Placed(fills: seq<Filled>): nat
  {
    if fills == [] then 0 else fills[0].count + Placed(fills[1..])
  }

  /** The content of slot k of a subshell with the given number of orbitals once
      count electrons are placed: the first pass puts one up-arrow in each of the
      first min(count, orbitals) slots, the second pass pairs slots 0, 1, ... */
  function Slot(count: nat, orbitals: nat, k: nat): (a: string)
    ensures a == Empty || a == Up || a == Paired
    ensures a == Empty <==> count <= k
    ensures a == Paired <==> k + orbitals < count
  {
    if k < count - orbitals then Paired else if k < count then Up else Empty
  }

  /** In the second pass, slot i % orbitals is slot i - orbitals. */
  lemma SecondPassSlot(i: nat, orbitals: nat)
    requires orbitals <= i < 2 * orbitals
    ensures i % orbitals == i - orbitals
    ensures Slot(i, orbitals, i - orbitals) + Down == Paired == Slot(i + 1, orbitals, i - orbitals)
  {
  }

  /** The arrow row of a subshell with the given number of orbitals holding
      count electrons. */
  function Arrows(count: nat, orbitals: nat): (a: seq<string>)
    ensures |a| == orbitals
    ensures forall k :: 0 <= k < orbitals ==> a[k] == Slot(count, orbitals, k)
  {
    seq(orbitals, k requires 0 <= k < orbitals => Slot(count, orbitals, k))
  }

  /** The row drawn for one filled subshell: capacity/2 slots. */
  function RowOf(f: Filled): (r: Row)
    ensures r.sub == f.sub && |r.arrows| == f.capacity / 2
  {
    Row(f.sub, Arrows(f.count, f.capacity / 2))
  }

  /** The rows of a fill, in fill order. */
  function Rows(fills: seq<Filled>): (rows: seq<Row>)
    ensures |rows| == |fills|
    ensures forall i :: 0 <= i < |fills| ==> rows[i] == RowOf(fills[i])
  {
    seq(|fills|, i requires 0 <= i < |fills| => RowOf(fills[i]))
  }

  lemma RowsAppend(fills: seq<Filled>, f: Filled)
    ensures Rows(fills + [f]) == Rows(fills) + [RowOf(f)]
  {
  }

  /** Electrons a slot holds: an up-arrow is one, a pair is two. */
  function Occupancy(a: string): nat
  {
    if a == Up then 1 else if a == Paired then 2 else 0
  }

  function RowOccupancy(arrows: seq<string>): nat
  {
    if arrows == [] then 0 else RowOccupancy(arrows[..|arrows| - 1]) + Occupancy(arrows[|arrows| - 1])
  }

  function TotalOccupancy(rows: seq<Row>): nat
  {
    if rows == [] then 0 else RowOccupancy(rows[0].arrows) + TotalOccupancy(rows[1..])
  }

  /** A slot as the generators leave it. */
  predicate Canonical(a: string)
  {
    a == Empty || a == Up || a == Paired
  }

  /** Hund's rule within one row: no slot is paired while another is empty. */
  predicate Hund(arrows: seq<string>)
  {
    forall j, k :: 0 <= j < |arrows| && 0 <= k < |arrows| && arrows[j] == Paired ==> arrows[k] != Empty
  }

  /** Shape of every greedy fill over a well-formed table: it follows the table
      in order, each emitted subshell has between 1 and capacity electrons, all
      but the last are full, and subshells are omitted only once the electrons
      are used up. */
  lemma {:induction false} GreedyFillShape(electrons: int, table: seq<Subshell>)
    requires WellFormed(table)
    ensures var F := GreedyFill(electrons, table);
      && |F| <= |table|
      && (forall i :: 0 <= i < |F| ==> F[i].sub == table[i].name && F[i].capacity == table[i].capacity)
      && (forall i :: 0 <= i < |F| ==> 1 <= F[i].count <= F[i].capacity)
      && (forall i :: 0 <= i < |F| - 1 ==> F[i].count == F[i].capacity)
      && (electrons > 0 && |F| < |table| ==> Placed(F) == electrons)
    decreases |table|
  {
    if table == [] || electrons <= 0 {
    } else {
      var f := Min(electrons, table[0].capacity);
      GreedyFillShape(electrons - f, table[1..]);
      var R := GreedyFill(electrons - f, table[1..]);
      var F := GreedyFill(electrons, table);
      assert F == [Filled(table[0].name, table[0].capacity, f)] + R;
      assert forall i :: 1 <= i < |F| ==> F[i] == R[i - 1] && table[i] == table[1..][i - 1];
      if R != [] {
        assert electrons - f > 0;
        assert f == table[0].capacity;
      }
    }
  }

  /** Conservation: a greedy fill places exactly min(electrons, total capacity)
      electrons (none for a non-positive count). */
  lemma {:induction false} GreedyFillConserves(electrons: int, table: seq<Subshell>)
    requires WellFormed(table)
    ensures Placed(GreedyFill(electrons, table)) == if electrons <= 0 then 0 else Min(electrons, TotalCapacity(table))
    decreases |table|
  {
    if table == [] || electrons <= 0 {
    } else {
      var f := Min(electrons, table[0].capacity);
      GreedyFillConserves(electrons - f, table[1..]);
      PrefixCapacityCons(table, |table|);
      var F := GreedyFill(electrons, table);
      assert F[1..] == GreedyFill(electrons - f, table[1..]);
    }
  }

  /** Occupancy of the first m slots of a row after count placements. */
  lemma {:induction false} SlotsOccupancy(count: nat, orbitals: nat, m: nat)
    requires m <= orbitals
    ensures RowOccupancy(Arrows(count, orbitals)[..m]) ==
      Min(count, m) + (if count <= orbitals then 0 else Min(count - orbitals, m))
  {
    if m > 0 {
      var a := Arrows(count, orbitals);
      assert a[..m][..m - 1] == a[..m - 1];
      SlotsOccupancy(count, orbitals, m - 1);
    }
  }

  /** The two-pass placement keeps every electron, leaves only canonical slots
      and obeys Hund's rule. */
  lemma ArrowsPlaceAll(count: nat, orbitals: nat)
    requires count <= 2 * orbitals
    ensures RowOccupancy(Arrows(count, orbitals)) == count
    ensures forall k :: 0 <= k < orbitals ==> Canonical(Arrows(count, orbitals)[k])
    ensures Hund(Arrows(count, orbitals))
  {
    var a := Arrows(count, orbitals);
    assert a[..orbitals] == a;
    SlotsOccupancy(count, orbitals, orbitals);
  }

  /** A row of a fill holds exactly its subshell's count and obeys Hund's rule. */
  lemma RowOfPlacesCount(f: Filled)
    requires f.count <= f.capacity && f.capacity % 2 == 0
    ensures RowOccupancy(RowOf(f).arrows) == f.count
    ensures Hund(RowOf(f).arrows)
    ensures |RowOf(f).arrows| == f.capacity / 2
  {
    ArrowsPlaceAll(f.count, f.capacity / 2);
  }

  /** The rows of a fill hold exactly the electrons the fill placed. */
  lemma {:induction false} RowsConserve(fills: seq<Filled>)
    requires forall i :: 0 <= i < |fills| ==> fills[i].count <= fills[i].capacity && fills[i].capacity % 2 == 0
    ensures TotalOccupancy(Rows(fills)) == Placed(fills)
  {
    if fills != [] {
      assert Rows(fills)[1..] == Rows(fills[1..]);
      RowsConserve(fills[1..]);
      RowOfPlacesCount(fills[0]);
    }
  }

  /** The rows of a greedy fill over a well-formed table hold min(electrons,
      total capacity) electrons, each row obeys Hund's rule, and each row is
      labelled with the table's subshell at the same position. */
  lemma FillDiagramConserves(electrons: int, table: seq<Subshell>)
    requires WellFormed(table)
    ensures var rows := Rows(GreedyFill(electrons, table));
      && TotalOccupancy(rows) == (if electrons <= 0 then 0 else Min(electrons, TotalCapacity(table)))
      && |rows| <= |table|
      && (forall i :: 0 <= i < |rows| ==> rows[i].sub == table[i].name)
      && (forall i :: 0 <= i < |rows| ==> |rows[i].arrows| == table[i].capacity / 2 && Hund(rows[i].arrows))
      && (forall i :: 0 <= i < |rows| ==> RowOccupancy(rows[i].arrows) >= 1)
  {
    var F := GreedyFill(electrons, table);
    GreedyFillShape(electrons, table);
    GreedyFillConserves(electrons, table);
    RowsConserve(F);
    forall i | 0 <= i < |F|
      ensures RowOccupancy(Rows(F)[i].arrows) == F[i].count && Hund(Rows(F)[i].arrows)
    {
      RowOfPlacesCount(F[i]);
    }
  }

  /** With at least as many electrons as the table holds, every subshell of
      the table is emitted, each one full. */
  lemma {:induction false} GreedyFillSaturates(electrons: int, table: seq<Subshell>)
    requires WellFormed(table) && electrons >= TotalCapacity(table)
    ensures var F := GreedyFill(electrons, table);
      |F| == |table| && forall i :: 0 <= i < |F| ==> F[i].count == F[i].capacity == table[i].capacity
    decreases |table|
  {
    if table != [] {
      PrefixCapacityCons(table, |table|);
      var f := Min(electrons, table[0].capacity);
      GreedyFillSaturates(electrons - f, table[1..]);
      var F := GreedyFill(electrons, table);
      assert forall i :: 1 <= i < |F| ==> F[i] == GreedyFill(electrons - f, table[1..])[i - 1];
    }
  }

  /** With at least as many electrons as the table holds, the rows of the
      fill are one per subshell of the table, with every slot paired. */
  lemma SaturatedRowsPaired(electrons: int, table: seq<Subshell>)
    requires WellFormed(table) && electrons >= TotalCapacity(table)
    ensures var rows := Rows(GreedyFill(electrons, table));
      && |rows| == |table|
      && forall i, k :: 0 <= i < |rows| && 0 <= k < |rows[i].arrows| ==> rows[i].arrows[k] == Paired
  {
    GreedyFillSaturates(electrons, table);
  }
}
