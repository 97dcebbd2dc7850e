/** build_pressure_matrix, the Gauss-Jordan path of solve_pressure_circuit, and flow_rate (microchannel.c). */
module PressureState {
  import opened RealMatrix
  import opened Lup
  import opened LupState
  import opened GaussJordan
  import opened GaussJordanState
  import opened PressureCircuit

  ghost predicate Rectangular(cells: seq<seq<int>>, nr: nat, nc: nat) {
    |cells| == nr && forall i :: 0 <= i < nr ==> |cells[i]| == nc
  }

  predicate Before(p: Cell, q: Cell) {
    p.0 < q.0 || (p.0 == q.0 && p.1 < q.1)
  }

  /** The nodes found before cell q, numbered in row-major order. */
  ghost predicate NumberedUpTo(cells: seq<seq<int>>, order: seq<Cell>, q: Cell) {
    && (forall k :: 0 <= k < |order| ==> IsFluid(cells, order[k]) && Before(order[k], q))
    && (forall k, l :: 0 <= k < l < |order| ==> Before(order[k], order[l]))
    && (forall p: Cell :: IsFluid(cells, p) && Before(p, q) ==> p in order)
  }

  ghost predicate MapsCell(cells: seq<seq<int>>, order: seq<Cell>, m: int, p: Cell) {
    if IsFluid(cells, p) then 0 <= m < |order| && order[m] == p else m == -1
  }

  lemma NumberNext(cells: seq<seq<int>>, order: seq<Cell>, i: int, j: int)
    requires NumberedUpTo(cells, order, (i, j))
    ensures IsFluid(cells, (i, j)) ==> NumberedUpTo(cells, order + [(i, j)], (i, j + 1))
    ensures !IsFluid(cells, (i, j)) ==> NumberedUpTo(cells, order, (i, j + 1))
  {
    hide IsFluid;
    var order' := if IsFluid(cells, (i, j)) then order + [(i, j)] else order;
    forall p: Cell | IsFluid(cells, p) && Before(p, (i, j + 1)) ensures p in order' {
      if p == (i, j) {
        assert order'[|order|] == p;
      } else {
        assert Before(p, (i, j)) && p in order;
      }
    }
  }

  lemma NumberNextRow(cells: seq<seq<int>>, order: seq<Cell>, i: int, nr: nat, nc: nat)
    requires Rectangular(cells, nr, nc) && 0 <= i < nr && NumberedUpTo(cells, order, (i, nc))
    ensures NumberedUpTo(cells, order, (i + 1, 0))
  {
    forall p: Cell | IsFluid(cells, p) && Before(p, (i + 1, 0)) ensures p in order {
      assert Before(p, (i, nc));
    }
  }

  /** The numbering loop: mapping holds each fluid cell's node, -1 elsewhere. */
  method NumberCells(cells: seq<seq<int>>, nr: nat, nc: nat) returns (mapping: array2<int>, n: nat, ghost order: seq<Cell>)
    requires Rectangular(cells, nr, nc)
    ensures fresh(mapping) && mapping.Length0 == nr && mapping.Length1 == nc
    ensures n == |order| && NumberedUpTo(cells, order, (nr, 0))
    ensures forall i, j :: 0 <= i < nr && 0 <= j < nc ==> MapsCell(cells, order, mapping[i, j], (i, j))
  {
    hide IsFluid;
    hide NumberedUpTo;
    hide Rectangular;
    mapping := new int[nr, nc];
    n, order := 0, [];
    NothingNumbered(cells);
    for i := 0 to nr
      invariant n == |order| && NumberedUpTo(cells, order, (i, 0))
      invariant forall h, q :: 0 <= h < i && 0 <= q < nc ==> MapsCell(cells, order, mapping[h, q], (h, q))
    {
      for j := 0 to nc
        invariant n == |order| && NumberedUpTo(cells, order, (i, j))
        invariant forall h, q :: 0 <= h < nr && 0 <= q < nc && Before((h, q), (i, j)) ==>
          MapsCell(cells, order, mapping[h, q], (h, q))
      {
        NumberNext(cells, order, i, j);
        if IsFluid(cells, (i, j)) {
          mapping[i, j] := n;
          n := n + 1;
          order := order + [(i, j)];
        } else {
          mapping[i, j] := -1;
        }
      }
      NumberNextRow(cells, order, i, nr, nc);
    }
  }

  lemma NothingNumbered(cells: seq<seq<int>>)
    ensures NumberedUpTo(cells, [], (0, 0))
  {
  }

  lemma AllNumbered(net: Network, nr: nat, nc: nat)
    requires Rectangular(net.cells, nr, nc) && net.c > 0.0 && NumberedUpTo(net.cells, net.order, (nr, 0))
    ensures Numbered(net)
  {
    forall p: Cell | IsFluid(net.cells, p) ensures p in net.order {
      assert Before(p, (nr, 0));
    }
  }

  // ---------------------------------------------------------------- filling the matrix

  ghost predicate RowBlank(a: array2<real>, b: array<real>, k: int)
    requires a.Length0 == a.Length1 == b.Length && 0 <= k < b.Length
    reads a, b
  {
    b[k] == 0.0 && forall l :: 0 <= l < b.Length ==> a[k, l] == 0.0
  }

  ghost predicate RowDone(net: Network, a: array2<real>, b: array<real>, k: int)
    requires a.Length0 == a.Length1 == b.Length && 0 <= k < b.Length
    reads a, b
  {
    b[k] == Rhs(net, k) && forall l :: 0 <= l < b.Length ==> a[k, l] == Entry(net, k, l)
  }

  ghost predicate Maps(net: Network, mapping: array2<int>)
    reads mapping
  {
    && Rectangular(net.cells, mapping.Length0, mapping.Length1)
    && forall i, j :: 0 <= i < mapping.Length0 && 0 <= j < mapping.Length1 ==>
      MapsCell(net.cells, net.order, mapping[i, j], (i, j))
  }

  /** What the row of node k holds once the sides below d have been looked at. */
  function PartialEntry(net: Network, k: int, l: int, d: int): real {
    if IsFluid(net.cells, CellOf(net, l)) && exists e | 0 <= e < 4 :: e < d && CellOf(net, l) == Neighbour(CellOf(net, k), e)
    then -net.c else 0.0
  }

  /** One of the four neighbour checks of the builder. */
  method ConnectSide(ghost net: Network, cells: seq<seq<int>>, hydro: real, mapping: array2<int>, a: array2<real>, k: int, ghost d: int,
                     q: Cell, diagonal: real) returns (diagonal': real)
    requires net.cells == cells && hydro == -net.c && Numbered(net) && Maps(net, mapping) && a.Length0 == a.Length1 == |net.order|
    requires 0 <= k < |net.order| && 0 <= d < 4 && q == Neighbour(net.order[k], d)
    requires forall l :: 0 <= l < |net.order| ==> a[k, l] == PartialEntry(net, k, l, d)
    modifies a
    ensures diagonal' == diagonal - Conducts(net, net.order[k], d)
    ensures forall l :: 0 <= l < |net.order| ==> a[k, l] == PartialEntry(net, k, l, d + 1)
    ensures forall h, l :: 0 <= h < |net.order| && 0 <= l < |net.order| && h != k ==> a[h, l] == old(a[h, l])
  {
    hide IsFluid;
    hide PartialEntry;
    hide Numbered;
    hide Neighbour;
    diagonal' := diagonal;
    ghost var p := net.order[k];
    NodeIsInverse(net, q);
    forall l | 0 <= l < |net.order|
      ensures a[k, l] == PartialEntry(net, k, l, d)
      ensures PartialEntry(net, k, l, d + 1)
           == if IsFluid(net.cells, q) && l == Node(net, q) then -net.c else PartialEntry(net, k, l, d)
    {
      PartialStep(net, k, l, d);
      NodeIsInverse(net, q);
    }
    if IsFluid(cells, q) {
      MappedNode(net, mapping, q);
      a[k, mapping[q.0, q.1]] := hydro;
      diagonal' := diagonal + hydro;
    }
    forall l | 0 <= l < |net.order| ensures a[k, l] == PartialEntry(net, k, l, d + 1) {
      assert old(a[k, l]) == PartialEntry(net, k, l, d);
    }
  }

  lemma MappedNode(net: Network, mapping: array2<int>, q: Cell)
    requires Numbered(net) && Maps(net, mapping) && IsFluid(net.cells, q)
    ensures 0 <= q.0 < mapping.Length0 && 0 <= q.1 < mapping.Length1 && mapping[q.0, q.1] == Node(net, q)
  {
    assert MapsCell(net.cells, net.order, mapping[q.0, q.1], (q.0, q.1));
    NodeIsInverse(net, q);
  }

  lemma PartialStep(net: Network, k: int, l: int, d: int)
    requires 0 <= d < 4
    ensures PartialEntry(net, k, l, d + 1)
         == if CellOf(net, l) == Neighbour(CellOf(net, k), d) && IsFluid(net.cells, CellOf(net, l)) then -net.c
            else PartialEntry(net, k, l, d)
  {
    hide Neighbour;
    hide IsFluid;
    hide CellOf;
  }

  lemma PartialEnds(net: Network, k: int, l: int)
    requires Numbered(net) && 0 <= k < |net.order| && 0 <= l < |net.order|
    ensures PartialEntry(net, k, l, 0) == 0.0
    ensures Kind(net.cells, net.order[k]) == FLUID && k != l ==> PartialEntry(net, k, l, 4) == Entry(net, k, l)
  {
    hide Neighbour;
    assert IsFluid(net.cells, CellOf(net, l));
    if Adjacent(CellOf(net, k), CellOf(net, l)) {
      var e :| 0 <= e < 4 && CellOf(net, l) == Neighbour(CellOf(net, k), e);
    }
  }

  /** The part of the builder that treats one cell. */
  method FillRow(ghost net: Network, cells: seq<seq<int>>, c: real, pressure: real, mapping: array2<int>, a: array2<real>, b: array<real>,
                 i: int, j: int)
    requires net == Network(cells, net.order, c, pressure) && Numbered(net) && Maps(net, mapping) && a.Length0 == a.Length1 == b.Length == |net.order|
    requires 0 <= i < mapping.Length0 && 0 <= j < mapping.Length1
    requires IsFluid(net.cells, (i, j)) ==> RowBlank(a, b, Node(net, (i, j)))
    modifies a, b
    ensures IsFluid(net.cells, (i, j)) ==> RowDone(net, a, b, Node(net, (i, j)))
    ensures forall h :: 0 <= h < b.Length && (IsFluid(net.cells, (i, j)) ==> h != Node(net, (i, j))) ==>
      b[h] == old(b[h]) && forall l :: 0 <= l < b.Length ==> a[h, l] == old(a[h, l])
  {
    hide PartialEntry;
    hide Entry;
    hide Numbered;
    hide Node;
    hide Maps;
    hide Neighbour;
    if IsFluid(cells, (i, j)) {
      NodeIsInverse(net, (i, j));
      MappedNode(net, mapping, (i, j));
      var k := mapping[i, j];
      forall l | 0 <= l < b.Length
        ensures PartialEntry(net, k, l, 0) == 0.0
        ensures Kind(net.cells, net.order[k]) == FLUID && k != l ==> PartialEntry(net, k, l, 4) == Entry(net, k, l)
      {
        PartialEnds(net, k, l);
      }
      PlainEntries(net, k);
      if Kind(cells, (i, j)) == FLUID {
        Compass(i, j);
        var diagonal := ConnectSide(net, cells, -c, mapping, a, k, 0, (i - 1, j), 0.0);
        diagonal := ConnectSide(net, cells, -c, mapping, a, k, 1, (i + 1, j), diagonal);
        diagonal := ConnectSide(net, cells, -c, mapping, a, k, 2, (i, j - 1), diagonal);
        diagonal := ConnectSide(net, cells, -c, mapping, a, k, 3, (i, j + 1), diagonal);
        a[k, k] := -diagonal;
      }
      if Kind(cells, (i, j)) == INLET {
        a[k, k] := 1.0;
        b[k] := pressure;
      } else if Kind(cells, (i, j)) == OUTLET {
        a[k, k] := 1.0;
      }
    }
  }

  lemma Compass(i: int, j: int)
    ensures Neighbour((i, j), 0) == (i - 1, j) && Neighbour((i, j), 1) == (i + 1, j)
    ensures Neighbour((i, j), 2) == (i, j - 1) && Neighbour((i, j), 3) == (i, j + 1)
  {
  }

  lemma PlainEntries(net: Network, k: int)
    requires 0 <= k < |net.order|
    ensures Kind(net.cells, net.order[k]) == FLUID ==> Entry(net, k, k) == Diagonal(net, net.order[k])
    ensures Kind(net.cells, net.order[k]) != FLUID ==> forall l :: Entry(net, k, l) == if k == l then 1.0 else 0.0
  {
  }

  /** Rows of the nodes before cell q are done, the others still blank. */
  ghost predicate FilledUpTo(net: Network, a: array2<real>, b: array<real>, q: Cell)
    requires a.Length0 == a.Length1 == b.Length == |net.order|
    reads a, b
  {
    forall k :: 0 <= k < |net.order| ==> if Before(net.order[k], q) then RowDone(net, a, b, k) else RowBlank(a, b, k)
  }

  lemma FilledIsSystem(net: Network, a: array2<real>, b: array<real>, nr: nat, nc: nat)
    requires Rectangular(net.cells, nr, nc) && Numbered(net)
    requires a.Length0 == a.Length1 == b.Length == |net.order| && FilledUpTo(net, a, b, (nr, 0))
    ensures IsSystem(net, Rows(a), b[..])
  {
    hide Entry;
    hide Rhs;
    hide IsFluid;
    var n := |net.order|;
    forall k | 0 <= k < n ensures RowDone(net, a, b, k) {
      FluidInRange(net, nr, nc, k);
    }
    forall k, l | 0 <= k < n && 0 <= l < n ensures At(Rows(a), k, l) == Entry(net, k, l) {
      assert RowDone(net, a, b, k);
    }
    forall k | 0 <= k < n ensures Elem(b[..], k) == Rhs(net, k) {
      assert RowDone(net, a, b, k);
    }
  }

  lemma FluidInRange(net: Network, nr: nat, nc: nat, k: int)
    requires Rectangular(net.cells, nr, nc) && Numbered(net) && 0 <= k < |net.order|
    ensures Before(net.order[k], (nr, 0)) && 0 <= net.order[k].0 < nr && 0 <= net.order[k].1 < nc
  {
    assert IsFluid(net.cells, net.order[k]);
  }

  /** Filling one cell's row advances the boundary by one cell. */
  method FillCell(ghost net: Network, cells: seq<seq<int>>, c: real, pressure: real, mapping: array2<int>, a: array2<real>, b: array<real>,
                 i: int, j: int)
    requires net == Network(cells, net.order, c, pressure) && Numbered(net) && Maps(net, mapping) && a.Length0 == a.Length1 == b.Length == |net.order|
    requires 0 <= i < mapping.Length0 && 0 <= j < mapping.Length1 && FilledUpTo(net, a, b, (i, j))
    modifies a, b
    ensures FilledUpTo(net, a, b, (i, j + 1))
  {
    hide IsFluid;
    hide Numbered;
    hide Node;
    hide Maps;
    hide Rhs;
    hide Entry;
    NodeIsInverse(net, (i, j));
    FillRow(net, cells, c, pressure, mapping, a, b, i, j);
    forall k | 0 <= k < |net.order|
      ensures if Before(net.order[k], (i, j + 1)) then RowDone(net, a, b, k) else RowBlank(a, b, k)
    {
      assert CellOf(net, k) == net.order[k];
      assert old(if Before(net.order[k], (i, j)) then RowDone(net, a, b, k) else RowBlank(a, b, k));
    }
  }

  /** The matrix loops of build_pressure_matrix. */
  method FillMatrix(ghost net: Network, cells: seq<seq<int>>, c: real, pressure: real, mapping: array2<int>, n: nat)
    returns (a: array2<real>, b: array<real>)
    requires net == Network(cells, net.order, c, pressure) && Numbered(net) && Maps(net, mapping) && n == |net.order|
    ensures fresh(a) && fresh(b) && IsSystem(net, Rows(a), b[..])
    ensures a.Length0 == a.Length1 == b.Length == |net.order|
  {
    hide IsFluid;
    hide Numbered;
    hide RowDone;
    a := new real[n, n]((i, j) => 0.0);
    b := new real[n](i => 0.0);
    forall k | 0 <= k < n ensures !Before(net.order[k], (0, 0)) {
      FluidInRange(net, mapping.Length0, mapping.Length1, k);
    }
    for i := 0 to mapping.Length0
      invariant FilledUpTo(net, a, b, (i, 0))
    {
      for j := 0 to mapping.Length1
        invariant FilledUpTo(net, a, b, (i, j))
      {
        FillCell(net, cells, c, pressure, mapping, a, b, i, j);
      }
      forall k | 0 <= k < n ensures Before(net.order[k], (i, mapping.Length1)) <==> Before(net.order[k], (i + 1, 0)) {
        FluidInRange(net, mapping.Length0, mapping.Length1, k);
      }
    }
    FilledIsSystem(net, a, b, mapping.Length0, mapping.Length1);
  }

  /** The pressure-circuit part of microchannel_config_t. */
  class Microchannel {
    const cells: seq<seq<int>>
    const numRows: nat
    const numColumns: nat
    const thickness: real
    const width: real
    const height: real
    const viscosity: real
    const pumpingPressure: real
    var mapping: array2<int>
    var a: array2<real>
    var b: array<real>
    var nFluidCells: nat
    ghost var order: seq<Cell>

    ghost predicate Valid() {
      && Rectangular(cells, numRows, numColumns)
      && thickness > 0.0 && width > 0.0 && height > 0.0 && viscosity > 0.0
    }

    constructor (cells: seq<seq<int>>, numRows: nat, numColumns: nat, thickness: real, width: real, height: real,
                 viscosity: real, pumpingPressure: real)
      requires Rectangular(cells, numRows, numColumns)
      requires thickness > 0.0 && width > 0.0 && height > 0.0 && viscosity > 0.0
      ensures Valid() && this.cells == cells && this.numRows == numRows && this.numColumns == numColumns
      ensures this.thickness == thickness && this.width == width && this.height == height
      ensures this.viscosity == viscosity && this.pumpingPressure == pumpingPressure
    {
      this.cells, this.numRows, this.numColumns := cells, numRows, numColumns;
      this.thickness, this.width, this.height := thickness, width, height;
      this.viscosity, this.pumpingPressure := viscosity, pumpingPressure;
      mapping := new int[0, 0];
      a := new real[0, 0];
      b := new real[0];
      nFluidCells, order := 0, [];
    }

    ghost function Net(): Network
      requires thickness > 0.0 && width > 0.0 && height > 0.0 && viscosity > 0.0
      reads this
    {
      Network(cells, order, HydroC(thickness, width, height, viscosity), pumpingPressure)
    }

    /** The circuit has been numbered; b holds right-hand sides or, later, pressures. */
    ghost predicate Built()
      reads this, mapping
    {
      && Valid() && nFluidCells == |order| == a.Length0 == a.Length1 == b.Length
      && mapping.Length0 == numRows && mapping.Length1 == numColumns
      && Numbered(Net()) && Maps(Net(), mapping)
    }

    method BuildPressureMatrix()
      requires Valid()
      modifies this
      ensures Built() && fresh(a) && fresh(b) && fresh(mapping)
      ensures IsSystem(Net(), Rows(a), b[..])
    {
      hide IsSystem;
      hide NumberedUpTo;
      hide IsFluid;
      var m, n, found := NumberCells(cells, numRows, numColumns);
      HydroIsPositive(thickness, width, height, viscosity);
      mapping, nFluidCells, order := m, n, found;
      AllNumbered(Net(), numRows, numColumns);
      a, b := FillMatrix(Net(), cells, HydroC(thickness, width, height, viscosity), pumpingPressure, mapping, n);
    }

    /** solve_pressure_circuit, the gaussj path: it goes through exactly when every fluid cell is connected to a
        port, and then b holds pressures under which flow is conserved. */
    method SolvePressureCircuit() returns (ok: bool)
      requires Built() && IsSystem(Net(), Rows(a), b[..])
      modifies a, b
      ensures Built()
      ensures ok <==> AllGrounded(cells)
      ensures ok ==> Balanced(Net(), b[..])
      ensures ok ==> FlowFrom(Net(), b[..], INLET) == -FlowFrom(Net(), b[..], OUTLET)
      ensures ok ==> forall p: Cell :: IsPort(cells, p) ==>
        PressureAt(Net(), b[..], p) == if Kind(cells, p) == INLET then pumpingPressure else 0.0
      ensures ok && pumpingPressure >= 0.0 ==>
        forall p: Cell :: IsFluid(cells, p) ==> 0.0 <= PressureAt(Net(), b[..], p) <= pumpingPressure
      ensures ok && pumpingPressure >= 0.0 ==> FlowFrom(Net(), b[..], INLET) >= 0.0
    {
      hide IsSystem;
      hide Numbered;
      hide Maps;
      hide AllGrounded;
      hide PressureAt;
      hide TrivialKernel;
      hide Solves;
      hide Balanced;
      hide FlowFrom;
      ghost var net, a0, b0 := Net(), Rows(a), b[..];
      SolvableIffGrounded(net, a0, b0);
      ok := Gaussj(a, b);
      if ok {
        ghost var x := b[..];
        SolutionIsBalanced(net, a0, b0, x);
        InletsFeedOutlets(net, a0, b0, x);
        forall p: Cell | IsPort(cells, p)
          ensures PressureAt(net, x, p) == if Kind(cells, p) == INLET then pumpingPressure else 0.0
        {
          PortPressure(net, a0, b0, x, p);
        }
        if pumpingPressure >= 0.0 {
          PressuresAreBounded(net, a0, b0, x);
          InletsPump(net, a0, b0, x);
        }
      }
    }

    /** What one pair of neighbouring cells conducts: thickness and width are the sides of the duct, height is its length. */
    ghost function Duct(): real
      requires Valid()
      reads this
    {
      var s, l := if thickness <= width then thickness else width, if thickness <= width then width else thickness;
      Shape(s, l) * Slit(s, l, height, viscosity)
    }

    lemma NetIsDuct()
      requires Valid()
      ensures Net().c == Duct()
    {
      hide HydroC;
      hide Shape;
      hide Slit;
      if thickness <= width {
        HydroIsReducedSlit(thickness, width, height, viscosity);
      } else {
        HydroIsReducedSlit(width, thickness, height, viscosity);
      }
    }

    /** flow_rate: the pressure drop from the first cell to the second times what the duct between them conducts. */
    method FlowRateBetween(i: int, j: int, i': int, j': int) returns (rate: real)
      requires Built() && IsFluid(cells, (i, j)) && IsFluid(cells, (i', j'))
      ensures rate == FlowRate(Net(), b[..], (i, j), (i', j'))
      ensures rate == (PressureAt(Net(), b[..], (i, j)) - PressureAt(Net(), b[..], (i', j'))) * Duct()
    {
      hide HydroC;
      hide Duct;
      NetIsDuct();
      hide Numbered;
      hide Maps;
      hide IsFluid;
      hide Node;
      MappedNode(Net(), mapping, (i, j));
      MappedNode(Net(), mapping, (i', j'));
      NodeIsInverse(Net(), (i, j));
      NodeIsInverse(Net(), (i', j'));
      rate := (b[mapping[i, j]] - b[mapping[i', j']]) * HydroC(thickness, width, height, viscosity);
    }
  }
}
