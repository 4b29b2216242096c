/** Piece geometry: the integer transforms of a piece's cell list and the
    orientations generated from its base shape. */
module Pieces {
  import opened Collections

  /** A cell offset `(dx, dy)`. */
  type Cell = (int, int)

  // ---------------------------------------------------------------------
  // Pure helpers: the per-cell comprehensions
  // ---------------------------------------------------------------------

  /** The smallest x coordinate of a non-empty cell list. */
  function MinX(cs: seq<Cell>): (m: int)
    requires cs != []
    ensures forall i :: 0 <= i < |cs| ==> m <= cs[i].0
  {
    if |cs| == 1 then cs[0].0
    else
      var m := MinX(cs[1..]);
      if cs[0].0 <= m then cs[0].0 else m
  }

  /** The smallest y coordinate of a non-empty cell list. */
  function MinY(cs: seq<Cell>): (m: int)
    requires cs != []
    ensures forall i :: 0 <= i < |cs| ==> m <= cs[i].1
  {
    if |cs| == 1 then cs[0].1
    else
      var m := MinY(cs[1..]);
      if cs[0].1 <= m then cs[0].1 else m
  }

  /** The minimum x is the x of some cell. */
  lemma {:induction false} MinXAttained(cs: seq<Cell>) returns (k: nat)
    requires cs != []
    ensures k < |cs| && cs[k].0 == MinX(cs)
  {
    if |cs| == 1 || cs[0].0 <= MinX(cs[1..]) {
      k := 0;
    } else {
      var j := MinXAttained(cs[1..]);
      k := j + 1;
    }
  }

  /** The minimum y is the y of some cell. */
  lemma {:induction false} MinYAttained(cs: seq<Cell>) returns (k: nat)
    requires cs != []
    ensures k < |cs| && cs[k].1 == MinY(cs)
  {
    if |cs| == 1 || cs[0].1 <= MinY(cs[1..]) {
      k := 0;
    } else {
      var j := MinYAttained(cs[1..]);
      k := j + 1;
    }
  }

  /** Every cell moved by (-ox, -oy), in the same order. */
  function Shift(cs: seq<Cell>, ox: int, oy: int): (r: seq<Cell>)
    ensures |r| == |cs|
  {
    if cs == [] then [] else [(cs[0].0 - ox, cs[0].1 - oy)] + Shift(cs[1..], ox, oy)
  }

  /** A quarter turn of every cell, (dx, dy) to (dy, -dx), in the same order. */
  function RotCells(cs: seq<Cell>): (r: seq<Cell>)
    ensures |r| == |cs|
  {
    if cs == [] then [] else [(cs[0].1, -cs[0].0)] + RotCells(cs[1..])
  }

  /** The mirror image of every cell, (dx, dy) to (-dx, dy), in the same order. */
  function FlipCells(cs: seq<Cell>): (r: seq<Cell>)
    ensures |r| == |cs|
  {
    if cs == [] then [] else [(-cs[0].0, cs[0].1)] + FlipCells(cs[1..])
  }

  /** Each cell is mapped on its own, in place. */
  lemma {:induction false} ShiftAt(cs: seq<Cell>, ox: int, oy: int)
    ensures forall i :: 0 <= i < |cs| ==> Shift(cs, ox, oy)[i] == (cs[i].0 - ox, cs[i].1 - oy)
  {
    if cs != [] {
      ShiftAt(cs[1..], ox, oy);
    }
  }

  lemma {:induction false} RotCellsAt(cs: seq<Cell>)
    ensures forall i :: 0 <= i < |cs| ==> RotCells(cs)[i] == (cs[i].1, -cs[i].0)
  {
    if cs != [] {
      RotCellsAt(cs[1..]);
    }
  }

  lemma {:induction false} FlipCellsAt(cs: seq<Cell>)
    ensures forall i :: 0 <= i < |cs| ==> FlipCells(cs)[i] == (-cs[i].0, cs[i].1)
  {
    if cs != [] {
      FlipCellsAt(cs[1..]);
    }
  }

  /** Unless the list is empty, the smallest x and the smallest y are both 0
      (so every coordinate is non-negative). */
  predicate IsNormal(cs: seq<Cell>)
  {
    cs != [] ==> MinX(cs) == 0 && MinY(cs) == 0
  }

  /** The offsets reposition subtracts. */
  function OffsetX(cs: seq<Cell>): (ox: int)
  {
    if cs == [] then 0 else MinX(cs)
  }

  function OffsetY(cs: seq<Cell>): (oy: int)
  {
    if cs == [] then 0 else MinY(cs)
  }

  /** What reposition leaves in `cells`: the cells in the same order, less
      the smallest x and the smallest y; an empty list is left alone. */
  function Normalized(cs: seq<Cell>): (r: seq<Cell>)
    ensures |r| == |cs|
  {
    if cs == [] then cs else Shift(cs, MinX(cs), MinY(cs))
  }

  /** rotate: a quarter turn, then reposition. */
  function Rotated(cs: seq<Cell>): (r: seq<Cell>)
    ensures |r| == |cs|
  {
    Normalized(RotCells(cs))
  }

  /** reflect: a mirror image, then reposition. */
  function Reflected(cs: seq<Cell>): (r: seq<Cell>)
    ensures |r| == |cs|
  {
    Normalized(FlipCells(cs))
  }

  // ---------------------------------------------------------------------
  // Lemmas about the transforms
  // ---------------------------------------------------------------------

  /** reposition puts the cells in normal position and keeps their order and
      their positions relative to one another. */
  lemma NormalizedMeaning(cs: seq<Cell>)
    ensures IsNormal(Normalized(cs))
    ensures forall i :: 0 <= i < |cs| ==> Normalized(cs)[i].0 >= 0 && Normalized(cs)[i].1 >= 0
    ensures forall i, j :: 0 <= i < |cs| && 0 <= j < |cs| ==>
              Normalized(cs)[i].0 - Normalized(cs)[j].0 == cs[i].0 - cs[j].0 &&
              Normalized(cs)[i].1 - Normalized(cs)[j].1 == cs[i].1 - cs[j].1
  {
    if cs != [] {
      var r := Normalized(cs);
      ShiftAt(cs, MinX(cs), MinY(cs));
      var jx := MinXAttained(cs);
      var jy := MinYAttained(cs);
      NormalByWitness(r, jx, jy);
    }
  }

  /** rotate gives a normal shape whose cells sit relative to one another as
      the originals turned a quarter: (dx, dy) becomes (dy, -dx). */
  lemma RotatedMeaning(cs: seq<Cell>)
    ensures IsNormal(Rotated(cs))
    ensures forall i, j :: 0 <= i < |cs| && 0 <= j < |cs| ==>
              Rotated(cs)[i].0 - Rotated(cs)[j].0 == cs[i].1 - cs[j].1 &&
              Rotated(cs)[i].1 - Rotated(cs)[j].1 == cs[j].0 - cs[i].0
  {
    NormalizedMeaning(RotCells(cs));
    RotCellsAt(cs);
  }

  /** reflect gives a normal shape whose cells sit relative to one another as
      the mirrored originals: (dx, dy) becomes (-dx, dy). */
  lemma ReflectedMeaning(cs: seq<Cell>)
    ensures IsNormal(Reflected(cs))
    ensures forall i, j :: 0 <= i < |cs| && 0 <= j < |cs| ==>
              Reflected(cs)[i].0 - Reflected(cs)[j].0 == cs[j].0 - cs[i].0 &&
              Reflected(cs)[i].1 - Reflected(cs)[j].1 == cs[i].1 - cs[j].1
  {
    NormalizedMeaning(FlipCells(cs));
    FlipCellsAt(cs);
  }

  /** A cell whose x is no larger than any other holds the minimum x. */
  lemma MinXIs(cs: seq<Cell>, j: nat, m: int)
    requires j < |cs| && cs[j].0 == m && forall i :: 0 <= i < |cs| ==> m <= cs[i].0
    ensures MinX(cs) == m
  {
    var k := MinXAttained(cs);
    assert m <= cs[k].0;
  }

  /** A cell whose y is no larger than any other holds the minimum y. */
  lemma MinYIs(cs: seq<Cell>, j: nat, m: int)
    requires j < |cs| && cs[j].1 == m && forall i :: 0 <= i < |cs| ==> m <= cs[i].1
    ensures MinY(cs) == m
  {
    var k := MinYAttained(cs);
    assert m <= cs[k].1;
  }

  /** Non-negative cells with a 0 in each coordinate are in normal position. */
  lemma NormalByWitness(cs: seq<Cell>, jx: nat, jy: nat)
    requires jx < |cs| && jy < |cs| && cs[jx].0 == 0 && cs[jy].1 == 0
    requires forall i :: 0 <= i < |cs| ==> cs[i].0 >= 0 && cs[i].1 >= 0
    ensures IsNormal(cs)
  {
    MinXIs(cs, jx, 0);
    MinYIs(cs, jy, 0);
  }

  /** Translating the cells moves their minima by the same amount. */
  lemma MinShift(cs: seq<Cell>, a: int, b: int)
    requires cs != []
    ensures MinX(Shift(cs, a, b)) == MinX(cs) - a
    ensures MinY(Shift(cs, a, b)) == MinY(cs) - b
  {
    var s := Shift(cs, a, b);
    ShiftAt(cs, a, b);
    var jx := MinXAttained(cs);
    var jy := MinYAttained(cs);
    MinXIs(s, jx, MinX(cs) - a);
    MinYIs(s, jy, MinY(cs) - b);
  }

  /** reposition does not depend on where the piece started. */
  lemma NormalizedShift(cs: seq<Cell>, a: int, b: int)
    ensures Normalized(Shift(cs, a, b)) == Normalized(cs)
  {
    if cs != [] {
      MinShift(cs, a, b);
      var s := Shift(cs, a, b);
      ShiftAt(cs, a, b);
      ShiftAt(s, MinX(cs) - a, MinY(cs) - b);
      ShiftAt(cs, MinX(cs), MinY(cs));
      assert Shift(s, MinX(cs) - a, MinY(cs) - b) == Shift(cs, MinX(cs), MinY(cs));
    }
  }

  /** A shape already in normal position is left where it is. */
  lemma NormalizedFixesNormal(cs: seq<Cell>)
    requires IsNormal(cs)
    ensures Normalized(cs) == cs
  {
    if cs != [] {
      ShiftAt(cs, 0, 0);
      assert Shift(cs, 0, 0) == cs;
    }
  }

  /** Repositioning twice is repositioning once. */
  lemma NormalizedIdempotent(cs: seq<Cell>)
    ensures Normalized(Normalized(cs)) == Normalized(cs)
  {
    NormalizedMeaning(cs);
    NormalizedFixesNormal(Normalized(cs));
  }

  /** The normal position of a shape is a translate of it. */
  lemma NormalizedIsShift(cs: seq<Cell>)
    ensures Normalized(cs) == Shift(cs, OffsetX(cs), OffsetY(cs))
  {
  }

  /** rotate ignores the position it starts from. */
  lemma {:induction false} RotatedIgnoresPosition(cs: seq<Cell>)
    ensures Rotated(Normalized(cs)) == Rotated(cs)
  {
    NormalizedIsShift(cs);
    var a, b := OffsetX(cs), OffsetY(cs);
    ShiftAt(cs, a, b);
    RotCellsAt(Shift(cs, a, b));
    RotCellsAt(cs);
    ShiftAt(RotCells(cs), b, -a);
    assert RotCells(Shift(cs, a, b)) == Shift(RotCells(cs), b, -a);
    NormalizedShift(RotCells(cs), b, -a);
  }

  /** reflect ignores the position it starts from. */
  lemma {:induction false} ReflectedIgnoresPosition(cs: seq<Cell>)
    ensures Reflected(Normalized(cs)) == Reflected(cs)
  {
    NormalizedIsShift(cs);
    var a, b := OffsetX(cs), OffsetY(cs);
    ShiftAt(cs, a, b);
    FlipCellsAt(Shift(cs, a, b));
    FlipCellsAt(cs);
    ShiftAt(FlipCells(cs), -a, b);
    assert FlipCells(Shift(cs, a, b)) == Shift(FlipCells(cs), -a, b);
    NormalizedShift(FlipCells(cs), -a, b);
  }

  /** Two reflections give back the shape, in normal position. */
  lemma ReflectTwice(cs: seq<Cell>)
    ensures Reflected(Reflected(cs)) == Normalized(cs)
  {
    ReflectedIgnoresPosition(FlipCells(cs));
    FlipCellsAt(cs);
    FlipCellsAt(FlipCells(cs));
    assert FlipCells(FlipCells(cs)) == cs;
  }

  /** Reflecting a normal shape twice restores it exactly. */
  lemma ReflectInvolution(cs: seq<Cell>)
    requires IsNormal(cs)
    ensures Reflected(Reflected(cs)) == cs
  {
    ReflectTwice(cs);
    NormalizedFixesNormal(cs);
  }

  /** `k` rotations of `cs`. */
  function Turned(cs: seq<Cell>, k: nat): (t: seq<Cell>)
  {
    if k == 0 then cs else Rotated(Turned(cs, k - 1))
  }

  /** `k` quarter turns without repositioning. */
  function Spun(cs: seq<Cell>, k: nat): (t: seq<Cell>)
  {
    if k == 0 then cs else RotCells(Spun(cs, k - 1))
  }

  /** After at least one rotation the cells are the plain quarter turns,
      repositioned. */
  lemma {:induction false} TurnedIsSpun(cs: seq<Cell>, k: nat)
    requires k > 0
    ensures Turned(cs, k) == Normalized(Spun(cs, k))
  {
    if k > 1 {
      TurnedIsSpun(cs, k - 1);
      RotatedIgnoresPosition(Spun(cs, k - 1));
    }
  }

  /** Four rotations give back the shape, in normal position. */
  lemma RotateFour(cs: seq<Cell>)
    ensures Turned(cs, 4) == Normalized(cs)
  {
    TurnedIsSpun(cs, 4);
    SpinFour(cs);
  }

  /** Four plain quarter turns are the identity on every cell. */
  lemma SpinFour(cs: seq<Cell>)
    ensures Spun(cs, 4) == cs
  {
    var r1 := RotCells(cs);
    var r2 := RotCells(r1);
    var r3 := RotCells(r2);
    assert Spun(cs, 1) == r1;
    assert Spun(cs, 2) == r2;
    assert Spun(cs, 3) == r3;
    assert Spun(cs, 4) == RotCells(r3);
    RotCellsAt(cs);
    RotCellsAt(r1);
    RotCellsAt(r2);
    RotCellsAt(r3);
    forall i | 0 <= i < |cs| ensures RotCells(r3)[i] == cs[i] {
    }
  }

  /** Four rotations of a normal shape restore it exactly. */
  lemma RotateFourNormal(cs: seq<Cell>)
    requires IsNormal(cs)
    ensures Turned(cs, 4) == cs
  {
    RotateFour(cs);
    NormalizedFixesNormal(cs);
  }

  // ---------------------------------------------------------------------
  // The orientations generate_configurations collects
  // ---------------------------------------------------------------------

  /** The tuples added to `configs` in the first `k` rounds: each round adds
      the current cells and their reflection. */
  function Orientations(base: seq<Cell>, k: nat): (os: seq<seq<Cell>>)
    ensures |os| == 2 * k
  {
    if k == 0 then []
    else
      var cur := Turned(base, k - 1);
      Orientations(base, k - 1) + [cur, Reflected(cur)]
  }

  /** One round of the loop, reflect, reflect and rotate, amounts to one
      rotation. */
  lemma RoundIsRotation(cs: seq<Cell>)
    ensures Rotated(Reflected(Reflected(cs))) == Rotated(cs)
  {
    ReflectTwice(cs);
    RotatedIgnoresPosition(cs);
  }

  /** What one round of generate_configurations adds, and where it leaves
      the cells. */
  lemma RoundStep(base: seq<Cell>, k: nat)
    ensures Elems(Orientations(base, k + 1)) == Elems(Orientations(base, k)) + {Turned(base, k), Reflected(Turned(base, k))}
    ensures Rotated(Reflected(Reflected(Turned(base, k)))) == Turned(base, k + 1)
  {
    var os := Orientations(base, k);
    var cur := Turned(base, k);
    assert Orientations(base, k + 1) == os + [cur, Reflected(cur)];
    assert forall o :: o in os + [cur, Reflected(cur)] <==> o in os || o == cur || o == Reflected(cur);
    RoundIsRotation(cur);
  }

  /** Every orientation has as many cells as the base shape, two are added
      per round, and the first is the base shape itself. */
  lemma {:induction false} OrientationsShape(base: seq<Cell>, k: nat)
    ensures |Orientations(base, k)| == 2 * k
    ensures forall i :: 0 <= i < 2 * k ==> |Orientations(base, k)[i]| == |base|
    ensures k > 0 ==> Orientations(base, k)[0] == base
  {
    if k > 0 {
      OrientationsShape(base, k - 1);
      TurnedLength(base, k - 1);
    }
  }

  lemma {:induction false} TurnedLength(base: seq<Cell>, k: nat)
    ensures |Turned(base, k)| == |base|
  {
    if k > 0 {
      TurnedLength(base, k - 1);
    }
  }

  /** The set of configurations has at most eight members and contains the
      base shape; each is a sequence of the base shape's length. */
  lemma ConfigurationBounds(base: seq<Cell>)
    ensures |Elems(Orientations(base, 4))| <= 8
    ensures base in Elems(Orientations(base, 4))
    ensures forall o :: o in Elems(Orientations(base, 4)) ==> |o| == |base|
  {
    OrientationsShape(base, 4);
    ElemsCard(Orientations(base, 4));
    assert Orientations(base, 4)[0] == base;
  }

  /** From a normal base shape every configuration is normal. */
  lemma {:induction false} OrientationsNormal(base: seq<Cell>, k: nat)
    requires IsNormal(base)
    ensures forall o :: o in Orientations(base, k) ==> IsNormal(o)
  {
    if k > 0 {
      OrientationsNormal(base, k - 1);
      var cur := Turned(base, k - 1);
      if k > 1 {
        RotatedMeaning(Turned(base, k - 2));
      }
      ReflectedMeaning(cur);
    }
  }

  // ---------------------------------------------------------------------
  // The fixed shapes
  // ---------------------------------------------------------------------

  const PieceA: seq<Cell> := [(0, 0), (1, 0), (0, 1), (1, 1)]
  const PieceB: seq<Cell> := [(1, 0), (0, 1), (1, 1), (2, 1), (1, 2)]
  const PieceC: seq<Cell> := [(0, 0), (1, 0), (0, 1), (0, 2), (1, 2)]
  const PieceD: seq<Cell> := [(2, 0), (0, 1), (1, 1), (2, 1), (0, 2)]
  const PieceE: seq<Cell> := [(1, 0), (0, 1), (1, 1), (0, 2)]
  const PieceF: seq<Cell> := [(0, 0), (0, 1), (1, 1), (0, 2)]
  const PieceG: seq<Cell> := [(0, 0), (1, 0), (0, 1), (1, 1), (0, 2)]
  const PieceH: seq<Cell> := [(0, 0), (1, 0), (0, 1), (0, 2)]
  const PieceI: seq<Cell> := [(0, 0), (1, 0), (0, 1), (0, 2), (0, 3)]

  /** The fixed shapes PieceA to PieceI. */
  const FixedShapes: seq<seq<Cell>> := [PieceA, PieceB, PieceC, PieceD, PieceE, PieceF, PieceG, PieceH, PieceI]

  /** Every fixed shape is given in normal position. */
  lemma FixedShapesNormal(p: seq<Cell>)
    requires p in FixedShapes
    ensures IsNormal(p)
  {
    if p == PieceA {
      NormalByWitness(PieceA, 0, 0);
    } else if p == PieceB {
      NormalByWitness(PieceB, 1, 0);
    } else if p == PieceC {
      NormalByWitness(PieceC, 0, 0);
    } else if p == PieceD {
      NormalByWitness(PieceD, 1, 0);
    } else if p == PieceE {
      NormalByWitness(PieceE, 1, 0);
    } else if p == PieceF {
      NormalByWitness(PieceF, 0, 0);
    } else if p == PieceG {
      NormalByWitness(PieceG, 0, 0);
    } else if p == PieceH {
      NormalByWitness(PieceH, 0, 0);
    } else {
      NormalByWitness(PieceI, 0, 0);
    }
  }

  /** So every configuration generated from a fixed shape is normal. */
  lemma FixedShapeConfigurationsNormal(p: seq<Cell>)
    requires p in FixedShapes
    ensures forall o :: o in Orientations(p, 4) ==> IsNormal(o)
  {
    FixedShapesNormal(p);
    OrientationsNormal(p, 4);
  }

  /** The first two rounds add the base shape and its rotation. */
  lemma {:induction false} OrientationsHoldTurns(base: seq<Cell>)
    ensures base in Elems(Orientations(base, 4)) && Rotated(base) in Elems(Orientations(base, 4))
  {
    assert Orientations(base, 4) == Orientations(base, 3) + [Turned(base, 3), Reflected(Turned(base, 3))];
    assert Orientations(base, 3) == Orientations(base, 2) + [Turned(base, 2), Reflected(Turned(base, 2))];
    assert Orientations(base, 2) == Orientations(base, 1) + [Turned(base, 1), Reflected(Turned(base, 1))];
    assert Orientations(base, 1) == [base, Reflected(base)];
    assert Orientations(base, 4)[0] == base && Orientations(base, 4)[2] == Rotated(base);
  }

  /** A shape whose rotation is a different sequence yields at least two
      configurations. */
  lemma TwoConfigurations(base: seq<Cell>)
    requires Rotated(base) != base
    ensures |Elems(Orientations(base, 4))| >= 2
  {
    OrientationsHoldTurns(base);
    assert {base, Rotated(base)} <= Elems(Orientations(base, 4));
    SubsetCard({base, Rotated(base)}, Elems(Orientations(base, 4)));
  }

  /** Turning the square lists the same four cells in another order. */
  lemma SquareRotation()
    ensures Rotated(PieceA) == [(0, 1), (0, 0), (1, 1), (1, 0)]
  {
    var r := RotCells(PieceA);
    RotCellsAt(PieceA);
    assert r == [(0, 0), (0, -1), (1, 0), (1, -1)];
    MinXIs(r, 0, 0);
    MinYIs(r, 1, -1);
    ShiftAt(r, 0, -1);
  }

  /** Configurations are told apart as sequences, not as shapes: the square
      has one shape but at least two configurations. */
  lemma SquareRepeatsShape()
    ensures Rotated(PieceA) != PieceA && Elems(Rotated(PieceA)) == Elems(PieceA)
    ensures |Elems(Orientations(PieceA, 4))| >= 2
  {
    SquareRotation();
    assert Rotated(PieceA)[0] != PieceA[0];
    TwoConfigurations(PieceA);
  }

  // ---------------------------------------------------------------------
  // The piece object
  // ---------------------------------------------------------------------

  /** The set of configurations of `base`, listed once each in some order. */
  ghost predicate IsConfigurationList(base: seq<Cell>, configs: seq<seq<Cell>>)
  {
    Elems(configs) == Elems(Orientations(base, 4)) && Distinct(configs)
  }

  /** A configuration list has at most eight entries, all as long as the
      base, and the base is one of them. */
  lemma ConfigurationListBounds(base: seq<Cell>, configs: seq<seq<Cell>>)
    requires IsConfigurationList(base, configs)
    ensures |configs| <= 8 && base in configs
    ensures forall o :: o in configs ==> |o| == |base|
  {
    ConfigurationBounds(base);
    DistinctCard(configs);
  }

  class Piece {
    const baseCells: seq<Cell>
    var cells: seq<Cell>
    var configurations: seq<seq<Cell>>

    constructor (cells: seq<Cell>)
      ensures baseCells == cells && this.cells == cells
      ensures IsConfigurationList(cells, configurations)
      ensures |configurations| <= 8 && cells in configurations
      ensures forall o :: o in configurations ==> |o| == |cells|
    {
      baseCells := cells;
      this.cells := cells;
      configurations := [];
      new;
      configurations := GenerateConfigurations();
      ConfigurationListBounds(cells, configurations);
    }

    /** rotate: turn the cells a quarter and reposition them. */
    method Rotate()
      modifies this
      ensures cells == Rotated(old(cells)) && configurations == old(configurations)
    {
      cells := RotCells(cells);
      Reposition();
    }

    /** reflect: mirror the cells and reposition them. */
    method Reflect()
      modifies this
      ensures cells == Reflected(old(cells)) && configurations == old(configurations)
    {
      cells := FlipCells(cells);
      Reposition();
    }

    /** reposition: translate the cells so that the minimum x and y are 0. */
    method Reposition()
      modifies this
      ensures cells == Normalized(old(cells)) && configurations == old(configurations)
    {
      if cells == [] {
        return;
      }
      var minX := MinX(cells);
      var minY := MinY(cells);
      cells := Shift(cells, minX, minY);
    }

    /** reset: back to the base shape. */
    method Reset()
      modifies this
      ensures cells == baseCells && configurations == old(configurations)
    {
      cells := baseCells;
    }

    /** generate_configurations: four rounds, each adding the current cells
        and their reflection to a set, then turning the piece; the cells end
        as the base shape. */
    method GenerateConfigurations() returns (configs: seq<seq<Cell>>)
      modifies this
      ensures cells == baseCells && configurations == old(configurations)
      ensures IsConfigurationList(baseCells, configs)
      ensures |configs| <= 8 && baseCells in configs
      ensures forall o :: o in configs ==> |o| == |baseCells|
    {
      var found: set<seq<Cell>> := {};
      Reset();
      for k := 0 to 4
        invariant cells == Turned(baseCells, k)
        invariant found == Elems(Orientations(baseCells, k))
        invariant configurations == old(configurations)
      {
        var current := cells;
        found := found + {current};
        Reflect();
        found := found + {cells};
        Reflect();
        Rotate();
        RoundStep(baseCells, k);
      }
      Reset();
      configs := ListOf(found);
      ConfigurationListBounds(baseCells, configs);
    }
  }
}
