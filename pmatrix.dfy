/** The table of conventional-to-primitive transformation matrices (P, invP),
    keyed by Bravais-lattice symbol (get_P_matrix), and the volume ratio
    det(invP) that the primitive-cell reduction derives from it. */
module PMatrix {
  import opened Outcomes
  import opened LinAlg

  /** P turns the conventional basis into the primitive one, (a_P, b_P, c_P) = (a, b, c) P;
      invP = P^-1 turns conventional fractional coordinates into primitive ones. */
  datatype PPair = PPair(P: Mat3, invP: Mat3)

  /** The fourteen symbols the table accepts: crystal-family letter, then centring letter. */
  const BravaisSymbols: set<string> :=
    {"cP", "cF", "cI", "tP", "tI", "hP", "hR", "oP", "oF", "oI", "oC", "oA", "mP", "mC"}

  /** Number of lattice points in a conventional cell with the given centring:
      primitive 1, one-face or body centred 2, rhombohedral 3, all-face centred 4. */
  function Multiplicity(centring: char): nat
  {
    match centring
    case 'P' => 1
    case 'A' | 'B' | 'C' | 'I' => 2
    case 'R' => 3
    case 'F' => 4
    case _ => 0
  }

  /** An entry of invP: -1, 0 or 1. */
  predicate IsUnitEntry(e: real)
  {
    e == -1.0 || e == 0.0 || e == 1.0
  }

  /** An entry of P: an integer between -1 and 1, or a multiple of one half or one third
      between -1 and 1 (the rhombohedral P has entries +-2/3). */
  predicate IsPEntry(e: real)
  {
    || e == 0.0 || e == 1.0 || e == -1.0 || e == 0.5 || e == -0.5
    || e == 1.0 / 3.0 || e == -1.0 / 3.0 || e == 2.0 / 3.0 || e == -2.0 / 3.0
  }

  predicate UnitRow(v: Vec3) { IsUnitEntry(v.x) && IsUnitEntry(v.y) && IsUnitEntry(v.z) }
  predicate PRow(v: Vec3) { IsPEntry(v.x) && IsPEntry(v.y) && IsPEntry(v.z) }

  /** invP is exactly the inverse of P, on both sides. */
  predicate Inverses(pr: PPair)
  {
    Mul(pr.P, pr.invP) == Identity && Mul(pr.invP, pr.P) == Identity
  }

  /** Every entry of the matrix is -1, 0 or 1. */
  predicate UnitEntries(m: Mat3)
  {
    UnitRow(m.r0) && UnitRow(m.r1) && UnitRow(m.r2)
  }

  /** Every entry of the matrix is an integer, a half or a third (see IsPEntry). */
  predicate RationalEntries(m: Mat3)
  {
    PRow(m.r0) && PRow(m.r1) && PRow(m.r2)
  }

  /** The properties every pair of the table has; `points` is det(invP). */
  predicate WellFormed(pr: PPair, points: nat)
  {
    Inverses(pr) && UnitEntries(pr.invP) && RationalEntries(pr.P) && Det(pr.invP) == points as real
  }

  /** The seven distinct pairs of the table; several symbols share one. */
  datatype PairKind = Primitive | FaceCentred | BodyCentred | Rhombohedral | OrthoC | OrthoA | MonoC

  /** The branch of get_P_matrix a symbol takes (spg_mapping.py lines 143-210). */
  function KindOf(bravais: string): (r: Result<PairKind>)
    ensures r.Ok? <==> bravais in BravaisSymbols
  {
    if bravais in {"cP", "tP", "hP", "oP", "mP"} then Ok(Primitive)
    else if bravais in {"cF", "oF"} then Ok(FaceCentred)
    else if bravais in {"cI", "tI", "oI"} then Ok(BodyCentred)
    else if bravais == "hR" then Ok(Rhombohedral)
    else if bravais == "oC" then Ok(OrthoC)
    else if bravais == "oA" then Ok(OrthoA)
    else if bravais == "mC" then Ok(MonoC)
    else Err(UnknownBravaisLattice)
  }

  /** The matrices of each branch, P written out entry by entry. */
  function Pair(k: PairKind): PPair
  {
    match k
    case Primitive => PPair(Identity, Identity)
    case FaceCentred => PPair(
      Mat3(Vec3(0.0, 0.5, 0.5), Vec3(0.5, 0.0, 0.5), Vec3(0.5, 0.5, 0.0)),
      Mat3(Vec3(-1.0, 1.0, 1.0), Vec3(1.0, -1.0, 1.0), Vec3(1.0, 1.0, -1.0)))
    case BodyCentred => PPair(
      Mat3(Vec3(-0.5, 0.5, 0.5), Vec3(0.5, -0.5, 0.5), Vec3(0.5, 0.5, -0.5)),
      Mat3(Vec3(0.0, 1.0, 1.0), Vec3(1.0, 0.0, 1.0), Vec3(1.0, 1.0, 0.0)))
    case Rhombohedral => PPair(
      Mat3(Vec3(2.0 / 3.0, -1.0 / 3.0, -1.0 / 3.0),
           Vec3(1.0 / 3.0, 1.0 / 3.0, -2.0 / 3.0),
           Vec3(1.0 / 3.0, 1.0 / 3.0, 1.0 / 3.0)),
      Mat3(Vec3(1.0, 0.0, 1.0), Vec3(-1.0, 1.0, 1.0), Vec3(0.0, -1.0, 1.0)))
    case OrthoC => PPair(
      Mat3(Vec3(0.5, 0.5, 0.0), Vec3(-0.5, 0.5, 0.0), Vec3(0.0, 0.0, 1.0)),
      Mat3(Vec3(1.0, -1.0, 0.0), Vec3(1.0, 1.0, 0.0), Vec3(0.0, 0.0, 1.0)))
    case OrthoA => PPair(
      Mat3(Vec3(0.0, 0.0, 1.0), Vec3(0.5, 0.5, 0.0), Vec3(-0.5, 0.5, 0.0)),
      Mat3(Vec3(0.0, 1.0, -1.0), Vec3(0.0, 1.0, 1.0), Vec3(1.0, 0.0, 0.0)))
    case MonoC => PPair(
      Mat3(Vec3(0.5, -0.5, 0.0), Vec3(0.5, 0.5, 0.0), Vec3(0.0, 0.0, 1.0)),
      Mat3(Vec3(1.0, 1.0, 0.0), Vec3(-1.0, 1.0, 0.0), Vec3(0.0, 0.0, 1.0)))
  }

  /** The pair (P, invP) for a Bravais-lattice symbol; any other symbol is an error. */
  function PMatrices(bravais: string): (r: Result<PPair>)
    ensures r.Ok? <==> bravais in BravaisSymbols
    ensures r.Err? ==> r.error == UnknownBravaisLattice
  {
    match KindOf(bravais)
    case Ok(k) => Ok(Pair(k))
    case Err(e) => Err(e)
  }

  /** det(invP) of each pair: the lattice points per conventional cell. */
  function Points(k: PairKind): nat
  {
    match k
    case Primitive => 1
    case FaceCentred => 4
    case Rhombohedral => 3
    case _ => 2
  }

  // The two products and the entries are proved in separate lemmas so that every proof
  // obligation stays small.

  lemma RightInverse(k: PairKind)
    ensures Mul(Pair(k).P, Pair(k).invP) == Identity
  {
  }

  lemma LeftInverse(k: PairKind)
    ensures Mul(Pair(k).invP, Pair(k).P) == Identity
  {
  }

  lemma Entries(k: PairKind)
    ensures UnitEntries(Pair(k).invP) && RationalEntries(Pair(k).P)
    ensures Det(Pair(k).invP) == Points(k) as real
  {
  }

  lemma PairWellFormed(k: PairKind)
    ensures WellFormed(Pair(k), Points(k))
  {
    RightInverse(k);
    LeftInverse(k);
    Entries(k);
  }

  /** The point count of the branch a symbol takes is the multiplicity of its centring letter. */
  lemma KindOfPoints(bravais: string)
    requires bravais in BravaisSymbols
    ensures |bravais| == 2 && Points(KindOf(bravais).value) == Multiplicity(bravais[1])
  {
  }

  /** For every accepted symbol the pair is exactly inverse on both sides, invP has entries
      in {-1, 0, 1}, P has entries in {0, +-1, +-1/2, +-1/3, +-2/3}, and det(invP) is the
      number of lattice points of the symbol's centring (its second letter). */
  lemma PMatricesWellFormed(bravais: string)
    requires bravais in BravaisSymbols
    ensures |bravais| == 2 && WellFormed(PMatrices(bravais).value, Multiplicity(bravais[1]))
  {
    KindOfPoints(bravais);
    PairWellFormed(KindOf(bravais).value);
  }

  /** Python's int() on a float: truncation toward zero. */
  function Trunc(x: real): int
  {
    if x >= 0.0 then x.Floor else -((-x).Floor)
  }

  /** volume_ratio = int(det(invP)), with the determinant computed exactly. */
  function VolumeRatio(pr: PPair): int
  {
    Trunc(Det(pr.invP))
  }

  /** The volume ratio of each pair is its point count, exactly. */
  lemma PairVolumeRatio(k: PairKind)
    ensures VolumeRatio(Pair(k)) == Points(k) as int
  {
    Entries(k);
    assert (Points(k) as real).Floor == Points(k) as int;
  }

  /** For every accepted symbol the volume ratio int(det(invP)) is exact and positive:
      1 for the primitive lattices, 2 for body- and one-face-centred, 3 for hR and 4 for
      all-face-centred, the multiplicity of the symbol's centring letter. */
  lemma VolumeRatioOfSymbol(bravais: string)
    requires bravais in BravaisSymbols
    ensures |bravais| == 2
    ensures VolumeRatio(PMatrices(bravais).value) == Multiplicity(bravais[1]) as int
    ensures 1 <= VolumeRatio(PMatrices(bravais).value) <= 4
    ensures Det(PMatrices(bravais).value.invP) == VolumeRatio(PMatrices(bravais).value) as real
  {
    var k := KindOf(bravais).value;
    KindOfPoints(bravais);
    PairVolumeRatio(k);
    Entries(k);
  }
}
