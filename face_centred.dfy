/** A worked reduction: the four atoms of a face-centred cubic conventional cell, all of
    one type, become the single atom of the primitive rhombohedral cell. */
module FaceCentredCell {
  import opened Outcomes
  import opened LinAlg
  import opened PMatrix
  import opened Primitive

  /** The conventional cell's atoms: the origin and the three face centres. */
  const Conventional: seq<Vec3> :=
    [Vec3(0.0, 0.0, 0.0), Vec3(0.0, 0.5, 0.5), Vec3(0.5, 0.0, 0.5), Vec3(0.5, 0.5, 0.0)]

  /** The same atoms in primitive coordinates: the origin and the three primitive axes. */
  const InPrimitive: seq<Vec3> :=
    [Vec3(0.0, 0.0, 0.0), Vec3(1.0, 0.0, 0.0), Vec3(0.0, 1.0, 0.0), Vec3(0.0, 0.0, 1.0)]

  const OneGroup: seq<nat> := [0, 1, 2, 3]

  /** invP of cF takes each face centre to a whole primitive lattice vector. */
  lemma Transformed()
    ensures TransformPositions(Pair(FaceCentred).invP, Conventional) == InPrimitive
  {
  }

  lemma AllMatch(i: nat, j: nat)
    requires i < 4 && j < 4
    ensures Match(InPrimitive[i], InPrimitive[j])
  {
    MatchIntegerOffset(InPrimitive[i], InPrimitive[j]);
  }

  lemma RowOf(i: nat)
    requires i < 4
    ensures Row(InPrimitive, i) == OneGroup
  {
    forall j | 0 <= j < 4 ensures Match(InPrimitive[i], InPrimitive[j]) {
      AllMatch(i, j);
    }
    RowAllMatch(InPrimitive, i);
    assert Iota(4) == OneGroup;
  }

  /** Every atom's row is (0, 1, 2, 3). */
  lemma AllRows()
    ensures Rows(InPrimitive) == [OneGroup, OneGroup, OneGroup, OneGroup]
  {
    RowOf(0);
    RowOf(1);
    RowOf(2);
    RowOf(3);
  }

  /** One group of four, which the volume ratio 4 of cF accepts. */
  lemma Grouped()
    ensures CountsMatch(Rows(InPrimitive), 4)
    ensures Groups(Rows(InPrimitive)) == [OneGroup]
  {
    AllRows();
    var rows := Rows(InPrimitive);
    assert multiset(rows)[OneGroup] == 4;
    assert (set g | g in rows) == {OneGroup};
    SortedUnique(Groups(rows), [OneGroup]);
  }

  /** The group holds a single type. */
  lemma SingleType(t: int)
    ensures TypesMatch([t, t, t, t], [OneGroup])
  {
    assert ValidGroup(OneGroup, 4);
    GroupTypesSingle([t, t, t, t], OneGroup);
  }

  /** get_primitive on the face-centred cubic cell returns one atom at the origin, of the
      cell's type, whatever the lattice. */
  lemma FaceCentredCubic(lattice: Mat3, t: int)
    ensures Reduce(Structure(lattice, Conventional, [t, t, t, t]), "cF").Ok?
    ensures Reduce(Structure(lattice, Conventional, [t, t, t, t]), "cF").value.cell.positions
            == [Vec3(0.0, 0.0, 0.0)]
    ensures Reduce(Structure(lattice, Conventional, [t, t, t, t]), "cF").value.cell.types == [t]
  {
    var s := Structure(lattice, Conventional, [t, t, t, t]);
    var pr := Pair(FaceCentred);
    assert PMatrices("cF") == Ok(pr);
    VolumeRatioOfSymbol("cF");
    Transformed();
    Grouped();
    SingleType(t);
    ReduceSucceeds(s, "cF", pr, InPrimitive, [OneGroup]);
    RepresentativesOfOne(InPrimitive, OneGroup);
    RepresentativesOfOne(s.types, OneGroup);
  }
}
