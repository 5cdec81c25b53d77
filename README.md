# spg_mapping: spacegroup lookups and the HKOT primitive-cell reduction

This project is a Dafny model of `kpaths3d/hkot/spg_mapping.py`, the spacegroup helper
module of the HKOT k-path generator. It covers four parts:

- **Classification lookups** (`classification.dfy`, module `Classification`):
  - `get_crystal_family`: the crystal-family letter of a spacegroup number from 1 to 230.
  - `pointgroup_has_inversion`: whether point group 1..32 has an inversion centre.
  - `pgnum_from_pgint`: the number of an international point-group symbol.
- **`get_P_matrix`** (`pmatrix.dfy`, module `PMatrix`): the table of
  conventional-to-primitive matrices (P, invP) for the fourteen accepted Bravais-lattice
  symbols. It also computes the volume ratio `int(det(invP))`.
- **`get_primitive`** (`primitive.dfy`, module `Primitive`): the reduction of a
  conventional cell to its primitive cell. It works in six steps:
  1. transform the lattice by P and the fractional positions by invP;
  2. build the N x N matrix of "these two atoms coincide modulo 1 within 1e-6";
  3. count the rows of that matrix;
  4. reject the cell unless every distinct row occurs exactly volume-ratio times;
  5. sort the distinct rows and reject any group holding two atom types;
  6. keep the first atom of every group.

  The reduction is specified by the ghost function `Reduce` and implemented by
  `GetPrimitive`, an imperative method with the source's structure: a `bool` array for
  `all_match`, a row list with a count map for the `Counter`, a sort of the distinct rows
  and the two validation loops. Each stage is a method proved against its specification.
- **A worked reduction** (`face_centred.dfy`, module `FaceCentredCell`): a face-centred
  cubic cell of four atoms of one type reduces to one atom at the origin.

The other two modules support these:
- `Outcomes` (`outcomes.dfy`): the `Result` type and one `Error` constructor per `raise`
  of the source.
- `LinAlg` (`linalg.dfy`): exact 3 x 3 real matrices and vectors, with products,
  transpose, determinant and their algebraic laws.

Modelling decisions:
- All arithmetic is exact (`real`).
- Python's float `%` by 1 is floored, so it is written `x - x.Floor`.
- `int()` truncates toward zero (`PMatrix.Trunc`).
- Python's tuple order on the row tuples is `Primitive.LexLess`. A proper prefix is
  smaller.
- `sorted()` of a set of tuples is `Primitive.SortedListing`, the elements in increasing
  `LexLess` order. It is unique, which `Primitive.SortedUnique` proves.
- A structure is `Structure(lattice, positions, types)`, with the basis vectors as the
  rows of `lattice`. Its positions and types have equal length: `Reduce` and
  `GetPrimitive` require it, as the tuple the source unpacks holds one type per atom.
- An empty position list is reported as `Err(NoAtoms)`. The source has no check for it,
  and numpy cannot index with the resulting empty float index array.

## Model

| member | source | states |
|---|---|---|
| Classification.CrystalFamily | kpaths3d/hkot/spg_mapping.py:10-25 | a letter exactly for 1..230, one of the six family letters; every other number is the ValueError |
| Classification.CrystalFamilyByStarts | kpaths3d/hkot/spg_mapping.py:12-23 | the six ranges [1,2], [3,15], [16,74], [75,142], [143,194], [195,230] map to a, m, o, t, h, c respectively |
| Classification.CrystalFamilyMonotone | kpaths3d/hkot/spg_mapping.py:12-23 | the family letter never moves backwards in the order a, m, o, t, h, c as the number grows |
| Classification.HasInversion | kpaths3d/hkot/spg_mapping.py:34-39 | a number on neither list is the ValueError |
| Classification.HasInversionDomain | kpaths3d/hkot/spg_mapping.py:34-39 | the lookup answers exactly on 1..32, and no number is on both lists |
| Classification.InversionCount | kpaths3d/hkot/spg_mapping.py:34-37 | 11 of the 32 point groups have inversion and 21 do not |
| Classification.PointGroupNumber | kpaths3d/hkot/spg_mapping.py:47-80 | a number exactly for the table's symbols; any other symbol is the KeyError |
| Classification.PointGroupNumberRoundTrip | kpaths3d/hkot/spg_mapping.py:47-78 | every symbol's number is in 1..32 and the ordered symbol list at that number gives the symbol back (the table is injective) |
| Classification.PointGroupNumberOnto | kpaths3d/hkot/spg_mapping.py:47-78 | every number 1..32 is the number of some symbol |
| Classification.PointGroupTableSize | kpaths3d/hkot/spg_mapping.py:47-78 | the table has exactly 32 keys, the 32 distinct symbols |
| Classification.InversionOfPointGroupSymbol | kpaths3d/hkot/spg_mapping.py:111 | the inversion lookup never fails on a number taken from the point-group table |
| PMatrix.KindOf | kpaths3d/hkot/spg_mapping.py:143-210 | a branch is taken exactly for the fourteen accepted symbols |
| PMatrix.PMatrices | kpaths3d/hkot/spg_mapping.py:143-212 | a pair exactly for the fourteen symbols; every other symbol is the ValueError |
| PMatrix.PMatricesWellFormed | kpaths3d/hkot/spg_mapping.py:137-210 | for each symbol, P invP = invP P = I; invP has entries in {-1, 0, 1}; P has entries in {0, ±1, ±1/2, ±1/3, ±2/3}; det(invP) is the lattice-point count of the centring letter (P 1, A/B/C/I 2, R 3, F 4) |
| PMatrix.VolumeRatioOfSymbol | kpaths3d/hkot/spg_mapping.py:240 | int(det(invP)) equals the exact determinant and that point count, between 1 and 4 |
| Primitive.PrimLatticeColumns | kpaths3d/hkot/spg_mapping.py:242-244 | each primitive basis vector is the combination of a, b, c given by a column of P |
| Primitive.CartesianPreserved | kpaths3d/hkot/spg_mapping.py:242-246 | a position transformed by invP, read in the lattice transformed by P, is the same Cartesian point |
| Primitive.TransformRoundTrip | kpaths3d/hkot/spg_mapping.py:244-246 | transforming the lattice by P then invP, or a position by invP then P, gives it back |
| Primitive.Centred | kpaths3d/hkot/spg_mapping.py:252-257 | ((d + 0.5) % 1) - 0.5 lies in [-0.5, 0.5) and differs from d by a whole number |
| Primitive.CentredCharacterised | kpaths3d/hkot/spg_mapping.py:252-257 | the centred difference is d itself on [-0.5, 0.5) and is unchanged when d moves by a whole number |
| Primitive.MatchReflexive | kpaths3d/hkot/spg_mapping.py:255-265 | every atom matches itself (the diagonal of all_match) |
| Primitive.MatchSymmetric | kpaths3d/hkot/spg_mapping.py:255-265 | all_match is symmetric |
| Primitive.MatchPeriodic | kpaths3d/hkot/spg_mapping.py:248-265 | moving an atom by a whole lattice vector does not change what it matches |
| Primitive.MatchIntegerOffset | kpaths3d/hkot/spg_mapping.py:248-265 | atoms that differ by a whole lattice vector match |
| Primitive.RowPrefix | kpaths3d/hkot/spg_mapping.py:269 | a row holds exactly the indices j whose atom matches atom i, in increasing order |
| Primitive.RowContainsSelf | kpaths3d/hkot/spg_mapping.py:269 | atom i is in its own row, so every row is non-empty, and the row's first entry is its smallest |
| Primitive.RowSymmetric | kpaths3d/hkot/spg_mapping.py:269 | j is in row i exactly when i is in row j |
| Primitive.RowAllMatch | kpaths3d/hkot/spg_mapping.py:269 | an atom matching every atom has the row (0, ..., N - 1) |
| Primitive.LexTotal | kpaths3d/hkot/spg_mapping.py:279 | tuple order is total: of two distinct tuples one is smaller |
| Primitive.LexTransitive | kpaths3d/hkot/spg_mapping.py:279 | tuple order is transitive |
| Primitive.LexIrreflexive | kpaths3d/hkot/spg_mapping.py:279 | no tuple is smaller than itself |
| Primitive.SortedListing | kpaths3d/hkot/spg_mapping.py:279 | sorted(keys) holds exactly the keys, strictly increasing |
| Primitive.SortedUnique | kpaths3d/hkot/spg_mapping.py:279 | two strictly increasing listings of the same elements are equal, so sorted() is determined |
| Primitive.GroupTypesSingle | kpaths3d/hkot/spg_mapping.py:281-283 | len(set(types[group])) == 1 exactly when every atom of the group has the type of its first atom |
| Primitive.MatchMatrix | kpaths3d/hkot/spg_mapping.py:255-265 | the N x N array holds Match(pp[i], pp[j]) at [i, j] |
| Primitive.MatchRow | kpaths3d/hkot/spg_mapping.py:269 | the loop over one array row yields that atom's row tuple |
| Primitive.CountRows | kpaths3d/hkot/spg_mapping.py:269-270 | the row list is group_of_equivalent_atoms; the count map is its Counter; the key list holds each distinct row once |
| Primitive.CheckCounts | kpaths3d/hkot/spg_mapping.py:271-273 | passes exactly when every row occurs volume-ratio times |
| Primitive.LeastIndex | kpaths3d/hkot/spg_mapping.py:279 | finds the smallest tuple of a non-empty list |
| Primitive.SortKeys | kpaths3d/hkot/spg_mapping.py:279 | the selection sort of the distinct rows equals sorted(keys) |
| Primitive.CheckTypes | kpaths3d/hkot/spg_mapping.py:281-284 | passes exactly when every group holds a single type |
| Primitive.Select | kpaths3d/hkot/spg_mapping.py:290-293 | picks the entry of each group's first atom, in group order |
| Primitive.GetPrimitive | kpaths3d/hkot/spg_mapping.py:214-297 | the method returns exactly the reduction Reduce specifies, error for error |
| Primitive.ReduceUnfold | kpaths3d/hkot/spg_mapping.py:237-297 | a success means: symbol accepted, cell non-empty, the counts check passed, the types check passed, and the result is (P-lattice, first atoms, their types) with (P, invP) |
| Primitive.ReduceSucceeds | kpaths3d/hkot/spg_mapping.py:237-297 | conversely, an accepted symbol, a non-empty cell and both checks passing give that result |
| Primitive.ReduceLattice | kpaths3d/hkot/spg_mapping.py:238-244 | a success returns the symbol's own pair and the lattice (a, b, c) P |
| Primitive.ReduceCount | kpaths3d/hkot/spg_mapping.py:240-276 | a success keeps one atom in m: N input atoms become N / m, m the centring's point count |
| Primitive.ReduceCovers | kpaths3d/hkot/spg_mapping.py:255-293 | every input atom has an output atom of its type that matches it modulo a primitive lattice vector |
| Primitive.ReduceFromInput | kpaths3d/hkot/spg_mapping.py:290-293 | every output atom is an input atom, in primitive coordinates, with that atom's type |
| Primitive.ReduceSingleAtom | kpaths3d/hkot/spg_mapping.py:237-297 | a single atom is kept, in primitive coordinates, when the centring is primitive; every centred symbol rejects it with the count error |
| Primitive.UniformCount | kpaths3d/hkot/spg_mapping.py:270-272 | a Counter whose distinct keys all count v holds (number of keys) * v items |
| FaceCentredCell.FaceCentredCubic | kpaths3d/hkot/spg_mapping.py:214-297 | the four atoms of a cF cell of one type reduce to one atom at the origin, of that type, for any lattice |

## Left out

- `get_spgroup_data` (lines 82-90) reads a generated table from another module; `spg_db`
  is not part of this model.
- `get_spgroup_data_realtime` (lines 92-113) calls spglib, which is foreign code. Only its
  composition at line 111, the inversion of a point-group symbol's number, is modelled
  (`Classification.InversionOfPointGroupSymbol`).
- The `isinstance` test of `get_crystal_family` (lines 8-9) is a Python type check. The
  model's argument is an `int`, so the TypeError cannot arise.
- The two warnings printed by `get_primitive` (lines 232-233) are console output.
- Floating point is not modelled:
  - all positions, matrices and the determinant are exact reals, so `np.linalg.det`
    rounding is not modelled;
  - `1./2. * array` and `1./3. * array` are exact halves and thirds.
- Error messages are not modelled. Each `raise` is one `Error` constructor. The count
  error's message calls `.keys()` on a list (line 276), so in Python this path fails with
  an AttributeError while building the message. The model only records that the reduction
  fails at this check.
- `types[chosen_idx]` (line 293) is numpy fancy indexing, which assumes `types` is an
  array. The model indexes a sequence.
- `Primitive.ReduceCovers`: the match relation is a tolerance test and is not transitive,
  so groups may overlap. The model states coverage and origin for the output atoms, not
  that output atoms are pairwise distinct, because the source does not guarantee that.
- The comment at line 289 says the chosen atoms are "wrapped to [0,1]", but the code does
  not wrap them. The model follows the code (`Primitive.TransformPositions`, `Select`).
- The `get_P_matrix` docstring (lines 137-139) lists the non-integer entries of P as
  ±1/2 and ±1/3, while the hR matrix has ±2/3. `PMatrix.IsPEntry` follows the matrices.
- The triclinic symbol `aP` is not in the table (lines 143-210). The model rejects it as
  the code does.
