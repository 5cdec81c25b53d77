/** The primitive-cell reduction of get_primitive: transform a conventional cell with the
    (P, invP) pair of its Bravais lattice, group the atoms that coincide modulo a lattice
    translation, check the groups, and keep one atom per group. */
module Primitive {
  import opened Outcomes
  import opened LinAlg
  import opened PMatrix

  /** A crystal cell: the rows of `lattice` are the basis vectors, `positions` are
      fractional coordinates and `types[i]` is the type of the atom at `positions[i]`. */
  datatype Structure = Structure(lattice: Mat3, positions: seq<Vec3>, types: seq<int>)

  /** What get_primitive returns: the primitive structure and the pair that produced it. */
  datatype Reduction = Reduction(cell: Structure, pair: PPair)

  /** Two coordinates closer than this, modulo 1, are the same (1e-6). */
  const Threshold: real := 0.000001

  // ---------------------------------------------------------------------------------------
  // Lattice and coordinate transforms

  /** (a_P, b_P, c_P) = (a, b, c) P with the basis vectors as rows: (lattice^T . P)^T. */
  function PrimLattice(lattice: Mat3, P: Mat3): Mat3
  {
    Transpose(Mul(Transpose(lattice), P))
  }

  /** (x_P, y_P, z_P)^T = invP (x, y, z)^T for every position; no wrapping into [0, 1). */
  function TransformPositions(invP: Mat3, positions: seq<Vec3>): seq<Vec3>
  {
    seq(|positions|, i requires 0 <= i < |positions| => MulVec(invP, positions[i]))
  }

  /** Each primitive basis vector is the combination of the conventional ones given by the
      matching column of P: a_P = P[0][0] a + P[1][0] b + P[2][0] c, and so on. */
  lemma PrimLatticeColumns(lattice: Mat3, P: Mat3)
    ensures PrimLattice(lattice, P).r0 == Cartesian(lattice, Col0(P))
    ensures PrimLattice(lattice, P).r1 == Cartesian(lattice, Col1(P))
    ensures PrimLattice(lattice, P).r2 == Cartesian(lattice, Col2(P))
  {
    MulColumns(Transpose(lattice), P);
  }

  /** With invP the inverse of P, an atom keeps its Cartesian position: its new coordinates
      in the new lattice describe the same point as its old coordinates in the old one. */
  lemma CartesianPreserved(lattice: Mat3, pr: PPair, f: Vec3)
    requires Inverses(pr)
    ensures Cartesian(PrimLattice(lattice, pr.P), MulVec(pr.invP, f)) == Cartesian(lattice, f)
  {
    var L := Transpose(lattice);
    TransposeInvolution(Mul(L, pr.P));
    MulVecAssoc(L, pr.P, MulVec(pr.invP, f));
    MulVecAssoc(pr.P, pr.invP, f);
    IdentityNeutral(L, f);
  }

  /** Transforming back with invP recovers the conventional lattice and coordinates. */
  lemma TransformRoundTrip(lattice: Mat3, pr: PPair, f: Vec3)
    requires Inverses(pr)
    ensures PrimLattice(PrimLattice(lattice, pr.P), pr.invP) == lattice
    ensures MulVec(pr.P, MulVec(pr.invP, f)) == f
  {
    var L := Transpose(lattice);
    TransposeInvolution(Mul(L, pr.P));
    MulAssoc(L, pr.P, pr.invP);
    IdentityNeutral(L, f);
    TransposeInvolution(lattice);
    MulVecAssoc(pr.P, pr.invP, f);
  }

  // ---------------------------------------------------------------------------------------
  // The match relation

  /** Python's x % 1.0 for a float x: the fractional part, floored. */
  function Mod1(x: real): real
  {
    x - x.Floor as real
  }

  /** ((d + 0.5) % 1) - 0.5: the difference d moved by a whole number into [-0.5, 0.5). */
  function Centred(d: real): (c: real)
    ensures -0.5 <= c < 0.5
    ensures IsInteger(d - c)
  {
    var f := (d + 0.5).Floor;
    assert f as real <= d + 0.5 < f as real + 1.0;
    assert d - (Mod1(d + 0.5) - 0.5) == f as real;
    Mod1(d + 0.5) - 0.5
  }

  predicate IsInteger(x: real)
  {
    x.Floor as real == x
  }

  function Abs(x: real): real
  {
    if x < 0.0 then -x else x
  }

  /** One axis of all_match[i][j]: |((q - p + 0.5) % 1) - 0.5| < threshold. */
  predicate AxisMatch(p: real, q: real)
  {
    Abs(Centred(q - p)) < Threshold
  }

  /** all_match[i][j] for primitive positions p = pp[i] and q = pp[j]: all three axes match. */
  predicate Match(p: Vec3, q: Vec3)
  {
    AxisMatch(p.x, q.x) && AxisMatch(p.y, q.y) && AxisMatch(p.z, q.z)
  }

  /** The centred difference is d itself when d is already in [-0.5, 0.5), and it does not
      change when d moves by a whole number. */
  lemma CentredCharacterised(d: real, k: int)
    ensures -0.5 <= d < 0.5 ==> Centred(d) == d
    ensures Centred(d + k as real) == Centred(d)
  {
    assert (d + k as real + 0.5).Floor == (d + 0.5).Floor + k;
  }

  /** Negating the difference keeps its centred size (at -0.5 both sides are -0.5). */
  lemma CentredNegate(d: real)
    ensures Abs(Centred(-d)) == Abs(Centred(d))
  {
    var x := d + 0.5;
    if IsInteger(x) {
      assert (-d + 0.5).Floor as real == -d + 0.5 by {
        assert -d + 0.5 == 1.0 - x;
        assert (1.0 - x).Floor == 1 - x.Floor;
      }
    } else {
      assert (-d + 0.5).Floor == -x.Floor by {
        assert -d + 0.5 == 1.0 - x;
        assert x.Floor as real < x < x.Floor as real + 1.0;
      }
    }
  }

  /** The match relation is reflexive and symmetric. */
  lemma MatchReflexive(p: Vec3)
    ensures Match(p, p)
  {
    CentredCharacterised(0.0, 0);
  }

  lemma MatchSymmetric(p: Vec3, q: Vec3)
    ensures Match(p, q) <==> Match(q, p)
  {
    CentredNegate(q.x - p.x);
    CentredNegate(q.y - p.y);
    CentredNegate(q.z - p.z);
  }

  /** Moving an atom by a whole lattice vector does not change what it matches. */
  lemma MatchPeriodic(p: Vec3, q: Vec3, a: int, b: int, c: int)
    ensures Match(p, Vec3(q.x + a as real, q.y + b as real, q.z + c as real)) <==> Match(p, q)
  {
    assert q.x + a as real - p.x == (q.x - p.x) + a as real;
    assert q.y + b as real - p.y == (q.y - p.y) + b as real;
    assert q.z + c as real - p.z == (q.z - p.z) + c as real;
    CentredCharacterised(q.x - p.x, a);
    CentredCharacterised(q.y - p.y, b);
    CentredCharacterised(q.z - p.z, c);
  }

  /** Positions that differ by a whole lattice vector match. */
  lemma MatchIntegerOffset(p: Vec3, q: Vec3)
    requires IsInteger(q.x - p.x) && IsInteger(q.y - p.y) && IsInteger(q.z - p.z)
    ensures Match(p, q)
  {
    MatchReflexive(p);
    MatchPeriodic(p, p, (q.x - p.x).Floor, (q.y - p.y).Floor, (q.z - p.z).Floor);
  }

  // ---------------------------------------------------------------------------------------
  // Rows of the relation: the groups of equivalent atoms

  /** Indices in strictly increasing order. */
  predicate Increasing(g: seq<nat>)
  {
    forall k, l :: 0 <= k < l < |g| ==> g[k] < g[l]
  }

  /** The first n entries of row i of all_match, as the tuple of the indices j < n that match
      atom i, in increasing order. */
  function RowPrefix(pp: seq<Vec3>, i: nat, n: nat): (row: seq<nat>)
    requires i < |pp| && n <= |pp|
    ensures forall j: nat :: j in row <==> j < n && Match(pp[i], pp[j])
    ensures Increasing(row)
    ensures forall k :: 0 <= k < |row| ==> row[k] < n
  {
    if n == 0 then []
    else RowPrefix(pp, i, n - 1) + (if Match(pp[i], pp[n - 1]) then [n - 1] else [])
  }

  /** group_of_equivalent_atoms[i]: the indices of all atoms that match atom i. */
  function Row(pp: seq<Vec3>, i: nat): seq<nat>
    requires i < |pp|
  {
    RowPrefix(pp, i, |pp|)
  }

  /** Every atom is in its own group, and that group's first index is its smallest member. */
  lemma RowContainsSelf(pp: seq<Vec3>, i: nat)
    requires i < |pp|
    ensures i in Row(pp, i)
    ensures |Row(pp, i)| > 0
    ensures forall j :: j in Row(pp, i) ==> Row(pp, i)[0] <= j
  {
    MatchReflexive(pp[i]);
  }

  /** The indices 0, 1, ..., n - 1 in order. */
  function Iota(n: nat): (r: seq<nat>)
    ensures |r| == n && forall k :: 0 <= k < n ==> r[k] == k
  {
    if n == 0 then [] else Iota(n - 1) + [n - 1]
  }

  lemma {:induction false} RowPrefixAll(pp: seq<Vec3>, i: nat, n: nat)
    requires i < |pp| && n <= |pp|
    requires forall j :: 0 <= j < |pp| ==> Match(pp[i], pp[j])
    ensures RowPrefix(pp, i, n) == Iota(n)
  {
    if n > 0 {
      RowPrefixAll(pp, i, n - 1);
      assert Match(pp[i], pp[n - 1]);
    }
  }

  /** An atom that matches every atom has the row (0, 1, ..., N - 1). */
  lemma RowAllMatch(pp: seq<Vec3>, i: nat)
    requires i < |pp|
    requires forall j :: 0 <= j < |pp| ==> Match(pp[i], pp[j])
    ensures Row(pp, i) == Iota(|pp|)
  {
    RowPrefixAll(pp, i, |pp|);
  }

  /** Atom j is in the group of atom i exactly when atom i is in the group of atom j. */
  lemma RowSymmetric(pp: seq<Vec3>, i: nat, j: nat)
    requires i < |pp| && j < |pp|
    ensures j in Row(pp, i) <==> i in Row(pp, j)
  {
    MatchSymmetric(pp[i], pp[j]);
  }

  function Rows(pp: seq<Vec3>): seq<seq<nat>>
  {
    seq(|pp|, i requires 0 <= i < |pp| => Row(pp, i))
  }

  /** A group fit for selection: non-empty, its indices are atoms of the structure. */
  predicate ValidGroup(g: seq<nat>, n: nat)
  {
    |g| > 0 && forall k :: 0 <= k < |g| ==> g[k] < n
  }

  lemma RowsValid(pp: seq<Vec3>)
    ensures forall g :: g in Rows(pp) ==> ValidGroup(g, |pp|)
  {
    forall g | g in Rows(pp) ensures ValidGroup(g, |pp|) {
      var i :| 0 <= i < |pp| && Rows(pp)[i] == g;
      RowContainsSelf(pp, i);
    }
  }

  // ---------------------------------------------------------------------------------------
  // Python's ordering of tuples, and sorted(group_count.keys())

  /** a < b for tuples of indices: the first difference decides, a proper prefix is smaller. */
  predicate LexLess(a: seq<nat>, b: seq<nat>)
  {
    |b| > 0 && (|a| == 0 || a[0] < b[0] || (a[0] == b[0] && LexLess(a[1..], b[1..])))
  }

  lemma {:induction false} LexIrreflexive(a: seq<nat>)
    ensures !LexLess(a, a)
  {
    if |a| > 0 {
      LexIrreflexive(a[1..]);
    }
  }

  lemma {:induction false} LexTransitive(a: seq<nat>, b: seq<nat>, c: seq<nat>)
    requires LexLess(a, b) && LexLess(b, c)
    ensures LexLess(a, c)
  {
    if |a| > 0 && a[0] == b[0] && b[0] == c[0] {
      LexTransitive(a[1..], b[1..], c[1..]);
    }
  }

  lemma {:induction false} LexTotal(a: seq<nat>, b: seq<nat>)
    ensures a == b || LexLess(a, b) || LexLess(b, a)
  {
    if |a| > 0 && |b| > 0 && a[0] == b[0] {
      LexTotal(a[1..], b[1..]);
      if a[1..] == b[1..] {
        assert a == [a[0]] + a[1..] && b == [b[0]] + b[1..];
      }
    }
  }

  /** m is the smallest element of s. */
  ghost predicate IsLeast(m: seq<nat>, s: set<seq<nat>>)
  {
    m in s && forall x :: x in s && x != m ==> LexLess(m, x)
  }

  lemma {:induction false} LeastExists(s: set<seq<nat>>)
    requires s != {}
    ensures exists m :: IsLeast(m, s)
    decreases |s|
  {
    var x :| x in s;
    if s - {x} == {} {
      assert s == {x};
      assert IsLeast(x, s);
    } else {
      LeastExists(s - {x});
      var m :| IsLeast(m, s - {x});
      LexTotal(m, x);
      if LexLess(m, x) {
        forall y | y in s && y != m ensures LexLess(m, y) {
          if y != x {
            assert y in s - {x};
          }
        }
        assert IsLeast(m, s);
      } else {
        forall y | y in s && y != x ensures LexLess(x, y) {
          if y != m {
            LexTransitive(x, m, y);
          }
        }
        assert IsLeast(x, s);
      }
    }
  }

  lemma LeastUnique(m: seq<nat>, m': seq<nat>, s: set<seq<nat>>)
    requires IsLeast(m, s) && IsLeast(m', s)
    ensures m == m'
  {
    if m != m' {
      LexTransitive(m, m', m);
      LexIrreflexive(m);
    }
  }

  /** Strictly increasing under LexLess: sorted, without repetitions. */
  ghost predicate LexSorted(r: seq<seq<nat>>)
  {
    forall k, l :: 0 <= k < l < |r| ==> LexLess(r[k], r[l])
  }

  /** sorted(s) for a finite set of tuples: its elements in increasing order. */
  ghost function SortedListing(s: set<seq<nat>>): (r: seq<seq<nat>>)
    ensures forall g :: g in r <==> g in s
    ensures LexSorted(r)
    decreases |s|
  {
    if s == {} then []
    else
      LeastExists(s);
      var m :| IsLeast(m, s);
      [m] + SortedListing(s - {m})
  }

  /** Taking the least element off the front is how the listing unfolds. */
  lemma SortedListingStep(s: set<seq<nat>>, m: seq<nat>)
    requires IsLeast(m, s)
    ensures SortedListing(s) == [m] + SortedListing(s - {m})
  {
    LeastExists(s);
    var m' :| IsLeast(m', s) && SortedListing(s) == [m'] + SortedListing(s - {m'});
    LeastUnique(m, m', s);
  }

  /** Two sorted sequences with the same elements start with the same element. */
  lemma SortedHeads(a: seq<seq<nat>>, b: seq<seq<nat>>)
    requires LexSorted(a) && LexSorted(b)
    requires forall g :: g in a <==> g in b
    requires a != [] && b != []
    ensures a[0] == b[0]
  {
    assert a[0] in a && b[0] in b;
    var k :| 0 <= k < |b| && b[k] == a[0];
    var l :| 0 <= l < |a| && a[l] == b[0];
    if k > 0 && l > 0 {
      LexTransitive(a[0], b[0], a[0]);
      LexIrreflexive(a[0]);
      assert false;
    }
  }

  /** A sorted sequence without repetitions is determined by its set of elements: so the
      listing is the one order Python's sorted() produces. */
  lemma {:induction false} SortedUnique(a: seq<seq<nat>>, b: seq<seq<nat>>)
    requires LexSorted(a) && LexSorted(b)
    requires forall g :: g in a <==> g in b
    ensures a == b
  {
    if a != [] {
      assert a[0] in a;
    }
    if b != [] {
      assert b[0] in b;
    }
    if a != [] && b != [] {
      SortedHeads(a, b);
      forall g ensures g in a[1..] <==> g in b[1..] {
        if g in a[1..] {
          var k :| 1 <= k < |a| && a[k] == g;
          assert LexLess(a[0], g);
          LexIrreflexive(g);
          assert g in b && g != b[0];
          var l :| 0 <= l < |b| && b[l] == g;
          assert l != 0;
        }
        if g in b[1..] {
          var l :| 1 <= l < |b| && b[l] == g;
          assert LexLess(b[0], g);
          LexIrreflexive(g);
          assert g in a && g != a[0];
          var k :| 0 <= k < |a| && a[k] == g;
          assert k != 0;
        }
      }
      SortedUnique(a[1..], b[1..]);
      assert a == [a[0]] + a[1..] && b == [b[0]] + b[1..];
    }
  }

  // ---------------------------------------------------------------------------------------
  // The reduction as a specification

  /** The distinct groups in sorted order: sorted(Counter(rows).keys()). */
  ghost function Groups(rows: seq<seq<nat>>): seq<seq<nat>>
  {
    SortedListing(set g | g in rows)
  }

  /** Every group occurs volume_ratio times among the rows (the Counter check). */
  ghost predicate CountsMatch(rows: seq<seq<nat>>, volumeRatio: int)
  {
    forall i :: 0 <= i < |rows| ==> multiset(rows)[rows[i]] == volumeRatio
  }

  /** set(types[group]): the types of the atoms of a group. */
  function GroupTypes(types: seq<int>, g: seq<nat>): set<int>
  {
    set j | j in g && j < |types| :: types[j]
  }

  /** No group mixes types: each group's set of types has exactly one element. */
  ghost predicate TypesMatch(types: seq<int>, groups: seq<seq<nat>>)
  {
    forall k :: 0 <= k < |groups| ==> |GroupTypes(types, groups[k])| == 1
  }

  /** xs[chosen_idx] with chosen_idx = [group[0] for group in groups]. */
  function Representatives<T>(xs: seq<T>, groups: seq<seq<nat>>): seq<T>
    requires forall k :: 0 <= k < |groups| ==> ValidGroup(groups[k], |xs|)
  {
    seq(|groups|, k requires 0 <= k < |groups| => assert ValidGroup(groups[k], |xs|); xs[groups[k][0]])
  }

  lemma GroupsValid(pp: seq<Vec3>)
    ensures forall k :: 0 <= k < |Groups(Rows(pp))| ==> ValidGroup(Groups(Rows(pp))[k], |pp|)
  {
    RowsValid(pp);
    var groups := Groups(Rows(pp));
    forall k | 0 <= k < |groups| ensures ValidGroup(groups[k], |pp|) {
      assert groups[k] in groups;
    }
  }

  /** get_primitive as a function: the failures in the order the source raises them, and
      otherwise the primitive lattice, one atom per sorted group (the group's first index)
      and the pair used. */
  ghost function Reduce(s: Structure, bravais: string): Result<Reduction>
    requires |s.types| == |s.positions|
  {
    match PMatrices(bravais)
    case Err(e) => Err(e)
    case Ok(pr) =>
      if |s.positions| == 0 then Err(NoAtoms)
      else
        var pp := TransformPositions(pr.invP, s.positions);
        var rows := Rows(pp);
        if !CountsMatch(rows, VolumeRatio(pr)) then Err(GroupSizeMismatch)
        else
          var groups := Groups(rows);
          if !TypesMatch(s.types, groups) then Err(GroupTypeMismatch)
          else
            GroupsValid(pp);
            var cell := Structure(PrimLattice(s.lattice, pr.P),
                                  Representatives(pp, groups),
                                  Representatives(s.types, groups));
            Ok(Reduction(cell, pr))
  }

  /** Python's len(set(types[group])) == 1 for a non-empty group: all its atoms have the
      type of its first atom. */
  lemma GroupTypesSingle(types: seq<int>, g: seq<nat>)
    requires ValidGroup(g, |types|)
    ensures |GroupTypes(types, g)| == 1 <==> forall k :: 0 <= k < |g| ==> types[g[k]] == types[g[0]]
  {
    var t := types[g[0]];
    var ts := GroupTypes(types, g);
    assert g[0] in g;
    assert t in ts;
    if forall k :: 0 <= k < |g| ==> types[g[k]] == t {
      forall u | u in ts ensures u == t {
        var j :| j in g && j < |types| && types[j] == u;
        var k :| 0 <= k < |g| && g[k] == j;
      }
      assert ts == {t};
    }
    if |ts| == 1 {
      assert |ts - {t}| == 0;
      forall k | 0 <= k < |g| ensures types[g[k]] == t {
        assert g[k] in g;
        assert types[g[k]] in ts;
      }
    }
  }

  // ---------------------------------------------------------------------------------------
  // What a successful reduction guarantees

  /** A sorted listing has no repetitions. */
  lemma SortedDistinct(r: seq<seq<nat>>)
    requires LexSorted(r)
    ensures Distinct(r)
  {
    forall a, b | 0 <= a < b < |r| ensures r[a] != r[b] {
      if r[a] == r[b] {
        LexIrreflexive(r[a]);
      }
    }
  }

  /** A multiset in which each of the distinct values `keys` occurs v times has |keys| * v
      elements. */
  lemma {:induction false} UniformCount(m: multiset<seq<nat>>, keys: seq<seq<nat>>, v: int)
    requires Distinct(keys)
    requires forall g :: g in m <==> g in keys
    requires forall g :: g in m ==> m[g] == v
    ensures |m| == |keys| * v
    decreases |keys|
  {
    if keys == [] {
      assert forall g :: m[g] == 0;
      assert m == multiset{};
    } else {
      var x := keys[0];
      var rest := keys[1..];
      var m' := m[x := 0];
      RemoveAt(keys, 0, rest);
      forall g ensures g in m' <==> g in rest {
        if g != x {
          assert m'[g] == m[g];
        }
      }
      UniformCount(m', rest, v);
      assert x in keys;
      MultisetRemove(m, x);
      Distribute(|rest|, v);
    }
  }

  lemma Distribute(a: int, v: int)
    ensures (a + 1) * v == a * v + v
  {
  }

  lemma MultisetRemove(m: multiset<seq<nat>>, x: seq<nat>)
    ensures |m| == |m[x := 0]| + m[x]
  {
    var only := multiset{}[x := m[x]];
    assert m == m[x := 0] + only;
    SingletonCard(x, m[x]);
  }

  lemma {:induction false} SingletonCard(x: seq<nat>, c: nat)
    ensures |multiset{}[x := c]| == c
    decreases c
  {
    if c > 0 {
      SingletonCard(x, c - 1);
      assert multiset{}[x := c] == multiset{}[x := c - 1] + multiset{x};
    }
  }

  /** The first atom of a single group. */
  lemma RepresentativesOfOne<T>(xs: seq<T>, g: seq<nat>)
    requires ValidGroup(g, |xs|)
    ensures Representatives(xs, [g]) == [xs[g[0]]]
  {
  }

  /** A known symbol, a non-empty cell and rows that pass both checks give a reduction:
      the converse of ReduceUnfold. */
  lemma ReduceSucceeds(s: Structure, bravais: string, pr: PPair, pp: seq<Vec3>, groups: seq<seq<nat>>)
    requires |s.types| == |s.positions| > 0
    requires PMatrices(bravais) == Ok(pr)
    requires pp == TransformPositions(pr.invP, s.positions)
    requires CountsMatch(Rows(pp), VolumeRatio(pr))
    requires groups == Groups(Rows(pp))
    requires TypesMatch(s.types, groups)
    ensures forall k :: 0 <= k < |groups| ==> ValidGroup(groups[k], |pp|)
    ensures Reduce(s, bravais)
            == Ok(Reduction(Structure(PrimLattice(s.lattice, pr.P),
                                      Representatives(pp, groups),
                                      Representatives(s.types, groups)), pr))
  {
    GroupsValid(pp);
  }

  /** The internals of a successful reduction, spelled out for the lemmas below. */
  lemma ReduceUnfold(s: Structure, bravais: string)
    requires |s.types| == |s.positions|
    requires Reduce(s, bravais).Ok?
    ensures bravais in BravaisSymbols && |s.positions| > 0
    ensures var pr := PMatrices(bravais).value;
            var pp := TransformPositions(pr.invP, s.positions);
            var rows := Rows(pp);
            var groups := Groups(rows);
            && (forall k :: 0 <= k < |groups| ==> ValidGroup(groups[k], |pp|))
            && CountsMatch(rows, VolumeRatio(pr))
            && TypesMatch(s.types, groups)
            && Reduce(s, bravais).value
               == Reduction(Structure(PrimLattice(s.lattice, pr.P),
                                      Representatives(pp, groups),
                                      Representatives(s.types, groups)), pr)
  {
    GroupsValid(TransformPositions(PMatrices(bravais).value.invP, s.positions));
  }

  /** A successful reduction returns the symbol's own pair and the lattice (a, b, c) P. */
  lemma ReduceLattice(s: Structure, bravais: string)
    requires |s.types| == |s.positions|
    requires Reduce(s, bravais).Ok?
    ensures bravais in BravaisSymbols
    ensures Reduce(s, bravais).value.pair == PMatrices(bravais).value
    ensures Reduce(s, bravais).value.cell.lattice == PrimLattice(s.lattice, PMatrices(bravais).value.P)
  {
    ReduceUnfold(s, bravais);
  }

  /** A successful reduction keeps one atom in every volume-ratio many: the conventional
      cell's N atoms become N / m, m the multiplicity of the centring letter. */
  lemma ReduceCount(s: Structure, bravais: string)
    requires |s.types| == |s.positions|
    requires Reduce(s, bravais).Ok?
    ensures |bravais| == 2
    ensures |Reduce(s, bravais).value.cell.positions| == |Reduce(s, bravais).value.cell.types|
    ensures |Reduce(s, bravais).value.cell.positions| * Multiplicity(bravais[1]) == |s.positions|
  {
    ReduceUnfold(s, bravais);
    VolumeRatioOfSymbol(bravais);
    var pr := PMatrices(bravais).value;
    var pp := TransformPositions(pr.invP, s.positions);
    var rows := Rows(pp);
    var groups := Groups(rows);
    SortedDistinct(groups);
    var m := multiset(rows);
    forall g ensures g in m <==> g in groups {
      assert g in m <==> g in rows;
    }
    forall g | g in m ensures m[g] == VolumeRatio(pr) {
      var i :| 0 <= i < |rows| && rows[i] == g;
    }
    UniformCount(m, groups, VolumeRatio(pr));
  }

  /** Every atom of the conventional cell is represented: some atom of the primitive cell
      has its type and coincides with it modulo a primitive lattice vector. */
  lemma ReduceCovers(s: Structure, bravais: string, i: nat)
    requires |s.types| == |s.positions|
    requires Reduce(s, bravais).Ok?
    requires i < |s.positions|
    ensures var cell := Reduce(s, bravais).value.cell;
            var pp := TransformPositions(PMatrices(bravais).value.invP, s.positions);
            exists k :: 0 <= k < |cell.positions| && k < |cell.types|
                        && cell.types[k] == s.types[i] && Match(pp[i], cell.positions[k])
  {
    ReduceUnfold(s, bravais);
    var pr := PMatrices(bravais).value;
    var pp := TransformPositions(pr.invP, s.positions);
    var rows := Rows(pp);
    var groups := Groups(rows);
    var cell := Reduce(s, bravais).value.cell;
    var g := Row(pp, i);
    assert g == rows[i];
    assert g in groups;
    var k :| 0 <= k < |groups| && groups[k] == g;
    RowContainsSelf(pp, i);
    assert g[0] in g;
    var u :| 0 <= u < |g| && g[u] == i;
    GroupTypesSingle(s.types, g);
    assert cell.positions[k] == pp[g[0]];
    assert cell.types[k] == s.types[i];
  }

  /** Every atom of the primitive cell is an atom of the conventional cell, in primitive
      coordinates, with its type: the first atom of its group. */
  lemma ReduceFromInput(s: Structure, bravais: string, k: nat)
    requires |s.types| == |s.positions|
    requires Reduce(s, bravais).Ok?
    requires k < |Reduce(s, bravais).value.cell.positions|
    ensures var cell := Reduce(s, bravais).value.cell;
            var pp := TransformPositions(PMatrices(bravais).value.invP, s.positions);
            exists i :: 0 <= i < |pp| && k < |cell.types|
                        && cell.positions[k] == pp[i] && cell.types[k] == s.types[i]
  {
    ReduceUnfold(s, bravais);
    var pr := PMatrices(bravais).value;
    var pp := TransformPositions(pr.invP, s.positions);
    var groups := Groups(Rows(pp));
    assert ValidGroup(groups[k], |pp|);
    var i := groups[k][0];
    assert i < |pp|;
  }

  /** A single atom stays a single atom when the centring is primitive, and is rejected
      with a count mismatch for every centred lattice. */
  lemma ReduceSingleAtom(lattice: Mat3, p: Vec3, t: int, bravais: string)
    requires bravais in BravaisSymbols
    ensures |bravais| == 2
    ensures var s := Structure(lattice, [p], [t]);
            var pr := PMatrices(bravais).value;
            Reduce(s, bravais)
            == if Multiplicity(bravais[1]) == 1
               then Ok(Reduction(Structure(PrimLattice(lattice, pr.P), [MulVec(pr.invP, p)], [t]), pr))
               else Err(GroupSizeMismatch)
  {
    VolumeRatioOfSymbol(bravais);
    var pr := PMatrices(bravais).value;
    var pp := TransformPositions(pr.invP, [p]);
    MatchReflexive(pp[0]);
    assert Row(pp, 0) == [0] by {
      assert RowPrefix(pp, 0, 0) == [];
    }
    var rows := Rows(pp);
    assert rows == [[0]];
    assert (set g | g in rows) == {[0]};
    var groups := Groups(rows);
    assert [0] in groups;
    SortedUnique(groups, [[0]]);
    assert multiset(rows)[[0]] == 1;
    assert CountsMatch(rows, VolumeRatio(pr)) <==> VolumeRatio(pr) == 1;
    assert GroupTypes([t], [0]) == {t};
    assert TypesMatch([t], groups);
    assert pp == [MulVec(pr.invP, p)];
    assert Representatives(pp, groups) == [MulVec(pr.invP, p)];
    assert Representatives([t], groups) == [t];
  }

  // ---------------------------------------------------------------------------------------
  // The reduction as a method

  /** No tuple occurs twice. */
  predicate Distinct(keys: seq<seq<nat>>)
  {
    forall a, b :: 0 <= a < b < |keys| ==> keys[a] != keys[b]
  }

  /** Index of the smallest tuple of a non-empty sequence. */
  method LeastIndex(keys: seq<seq<nat>>) returns (m: nat)
    requires |keys| > 0
    ensures m < |keys|
    ensures forall u :: 0 <= u < |keys| && keys[u] != keys[m] ==> LexLess(keys[m], keys[u])
    ensures IsLeast(keys[m], set g | g in keys)
  {
    m := 0;
    for t := 1 to |keys|
      invariant m < t
      invariant forall u :: 0 <= u < t && keys[u] != keys[m] ==> LexLess(keys[m], keys[u])
    {
      LexTotal(keys[t], keys[m]);
      if LexLess(keys[t], keys[m]) {
        forall u | 0 <= u <= t && keys[u] != keys[t] ensures LexLess(keys[t], keys[u]) {
          if u < t && keys[u] != keys[m] {
            LexTransitive(keys[t], keys[m], keys[u]);
          }
        }
        m := t;
      }
    }
  }

  /** all_match[i, j]: atoms i and j coincide modulo 1 on all three axes. */
  method MatchMatrix(pp: seq<Vec3>) returns (allMatch: array2<bool>)
    ensures fresh(allMatch)
    ensures allMatch.Length0 == |pp| && allMatch.Length1 == |pp|
    ensures forall a, b :: 0 <= a < |pp| && 0 <= b < |pp| ==> allMatch[a, b] == Match(pp[a], pp[b])
  {
    var n := |pp|;
    allMatch := new bool[n, n];
    for i := 0 to n
      invariant forall a, b :: 0 <= a < i && 0 <= b < n ==> allMatch[a, b] == Match(pp[a], pp[b])
    {
      for j := 0 to n
        invariant forall a, b :: 0 <= a < i && 0 <= b < n ==> allMatch[a, b] == Match(pp[a], pp[b])
        invariant forall b :: 0 <= b < j ==> allMatch[i, b] == Match(pp[i], pp[b])
      {
        allMatch[i, j] := Match(pp[i], pp[j]);
      }
    }
  }

  /** One row of all_match as the ascending tuple of the atoms that match atom i. */
  method MatchRow(pp: seq<Vec3>, allMatch: array2<bool>, i: nat) returns (row: seq<nat>)
    requires i < |pp|
    requires allMatch.Length0 == |pp| && allMatch.Length1 == |pp|
    requires forall b :: 0 <= b < |pp| ==> allMatch[i, b] == Match(pp[i], pp[b])
    ensures row == Row(pp, i)
  {
    row := [];
    for j := 0 to |pp|
      invariant row == RowPrefix(pp, i, j)
    {
      if allMatch[i, j] {
        row := row + [j];
      }
    }
  }

  /** count is the Counter of rows and keys lists its keys once each. */
  ghost predicate Tally(rows: seq<seq<nat>>, count: map<seq<nat>, nat>, keys: seq<seq<nat>>)
  {
    && (forall g :: g in count <==> g in rows)
    && (forall g :: g in count ==> count[g] == multiset(rows)[g])
    && (forall g :: g in keys <==> g in rows)
    && Distinct(keys)
  }

  /** Counting one more row keeps the tally. */
  lemma TallyStep(rows: seq<seq<nat>>, count: map<seq<nat>, nat>, keys: seq<seq<nat>>, row: seq<nat>)
    requires Tally(rows, count, keys)
    ensures row in count ==> Tally(rows + [row], count[row := count[row] + 1], keys)
    ensures row !in count ==> Tally(rows + [row], count[row := 1], keys + [row])
  {
    assert multiset(rows + [row]) == multiset(rows) + multiset{row};
  }

  /** group_of_equivalent_atoms (the rows of all_match as index tuples) and its Counter;
      `keys` lists the distinct rows in order of first appearance. */
  method CountRows(pp: seq<Vec3>, allMatch: array2<bool>)
      returns (rows: seq<seq<nat>>, count: map<seq<nat>, nat>, keys: seq<seq<nat>>)
    requires allMatch.Length0 == |pp| && allMatch.Length1 == |pp|
    requires forall a, b :: 0 <= a < |pp| && 0 <= b < |pp| ==> allMatch[a, b] == Match(pp[a], pp[b])
    ensures rows == Rows(pp)
    ensures Tally(rows, count, keys)
  {
    rows, count, keys := [], map[], [];
    for i := 0 to |pp|
      invariant rows == Rows(pp)[..i]
      invariant Tally(rows, count, keys)
    {
      var row := MatchRow(pp, allMatch, i);
      assert Rows(pp)[..i + 1] == rows + [row];
      TallyStep(rows, count, keys, row);
      if row in count {
        count := count[row := count[row] + 1];
      } else {
        count := count[row := 1];
        keys := keys + [row];
      }
      rows := rows + [row];
    }
    assert rows == Rows(pp);
  }

  /** The wrong_count test: every distinct row occurs exactly volume-ratio times. */
  method CheckCounts(rows: seq<seq<nat>>, count: map<seq<nat>, nat>, keys: seq<seq<nat>>, volumeRatio: int)
      returns (ok: bool)
    requires Tally(rows, count, keys)
    ensures ok <==> CountsMatch(rows, volumeRatio)
  {
    for k := 0 to |keys|
      invariant forall u :: 0 <= u < k ==> count[keys[u]] == volumeRatio
    {
      if count[keys[k]] != volumeRatio {
        assert keys[k] in rows;
        return false;
      }
    }
    forall i | 0 <= i < |rows| ensures multiset(rows)[rows[i]] == volumeRatio {
      assert rows[i] in keys;
    }
    return true;
  }

  /** Removing the entry at m from a list without repetitions removes its value from the
      set of its values, and keeps the list without repetitions. */
  lemma RemoveAt(keys: seq<seq<nat>>, m: nat, rest: seq<seq<nat>>)
    requires Distinct(keys) && m < |keys| && rest == keys[..m] + keys[m + 1..]
    ensures Distinct(rest)
    ensures forall g :: g in rest <==> g in keys && g != keys[m]
    ensures (set g | g in rest) == (set g | g in keys) - {keys[m]}
  {
    assert forall u :: 0 <= u < m ==> rest[u] == keys[u];
    assert forall u :: m <= u < |rest| ==> rest[u] == keys[u + 1];
    forall g | g in (set g | g in keys) - {keys[m]} ensures g in rest {
      var u :| 0 <= u < |keys| && keys[u] == g;
      if u < m {
        assert rest[u] == g;
      } else {
        assert rest[u - 1] == g;
      }
    }
  }

  /** One step of the selection sort: moving the least remaining tuple to the end of the
      sorted part keeps the sorted part followed by the sorted rest equal to the listing. */
  lemma SortStep(groups: seq<seq<nat>>, remaining: seq<seq<nat>>, m: nat, rest: seq<seq<nat>>,
                 keys: seq<seq<nat>>)
    requires Distinct(remaining) && m < |remaining| && rest == remaining[..m] + remaining[m + 1..]
    requires IsLeast(remaining[m], set g | g in remaining)
    requires groups + SortedListing(set g | g in remaining) == SortedListing(set g | g in keys)
    ensures Distinct(rest)
    ensures (groups + [remaining[m]]) + SortedListing(set g | g in rest) == SortedListing(set g | g in keys)
  {
    var left := set g | g in remaining;
    SortedListingStep(left, remaining[m]);
    RemoveAt(remaining, m, rest);
  }

  /** sorted(group_count.keys()): selection sort of the distinct rows in tuple order. */
  method SortKeys(keys: seq<seq<nat>>) returns (groups: seq<seq<nat>>)
    requires Distinct(keys)
    ensures groups == SortedListing(set g | g in keys)
  {
    var remaining := keys;
    groups := [];
    while |remaining| > 0
      invariant Distinct(remaining)
      invariant groups + SortedListing(set g | g in remaining) == SortedListing(set g | g in keys)
      decreases |remaining|
    {
      var m := LeastIndex(remaining);
      var rest := remaining[..m] + remaining[m + 1..];
      SortStep(groups, remaining, m, rest, keys);
      groups := groups + [remaining[m]];
      remaining := rest;
    }
    assert (set g | g in remaining) == {};
  }

  /** The wrong_types test: every group holds atoms of a single type. */
  method CheckTypes(types: seq<int>, groups: seq<seq<nat>>) returns (ok: bool)
    requires forall k :: 0 <= k < |groups| ==> ValidGroup(groups[k], |types|)
    ensures ok <==> TypesMatch(types, groups)
  {
    for k := 0 to |groups|
      invariant forall u :: 0 <= u < k ==> |GroupTypes(types, groups[u])| == 1
    {
      var g := groups[k];
      assert ValidGroup(g, |types|);
      var t := types[g[0]];
      for m := 0 to |g|
        invariant forall u :: 0 <= u < m ==> types[g[u]] == t
      {
        if types[g[m]] != t {
          GroupTypesSingle(types, g);
          return false;
        }
      }
      GroupTypesSingle(types, g);
    }
    return true;
  }

  /** chosen_idx = [group[0] for group in groups], applied to a per-atom list. */
  method Select<T>(xs: seq<T>, groups: seq<seq<nat>>) returns (r: seq<T>)
    requires forall k :: 0 <= k < |groups| ==> ValidGroup(groups[k], |xs|)
    ensures r == Representatives(xs, groups)
  {
    r := [];
    for k := 0 to |groups|
      invariant |r| == k
      invariant forall u :: 0 <= u < k ==> r[u] == xs[groups[u][0]]
    {
      assert ValidGroup(groups[k], |xs|);
      r := r + [xs[groups[k][0]]];
    }
  }

  /** get_primitive: transform the cell, build the N x N match matrix, count its rows,
      check the counts against the volume ratio, sort the distinct rows, check the types of
      each group and keep the first atom of each. */
  method GetPrimitive(s: Structure, bravais: string) returns (r: Result<Reduction>)
    requires |s.types| == |s.positions|
    ensures r == Reduce(s, bravais)
  {
    var found := PMatrices(bravais);
    if found.Err? {
      return Err(found.error);
    }
    var pr := found.value;
    if |s.positions| == 0 {
      return Err(NoAtoms);
    }
    var volumeRatio := VolumeRatio(pr);
    var lattice := PrimLattice(s.lattice, pr.P);
    var pp := TransformPositions(pr.invP, s.positions);
    var allMatch := MatchMatrix(pp);
    var rows, count, keys := CountRows(pp, allMatch);
    var countsOk := CheckCounts(rows, count, keys, volumeRatio);
    if !countsOk {
      return Err(GroupSizeMismatch);
    }
    var groups := SortKeys(keys);
    assert (set g | g in keys) == (set g | g in rows);
    assert groups == Groups(rows);
    GroupsValid(pp);
    var typesOk := CheckTypes(s.types, groups);
    if !typesOk {
      return Err(GroupTypeMismatch);
    }
    var positions := Select(pp, groups);
    var types := Select(s.types, groups);
    return Ok(Reduction(Structure(lattice, positions, types), pr));
  }
}
