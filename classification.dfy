/** The classification lookups of spg_mapping.py: crystal family of a spacegroup number,
    inversion of a point-group number, and the point-group number of a symbol. */
module Classification {
  import opened Outcomes

  /** get_crystal_family: the crystal-family letter of a spacegroup number from 1 to 230
      (a triclinic, m monoclinic, o orthorhombic, t tetragonal, h trigonal and hexagonal,
      c cubic); numbers below 1 or above 230 are rejected. */
  function CrystalFamily(number: int): (r: Result<char>)
    ensures r.Ok? <==> 1 <= number <= 230
    ensures r.Err? ==> r.error == OutOfRange
    ensures r.Ok? ==> r.value in FamilyLetters
  {
    if number < 1 then Err(OutOfRange)
    else if number <= 2 then Ok('a')
    else if number <= 15 then Ok('m')
    else if number <= 74 then Ok('o')
    else if number <= 142 then Ok('t')
    else if number <= 194 then Ok('h')
    else if number <= 230 then Ok('c')
    else Err(OutOfRange)
  }

  /** The six family letters, in order of increasing spacegroup numbers. */
  const FamilyLetters: seq<char> := ['a', 'm', 'o', 't', 'h', 'c']

  /** The first spacegroup number of each family, in the same order. */
  const FamilyStarts: seq<int> := [1, 3, 16, 75, 143, 195]

  /** Position of a family letter in FamilyLetters. */
  function FamilyRank(c: char): nat
  {
    match c
    case 'a' => 0
    case 'm' => 1
    case 'o' => 2
    case 't' => 3
    case 'h' => 4
    case _ => 5
  }

  /** The family of a spacegroup is the one whose first number is the last start at or below
      it: the families partition 1..230 into the six ranges [1,2], [3,15], [16,74],
      [75,142], [143,194] and [195,230]. */
  lemma CrystalFamilyByStarts(number: int, k: nat)
    requires k < 6
    requires FamilyStarts[k] <= number
    requires number < (if k == 5 then 231 else FamilyStarts[k + 1])
    ensures CrystalFamily(number) == Ok(FamilyLetters[k])
  {
  }

  /** The family letter never decreases as the spacegroup number grows. */
  lemma CrystalFamilyMonotone(n: int, m: int)
    requires 1 <= n <= m <= 230
    ensures FamilyRank(CrystalFamily(n).value) <= FamilyRank(CrystalFamily(m).value)
  {
  }

  /** The point groups with an inversion centre, and those without (lines 34 and 36). */
  const WithInversion: seq<int> := [2, 5, 8, 11, 15, 17, 20, 23, 27, 29, 32]
  const WithoutInversion: seq<int> :=
    [1, 3, 4, 6, 7, 9, 10, 12, 13, 14, 16, 18, 19, 21, 22, 24, 25, 26, 28, 30, 31]

  /** pointgroup_has_inversion: whether the point group with the given number has inversion. */
  function HasInversion(number: int): (r: Result<bool>)
    ensures r.Err? ==> r.error == OutOfRange
  {
    if number in WithInversion then Ok(true)
    else if number in WithoutInversion then Ok(false)
    else Err(OutOfRange)
  }

  /** The two lists are disjoint and together cover exactly 1..32, so HasInversion is
      defined exactly on 1..32. */
  lemma HasInversionDomain(number: int)
    ensures HasInversion(number).Ok? <==> 1 <= number <= 32
    ensures !(number in WithInversion && number in WithoutInversion)
  {
    ListsCover(number);
    ListsDisjoint(number);
  }

  lemma ListsCover(number: int)
    ensures number in WithInversion || number in WithoutInversion <==> 1 <= number <= 32
  {
    if 1 <= number <= 16 {
      assert number in WithInversion || number in WithoutInversion;
    } else if 17 <= number <= 32 {
      assert number in WithInversion || number in WithoutInversion;
    }
  }

  lemma ListsDisjoint(number: int)
    ensures !(number in WithInversion && number in WithoutInversion)
  {
  }

  /** Eleven of the 32 point groups have inversion, the other 21 do not. */
  lemma InversionCount()
    ensures |set n | 1 <= n <= 32 && HasInversion(n) == Ok(true)| == 11
    ensures |set n | 1 <= n <= 32 && HasInversion(n) == Ok(false)| == 21
  {
    InversionCountTrue();
    InversionCountFalse();
  }

  lemma InversionCountTrue()
    ensures |set n | 1 <= n <= 32 && HasInversion(n) == Ok(true)| == 11
  {
    forall n | n in WithInversion ensures 1 <= n <= 32 {
      ListsCover(n);
    }
    assert (set n | 1 <= n <= 32 && HasInversion(n) == Ok(true)) == set n | n in WithInversion;
    IncreasingCard(WithInversion);
  }

  lemma InversionCountFalse()
    ensures |set n | 1 <= n <= 32 && HasInversion(n) == Ok(false)| == 21
  {
    forall n | n in WithoutInversion ensures 1 <= n <= 32 && HasInversion(n) == Ok(false) {
      ListsCover(n);
      ListsDisjoint(n);
    }
    assert (set n | 1 <= n <= 32 && HasInversion(n) == Ok(false)) == set n | n in WithoutInversion;
    IncreasingCard(WithoutInversion);
  }

  /** In a strictly increasing sequence the first entry is below every later one. */
  lemma {:induction false} IncreasingFirst(s: seq<int>, k: nat)
    requires forall i :: 0 <= i < |s| - 1 ==> s[i] < s[i + 1]
    requires 1 <= k < |s|
    ensures s[0] < s[k]
  {
    if k > 1 {
      IncreasingFirst(s, k - 1);
    }
  }

  /** A strictly increasing sequence has as many distinct elements as it has entries. */
  lemma {:induction false} IncreasingCard(s: seq<int>)
    requires forall i :: 0 <= i < |s| - 1 ==> s[i] < s[i + 1]
    ensures |set x | x in s| == |s|
  {
    if s != [] {
      IncreasingCard(s[1..]);
      assert (set x | x in s) == {s[0]} + (set x | x in s[1..]);
      forall k | 1 <= k < |s| ensures s[0] < s[k] {
        IncreasingFirst(s, k);
      }
      assert s[0] !in (set x | x in s[1..]);
    }
  }

  /** pgnum_from_pgint's table: international point-group symbol to point-group number. */
  const PointGroupTable: map<string, int> := map[
    "C1" := 1, "C2" := 3, "C2h" := 5, "C2v" := 7, "C3" := 16, "C3h" := 22, "C3i" := 17,
    "C3v" := 19, "C4" := 9, "C4h" := 11, "C4v" := 13, "C6" := 21, "C6h" := 23, "C6v" := 25,
    "Ci" := 2, "Cs" := 4, "D2" := 6, "D2d" := 14, "D2h" := 8, "D3" := 18, "D3d" := 20,
    "D3h" := 26, "D4" := 12, "D4h" := 15, "D6" := 24, "D6h" := 27, "O" := 30, "Oh" := 32,
    "S4" := 10, "T" := 28, "Td" := 31, "Th" := 29]

  /** pgnum_from_pgint: the number of a point-group symbol; a symbol missing from the
      table is a KeyError. */
  function PointGroupNumber(symbol: string): (r: Result<int>)
    ensures r.Ok? <==> symbol in PointGroupTable
    ensures r.Err? ==> r.error == UnknownPointGroup
  {
    if symbol in PointGroupTable then Ok(PointGroupTable[symbol]) else Err(UnknownPointGroup)
  }

  /** The symbols ordered by their number: the inverse of the table. */
  const PointGroupSymbols: seq<string> := [
    "C1", "Ci", "C2", "Cs", "C2h", "D2", "C2v", "D2h", "C4", "S4", "C4h", "D4", "C4v", "D2d",
    "D4h", "C3", "C3i", "D3", "C3v", "D3d", "C6", "C3h", "C6h", "D6", "C6v", "D3h", "D6h",
    "T", "Th", "O", "Td", "Oh"]

  /** Every table symbol's number lies in 1..32 and leads back to the symbol, so the table
      is injective. */
  lemma PointGroupNumberRoundTrip(symbol: string)
    requires symbol in PointGroupTable
    ensures 1 <= PointGroupNumber(symbol).value <= 32
    ensures PointGroupSymbols[PointGroupNumber(symbol).value - 1] == symbol
  {
    if symbol[0] == 'C' {
      RoundTripC(symbol);
    } else {
      RoundTripOthers(symbol);
    }
  }

  lemma RoundTripC(symbol: string)
    requires symbol in PointGroupTable && symbol[0] == 'C'
    ensures 1 <= PointGroupTable[symbol] <= 32
    ensures PointGroupSymbols[PointGroupTable[symbol] - 1] == symbol
  {
  }

  lemma RoundTripOthers(symbol: string)
    requires symbol in PointGroupTable && symbol[0] != 'C'
    ensures 1 <= PointGroupTable[symbol] <= 32
    ensures PointGroupSymbols[PointGroupTable[symbol] - 1] == symbol
  {
  }

  /** Every number in 1..32 is the number of some symbol of the table. */
  lemma PointGroupNumberOnto(number: int)
    requires 1 <= number <= 32
    ensures PointGroupNumber(PointGroupSymbols[number - 1]) == Ok(number)
  {
    if number <= 8 {
      OntoFrom1(number);
    } else if number <= 16 {
      OntoFrom9(number);
    } else if number <= 24 {
      OntoFrom17(number);
    } else {
      OntoFrom25(number);
    }
  }

  lemma OntoFrom1(number: int)
    requires 1 <= number <= 8
    ensures PointGroupNumber(PointGroupSymbols[number - 1]) == Ok(number)
  {
  }

  lemma OntoFrom9(number: int)
    requires 9 <= number <= 16
    ensures PointGroupNumber(PointGroupSymbols[number - 1]) == Ok(number)
  {
  }

  lemma OntoFrom17(number: int)
    requires 17 <= number <= 24
    ensures PointGroupNumber(PointGroupSymbols[number - 1]) == Ok(number)
  {
  }

  lemma OntoFrom25(number: int)
    requires 25 <= number <= 32
    ensures PointGroupNumber(PointGroupSymbols[number - 1]) == Ok(number)
  {
  }

  /** A sequence without repetitions has as many distinct elements as it has entries. */
  lemma {:induction false} DistinctCard(s: seq<string>)
    requires forall i, j :: 0 <= i < j < |s| ==> s[i] != s[j]
    ensures |set x | x in s| == |s|
  {
    if s != [] {
      DistinctCard(s[1..]);
      assert (set x | x in s) == {s[0]} + (set x | x in s[1..]);
      assert s[0] !in (set x | x in s[1..]);
    }
  }

  /** The table has exactly 32 keys: the symbols of PointGroupSymbols, which are distinct. */
  lemma PointGroupTableSize()
    ensures PointGroupTable.Keys == set x | x in PointGroupSymbols
    ensures |PointGroupTable| == 32
  {
    forall i, j | 0 <= i < j < |PointGroupSymbols|
      ensures PointGroupSymbols[i] != PointGroupSymbols[j]
    {
      PointGroupNumberOnto(i + 1);
      PointGroupNumberOnto(j + 1);
    }
    forall x | x in PointGroupTable ensures x in PointGroupSymbols {
      PointGroupNumberRoundTrip(x);
    }
    forall x | x in PointGroupSymbols ensures x in PointGroupTable {
      var i :| 0 <= i < |PointGroupSymbols| && PointGroupSymbols[i] == x;
      PointGroupNumberOnto(i + 1);
    }
    DistinctCard(PointGroupSymbols);
  }

  /** The inversion lookup never fails on a number the point-group table produces, as its
      composition at line 111 relies on. */
  lemma InversionOfPointGroupSymbol(symbol: string)
    requires symbol in PointGroupTable
    ensures HasInversion(PointGroupNumber(symbol).value).Ok?
  {
    PointGroupNumberRoundTrip(symbol);
    HasInversionDomain(PointGroupNumber(symbol).value);
  }
}
