/** Sums of multisets, for counting where things are. */
module Multisets {

  ghost function Sum<T>(parts: seq<multiset<T>>): multiset<T> {
    if parts == [] then multiset{} else parts[0] + Sum(parts[1..])
  }

  /** Replacing one part trades its elements for the new ones. */
  lemma {:induction false} SumUpdate<T(!new)>(parts: seq<multiset<T>>, i: nat, m: multiset<T>)
    requires i < |parts|
    ensures forall x :: Sum(parts[i := m])[x] + parts[i][x] == Sum(parts)[x] + m[x]
  {
    var parts' := parts[i := m];
    if i == 0 {
      assert parts'[1..] == parts[1..];
    } else {
      assert parts'[1..] == parts[1..][i - 1 := m];
      SumUpdate(parts[1..], i - 1, m);
    }
  }

  lemma {:induction false} PartOfSum<T(!new)>(parts: seq<multiset<T>>, i: nat)
    requires i < |parts|
    ensures forall x :: parts[i][x] <= Sum(parts)[x]
  {
    if i > 0 { PartOfSum(parts[1..], i - 1); }
  }

  lemma {:induction false} TwoPartsOfSum<T(!new)>(parts: seq<multiset<T>>, i: nat, j: nat)
    requires i < j < |parts|
    ensures forall x :: parts[i][x] + parts[j][x] <= Sum(parts)[x]
  {
    if i == 0 { PartOfSum(parts[1..], j - 1); } else { TwoPartsOfSum(parts[1..], i - 1, j - 1); }
  }

  lemma {:induction false} SumHasPart<T(!new)>(parts: seq<multiset<T>>, x: T) returns (i: nat)
    requires Sum(parts)[x] > 0
    ensures i < |parts| && parts[i][x] > 0
  {
    if parts[0][x] > 0 {
      i := 0;
    } else {
      i := SumHasPart(parts[1..], x);
      i := i + 1;
    }
  }

  lemma {:induction false} SumOfEmpty<T(!new)>(parts: seq<multiset<T>>)
    requires forall i | 0 <= i < |parts| :: parts[i] == multiset{}
    ensures Sum(parts) == multiset{}
  {
    if parts != [] { SumOfEmpty(parts[1..]); }
  }

  lemma {:induction false} DistinctFits<T(!new)>(s: seq<T>, bound: set<T>)
    requires forall x :: multiset(s)[x] <= if x in bound then 1 else 0
    ensures |s| <= |bound|
  {
    if s != [] {
      assert s == [s[0]] + s[1..];
      assert multiset(s) == multiset{s[0]} + multiset(s[1..]);
      assert multiset(s)[s[0]] >= 1;
      DistinctFits(s[1..], bound - {s[0]});
    }
  }
}
