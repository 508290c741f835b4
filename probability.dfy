/**
  Probability vectors over real numbers: the exact counterparts of the numpy
  arrays the policy code builds (`np.ones(n) / n`, `np.sum`, element-wise
  division). Floating-point rounding is not modelled.
*/
module Probability {

  /** The sum of a vector, as `np.sum` computes it. */
  function Sum(v: seq<real>): real
  {
    if v == [] then 0.0 else v[0] + Sum(v[1..])
  }

  /** Every entry is non-negative. */
  predicate NonNegative(v: seq<real>)
  {
    forall i :: 0 <= i < |v| ==> v[i] >= 0.0
  }

  /** A probability distribution: non-negative entries summing to one. */
  predicate IsDistribution(v: seq<real>)
  {
    NonNegative(v) && Sum(v) == 1.0
  }

  /** `np.ones(n) / n`; for n == 0 numpy yields the empty array. */
  function Uniform(n: nat): (r: seq<real>)
    ensures |r| == n
  {
    if n == 0 then [] else seq(n, _ => 1.0 / (n as real))
  }

  /** `v / s`, element by element. */
  function Scale(v: seq<real>, s: real): (r: seq<real>)
    requires s != 0.0
    ensures |r| == |v|
  {
    seq(|v|, i requires 0 <= i < |v| => v[i] / s)
  }

  /**
    The vector over `cells` that holds `c` where the cell belongs to `chosen`
    and 0 elsewhere.
  */
  function Mask(cells: seq<int>, chosen: set<int>, c: real): (r: seq<real>)
    ensures |r| == |cells|
    ensures forall i :: 0 <= i < |cells| ==> r[i] == if cells[i] in chosen then c else 0.0
  {
    if cells == [] then []
    else [if cells[0] in chosen then c else 0.0] + Mask(cells[1..], chosen, c)
  }

  /** How many entries of `cells` belong to `chosen`. */
  function Count(cells: seq<int>, chosen: set<int>): nat
  {
    if cells == [] then 0
    else (if cells[0] in chosen then 1 else 0) + Count(cells[1..], chosen)
  }

  predicate Distinct(s: seq<int>)
  {
    forall i, j :: 0 <= i < j < |s| ==> s[i] != s[j]
  }

  predicate StrictlyIncreasing(s: seq<int>)
  {
    forall i, j :: 0 <= i < j < |s| ==> s[i] < s[j]
  }

  function Elements(s: seq<int>): set<int>
  {
    set x | x in s
  }

  lemma {:induction false} SumConstant(n: nat, c: real)
    ensures Sum(seq(n, _ => c)) == (n as real) * c
  {
    if n > 0 {
      var s := seq(n, _ => c);
      var rest := seq(n - 1, _ => c);
      assert s[1..] == rest;
      SumConstant(n - 1, c);
      var m := (n - 1) as real;
      assert Sum(rest) == m * c;
      assert s[0] == c && Sum(s) == s[0] + Sum(s[1..]);
      assert (m + 1.0) * c == m * c + c;
    }
  }

  /** The uniform vector over n > 0 moves is a probability distribution with no zero entry. */
  lemma UniformIsDistribution(n: nat)
    requires n > 0
    ensures IsDistribution(Uniform(n))
    ensures forall i :: 0 <= i < n ==> Uniform(n)[i] > 0.0
  {
    SumConstant(n, 1.0 / (n as real));
  }

  /** Dividing every entry by `s` divides the sum by `s`. */
  lemma {:induction false} SumScale(v: seq<real>, s: real)
    requires s != 0.0
    ensures Sum(Scale(v, s)) == Sum(v) / s
  {
    if v != [] {
      assert Scale(v, s)[1..] == Scale(v[1..], s);
      SumScale(v[1..], s);
    }
  }

  /** The mask sums to `c` times the number of chosen cells. */
  lemma {:induction false} SumMask(cells: seq<int>, chosen: set<int>, c: real)
    ensures Sum(Mask(cells, chosen, c)) == c * (Count(cells, chosen) as real)
  {
    if cells != [] {
      SumMask(cells[1..], chosen, c);
    }
  }

  lemma {:induction false} CountIgnoresAbsent(cells: seq<int>, chosen: set<int>, x: int)
    requires x !in cells
    ensures Count(cells, chosen) == Count(cells, chosen - {x})
  {
    if cells != [] {
      CountIgnoresAbsent(cells[1..], chosen, x);
    }
  }

  /** Over distinct cells, every chosen cell present is counted exactly once. */
  lemma {:induction false} CountChosen(cells: seq<int>, chosen: set<int>)
    requires Distinct(cells)
    requires chosen <= Elements(cells)
    ensures Count(cells, chosen) == |chosen|
  {
    if cells == [] {
      assert chosen == {};
    } else {
      var rest := cells[1..];
      assert Distinct(rest) by {
        forall i, j | 0 <= i < j < |rest| ensures rest[i] != rest[j] {
          assert rest[i] == cells[i + 1] && rest[j] == cells[j + 1];
        }
      }
      assert cells[0] !in rest by {
        forall k | 0 <= k < |rest| ensures rest[k] != cells[0] {
          assert rest[k] == cells[k + 1];
        }
      }
      var others := chosen - {cells[0]};
      assert others <= Elements(rest) by {
        forall x | x in others ensures x in rest {
          assert x in cells && x != cells[0];
          var k :| 0 <= k < |cells| && cells[k] == x;
          assert k > 0 && rest[k - 1] == x;
        }
      }
      CountChosen(rest, others);
      CountIgnoresAbsent(rest, chosen, cells[0]);
      if cells[0] in chosen {
        assert chosen == others + {cells[0]};
      } else {
        assert chosen == others;
      }
    }
  }

  /** A sequence without repetitions has as many elements as entries. */
  lemma {:induction false} DistinctCardinality(s: seq<int>)
    requires Distinct(s)
    ensures |Elements(s)| == |s|
  {
    if s != [] {
      var rest := s[1..];
      assert Distinct(rest) by {
        forall i, j | 0 <= i < j < |rest| ensures rest[i] != rest[j] {
          assert rest[i] == s[i + 1] && rest[j] == s[j + 1];
        }
      }
      assert s[0] !in rest by {
        forall k | 0 <= k < |rest| ensures rest[k] != s[0] {
          assert rest[k] == s[k + 1];
        }
      }
      assert Elements(s) == Elements(rest) + {s[0]};
      DistinctCardinality(rest);
    }
  }

  /**
    The mask that spreads mass 1/|chosen| over the chosen cells is a
    distribution when the chosen cells are distinct and all occur among the
    (distinct) cells.
  */
  lemma MaskIsDistribution(cells: seq<int>, chosen: seq<int>)
    requires Distinct(cells) && Distinct(chosen) && chosen != []
    requires forall x :: x in chosen ==> x in cells
    ensures IsDistribution(Mask(cells, Elements(chosen), 1.0 / (|chosen| as real)))
  {
    var picked := Elements(chosen);
    assert picked <= Elements(cells) by {
      forall x | x in picked ensures x in Elements(cells) {
        assert x in chosen;
      }
    }
    CountChosen(cells, picked);
    DistinctCardinality(chosen);
    MaskSumsToOne(cells, picked, |chosen|);
  }

  lemma MaskSumsToOne(cells: seq<int>, chosen: set<int>, n: nat)
    requires n > 0 && Count(cells, chosen) == n
    ensures IsDistribution(Mask(cells, chosen, 1.0 / (n as real)))
  {
    var c := 1.0 / (n as real);
    SumMask(cells, chosen, c);
    assert c * (n as real) == 1.0;
  }

  /** In a strictly increasing sequence, an element below `s[i]` sits before position i. */
  lemma IndexBefore(s: seq<int>, i: nat, m: int) returns (j: nat)
    requires StrictlyIncreasing(s) && i < |s| && m in s && m < s[i]
    ensures j < i && s[j] == m
  {
    j :| j < |s| && s[j] == m;
    assert forall k :: i <= k < |s| ==> s[i] <= s[k];
  }

  /** A strictly increasing sequence is determined by its elements. */
  lemma {:induction false} IncreasingUnique(a: seq<int>, b: seq<int>)
    requires StrictlyIncreasing(a) && StrictlyIncreasing(b)
    requires forall x :: x in a <==> x in b
    ensures a == b
  {
    assert a != [] ==> a[0] in a;
    assert b != [] ==> b[0] in b;
    if a != [] && b != [] {
      var i :| 0 <= i < |a| && a[i] == b[0];
      var j :| 0 <= j < |b| && b[j] == a[0];
      assert a[0] <= a[i] && b[0] <= b[j];
      forall x ensures x in a[1..] <==> x in b[1..] {
        if x in a[1..] {
          var k :| 1 <= k < |a| && a[k] == x;
          assert x in b && x != b[0];
        }
        if x in b[1..] {
          var k :| 1 <= k < |b| && b[k] == x;
          assert x in a && x != a[0];
        }
      }
      IncreasingUnique(a[1..], b[1..]);
    }
  }
}
