/** Candidate computation (`difference`, `get_candidates`). A JavaScript `Set` of
    symbols is modelled as a duplicate-free sequence in insertion order. */
module CandidateEngine {
  import opened Seqs
  import opened Grid

  /** `a` with every element of `s` deleted, the survivors kept in their order. */
  function Without(a: seq<char>, s: set<char>): (r: seq<char>)
    ensures forall c :: c in r <==> c in a && c !in s
    ensures |r| <= |a|
  {
    if a == [] then []
    else (if a[0] in s then [] else [a[0]]) + Without(a[1..], s)
  }

  /** Deleting keeps an ascending sequence ascending. */
  lemma {:induction false} WithoutKeepsIncreasing(a: seq<char>, s: set<char>)
    requires Increasing(a)
    ensures Increasing(Without(a, s))
    decreases |a|
  {
    if a != [] {
      var rest := Without(a[1..], s);
      WithoutKeepsIncreasing(a[1..], s);
      if a[0] !in s {
        var r := [a[0]] + rest;
        forall i, j | 0 <= i < j < |r| ensures r[i] < r[j] {
          assert r[j] == rest[j - 1] && r[j] in a[1..];
          if i > 0 {
            assert r[i] == rest[i - 1];
          }
        }
      }
    }
  }

  /** Deleting `s` and then `t` deletes their union. */
  lemma {:induction false} WithoutTwice(a: seq<char>, s: set<char>, t: set<char>)
    ensures Without(Without(a, s), t) == Without(a, s + t)
    decreases |a|
  {
    if a != [] {
      var w1 := Without(a[1..], s);
      WithoutTwice(a[1..], s, t);
      if a[0] !in s {
        var w := [a[0]] + w1;
        assert Without(a, s) == w;
        assert w[0] == a[0] && w[1..] == w1;
        assert Without(w, t) == (if a[0] in t then [] else [a[0]]) + Without(w1, t);
      } else {
        assert Without(a, s) == w1;
      }
    }
  }

  /** `difference(setA, setB)`: a copy of `setA` from which each element of
      `setB` is deleted in turn. */
  method Difference(a: seq<char>, b: set<char>) returns (r: seq<char>)
    requires Distinct(a)
    ensures r == Without(a, b)
    ensures forall c :: c in r <==> c in a && c !in b
    ensures Distinct(r)
  {
    r := a;
    var rest := b;
    ghost var deleted: set<char> := {};
    WithoutNothing(a);
    while rest != {}
      invariant deleted + rest == b
      invariant r == Without(a, deleted)
      decreases |rest|
    {
      var elem :| elem in rest;
      WithoutTwice(a, deleted, {elem});
      r := Without(r, {elem});
      rest := rest - {elem};
      deleted := deleted + {elem};
    }
    WithoutKeepsDistinct(a, b);
  }

  /** Deleting nothing changes nothing. */
  lemma {:induction false} WithoutNothing(a: seq<char>)
    ensures Without(a, {}) == a
    decreases |a|
  {
    if a != [] {
      WithoutNothing(a[1..]);
      assert a == [a[0]] + a[1..];
    }
  }

  /** Deleting keeps a sequence duplicate-free. */
  lemma {:induction false} WithoutKeepsDistinct(a: seq<char>, s: set<char>)
    requires Distinct(a)
    ensures Distinct(Without(a, s))
    decreases |a|
  {
    if a != [] {
      assert Distinct(a[1..]) by {
        forall i, j | 0 <= i < j < |a| - 1 ensures a[1..][i] != a[1..][j] {
          assert a[1..][i] == a[i + 1] && a[1..][j] == a[j + 1];
        }
      }
      WithoutKeepsDistinct(a[1..], s);
      assert a[0] !in a[1..] by {
        forall k | 0 <= k < |a| - 1 ensures a[1..][k] != a[0] {
          assert a[1..][k] == a[k + 1];
        }
      }
      DistinctConcat(if a[0] in s then [] else [a[0]], Without(a[1..], s));
    }
  }

  /** `get_candidates`: the digits, in ascending order, that occur in neither
      row `y`, column `x` nor the square holding `(x, y)`. */
  function Candidates(b: Board, x: nat, y: nat): (r: seq<char>)
    requires x < 9 && y < 9
    ensures forall c :: c in r <==>
      IsDigit(c) && c !in Row(b, y) && c !in Col(b, x) && c !in Square(b, x, y)
    ensures Increasing(r)
    ensures |r| <= 9
  {
    DigitsAreDigits();
    WithoutKeepsIncreasing(Digits, Elems(Row(b, y)));
    WithoutKeepsIncreasing(Without(Digits, Elems(Row(b, y))), Elems(Col(b, x)));
    WithoutKeepsIncreasing(Without(Without(Digits, Elems(Row(b, y))), Elems(Col(b, x))), Elems(Square(b, x, y)));
    Without(
      Without(
        Without(Digits, Elems(Row(b, y))),
        Elems(Col(b, x))),
      Elems(Square(b, x, y)))
  }
}
