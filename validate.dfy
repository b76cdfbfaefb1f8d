/** Validation of units and boards (`check_item`, `ItemError`, `is_complete`). */
module Validate {
  import opened Seqs
  import opened Grid

  /** The error `check_item` throws: the offending unit (its message names the unit
      and says the length is not 9). */
  datatype ItemError = ItemError(item: seq<char>)

  /** Either the value returned or the error thrown. */
  datatype Result<T> = Ok(value: T) | Err(error: ItemError)

  /** `check_item`: a unit must have exactly 9 symbols; it passes iff every
      digit occurs in the set of its symbols. */
  function CheckItem(item: seq<char>): Result<bool> {
    if |item| != 9 then Err(ItemError(item))
    else Ok(forall d :: d in Digits ==> d in Elems(item))
  }

  /** The digit symbols repeat nothing, so their set has nine members. */
  lemma DigitSet()
    ensures Distinct(Digits) && |Digits| == 9 && |Elems(Digits)| == 9
    ensures forall c :: c in Elems(Digits) <==> IsDigit(c)
  {
    DigitsAreDigits();
    CardElems(Digits);
  }

  /** A passing unit holds exactly the nine digits as its set of symbols. */
  lemma PassingItemHoldsDigits(item: seq<char>)
    requires CheckItem(item) == Ok(true)
    ensures Elems(item) == Elems(Digits)
  {
    CardElems(item);
    DigitSet();
    assert Elems(Digits) <= Elems(item);
    SubsetOfEqualSize(Elems(Digits), Elems(item));
  }

  /** At the required length, containing every digit is the same as holding
      only digits and none of them twice. */
  lemma CheckItemAcceptsExactly(item: seq<char>)
    ensures CheckItem(item) == Ok(true) <==>
      |item| == 9 && (forall i :: 0 <= i < |item| ==> IsDigit(item[i])) && Distinct(item)
  {
    CardElems(item);
    DigitSet();
    if CheckItem(item) == Ok(true) {
      PassingItemHoldsDigits(item);
      forall i | 0 <= i < |item| ensures IsDigit(item[i]) {
        assert item[i] in Elems(item);
      }
    }
    if |item| == 9 && (forall i :: 0 <= i < |item| ==> IsDigit(item[i])) && Distinct(item) {
      assert Elems(item) <= Elems(Digits);
      SubsetOfEqualSize(Elems(item), Elems(Digits));
    }
  }

  /** A set inside another of no greater size is that set. */
  lemma SubsetOfEqualSize(a: set<char>, b: set<char>)
    requires a <= b && |b| <= |a|
    ensures a == b
  {
    var extra := b - a;
    assert b == a + extra;
    assert |b| == |a| + |extra|;
  }

  /** A passing unit is a permutation of the nine digits. */
  lemma PassingItemIsPermutation(item: seq<char>)
    requires CheckItem(item) == Ok(true)
    ensures multiset(item) == multiset(Digits)
  {
    CheckItemAcceptsExactly(item);
    PassingItemHoldsDigits(item);
    DigitSet();
    SameElemsSameMultiset(item, Digits);
  }

  /** Two duplicate-free sequences with the same elements are permutations of each other. */
  lemma SameElemsSameMultiset(a: seq<char>, b: seq<char>)
    requires Distinct(a) && Distinct(b) && Elems(a) == Elems(b)
    ensures multiset(a) == multiset(b)
  {
    DistinctMultiset(a);
    DistinctMultiset(b);
    forall x ensures multiset(a)[x] == multiset(b)[x] {
      assert x in a <==> x in Elems(a);
      assert x in b <==> x in Elems(b);
    }
  }

  /** `check_item` throws iff the length is not 9; otherwise it returns true iff
      the unit is a permutation of the nine digits. */
  lemma CheckItemOutcome(item: seq<char>)
    ensures CheckItem(item).Err? <==> |item| != 9
    ensures CheckItem(item).Err? ==> CheckItem(item).error.item == item
    ensures CheckItem(item) == Ok(true) <==> multiset(item) == multiset(Digits)
  {
    if CheckItem(item) == Ok(true) {
      PassingItemIsPermutation(item);
    }
    if multiset(item) == multiset(Digits) {
      PermutationPasses(item);
    }
  }

  /** A permutation of the nine digits passes `check_item`. */
  lemma PermutationPasses(item: seq<char>)
    requires multiset(item) == multiset(Digits)
    ensures CheckItem(item) == Ok(true)
  {
    DigitSet();
    assert |item| == |multiset(item)| == 9;
    forall d | d in Digits ensures d in Elems(item) {
      assert d in multiset(Digits);
    }
  }

  /** The units `check_item` is exercised on in the test suite. */
  lemma CheckItemExamples()
    ensures CheckItem("123456789") == Ok(true)
    ensures CheckItem("975214368") == Ok(true)
    ensures CheckItem("975214388") == Ok(false)
    ensures CheckItem("9752143.8") == Ok(false)
    ensures CheckItem("97521431") == Err(ItemError("97521431"))
    ensures CheckItem("9752143881") == Err(ItemError("9752143881"))
  {
    assert '6' in Digits;
    assert '6' !in Elems("975214388");
    assert '6' !in Elems("9752143.8");
  }

  /** `is_complete`: every row, every column and every square passes `check_item`. */
  predicate IsComplete(b: Board) {
    && (forall r :: 0 <= r < 9 ==> CheckItem(Row(b, r)) == Ok(true))
    && (forall c :: 0 <= c < 9 ==> CheckItem(Col(b, c)) == Ok(true))
    && (forall k :: 0 <= k < 9 ==> CheckItem(NthSquare(b, k)) == Ok(true))
  }

  /** Every unit of a complete board is a permutation of the nine digits. */
  lemma CompleteUnitsArePermutations(b: Board)
    requires IsComplete(b)
    ensures forall r :: 0 <= r < 9 ==> multiset(Row(b, r)) == multiset(Digits)
    ensures forall c :: 0 <= c < 9 ==> multiset(Col(b, c)) == multiset(Digits)
    ensures forall k :: 0 <= k < 9 ==> multiset(NthSquare(b, k)) == multiset(Digits)
  {
    forall r | 0 <= r < 9 ensures multiset(Row(b, r)) == multiset(Digits) {
      PassingItemIsPermutation(Row(b, r));
    }
    forall c | 0 <= c < 9 ensures multiset(Col(b, c)) == multiset(Digits) {
      PassingItemIsPermutation(Col(b, c));
    }
    forall k | 0 <= k < 9 ensures multiset(NthSquare(b, k)) == multiset(Digits) {
      PassingItemIsPermutation(NthSquare(b, k));
    }
  }

  /** A board whose every unit is a permutation of the nine digits is complete. */
  lemma PermutationUnitsAreComplete(b: Board)
    requires forall r :: 0 <= r < 9 ==> multiset(Row(b, r)) == multiset(Digits)
    requires forall c :: 0 <= c < 9 ==> multiset(Col(b, c)) == multiset(Digits)
    requires forall k :: 0 <= k < 9 ==> multiset(NthSquare(b, k)) == multiset(Digits)
    ensures IsComplete(b)
  {
    forall r | 0 <= r < 9 ensures CheckItem(Row(b, r)) == Ok(true) {
      CheckItemOutcome(Row(b, r));
    }
    forall c | 0 <= c < 9 ensures CheckItem(Col(b, c)) == Ok(true) {
      CheckItemOutcome(Col(b, c));
    }
    forall k | 0 <= k < 9 ensures CheckItem(NthSquare(b, k)) == Ok(true) {
      CheckItemOutcome(NthSquare(b, k));
    }
  }

  /** A complete board has no empty cell. */
  lemma CompleteIsFilled(b: Board)
    requires IsComplete(b)
    ensures forall i :: 0 <= i < 81 ==> IsDigit(b[i])
  {
    forall i | 0 <= i < 81 ensures IsDigit(b[i]) {
      CellInItsUnits(b, i);
      CheckItemAcceptsExactly(Row(b, i / 9));
    }
  }

  /** In a complete board no row, column or square repeats a symbol. */
  lemma CompleteUnitsAreDistinct(b: Board, x: nat, y: nat)
    requires IsComplete(b) && x < 9 && y < 9
    ensures Distinct(Row(b, y)) && Distinct(Col(b, x)) && Distinct(Square(b, x, y))
  {
    CheckItemAcceptsExactly(Row(b, y));
    CheckItemAcceptsExactly(Col(b, x));
    Thirds(x);
    Thirds(y);
    var k := 3 * (y / 3) + x / 3;
    assert 0 <= k < 9;
    SquareIsNthSquare(b, x, y);
    assert CheckItem(NthSquare(b, k)) == Ok(true);
    CheckItemAcceptsExactly(NthSquare(b, k));
  }

  /** A board with an empty cell is never complete. */
  lemma EmptyCellIsNotComplete(b: Board, p: nat)
    requires p < 81 && !IsDigit(b[p])
    ensures !IsComplete(b)
  {
    if IsComplete(b) {
      CompleteIsFilled(b);
    }
  }
}
