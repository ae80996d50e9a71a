/**
 * Cell values of a Sudoku container and what it means for a container to be
 * complete.  A slot holds '?' (unknown) or one of the digit characters
 * '1'..'9'; the C++ containers store these characters as uint8_t.
 */
module Digits {
  /** An unsigned 8-bit value (uint8_t / u8). */
  type Byte = x: int | 0 <= x < 256

  const Unknown: char := '?'
  const Zero: char := '0'
  const AllDigits: seq<char> := "123456789"

  /** The character of the digit v, '0' + v. */
  function Digit(v: int): char
    requires 1 <= v <= 9
  {
    (Zero as int + v) as char
  }

  predicate IsDigit(c: char) { '1' <= c <= '9' }

  /**
   * The slot value Container::value_exists looks for: '?' literally, and
   * otherwise '0' + value computed in uint8_t arithmetic.
   */
  function Converted(value: Byte): (c: char)
    ensures value == Unknown as int ==> c == Unknown
    ensures 1 <= value <= 9 ==> c == Digit(value) && IsDigit(c)
    ensures value != Unknown as int ==> c as int == (value + Zero as int) % 256
  {
    if value == Unknown as int then Unknown else ((value + Zero as int) % 256) as char
  }

  /** No '?' left and every digit 1..9 present (Container::evaluate). */
  predicate Complete(s: seq<char>)
  {
    Unknown !in s && forall v | 1 <= v <= 9 :: Digit(v) in s
  }

  /** No two slots hold the same value. */
  predicate Distinct(s: seq<char>)
  {
    forall i, j | 0 <= i < j < |s| :: s[i] != s[j]
  }

  /** No digit occurs twice; '?' may occur any number of times. */
  predicate NoRepeats(s: seq<char>)
  {
    forall i, j | 0 <= i < j < |s| && s[i] != Unknown :: s[i] != s[j]
  }

  predicate AllDigitSlots(s: seq<char>)
  {
    forall i | 0 <= i < |s| :: IsDigit(s[i])
  }

  lemma DigitsAreAllDigits()
    ensures |AllDigits| == 9 && Distinct(AllDigits) && AllDigitSlots(AllDigits)
    ensures forall i | 0 <= i < 9 :: AllDigits[i] == Digit(i + 1)
  {
  }

  lemma DigitInjective(v: int, w: int)
    requires 1 <= v <= 9 && 1 <= w <= 9 && Digit(v) == Digit(w)
    ensures v == w
  {
  }

  /** A character of "123456789" is a digit, and every digit is in it. */
  lemma InAllDigits(c: char)
    ensures c in AllDigits <==> IsDigit(c)
  {
    if IsDigit(c) {
      assert c == AllDigits[c as int - '1' as int];
    }
  }

  /** In a sequence without repeats every value occurs at most once. */
  lemma {:induction false} DistinctCount(s: seq<char>, x: char)
    requires Distinct(s)
    ensures multiset(s)[x] == if x in s then 1 else 0
  {
    if s != [] {
      assert s == [s[0]] + s[1..];
      assert Distinct(s[1..]) by {
        forall i, j | 0 <= i < j < |s[1..]| ensures s[1..][i] != s[1..][j] {
          assert s[1..][i] == s[i + 1] && s[1..][j] == s[j + 1];
        }
      }
      DistinctCount(s[1..], x);
      assert multiset(s) == multiset{s[0]} + multiset(s[1..]);
      assert s[0] !in s[1..] by {
        forall k | 0 <= k < |s[1..]| ensures s[1..][k] != s[0] {
          assert s[1..][k] == s[k + 1];
        }
      }
    }
  }

  /** Two equal slots make the value occur at least twice. */
  lemma RepeatCount<T>(s: seq<T>, i: int, j: int)
    requires 0 <= i < j < |s| && s[i] == s[j]
    ensures multiset(s)[s[i]] >= 2
  {
    assert s == s[..j] + s[j..];
    assert s[i] == s[..j][i];
    assert s[j] == s[j..][0];
    assert multiset(s) == multiset(s[..j]) + multiset(s[j..]);
  }

  /** A sub-multiset of the same size is the whole multiset. */
  lemma SubMultisetSameSize(a: multiset<char>, b: multiset<char>)
    requires b <= a && |a| == |b|
    ensures a == b
  {
    var rest := a - b;
    assert a == b + rest;
    assert |rest| == 0;
    assert rest == multiset{};
  }

  lemma AllDigitsCount(x: char)
    ensures multiset(AllDigits)[x] == if IsDigit(x) then 1 else 0
  {
    DigitsAreAllDigits();
    DistinctCount(AllDigits, x);
    InAllDigits(x);
  }

  /** A complete 9-slot container holds every digit exactly once. */
  lemma CompleteIsPermutation(s: seq<char>)
    requires |s| == 9 && Complete(s)
    ensures multiset(s) == multiset(AllDigits)
  {
    PresentIncludesAll(s);
    SubMultisetSameSize(multiset(s), multiset(AllDigits));
  }

  /** Where every digit is present, "123456789" is a sub-multiset. */
  lemma PresentIncludesAll(s: seq<char>)
    requires forall v | 1 <= v <= 9 :: Digit(v) in s
    ensures multiset(AllDigits) <= multiset(s)
  {
    forall x ensures multiset(AllDigits)[x] <= multiset(s)[x] {
      PresentCount(s, x);
    }
  }

  /** Where every digit is present, each occurs at least as often as in "123456789". */
  lemma PresentCount(s: seq<char>, x: char)
    requires forall v | 1 <= v <= 9 :: Digit(v) in s
    ensures multiset(AllDigits)[x] <= multiset(s)[x]
  {
    AllDigitsCount(x);
    if IsDigit(x) {
      var v := x as int - Zero as int;
      assert Digit(v) == x;
      assert x in s;
    }
  }

  /** Nine distinct digits are all nine digits. */
  lemma DistinctDigitsArePermutation(s: seq<char>)
    requires |s| == 9 && AllDigitSlots(s) && Distinct(s)
    ensures multiset(s) == multiset(AllDigits)
  {
    forall x ensures multiset(s)[x] <= multiset(AllDigits)[x] {
      DistinctCount(s, x);
      AllDigitsCount(x);
    }
    SubMultisetSameSize(multiset(AllDigits), multiset(s));
  }

  /** A permutation of "123456789" is complete, digit-only and repeat-free. */
  lemma PermutationIsComplete(s: seq<char>)
    requires multiset(s) == multiset(AllDigits)
    ensures Complete(s) && AllDigitSlots(s) && Distinct(s)
  {
    PermutationHasEveryDigit(s);
    PermutationDigitsOnly(s);
    PermutationDistinct(s);
  }

  /** A permutation of "123456789" holds each of the nine digits. */
  lemma PermutationHasEveryDigit(s: seq<char>)
    requires multiset(s) == multiset(AllDigits)
    ensures forall v | 1 <= v <= 9 :: Digit(v) in s
  {
    forall v | 1 <= v <= 9 ensures Digit(v) in s {
      assert Digit(v) == AllDigits[v - 1];
      assert Digit(v) in multiset(AllDigits);
    }
  }

  /** Every slot of a permutation of "123456789" is a digit. */
  lemma PermutationDigitsOnly(s: seq<char>)
    requires multiset(s) == multiset(AllDigits)
    ensures forall i | 0 <= i < |s| :: IsDigit(s[i])
  {
    forall i | 0 <= i < |s| ensures IsDigit(s[i]) {
      assert s[i] in multiset(s);
      InAllDigits(s[i]);
    }
  }

  /** No two slots of a permutation of "123456789" are equal. */
  lemma PermutationDistinct(s: seq<char>)
    requires multiset(s) == multiset(AllDigits)
    ensures forall i, j | 0 <= i < j < |s| :: s[i] != s[j]
  {
    forall i, j | 0 <= i < j < |s| ensures s[i] != s[j] {
      if s[i] == s[j] {
        RepeatCount(s, i, j);
        AllDigitsCount(s[i]);
        assert false;
      }
    }
  }

  /**
   * For a 9-slot container, the three descriptions of a finished container
   * coincide: complete (what Container::evaluate accepts), a permutation of
   * '1'..'9', and nine distinct digits.
   */
  lemma CompleteIffPermutation(s: seq<char>)
    requires |s| == 9
    ensures Complete(s) <==> multiset(s) == multiset(AllDigits)
    ensures Complete(s) <==> AllDigitSlots(s) && Distinct(s)
  {
    if Complete(s) {
      CompleteIsPermutation(s);
      PermutationIsComplete(s);
    } else if AllDigitSlots(s) && Distinct(s) {
      DistinctDigitsArePermutation(s);
      PermutationIsComplete(s);
    } else if multiset(s) == multiset(AllDigits) {
      PermutationIsComplete(s);
    }
  }
}
