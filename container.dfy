/**
 * Container (Row, Column and Box are typedefs of it): a fixed array of nine
 * slots holding '?' or a digit character, overwritten in place.
 */
module Containers {
  import opened Digits
  import opened Positions

  class Container {
    const arr: array<char>

    ghost predicate Valid()
    {
      arr.Length == ContainerSize
    }

    /** The default constructor: every slot starts out unknown. */
    constructor ()
      ensures Valid() && fresh(arr)
      ensures forall i | 0 <= i < ContainerSize :: arr[i] == Unknown
    {
      arr := new char[ContainerSize];
      new;
      var i := 0;
      while i < ContainerSize
        invariant 0 <= i <= ContainerSize
        invariant forall k | 0 <= k < i :: arr[k] == Unknown
      {
        arr[i] := Unknown;
        i := i + 1;
      }
    }

    /** The array constructor: copies the nine given values slot for slot. */
    constructor Copy(values: seq<char>)
      requires |values| == ContainerSize
      ensures Valid() && fresh(arr)
      ensures arr[..] == values
    {
      arr := new char[ContainerSize];
      new;
      var i := 0;
      while i < ContainerSize
        invariant 0 <= i <= ContainerSize
        invariant arr[..i] == values[..i]
      {
        arr[i] := values[i];
        i := i + 1;
      }
    }

    /** The value in slot i (Container::at); the container is unchanged. */
    method At(i: int) returns (v: char)
      requires Valid() && 0 <= i < ContainerSize
      ensures v == arr[i]
    {
      v := arr[i];
    }

    /** Overwrites slot i with v and no other slot (Container::set_value). */
    method SetValue(i: int, v: char)
      requires Valid() && 0 <= i < ContainerSize
      modifies arr
      ensures Valid()
      ensures arr[..] == old(arr[..])[i := v]
    {
      arr[i] := v;
    }

    /**
     * Whether some slot holds the converted value: '?' itself, or the digit
     * character '0' + value (Container::value_exists).
     */
    method ValueExists(value: Byte) returns (found: bool)
      requires Valid()
      ensures found <==> Converted(value) in arr[..]
    {
      var c := if value == Unknown as int then Unknown else ((value + Zero as int) % 256) as char;
      for i := 0 to ContainerSize
        invariant Converted(value) !in arr[..i]
      {
        if arr[i] == c {
          assert arr[..][i] == c;
          return true;
        }
        assert arr[..i + 1] == arr[..i] + [arr[i]];
      }
      assert arr[..ContainerSize] == arr[..];
      return false;
    }

    /**
     * Whether the container is finished: no '?' left and every digit 1..9
     * present (Container::evaluate).  By Digits.CompleteIffPermutation this
     * is exactly "the slots are a permutation of '1'..'9'".
     */
    method Evaluate() returns (ok: bool)
      requires Valid()
      ensures ok <==> Complete(arr[..])
    {
      var unknown := ValueExists(Unknown as int);
      if unknown {
        return false;
      }
      for v := 1 to ContainerSize + 1
        invariant forall w | 1 <= w < v :: Digit(w) in arr[..]
      {
        var present := ValueExists(v);
        if !present {
          return false;
        }
      }
      return true;
    }
  }
}
