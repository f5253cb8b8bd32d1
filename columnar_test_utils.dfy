/** The array builders of the columnar block tests: the expected values of
    a block with a null between every two values, and of the dictionary and
    run-length encoded blocks built over a test block. A Java `null` element
    is `None`. */
module ColumnarTestUtils {
  import opened Wrappers

  // ---------------------------------------------------------------------
  // Alternating nulls
  // ---------------------------------------------------------------------

  /** `objects` with a null before every value and one more at the end. */
  function WithAlternatingNulls<T>(objects: seq<T>): (r: seq<Option<T>>)
  {
    seq(2 * |objects| + 1, i requires 0 <= i < 2 * |objects| + 1 => if i % 2 == 0 then None else Some(objects[i / 2]))
  }

  /** Allocates an array of 2n + 1 nulls, writes value i at 2i + 1 and a null
      at 2i, and writes a null at the last position. */
  method AlternatingNullValues<T>(objects: array<T>) returns (objectsWithNulls: array<Option<T>>)
    ensures objectsWithNulls.Length == 2 * objects.Length + 1
    ensures forall i :: 0 <= i < objectsWithNulls.Length && i % 2 == 0 ==> objectsWithNulls[i] == None
    ensures forall i :: 0 <= i < objects.Length ==> objectsWithNulls[2 * i + 1] == Some(objects[i])
    ensures objectsWithNulls[..] == WithAlternatingNulls(objects[..])
    ensures fresh(objectsWithNulls)
  {
    objectsWithNulls := new Option<T>[objects.Length * 2 + 1];
    for i := 0 to objects.Length
      invariant forall j :: 0 <= j < 2 * i ==>
        objectsWithNulls[j] == if j % 2 == 0 then None else Some(objects[j / 2])
    {
      objectsWithNulls[i * 2] := None;
      objectsWithNulls[i * 2 + 1] := Some(objects[i]);
    }
    objectsWithNulls[objectsWithNulls.Length - 1] := None;
    assert forall j :: 0 <= j < objectsWithNulls.Length ==>
      objectsWithNulls[j] == if j % 2 == 0 then None else Some(objects[j / 2]);
    forall i | 0 <= i < objects.Length ensures objectsWithNulls[2 * i + 1] == Some(objects[i]) {
      assert (2 * i + 1) / 2 == i && (2 * i + 1) % 2 == 1;
    }
  }

  /** Taking every other value back out of the array, from position 1, gives
      the original values: the nulls are only interleaved. */
  lemma AlternatingNullsInterleave<T>(objects: seq<T>)
    ensures |WithAlternatingNulls(objects)| == 2 * |objects| + 1
    ensures seq(|objects|, i requires 0 <= i < |objects| => WithAlternatingNulls(objects)[2 * i + 1]) ==
            seq(|objects|, i requires 0 <= i < |objects| => Some(objects[i]))
    ensures WithAlternatingNulls(objects)[2 * |objects|] == None
  {
    var r := WithAlternatingNulls(objects);
    forall i | 0 <= i < |objects| ensures r[2 * i + 1] == Some(objects[i]) {
      assert (2 * i + 1) / 2 == i;
      assert (2 * i + 1) % 2 == 1;
    }
  }

  /** Exactly n + 1 of the 2n + 1 positions are null. */
  lemma {:induction false} AlternatingNullsCount<T>(objects: seq<T>)
    ensures NullCount(WithAlternatingNulls(objects)) == |objects| + 1
  {
    if objects != [] {
      var n := |objects|;
      var front := objects[..n - 1];
      AlternatingNullsCount(front);
      var r, r' := WithAlternatingNulls(objects), WithAlternatingNulls(front);
      assert r == r' + [Some(objects[n - 1]), None] by {
        assert |r| == |r'| + 2;
        forall i | 0 <= i < |r| ensures r[i] == (r' + [Some(objects[n - 1]), None])[i] {
          if i < |r'| - 1 {
            assert i / 2 < n - 1;
          } else if i == |r'| - 1 {
            assert i % 2 == 0;
          } else if i == |r'| {
            assert i / 2 == n - 1;
          }
        }
      }
      var tail: seq<Option<T>> := [Some(objects[n - 1]), None];
      NullCountAppend(r', tail);
      assert NullCount(tail) == 1 by {
        assert tail[1..] == [None];
        assert tail[1..][1..] == [];
        assert NullCount(tail[1..]) == 1;
      }
    } else {
      assert WithAlternatingNulls(objects) == [None];
    }
  }

  function NullCount<T>(s: seq<Option<T>>): nat
  {
    if s == [] then 0 else (if s[0].None? then 1 else 0) + NullCount(s[1..])
  }

  lemma {:induction false} NullCountAppend<T>(a: seq<Option<T>>, b: seq<Option<T>>)
    ensures NullCount(a + b) == NullCount(a) + NullCount(b)
  {
    if a != [] {
      assert (a + b)[1..] == a[1..] + b;
      NullCountAppend(a[1..], b);
    } else {
      assert a + b == b;
    }
  }

  // ---------------------------------------------------------------------
  // Dictionary indexes
  // ---------------------------------------------------------------------

  /** The indexes of the test dictionary block over n values: n - 1 down to
      0, then 0 up to n - 1. */
  function DictionaryIndexes(n: nat): seq<int>
  {
    seq(2 * n, i => if i < n then n - 1 - i else i - n)
  }

  /** Fills the first half with the indexes in reverse and the second half
      with the identity. */
  method CreateTestDictionaryIndexes(valueCount: nat) returns (dictionaryIndexes: array<int>)
    ensures dictionaryIndexes.Length == 2 * valueCount
    ensures forall i :: 0 <= i < valueCount ==> dictionaryIndexes[i] == valueCount - 1 - i
    ensures forall i :: valueCount <= i < 2 * valueCount ==> dictionaryIndexes[i] == i - valueCount
    ensures dictionaryIndexes[..] == DictionaryIndexes(valueCount)
    ensures fresh(dictionaryIndexes)
  {
    dictionaryIndexes := new int[valueCount * 2];
    for i := 0 to valueCount
      invariant forall j :: 0 <= j < i ==> dictionaryIndexes[j] == valueCount - j - 1
      invariant forall j :: valueCount <= j < valueCount + i ==> dictionaryIndexes[j] == j - valueCount
    {
      dictionaryIndexes[i] := valueCount - i - 1;
      dictionaryIndexes[i + valueCount] := i;
    }
  }

  /** 0 up to n - 1. */
  function Ascending(n: nat): (r: seq<int>)
    ensures |r| == n
  {
    if n == 0 then [] else Ascending(n - 1) + [n - 1]
  }

  /** n - 1 down to 0. */
  function Descending(n: nat): (r: seq<int>)
    ensures |r| == n
  {
    if n == 0 then [] else [n - 1] + Descending(n - 1)
  }

  lemma {:induction false} AscendingAt(n: nat, i: nat)
    requires i < n
    ensures Ascending(n)[i] == i
  {
    if i < n - 1 {
      AscendingAt(n - 1, i);
    }
  }

  lemma {:induction false} DescendingAt(n: nat, i: nat)
    requires i < n
    ensures Descending(n)[i] == n - 1 - i
  {
    if i > 0 {
      DescendingAt(n - 1, i - 1);
    }
  }

  /** Both directions hold the same values. */
  lemma {:induction false} SameValuesBothWays(n: nat)
    ensures multiset(Descending(n)) == multiset(Ascending(n))
  {
    if n > 0 {
      SameValuesBothWays(n - 1);
      assert multiset(Ascending(n)) == multiset(Ascending(n - 1)) + multiset{n - 1};
      assert multiset(Descending(n)) == multiset{n - 1} + multiset(Descending(n - 1));
    }
  }

  /** Each of 0 .. n - 1 occurs once in 0 up to n - 1, and nothing else. */
  lemma {:induction false} AscendingOnce(n: nat, v: int)
    ensures multiset(Ascending(n))[v] == if 0 <= v < n then 1 else 0
  {
    if n > 0 {
      AscendingOnce(n - 1, v);
      assert multiset(Ascending(n)) == multiset(Ascending(n - 1)) + multiset{n - 1};
    }
  }

  /** The dictionary indexes are the descending run followed by the
      ascending one. */
  lemma DictionaryIndexesHalves(n: nat)
    ensures DictionaryIndexes(n) == Descending(n) + Ascending(n)
  {
    var d := DictionaryIndexes(n);
    var h := Descending(n) + Ascending(n);
    forall i | 0 <= i < 2 * n ensures d[i] == h[i] {
      if i < n {
        DescendingAt(n, i);
      } else {
        AscendingAt(n, i - n);
      }
    }
  }

  /** Every dictionary index lies in [0, n), and each value of [0, n)
      occurs exactly twice. */
  lemma DictionaryIndexesCoverTwice(n: nat)
    ensures forall i :: 0 <= i < |DictionaryIndexes(n)| ==> 0 <= DictionaryIndexes(n)[i] < n
    ensures forall v :: 0 <= v < n ==> multiset(DictionaryIndexes(n))[v] == 2
    ensures forall v :: v < 0 || v >= n ==> multiset(DictionaryIndexes(n))[v] == 0
  {
    DictionaryIndexesHalves(n);
    SameValuesBothWays(n);
    assert multiset(DictionaryIndexes(n)) == multiset(Descending(n)) + multiset(Ascending(n));
    forall v {
      AscendingOnce(n, v);
    }
  }

  // ---------------------------------------------------------------------
  // Expected values of the dictionary and run-length encoded blocks
  // ---------------------------------------------------------------------

  /** What the dictionary block over `values` holds at each position. */
  function DictionaryExpected<T>(values: seq<T>): (r: seq<T>)
  {
    var indexes := DictionaryIndexes(|values|);
    seq(2 * |values|, i requires 0 <= i < 2 * |values| => values[indexes[i]])
  }

  function Reversed<T>(s: seq<T>): (r: seq<T>)
    ensures |r| == |s|
  {
    seq(|s|, i requires 0 <= i < |s| => s[|s| - 1 - i])
  }

  /** Builds the values the dictionary block is expected to hold: the value
      its index selects, at every position. */
  method CreateTestDictionaryExpectedValues<T(0)>(expectedValues: array<T>) returns (expectedDictionaryValues: array<T>)
    ensures expectedDictionaryValues.Length == 2 * expectedValues.Length
    ensures expectedDictionaryValues[..] == DictionaryExpected(expectedValues[..])
    ensures fresh(expectedDictionaryValues)
  {
    var dictionaryIndexes := CreateTestDictionaryIndexes(expectedValues.Length);
    expectedDictionaryValues := CopyOf(expectedValues, dictionaryIndexes.Length);
    for i := 0 to dictionaryIndexes.Length
      invariant dictionaryIndexes[..] == DictionaryIndexes(expectedValues.Length)
      invariant forall j :: 0 <= j < i ==>
        expectedDictionaryValues[j] == expectedValues[dictionaryIndexes[j]]
    {
      var dictionaryIndex := dictionaryIndexes[i];
      var expectedValue := expectedValues[dictionaryIndex];
      expectedDictionaryValues[i] := expectedValue;
    }
  }

  /** The dictionary block reads the values backwards, then forwards. */
  lemma DictionaryExpectedHalves<T>(values: seq<T>)
    ensures |DictionaryExpected(values)| == 2 * |values|
    ensures DictionaryExpected(values) == Reversed(values) + values
  {
    var n := |values|;
    var d := DictionaryExpected(values);
    var h := Reversed(values) + values;
    forall i | 0 <= i < 2 * n ensures d[i] == h[i] {
      if i >= n {
        assert h[i] == values[i - n];
      }
    }
  }

  /** A copy of `a` truncated, or padded with default values, to `length`. */
  method CopyOf<T(0)>(a: array<T>, length: nat) returns (r: array<T>)
    ensures r.Length == length
    ensures forall i :: 0 <= i < length && i < a.Length ==> r[i] == a[i]
    ensures fresh(r)
  {
    r := new T[length];
    forall i | 0 <= i < length && i < a.Length {
      r[i] := a[i];
    }
  }

  /** The length of the run-length encoded test block. */
  const RleLength: nat := 10

  /** Builds the values the run-length encoded block is expected to hold:
      the value at `position`, ten times, whatever the number of values. */
  method CreateTestRleExpectedValues<T(0)>(expectedValues: array<T>, position: nat) returns (expectedRleValues: array<T>)
    requires position < expectedValues.Length
    ensures expectedRleValues.Length == RleLength
    ensures forall i :: 0 <= i < RleLength ==> expectedRleValues[i] == expectedValues[position]
    ensures fresh(expectedRleValues)
  {
    expectedRleValues := CopyOf(expectedValues, RleLength);
    for i := 0 to RleLength
      invariant forall j :: 0 <= j < i ==> expectedRleValues[j] == expectedValues[position]
    {
      expectedRleValues[i] := expectedValues[position];
    }
  }
}
