/**
 The size comparison behind the monitor-set policy, as the C++ standard library
 computes it. `std::set_intersection` is a merge: it walks both ranges once and
 relies on each being sorted by `<`. The ranges it is given here are the
 iteration orders of two hash sets, which follow no order, so the merge can skip
 elements that both sets contain.
 */
module SetIntersection {

  import opened Registry
  import Layouts

  /** `std::string`'s `operator<`: lexicographic order, a proper prefix first. */
  predicate StringLess(a: string, b: string)
  {
    if a == [] then b != []
    else if b == [] then false
    else if a[0] != b[0] then a[0] < b[0]
    else StringLess(a[1..], b[1..])
  }

  lemma {:induction false} StringLessIrreflexive(a: string)
    ensures !StringLess(a, a)
  {
    if a != [] {
      StringLessIrreflexive(a[1..]);
    }
  }

  lemma {:induction false} StringLessTransitive(a: string, b: string, c: string)
    requires StringLess(a, b) && StringLess(b, c)
    ensures StringLess(a, c)
  {
    if a != [] && b != [] && c != [] && a[0] == b[0] && b[0] == c[0] {
      StringLessTransitive(a[1..], b[1..], c[1..]);
    }
  }

  lemma {:induction false} StringLessTotal(a: string, b: string)
    requires a != b
    ensures StringLess(a, b) || StringLess(b, a)
  {
    if a != [] && b != [] && a[0] == b[0] {
      assert a == [a[0]] + a[1..] && b == [b[0]] + b[1..];
      StringLessTotal(a[1..], b[1..]);
    }
  }

  /** Strictly increasing under `StringLess`: what the merge expects of each range. */
  predicate Sorted(s: seq<string>)
  {
    forall i, j :: 0 <= i < j < |s| ==> StringLess(s[i], s[j])
  }

  /**
   The merge of `std::set_intersection`: when the front of `a` is smaller it is
   skipped, when the front of `b` is smaller that one is skipped, and otherwise the
   common front is output and both advance.
   */
  function MergeIntersection(a: seq<string>, b: seq<string>): (r: seq<string>)
    ensures |r| <= |a| && |r| <= |b|
    ensures forall x :: x in r ==> x in a && x in b
    decreases |a| + |b|
  {
    if a == [] || b == [] then []
    else if StringLess(a[0], b[0]) then MergeIntersection(a[1..], b)
    else if StringLess(b[0], a[0]) then MergeIntersection(a, b[1..])
    else
      StringLessTotalContra(a[0], b[0]);
      [a[0]] + MergeIntersection(a[1..], b[1..])
  }

  /** Neither string less than the other means they are equal. */
  lemma StringLessTotalContra(a: string, b: string)
    requires !StringLess(a, b) && !StringLess(b, a)
    ensures a == b
  {
    if a != b {
      StringLessTotal(a, b);
    }
  }

  /** The elements of a sequence, as the hash set the output iterator inserts into. */
  function Elements(s: seq<string>): set<string>
  {
    set x | x in s
  }

  /**
   The monitor-set test as written: the keys and the enabled descriptors, each in
   its set's iteration order, are merged, and the layout qualifies when the merged
   result has as many elements as the layout has keys.
   */
  predicate FitsAsWritten(keyOrder: seq<string>, currentOrder: seq<string>)
  {
    |Elements(MergeIntersection(keyOrder, currentOrder))| == |keyOrder|
  }

  /** Every element a sorted range holds after its front is greater than the front. */
  lemma SortedFront(s: seq<string>, x: string)
    requires Sorted(s) && |s| > 0 && x in s[1..]
    ensures StringLess(s[0], x)
  {
    var j :| 1 <= j < |s| && s[j] == x;
  }

  /** A string smaller than the front of a sorted range is not in it. */
  lemma BelowSortedFront(s: seq<string>, x: string)
    requires Sorted(s) && s != [] && StringLess(x, s[0])
    ensures x !in s
  {
    if x in s {
      var j :| 0 <= j < |s| && s[j] == x;
      if j > 0 {
        StringLessTransitive(x, s[0], s[j]);
      }
      StringLessIrreflexive(x);
    }
  }

  /** On sorted inputs the merge finds exactly the common elements: the intended behaviour. */
  lemma {:induction false} MergeIntersectionSorted(a: seq<string>, b: seq<string>)
    requires Sorted(a) && Sorted(b)
    ensures Elements(MergeIntersection(a, b)) == Elements(a) * Elements(b)
    decreases |a| + |b|
  {
    if a != [] && b != [] {
      assert a == [a[0]] + a[1..] && b == [b[0]] + b[1..];
      if StringLess(a[0], b[0]) {
        BelowSortedFront(b, a[0]);
        MergeIntersectionSorted(a[1..], b);
      } else if StringLess(b[0], a[0]) {
        BelowSortedFront(a, b[0]);
        MergeIntersectionSorted(a, b[1..]);
      } else {
        StringLessTotalContra(a[0], b[0]);
        MergeIntersectionSorted(a[1..], b[1..]);
        forall x | x in a[1..] ensures x != b[0] {
          SortedFront(a, x);
          StringLessIrreflexive(x);
        }
        forall x | x in b[1..] ensures x != a[0] {
          SortedFront(b, x);
          StringLessIrreflexive(x);
        }
        var rest := MergeIntersection(a[1..], b[1..]);
        assert MergeIntersection(a, b) == [a[0]] + rest;
        ElementsCons(a[0], rest);
        ElementsCons(a[0], a[1..]);
        ElementsCons(a[0], b[1..]);
        var a1, b1 := Elements(a[1..]), Elements(b[1..]);
        assert a[0] !in a1 && a[0] !in b1;
        assert ({a[0]} + a1) * ({a[0]} + b1) == {a[0]} + a1 * b1;
      }
    }
  }

  lemma ElementsCons(x: string, s: seq<string>)
    ensures Elements([x] + s) == {x} + Elements(s)
  {
    assert forall y :: y in [x] + s <==> y == x || y in s;
  }

  /**
   The test as written never accepts too much: when it passes, every key is an
   enabled descriptor. It can only reject a layout the intended test accepts.
   */
  lemma FitsAsWrittenSound(keyOrder: seq<string>, currentOrder: seq<string>)
    requires Distinct(keyOrder)
    requires FitsAsWritten(keyOrder, currentOrder)
    ensures Elements(keyOrder) <= Elements(currentOrder)
  {
    var common := Elements(MergeIntersection(keyOrder, currentOrder));
    var keys := Elements(keyOrder);
    DistinctElements(keyOrder);
    assert common <= keys;
    if !(keys <= common) {
      var x :| x in keys && x !in common;
      assert common <= keys - {x};
      Layouts.SubsetSize(common, keys - {x});
    }
  }

  lemma {:induction false} DistinctElements(s: seq<string>)
    requires Distinct(s)
    ensures |Elements(s)| == |s|
  {
    if s != [] {
      var rest := s[1..];
      assert Elements(s) == {s[0]} + Elements(rest);
      assert s[0] !in Elements(rest);
      DistinctElements(rest);
    }
  }

  /**
   Had both ranges been sorted, the test as written would be the corrected one:
   the merged size is the shared count, and it equals the number of keys exactly
   when every key is an enabled descriptor.
   */
  lemma FitsAsWrittenSortedIsIntended(keyOrder: seq<string>, currentOrder: seq<string>)
    requires Sorted(keyOrder) && Sorted(currentOrder)
    ensures FitsAsWritten(keyOrder, currentOrder) ==
            (Layouts.SharedCount(Elements(keyOrder), Elements(currentOrder)) == |Elements(keyOrder)|)
    ensures FitsAsWritten(keyOrder, currentOrder) <==> Elements(keyOrder) <= Elements(currentOrder)
  {
    MergeIntersectionSorted(keyOrder, currentOrder);
    assert Distinct(keyOrder) by {
      forall i, j | 0 <= i < j < |keyOrder| ensures keyOrder[i] != keyOrder[j] {
        StringLessIrreflexive(keyOrder[i]);
      }
    }
    DistinctElements(keyOrder);
  }

  /**
   The discrepancy: keys "B", "A" and enabled monitors "A", "B", with the hash
   sets handing them out in those orders. Every key is enabled, yet the merge
   skips "A" and the layout is rejected.
   */
  lemma FitsAsWrittenRejectsMatchingLayout()
    ensures Elements(["B", "A"]) <= Elements(["A", "B"])
    ensures !FitsAsWritten(["B", "A"], ["A", "B"])
  {
    assert StringLess("A", "B");
    assert !StringLess("B", "A");
    var r := MergeIntersection(["B", "A"], ["A", "B"]);
    assert ["B", "A"][1..] == ["A"] && ["A", "B"][1..] == ["B"];
    assert MergeIntersection(["B", "A"], ["B"]) == ["B"] + MergeIntersection(["A"], []);
    assert r == ["B"];
    assert Elements(r) == {"B"};
  }
}
