/**
 * Filenames as byte strings, ordered the way Python orders `bytes`, and
 * `sorted()` over a list of such names. The names are taken to arrive
 * undecoded; if the library decodes them as UTF-8 instead, the order of the
 * encoded bytes is the code-point order Python uses on `str`, so the same
 * list results.
 */
module ByteOrder {
  import opened SeqShapes

  /** One octet of a filename. */
  type Byte = bv8

  /** A filename as a raw byte string. */
  type Name = seq<Byte>

  /**
   * Python's `a <= b` on `bytes`: compare octet by octet as unsigned values;
   * when one name is a prefix of the other, the shorter one comes first.
   */
  predicate LessEq(a: Name, b: Name)
    decreases |a|
  {
    |a| == 0 || (|b| > 0 && (a[0] < b[0] || (a[0] == b[0] && LessEq(a[1..], b[1..]))))
  }

  /**
   * The order, stated without recursion: `a` is a prefix of `b`, or the two
   * agree up to a first differing octet at which `a` is smaller.
   */
  ghost predicate FirstDifferenceOrPrefix(a: Name, b: Name) {
    a <= b || exists k :: 0 <= k < |a| && k < |b| && a[..k] == b[..k] && a[k] < b[k]
  }

  lemma LessEqCharacterized(a: Name, b: Name)
    ensures LessEq(a, b) <==> FirstDifferenceOrPrefix(a, b)
  {
    if LessEq(a, b) {
      LessEqHasFirstDifference(a, b);
    }
    if FirstDifferenceOrPrefix(a, b) {
      FirstDifferenceGivesLessEq(a, b);
    }
  }

  lemma {:induction false} LessEqHasFirstDifference(a: Name, b: Name)
    requires LessEq(a, b)
    ensures FirstDifferenceOrPrefix(a, b)
    decreases |a|
  {
    if |a| > 0 {
      if a[0] < b[0] {
        assert a[..0] == b[..0];
      } else {
        LessEqHasFirstDifference(a[1..], b[1..]);
        if a[1..] <= b[1..] {
          HeadTail(a);
          HeadTail(b);
        } else {
          var k :| 0 <= k < |a[1..]| && k < |b[1..]| && a[1..][..k] == b[1..][..k] && a[1..][k] < b[1..][k];
          PrefixStep(a, k);
          PrefixStep(b, k);
        }
      }
    }
  }

  lemma {:induction false} FirstDifferenceGivesLessEq(a: Name, b: Name)
    requires FirstDifferenceOrPrefix(a, b)
    ensures LessEq(a, b)
    decreases |a|
  {
    if |a| > 0 {
      if a <= b {
        PrefixTail(a, b);
        FirstDifferenceGivesLessEq(a[1..], b[1..]);
      } else {
        var k :| 0 <= k < |a| && k < |b| && a[..k] == b[..k] && a[k] < b[k];
        if k > 0 {
          DifferenceTail(a, b, k);
          FirstDifferenceGivesLessEq(a[1..], b[1..]);
        }
      }
    }
  }

  lemma PrefixTail(a: Name, b: Name)
    requires |a| > 0 && a <= b
    ensures a[0] == b[0] && a[1..] <= b[1..]
  {
  }

  lemma DifferenceTail(a: Name, b: Name, k: nat)
    requires 0 < k < |a| && k < |b| && a[..k] == b[..k] && a[k] < b[k]
    ensures a[0] == b[0] && FirstDifferenceOrPrefix(a[1..], b[1..])
  {
    PrefixStep(a, k - 1);
    PrefixStep(b, k - 1);
    assert a[0] == a[..k][0] && b[0] == b[..k][0];
    assert a[1..][k - 1] == a[k] && b[1..][k - 1] == b[k];
  }

  /** The first `k + 1` octets are the head followed by the first `k` octets of the tail. */
  lemma PrefixStep(a: Name, k: nat)
    requires k < |a|
    ensures a[..k + 1] == [a[0]] + a[1..][..k]
  {
  }

  lemma {:induction false} LessEqReflexive(a: Name)
    ensures LessEq(a, a)
    decreases |a|
  {
    if |a| > 0 {
      LessEqReflexive(a[1..]);
    }
  }

  lemma {:induction false} LessEqAntisymmetric(a: Name, b: Name)
    requires LessEq(a, b) && LessEq(b, a)
    ensures a == b
    decreases |a|
  {
    if |a| > 0 {
      LessEqAntisymmetric(a[1..], b[1..]);
      assert a == [a[0]] + a[1..];
      assert b == [b[0]] + b[1..];
    }
  }

  lemma {:induction false} LessEqTransitive(a: Name, b: Name, c: Name)
    requires LessEq(a, b) && LessEq(b, c)
    ensures LessEq(a, c)
    decreases |a|
  {
    if |a| > 0 && a[0] == b[0] && b[0] == c[0] {
      LessEqTransitive(a[1..], b[1..], c[1..]);
    }
  }

  lemma {:induction false} LessEqTotal(a: Name, b: Name)
    ensures LessEq(a, b) || LessEq(b, a)
    decreases |a|
  {
    if |a| > 0 && |b| > 0 && a[0] == b[0] {
      LessEqTotal(a[1..], b[1..]);
    }
  }

  /** Every pair of names, in list order, is in non-decreasing byte order. */
  predicate Sorted(s: seq<Name>) {
    forall i, j :: 0 <= i < j < |s| ==> LessEq(s[i], s[j])
  }

  /** A name that is at or below every name of `s` may be put in front of it. */
  lemma SortedCons(x: Name, s: seq<Name>)
    requires Sorted(s)
    requires forall y :: y in s ==> LessEq(x, y)
    ensures Sorted([x] + s)
  {
    var r := [x] + s;
    forall i, j | 0 <= i < j < |r| ensures LessEq(r[i], r[j]) {
      if i == 0 {
        assert r[j] == s[j - 1];
      } else {
        assert r[i] == s[i - 1] && r[j] == s[j - 1];
      }
    }
  }

  /** Places `x` into the sorted list `s`, ahead of the first name it is at or below. */
  function Insert(x: Name, s: seq<Name>): (r: seq<Name>)
    requires Sorted(s)
    ensures Sorted(r)
    ensures multiset(r) == multiset(s) + multiset{x}
    decreases |s|
  {
    if s == [] then
      [x]
    else if LessEq(x, s[0]) then
      assert forall y :: y in s ==> LessEq(x, y) by {
        forall y | y in s ensures LessEq(x, y) {
          var j :| 0 <= j < |s| && s[j] == y;
          if j > 0 {
            LessEqTransitive(x, s[0], y);
          }
        }
      }
      SortedCons(x, s);
      [x] + s
    else
      var rest := Insert(x, s[1..]);
      assert s == [s[0]] + s[1..];
      assert forall y :: y in rest ==> LessEq(s[0], y) by {
        forall y | y in rest ensures LessEq(s[0], y) {
          assert y in multiset(rest);
          if y == x {
            LessEqTotal(x, s[0]);
          } else {
            assert y in multiset(s[1..]);
            var j :| 0 <= j < |s[1..]| && s[1..][j] == y;
            assert s[j + 1] == y;
          }
        }
      }
      SortedCons(s[0], rest);
      [s[0]] + rest
  }

  /** Python's `sorted()` on a list of byte-string filenames (insertion sort). */
  function Sort(s: seq<Name>): (r: seq<Name>)
    ensures Sorted(r)
    ensures multiset(r) == multiset(s)
    ensures |r| == |s|
  {
    if s == [] then
      []
    else
      assert s == [s[0]] + s[1..];
      Insert(s[0], Sort(s[1..]))
  }

  /** Lists that agree as multisets hold the same names. */
  lemma SameMembers(a: seq<Name>, b: seq<Name>)
    requires multiset(a) == multiset(b)
    ensures forall n :: n in a <==> n in b
  {
    forall n ensures n in a <==> n in b {
      assert n in a <==> n in multiset(a);
      assert n in b <==> n in multiset(b);
    }
  }

  /** Taking the middle part out of a list removes exactly its names. */
  lemma MultisetMiddle(a: seq<Name>, b: seq<Name>, c: seq<Name>)
    ensures multiset(a + b + c) == multiset(a + c) + multiset(b)
  {
    assert multiset(a + b + c) == multiset(a) + multiset(b) + multiset(c);
    assert multiset(a + c) == multiset(a) + multiset(c);
  }

  /** The head of a sorted list is at or below every name in it. */
  lemma SortedHeadIsLeast(a: seq<Name>, y: Name)
    requires Sorted(a) && y in multiset(a)
    ensures LessEq(a[0], y)
  {
    var j :| 0 <= j < |a| && a[j] == y;
    if j == 0 {
      LessEqReflexive(y);
    }
  }

  lemma SortedTail(a: seq<Name>)
    requires Sorted(a) && a != []
    ensures Sorted(a[1..]) && multiset(a[1..]) == multiset(a) - multiset{a[0]}
  {
    HeadTail(a);
  }

  /** Two sorted lists holding the same names, counted with multiplicity, are equal. */
  lemma {:induction false} SortedPermutationUnique(a: seq<Name>, b: seq<Name>)
    requires Sorted(a) && Sorted(b)
    requires multiset(a) == multiset(b)
    ensures a == b
    decreases |a|
  {
    assert |a| == |multiset(a)| == |multiset(b)| == |b|;
    if a != [] {
      SortedHeadIsLeast(a, b[0]);
      SortedHeadIsLeast(b, a[0]);
      LessEqAntisymmetric(a[0], b[0]);
      SortedTail(a);
      SortedTail(b);
      SortedPermutationUnique(a[1..], b[1..]);
      HeadTail(a);
      HeadTail(b);
    }
  }

  /** `sorted(s)` is the one sorted rearrangement of `s`, duplicates included. */
  lemma SortUnique(s: seq<Name>, r: seq<Name>)
    ensures r == Sort(s) <==> Sorted(r) && multiset(r) == multiset(s)
  {
    if Sorted(r) && multiset(r) == multiset(s) {
      SortedPermutationUnique(r, Sort(s));
    }
  }

  /** Sorting a list that is already sorted returns it unchanged. */
  lemma SortOfSorted(s: seq<Name>)
    requires Sorted(s)
    ensures Sort(s) == s
  {
    SortUnique(s, s);
  }

  /** The order in which names arrive does not matter to `sorted()`. */
  lemma SortIgnoresOrder(s: seq<Name>, t: seq<Name>)
    requires multiset(s) == multiset(t)
    ensures Sort(s) == Sort(t)
  {
    SortUnique(t, Sort(s));
  }
}
