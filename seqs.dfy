/**
 * The pointer-array operations the editor relies on, stated on sequences:
 * removing the first occurrence of an element, and dropping every element of a set.
 */
module Seqs {

  /**
   * No element occurs twice. Stated on the last element and the part before
   * it, so that it unfolds one step at a time; DistinctIndices gives the
   * pairwise form.
   */
  ghost predicate Distinct<T>(s: seq<T>)
  {
    s == [] || (s[|s| - 1] !in s[..|s| - 1] && Distinct(s[..|s| - 1]))
  }

  /** The elements of a sequence, as a set. */
  ghost function Elements<T>(s: seq<T>): set<T>
  {
    set x | x in s
  }

  /** One more element of a prefix adds that element to its set. */
  lemma ElementsStep<T>(s: seq<T>, i: nat)
    requires i < |s|
    ensures Elements(s[..i + 1]) == Elements(s[..i]) + {s[i]}
  {
    assert s[..i + 1] == s[..i] + [s[i]];
  }

  /** Distinct means that no two positions hold the same element. */
  lemma {:induction false} DistinctIndices<T>(s: seq<T>)
    ensures Distinct(s) <==> forall i, j :: 0 <= i < j < |s| ==> s[i] != s[j]
  {
    if s != [] {
      var front := s[..|s| - 1];
      DistinctIndices(front);
      if Distinct(s) {
        forall i, j | 0 <= i < j < |s| ensures s[i] != s[j] {
          if j == |s| - 1 {
            assert s[i] == front[i];
          } else {
            assert s[i] == front[i] && s[j] == front[j];
          }
        }
      }
      if forall i, j :: 0 <= i < j < |s| ==> s[i] != s[j] {
        forall i, j | 0 <= i < j < |front| ensures front[i] != front[j] {
          assert front[i] == s[i] && front[j] == s[j];
        }
        forall k | 0 <= k < |front| ensures front[k] != s[|s| - 1] {
          assert front[k] == s[k];
        }
      }
    }
  }

  /** Appending an element that is not there yet keeps a sequence distinct. */
  lemma DistinctAppend<T>(s: seq<T>, x: T)
    requires Distinct(s) && x !in s
    ensures Distinct(s + [x])
  {
    assert (s + [x])[..|s|] == s;
  }

  /** A distinct sequence is its head followed by a distinct tail without the head. */
  lemma DistinctTail<T>(s: seq<T>)
    requires Distinct(s) && s != []
    ensures Distinct(s[1..]) && s[0] !in s[1..]
  {
    DistinctIndices(s);
    DistinctIndices(s[1..]);
    forall k | 0 <= k < |s| - 1 ensures s[1..][k] != s[0] {
      assert s[1..][k] == s[k + 1];
    }
  }

  /** Putting an element that is not there yet in front keeps a sequence distinct. */
  lemma DistinctCons<T>(x: T, t: seq<T>)
    requires Distinct(t) && x !in t
    ensures Distinct([x] + t)
  {
    DistinctIndices(t);
    DistinctIndices([x] + t);
    forall i, j | 0 <= i < j < |[x] + t| ensures ([x] + t)[i] != ([x] + t)[j] {
      assert ([x] + t)[j] == t[j - 1];
      if i > 0 {
        assert ([x] + t)[i] == t[i - 1];
      }
    }
  }

  /** Removal of the first occurrence of x; the sequence is unchanged when x is absent. */
  function RemoveFirst<T(==)>(s: seq<T>, x: T): (r: seq<T>)
    ensures x !in s ==> r == s
    ensures x in s ==> |r| == |s| - 1
  {
    if s == [] then []
    else if s[0] == x then
      s[1..]
    else
      assert s == [s[0]] + s[1..];
      [s[0]] + RemoveFirst(s[1..], x)
  }

  /** RemoveFirst takes away exactly one occurrence of x, when there is one. */
  lemma {:induction false} RemoveFirstMultiset<T>(s: seq<T>, x: T)
    ensures multiset(RemoveFirst(s, x)) == multiset(s) - multiset{x}
  {
    if s != [] {
      assert s == [s[0]] + s[1..];
      RemoveFirstMultiset(s[1..], x);
    }
  }

  /** The subsequence of the elements of s that are not in xs, in their original order. */
  function Without<T(==)>(s: seq<T>, xs: set<T>): (r: seq<T>)
    ensures |r| <= |s|
  {
    if s == [] then []
    else (if s[0] in xs then [] else [s[0]]) + Without(s[1..], xs)
  }

  /** Without keeps exactly the elements of s that are not in xs. */
  lemma {:induction false} WithoutMembers<T>(s: seq<T>, xs: set<T>)
    ensures forall x <- Without(s, xs) :: x in s && x !in xs
    ensures forall x <- s :: x !in xs ==> x in Without(s, xs)
  {
    if s != [] {
      WithoutMembers(s[1..], xs);
      assert s == [s[0]] + s[1..];
    }
  }

  lemma {:induction false} WithoutDistinct<T>(s: seq<T>, xs: set<T>)
    requires Distinct(s)
    ensures Distinct(Without(s, xs))
  {
    if s != [] {
      DistinctTail(s);
      WithoutDistinct(s[1..], xs);
      if s[0] !in xs {
        WithoutMembers(s[1..], xs);
        assert Without(s, xs) == [s[0]] + Without(s[1..], xs);
        DistinctCons(s[0], Without(s[1..], xs));
      } else {
        assert Without(s, xs) == Without(s[1..], xs);
      }
    }
  }

  /** In a sequence without repeats, removing the first occurrence removes every occurrence. */
  lemma {:induction false} RemoveFirstDistinct<T>(s: seq<T>, x: T)
    requires Distinct(s)
    ensures RemoveFirst(s, x) == Without(s, {x})
  {
    if s != [] {
      DistinctTail(s);
      if s[0] == x {
        WithoutNoop(s[1..], {x});
      } else {
        RemoveFirstDistinct(s[1..], x);
      }
    }
  }

  lemma {:induction false} WithoutNoop<T>(s: seq<T>, xs: set<T>)
    requires forall i :: 0 <= i < |s| ==> s[i] !in xs
    ensures Without(s, xs) == s
  {
    if s != [] {
      WithoutNoop(s[1..], xs);
      assert s == [s[0]] + s[1..];
    }
  }

  lemma {:induction false} WithoutWithout<T>(s: seq<T>, xs: set<T>, ys: set<T>)
    ensures Without(Without(s, xs), ys) == Without(s, xs + ys)
  {
    if s != [] {
      WithoutWithout(s[1..], xs, ys);
      var head := if s[0] in xs then [] else [s[0]];
      assert Without(s, xs) == head + Without(s[1..], xs);
      WithoutAppend(head, Without(s[1..], xs), ys);
    }
  }

  lemma {:induction false} WithoutAppend<T>(a: seq<T>, b: seq<T>, xs: set<T>)
    ensures Without(a + b, xs) == Without(a, xs) + Without(b, xs)
  {
    if a != [] {
      var head := if a[0] in xs then [] else [a[0]];
      assert (a + b)[0] == a[0] && (a + b)[1..] == a[1..] + b;
      assert Without(a + b, xs) == head + Without(a[1..] + b, xs);
      WithoutAppend(a[1..], b, xs);
      assert Without(a, xs) == head + Without(a[1..], xs);
    } else {
      assert a + b == b;
    }
  }

  /** Removing, one by one, each element of a list from a sequence without repeats drops exactly those elements. */
  lemma RemoveFirstStep<T>(s: seq<T>, removed: set<T>, x: T)
    requires Distinct(s)
    ensures RemoveFirst(Without(s, removed), x) == Without(s, removed + {x})
    ensures Distinct(Without(s, removed + {x}))
  {
    WithoutDistinct(s, removed);
    RemoveFirstDistinct(Without(s, removed), x);
    WithoutWithout(s, removed, {x});
    WithoutDistinct(s, removed + {x});
  }

  /** Elements kept by RemoveFirst were in the sequence; an element other than x stays. */
  lemma RemoveFirstMembers<T>(s: seq<T>, x: T, y: T)
    ensures y in RemoveFirst(s, x) ==> y in s
    ensures y in s && y != x ==> y in RemoveFirst(s, x)
  {
    var r := RemoveFirst(s, x);
    RemoveFirstMultiset(s, x);
    if y in r {
      assert multiset(r)[y] > 0;
    }
    if y in s && y != x {
      assert multiset(s)[y] > 0;
    }
  }

  /** The head of the sequence survives when it is not the removed element. */
  lemma RemoveFirstKeepsHead<T>(s: seq<T>, x: T)
    requires |s| > 0 && s[0] != x
    ensures |RemoveFirst(s, x)| > 0 && RemoveFirst(s, x)[0] == s[0]
  {
  }

  /** RemoveFirst cuts out exactly the first occurrence and keeps every other element in order. */
  lemma {:induction false} RemoveFirstSplit<T>(s: seq<T>, x: T, k: nat)
    requires k < |s| && s[k] == x && x !in s[..k]
    ensures RemoveFirst(s, x) == s[..k] + s[k + 1..]
  {
    if k > 0 {
      assert s[0] in s[..k];
      assert s[1..][..k - 1] == s[1..k];
      assert forall y :: y in s[1..k] ==> y in s[..k];
      RemoveFirstSplit(s[1..], x, k - 1);
      assert s[..k] == [s[0]] + s[1..][..k - 1];
      assert s[k + 1..] == s[1..][k..];
    }
  }
}
