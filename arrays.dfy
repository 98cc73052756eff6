/**
 * The JavaScript array built-ins the favourites code relies on, modelled on
 * sequences: `includes` and `filter` by inequality with one value, plus the
 * duplicate-freedom predicate the favourites list is expected to keep.
 */
module Arrays {

  /** `s.includes(x)`: a left-to-right scan for an element equal to `x`. */
  function Includes<T(==)>(s: seq<T>, x: T): (r: bool)
    ensures r <==> x in s
  {
    if s == [] then false
    else
      assert s == [s[0]] + s[1..];
      s[0] == x || Includes(s[1..], x)
  }

  /**
   * `s.filter(v => v !== x)`: every copy of `x` is dropped, every other
   * element is kept with its multiplicity.
   */
  function Without<T(==,!new)>(s: seq<T>, x: T): (r: seq<T>)
    ensures x !in r
    ensures forall y {:trigger multiset(r)[y]} :: y != x ==> multiset(r)[y] == multiset(s)[y]
    ensures |r| == |s| - multiset(s)[x]
  {
    if s == [] then []
    else
      assert s == [s[0]] + s[1..];
      (if s[0] == x then [] else [s[0]]) + Without(s[1..], x)
  }

  /** No value occurs twice. */
  predicate NoDup<T(==,!new)>(s: seq<T>)
  {
    forall x :: x in s ==> multiset(s)[x] <= 1
  }

  /** Filtering distributes over concatenation, so the kept elements keep their order. */
  lemma {:induction false} WithoutConcat<T(!new)>(a: seq<T>, b: seq<T>, x: T)
    ensures Without(a + b, x) == Without(a, x) + Without(b, x)
  {
    if a == [] {
      assert a + b == b;
    } else {
      assert (a + b)[0] == a[0];
      assert (a + b)[1..] == a[1..] + b;
      WithoutConcat(a[1..], b, x);
    }
  }

  /** Filtering out a value that does not occur changes nothing. */
  lemma {:induction false} WithoutAbsent<T(!new)>(s: seq<T>, x: T)
    requires x !in s
    ensures Without(s, x) == s
  {
    if s != [] {
      assert s == [s[0]] + s[1..];
      WithoutAbsent(s[1..], x);
    }
  }

  /** Duplicate-freedom by multiplicity is the same as pairwise-distinct positions. */
  lemma {:induction false} NoDupIffDistinct<T(!new)>(s: seq<T>)
    ensures NoDup(s) <==> forall i, j :: 0 <= i < j < |s| ==> s[i] != s[j]
  {
    if NoDup(s) {
      forall i, j | 0 <= i < j < |s| ensures s[i] != s[j] {
        assert s == s[..j] + s[j..];
        assert s[i] == s[..j][i] && s[j] == s[j..][0];
        assert multiset(s)[s[j]] == multiset(s[..j])[s[j]] + multiset(s[j..])[s[j]];
        assert multiset(s[..j])[s[i]] >= 1 && multiset(s[j..])[s[j]] >= 1;
      }
    }
    if forall i, j :: 0 <= i < j < |s| ==> s[i] != s[j] {
      if s != [] {
        var t := s[1..];
        assert forall i, j :: 0 <= i < j < |t| ==> t[i] == s[i + 1] && t[j] == s[j + 1];
        NoDupIffDistinct(t);
        assert s == [s[0]] + t;
        assert s[0] !in t by {
          forall k | 0 <= k < |t| ensures t[k] != s[0] {
            assert t[k] == s[k + 1];
          }
        }
        forall y | y in s ensures multiset(s)[y] <= 1 {
          assert multiset(s)[y] == multiset([s[0]])[y] + multiset(t)[y];
        }
      }
    }
  }
}
