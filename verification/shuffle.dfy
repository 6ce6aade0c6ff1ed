/** `shuffleArray`: the Fisher-Yates pass the allocator uses on the free characters.
    `Math.random` is an oracle: `draws(i)` is the value of
    `Math.floor(Math.random() * (i + 1))` on the step that swaps position `i`;
    reducing it modulo `i + 1` keeps every choice in [0, i], as the source's is. */
module Shuffle {

  function Swap<T>(s: seq<T>, i: nat, j: nat): (r: seq<T>)
    requires i < |s| && j < |s|
    ensures |r| == |s| && r[i] == s[j] && r[j] == s[i]
    ensures forall k :: 0 <= k < |s| && k != i && k != j ==> r[k] == s[k]
    ensures multiset(r) == multiset(s)
  {
    s[i := s[j]][j := s[i]]
  }

  /** The loop `for (let i = n - 1; i > 0; i--)` from a given `i` downwards. */
  function ShuffleFrom<T>(s: seq<T>, draws: nat -> nat, i: int): (r: seq<T>)
    requires i < |s|
    ensures |r| == |s| && multiset(r) == multiset(s)
    ensures forall k :: i < k < |s| && 0 <= k ==> r[k] == s[k]
    decreases i
  {
    if i <= 0 then s
    else ShuffleFrom(Swap(s, i, draws(i) % (i + 1)), draws, i - 1)
  }

  /** `shuffleArray(array)`: a copy of `array`, shuffled. */
  function ShuffleArray<T>(a: seq<T>, draws: nat -> nat): (r: seq<T>)
    ensures |r| == |a| && multiset(r) == multiset(a)
  {
    ShuffleFrom(a, draws, |a| - 1)
  }

  /** A permutation keeps the set of elements, so an element is in the shuffled copy
      exactly when it is in the input. */
  lemma ShuffleKeepsElements<T>(a: seq<T>, draws: nat -> nat)
    ensures forall x :: x in ShuffleArray(a, draws) <==> x in a
  {
    var r := ShuffleArray(a, draws);
    forall x ensures x in r <==> x in a {
      assert x in r <==> x in multiset(r);
      assert x in a <==> x in multiset(a);
    }
  }

  /** Shuffling a duplicate-free sequence yields a duplicate-free sequence. */
  lemma ShuffleKeepsDistinct<T>(a: seq<T>, draws: nat -> nat)
    requires forall i, j :: 0 <= i < j < |a| ==> a[i] != a[j]
    ensures var r := ShuffleArray(a, draws);
            forall i, j :: 0 <= i < j < |r| ==> r[i] != r[j]
  {
    var r := ShuffleArray(a, draws);
    DistinctIffMultiplicityOne(a);
    DistinctIffMultiplicityOne(r);
  }

  lemma {:induction false} DistinctIffMultiplicityOne<T>(s: seq<T>)
    ensures (forall i, j :: 0 <= i < j < |s| ==> s[i] != s[j]) <==> (forall x :: multiset(s)[x] <= 1)
  {
    if s == [] {
    } else {
      DistinctIffMultiplicityOne(s[1..]);
      assert s == [s[0]] + s[1..];
      assert multiset(s) == multiset{s[0]} + multiset(s[1..]);
      if forall i, j :: 0 <= i < j < |s| ==> s[i] != s[j] {
        assert forall i, j :: 0 <= i < j < |s[1..]| ==> s[1..][i] != s[1..][j] by {
          forall i, j | 0 <= i < j < |s[1..]| ensures s[1..][i] != s[1..][j] {
            assert s[1..][i] == s[i + 1] && s[1..][j] == s[j + 1];
          }
        }
        assert s[0] !in s[1..] by {
          forall k | 0 <= k < |s[1..]| ensures s[1..][k] != s[0] {
            assert s[1..][k] == s[k + 1];
          }
        }
      } else {
        var i, j :| 0 <= i < j < |s| && s[i] == s[j];
        if i == 0 {
          assert s[j] in s[1..] by { assert s[1..][j - 1] == s[j]; }
          assert multiset(s)[s[0]] >= 2;
        } else {
          assert s[1..][i - 1] == s[1..][j - 1];
          var x :| multiset(s[1..])[x] > 1;
          assert multiset(s)[x] > 1;
        }
      }
    }
  }
}
