/**
 * `shuffleArray`: the in-place Fisher–Yates loop of drawtable.js. The
 * random choices are an input: `js[i]` is the index, at most `i`, that
 * `Math.floor(Math.random() * (i + 1))` yields when the loop is at `i`
 * (`js[0]` is never consulted, since the loop stops before 0).
 */
module Shuffle {

  /** `js` supplies one admissible choice for every position the loop visits. */
  predicate ValidChoices(n: nat, js: seq<nat>)
  {
    |js| == n && forall i :: 0 < i < n ==> js[i] <= i
  }

  /** `s` with the entries at i and j exchanged. */
  function Swap(s: seq<string>, i: nat, j: nat): (r: seq<string>)
    requires i < |s| && j < |s|
    ensures |r| == |s| && r[i] == s[j] && r[j] == s[i]
    ensures forall k :: 0 <= k < |s| && k != i && k != j ==> r[k] == s[k]
  {
    s[i := s[j]][j := s[i]]
  }

  /** A swap permutes the entries. */
  lemma SwapPermutes(s: seq<string>, t: seq<string>, i: nat, j: nat)
    requires i < |s| && j < |s| && t == Swap(s, i, j)
    ensures multiset(t) == multiset(s)
  {
    if i != j {
      var u := s[i := s[j]];
      assert multiset(u) == multiset(s) - multiset{s[i]} + multiset{s[j]};
      assert u[j] == s[j];
      assert multiset(u[j := s[i]]) == multiset(u) - multiset{s[j]} + multiset{s[i]};
    }
  }

  /**
   * The contents when the loop variable equals `i`, for 0 <= i < |s|:
   * the positions |s| - 1 down to i + 1 have each been swapped once.
   */
  function ShuffleState(s: seq<string>, js: seq<nat>, i: nat): (r: seq<string>)
    requires ValidChoices(|s|, js) && i < |s|
    ensures |r| == |s|
    decreases |s| - i
  {
    if i == |s| - 1 then s
    else Swap(ShuffleState(s, js, i + 1), i + 1, js[i + 1])
  }

  /** What `shuffleArray` leaves in an array that held `s`. */
  function Shuffled(s: seq<string>, js: seq<nat>): (r: seq<string>)
    requires ValidChoices(|s|, js)
    ensures |r| == |s|
  {
    if s == [] then s else ShuffleState(s, js, 0)
  }

  /**
   * One iteration, at loop index p = i + 1: it exchanges the entries at p
   * and at the chosen j <= p, and leaves every other position as it was.
   */
  lemma ShuffleStepLocal(s: seq<string>, js: seq<nat>, i: nat)
    requires ValidChoices(|s|, js) && i + 1 < |s|
    ensures js[i + 1] <= i + 1
    ensures ShuffleState(s, js, i)[i + 1] == ShuffleState(s, js, i + 1)[js[i + 1]]
    ensures ShuffleState(s, js, i)[js[i + 1]] == ShuffleState(s, js, i + 1)[i + 1]
    ensures forall k :: 0 <= k < |s| && k != i + 1 && k != js[i + 1] ==>
              ShuffleState(s, js, i)[k] == ShuffleState(s, js, i + 1)[k]
  {
  }

  /** Every state of the loop is a permutation of the input. */
  lemma {:induction false} ShuffleStatePermutes(s: seq<string>, js: seq<nat>, i: nat)
    requires ValidChoices(|s|, js) && i < |s|
    ensures multiset(ShuffleState(s, js, i)) == multiset(s)
    decreases |s| - i
  {
    if i < |s| - 1 {
      ShuffleStatePermutes(s, js, i + 1);
      assert js[i + 1] <= i + 1;
      SwapPermutes(ShuffleState(s, js, i + 1), ShuffleState(s, js, i), i + 1, js[i + 1]);
    }
  }

  /** The shuffle is a permutation: same length, same multiset of entries. */
  lemma ShuffledPermutes(s: seq<string>, js: seq<nat>)
    requires ValidChoices(|s|, js)
    ensures |Shuffled(s, js)| == |s|
    ensures multiset(Shuffled(s, js)) == multiset(s)
  {
    if s != [] {
      ShuffleStatePermutes(s, js, 0);
    }
  }

  /**
   * Position k is final once the loop has left it: from the state just
   * after iteration k onward, entry k no longer changes.
   */
  lemma {:induction false} ShuffleSettles(s: seq<string>, js: seq<nat>, i: nat, k: nat)
    requires ValidChoices(|s|, js)
    requires i < k < |s|
    ensures ShuffleState(s, js, i)[k] == ShuffleState(s, js, k - 1)[k]
    decreases k - i
  {
    if i < k - 1 {
      ShuffleSettles(s, js, i + 1, k);
      assert js[i + 1] <= i + 1 < k;
    }
  }

  /** The final array holds at each position k >= 1 what iteration k put there. */
  lemma ShuffledSettled(s: seq<string>, js: seq<nat>, k: nat)
    requires ValidChoices(|s|, js)
    requires 0 < k < |s|
    ensures Shuffled(s, js)[k] == ShuffleState(s, js, k - 1)[k]
  {
    if k > 1 {
      ShuffleSettles(s, js, 0, k);
    }
  }

  /** Arrays of length at most one are left as they are. */
  lemma ShortUnchanged(s: seq<string>, js: seq<nat>)
    requires ValidChoices(|s|, js) && |s| <= 1
    ensures Shuffled(s, js) == s
  {
  }

  /** Shuffling entries that are all equal changes nothing observable. */
  lemma {:induction false} UniformUnchanged(s: seq<string>, js: seq<nat>, i: nat)
    requires ValidChoices(|s|, js) && i < |s|
    requires forall k :: 0 <= k < |s| ==> s[k] == s[0]
    ensures ShuffleState(s, js, i) == s
    decreases |s| - i
  {
    if i < |s| - 1 {
      UniformUnchanged(s, js, i + 1);
    }
  }

  /** `shuffleArray(array)` with the random choices `js`. */
  method ShuffleArray(a: array<string>, js: seq<nat>)
    requires ValidChoices(a.Length, js)
    modifies a
    ensures a[..] == Shuffled(old(a[..]), js)
    ensures multiset(a[..]) == multiset(old(a[..]))
    ensures a.Length <= 1 ==> a[..] == old(a[..])
  {
    ghost var s := a[..];
    var i := a.Length - 1;
    while i > 0
      invariant -1 <= i < a.Length
      invariant a.Length == 0 <==> i == -1
      invariant a.Length > 0 ==> a[..] == ShuffleState(s, js, i)
    {
      var j := js[i];
      a[i], a[j] := a[j], a[i];
      i := i - 1;
    }
    assert a[..] == Shuffled(s, js);
    ShuffledPermutes(s, js);
  }
}
