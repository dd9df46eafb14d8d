/**
 * The Fisher–Yates `shuffle` of uno_server.js. The random index of each step
 * is the parameter `roll`: step `i` swaps index `i` with `roll(i) % (i + 1)`,
 * which ranges over exactly the indices `0..i` that `Math.random` can choose.
 */
module Shuffling {
  import Seqs

  /** The index swapped with `i` at step `i`: always at most `i`. */
  function Pick(roll: nat -> nat, i: nat): (j: nat)
    ensures j <= i
  {
    roll(i) % (i + 1)
  }

  /** The effect of the destructuring swap on the array's contents. */
  function Swap<T>(s: seq<T>, i: nat, j: nat): (r: seq<T>)
    requires i < |s| && j < |s|
    ensures |r| == |s| && r[i] == s[j] && r[j] == s[i]
    ensures forall k :: 0 <= k < |s| && k != i && k != j ==> r[k] == s[k]
    ensures multiset(r) == multiset(s)
  {
    assert Exchange(s, i, j) == s[i := s[j]][j := s[i]];
    Exchange(s, i, j)
  }

  function Exchange<T>(s: seq<T>, i: nat, j: nat): seq<T>
    requires i < |s| && j < |s|
  {
    seq(|s|, k requires 0 <= k < |s| => if k == i then s[j] else if k == j then s[i] else s[k])
  }

  /** The steps `i, i - 1, ..., 1` of the loop, applied to `s`. */
  function ShuffleFrom<T>(s: seq<T>, i: nat, roll: nat -> nat): seq<T>
    requires i < |s|
    decreases i
  {
    if i == 0 then s else ShuffleFrom(Swap(s, i, Pick(roll, i)), i - 1, roll)
  }

  /** The whole loop: `for (let i = arr.length - 1; i > 0; i--)`. */
  function Shuffled<T>(s: seq<T>, roll: nat -> nat): seq<T>
  {
    if s == [] then s else ShuffleFrom(s, |s| - 1, roll)
  }

  lemma {:induction false} ShuffleFromPermutes<T>(s: seq<T>, i: nat, roll: nat -> nat)
    requires i < |s|
    ensures |ShuffleFrom(s, i, roll)| == |s|
    ensures multiset(ShuffleFrom(s, i, roll)) == multiset(s)
    decreases i
  {
    if i > 0 {
      var t := Swap(s, i, Pick(roll, i));
      assert ShuffleFrom(s, i, roll) == ShuffleFrom(t, i - 1, roll);
      ShuffleFromPermutes(t, i - 1, roll);
    }
  }

  /** For every choice of the random indices the result is a permutation of the input. */
  lemma ShuffledPermutes<T>(s: seq<T>, roll: nat -> nat)
    ensures |Shuffled(s, roll)| == |s|
    ensures multiset(Shuffled(s, roll)) == multiset(s)
  {
    if s != [] {
      ShuffleFromPermutes(s, |s| - 1, roll);
    }
  }

  /** Every element of the shuffled sequence comes from the input. */
  lemma ShuffledMembers<T>(s: seq<T>, roll: nat -> nat, x: T)
    ensures x in Shuffled(s, roll) <==> x in s
  {
    ShuffledPermutes(s, roll);
    assert x in Shuffled(s, roll) <==> x in multiset(Shuffled(s, roll));
  }

  lemma MapSwap<T, U>(s: seq<T>, i: nat, j: nat, f: T -> U)
    requires i < |s| && j < |s|
    ensures Seqs.Map(Swap(s, i, j), f) == Swap(Seqs.Map(s, f), i, j)
  {
    var l, r := Seqs.Map(Swap(s, i, j), f), Swap(Seqs.Map(s, f), i, j);
    forall k | 0 <= k < |s|
      ensures l[k] == r[k]
    {
    }
  }

  lemma {:induction false} ShuffleFromMap<T, U>(s: seq<T>, i: nat, roll: nat -> nat, f: T -> U)
    requires i < |s|
    ensures |ShuffleFrom(s, i, roll)| == |s|
    ensures Seqs.Map(ShuffleFrom(s, i, roll), f) == ShuffleFrom(Seqs.Map(s, f), i, roll)
    decreases i
  {
    ShuffleFromPermutes(s, i, roll);
    if i > 0 {
      var j := Pick(roll, i);
      MapSwap(s, i, j, f);
      ShuffleFromMap(Swap(s, i, j), i - 1, roll, f);
      calc {
        Seqs.Map(ShuffleFrom(s, i, roll), f);
        Seqs.Map(ShuffleFrom(Swap(s, i, j), i - 1, roll), f);
        ShuffleFrom(Seqs.Map(Swap(s, i, j), f), i - 1, roll);
        ShuffleFrom(Swap(Seqs.Map(s, f), i, j), i - 1, roll);
        ShuffleFrom(Seqs.Map(s, f), i, roll);
      }
    }
  }

  /**
   * Shuffling moves whole elements: shuffling and then looking at one field of
   * each element equals looking at that field first and shuffling after.
   */
  lemma ShuffledMap<T, U>(s: seq<T>, roll: nat -> nat, f: T -> U)
    ensures Seqs.Map(Shuffled(s, roll), f) == Shuffled(Seqs.Map(s, f), roll)
  {
    if s != [] {
      ShuffleFromMap(s, |s| - 1, roll, f);
    }
  }

  /** One step of the loop: `[arr[i], arr[j]] = [arr[j], arr[i]]` on the array. */
  method SwapCells<T>(a: array<T>, i: nat, j: nat)
    requires i < a.Length && j < a.Length
    modifies a
    ensures a[..] == Swap(old(a[..]), i, j)
  {
    a[i], a[j] := a[j], a[i];
  }

  /** `shuffle(arr)`: the array is shuffled in place. */
  method ShuffleInPlace<T>(a: array<T>, roll: nat -> nat)
    modifies a
    ensures a[..] == Shuffled(old(a[..]), roll)
    ensures multiset(a[..]) == multiset(old(a[..]))
  {
    ghost var s := a[..];
    var i: int := a.Length - 1;
    while i > 0
      invariant -1 <= i < a.Length
      invariant i < 0 ==> a.Length == 0
      invariant i >= 0 ==> ShuffleFrom(a[..], i, roll) == Shuffled(s, roll)
      decreases i
    {
      var j := Pick(roll, i);
      ghost var before := a[..];
      assert ShuffleFrom(before, i, roll) == ShuffleFrom(Swap(before, i, j), i - 1, roll);
      SwapCells(a, i, j);
      i := i - 1;
    }
    ShuffledPermutes(s, roll);
  }

  /**
   * `shuffle` applied to a fresh array holding `s` (as `generateDeck` and the
   * reshuffle of the discard pile use it): the shuffled contents.
   */
  method Shuffle<T>(s: seq<T>, roll: nat -> nat) returns (r: seq<T>)
    ensures r == Shuffled(s, roll)
    ensures |r| == |s| && multiset(r) == multiset(s)
  {
    var cells := new T[|s|](k requires 0 <= k < |s| => s[k]);
    assert cells[..] == s;
    ShuffleInPlace(cells, roll);
    r := cells[..];
    ShuffledPermutes(s, roll);
  }
}
