/** Weighted sums over sequences, and how they change under the edits the ledgers make. */
module Sums {
  function Weigh<T>(f: T -> nat, s: seq<T>): nat {
    if s == [] then 0 else Weigh(f, s[..|s| - 1]) + f(s[|s| - 1])
  }

  function RemoveAt<T>(s: seq<T>, i: nat): (r: seq<T>)
    requires i < |s|
    ensures |r| == |s| - 1
    ensures forall x :: x in r ==> x in s
  {
    s[..i] + s[i + 1..]
  }

  lemma WeighAppend<T>(f: T -> nat, s: seq<T>, x: T)
    ensures Weigh(f, s + [x]) == Weigh(f, s) + f(x)
  {
    assert (s + [x])[..|s|] == s;
  }

  lemma {:induction false} WeighConcat<T>(f: T -> nat, s: seq<T>, t: seq<T>)
    ensures Weigh(f, s + t) == Weigh(f, s) + Weigh(f, t)
  {
    if t == [] {
      assert s + t == s;
    } else {
      var front, last := t[..|t| - 1], t[|t| - 1];
      WeighConcat(f, s, front);
      assert s + t == (s + front) + [last];
      WeighAppend(f, s + front, last);
    }
  }

  lemma WeighSplit<T>(f: T -> nat, s: seq<T>, i: nat)
    requires i < |s|
    ensures Weigh(f, s) == Weigh(f, s[..i]) + f(s[i]) + Weigh(f, s[i + 1..])
  {
    assert s == s[..i] + [s[i]] + s[i + 1..];
    WeighConcat(f, s[..i] + [s[i]], s[i + 1..]);
    WeighAppend(f, s[..i], s[i]);
  }

  lemma WeighRemove<T>(f: T -> nat, s: seq<T>, i: nat)
    requires i < |s|
    ensures Weigh(f, s) == Weigh(f, RemoveAt(s, i)) + f(s[i])
  {
    WeighSplit(f, s, i);
    WeighConcat(f, s[..i], s[i + 1..]);
  }

  lemma WeighUpdate<T>(f: T -> nat, s: seq<T>, i: nat, x: T)
    requires i < |s|
    ensures Weigh(f, s[i := x]) + f(s[i]) == Weigh(f, s) + f(x)
  {
    WeighSplit(f, s, i);
    WeighSplit(f, s[i := x], i);
    assert s[i := x][..i] == s[..i] && s[i := x][i + 1..] == s[i + 1..];
  }

  lemma RemovedMultiset<T>(t: seq<T>, j: nat)
    requires j < |t|
    ensures multiset(RemoveAt(t, j)) == multiset(t) - multiset{t[j]}
  {
    assert t == t[..j] + [t[j]] + t[j + 1..];
    assert multiset(t) == multiset(RemoveAt(t, j)) + multiset{t[j]};
  }

  /** The last element of one sequence found in a permutation of it, and taken out of both. */
  lemma LastInPermutation<T>(s: seq<T>, t: seq<T>) returns (j: nat)
    requires multiset(s) == multiset(t) && s != []
    ensures j < |t| && t[j] == s[|s| - 1]
    ensures multiset(s[..|s| - 1]) == multiset(RemoveAt(t, j))
  {
    var front, last := s[..|s| - 1], s[|s| - 1];
    assert s == front + [last];
    assert last in multiset(t);
    j :| 0 <= j < |t| && t[j] == last;
    RemovedMultiset(t, j);
    assert multiset(s) == multiset(front) + multiset{last};
    assert multiset(front) == multiset(s) - multiset{last};
  }

  lemma {:induction false} WeighPermuted<T>(f: T -> nat, s: seq<T>, t: seq<T>)
    requires multiset(s) == multiset(t)
    ensures Weigh(f, s) == Weigh(f, t)
    decreases |s|
  {
    if s == [] {
      assert |multiset(t)| == 0;
    } else {
      var j := LastInPermutation(s, t);
      WeighPermuted(f, s[..|s| - 1], RemoveAt(t, j));
      WeighRemove(f, t, j);
    }
  }

  lemma {:induction false} WeighLess<T>(f: T -> nat, g: T -> nat, s: seq<T>)
    requires forall x :: x in s ==> f(x) <= g(x)
    ensures Weigh(f, s) <= Weigh(g, s)
  {
    if s != [] {
      WeighLess(f, g, s[..|s| - 1]);
    }
  }
}
