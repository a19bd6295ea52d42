/** The array helpers of src/utils/utils.ts, and an Option type shared by the model. */
module Utils {

  datatype Option<T> = None | Some(value: T)

  /** No value occurs twice in `s`. */
  predicate Distinct<T(==)>(s: seq<T>)
  {
    forall i, j :: 0 <= i < j < |s| ==> s[i] != s[j]
  }

  /** `range(n)`: the keys of an n-element array, in increasing order. */
  function Range(n: nat): (r: seq<nat>)
    ensures |r| == n
    ensures forall i :: 0 <= i < n ==> r[i] == i
  {
    if n == 0 then [] else Range(n - 1) + [n - 1]
  }

  lemma RangeStrictlyIncreasing(n: nat)
    ensures Distinct(Range(n))
    ensures forall i, j :: 0 <= i < j < n ==> Range(n)[i] < Range(n)[j]
  {
  }

  /**
   * The randomness behind `shuffled`. Each step removes one of the items still
   * left: `choices[k]` is its position among the `n - k` remaining items. Every
   * ordering of the input arises from exactly one such sequence.
   */
  predicate ValidChoices(choices: seq<nat>, n: nat)
  {
    |choices| == n && forall k :: 0 <= k < n ==> choices[k] < n - k
  }

  /** `shuffled(a)`, with the random source supplied by the caller. */
  function Shuffled<T>(a: seq<T>, choices: seq<nat>): (r: seq<T>)
    requires ValidChoices(choices, |a|)
    ensures |r| == |a|
    ensures multiset(r) == multiset(a)
    decreases |a|
  {
    if a == [] then []
    else
      var k := choices[0];
      assert a == a[..k] + [a[k]] + a[k + 1..];
      [a[k]] + Shuffled(a[..k] + a[k + 1..], choices[1..])
  }

  /** Elements that are pairwise different stay pairwise different after shuffling. */
  lemma {:induction false} ShuffledDistinct<T>(a: seq<T>, choices: seq<nat>)
    requires ValidChoices(choices, |a|)
    requires Distinct(a)
    ensures Distinct(Shuffled(a, choices))
    decreases |a|
  {
    if a != [] {
      var k := choices[0];
      var rest := a[..k] + a[k + 1..];
      RemoveAtDistinct(a, k);
      ShuffledDistinct(rest, choices[1..]);
      var tail := Shuffled(rest, choices[1..]);
      assert a[k] !in tail by {
        assert multiset(tail) == multiset(rest);
        assert a[k] !in multiset(rest);
      }
      ConsDistinct(a[k], tail);
    }
  }

  /** Taking one element out of a list without repeats leaves a list without repeats that lacks it. */
  lemma RemoveAtDistinct<T>(a: seq<T>, k: nat)
    requires Distinct(a) && k < |a|
    ensures Distinct(a[..k] + a[k + 1..])
    ensures a[k] !in a[..k] + a[k + 1..]
  {
    var rest := a[..k] + a[k + 1..];
    forall i, j | 0 <= i < j < |rest| ensures rest[i] != rest[j] {
      var i' := if i < k then i else i + 1;
      var j' := if j < k then j else j + 1;
      assert rest[i] == a[i'] && rest[j] == a[j'] && i' < j';
    }
    forall i | 0 <= i < |rest| ensures rest[i] != a[k] {
      var i' := if i < k then i else i + 1;
      assert rest[i] == a[i'];
    }
  }

  /** A new element in front of a list without repeats keeps it without repeats. */
  lemma ConsDistinct<T>(x: T, t: seq<T>)
    requires Distinct(t) && x !in t
    ensures Distinct([x] + t)
  {
    var s := [x] + t;
    forall i, j | 0 <= i < j < |s| ensures s[i] != s[j] {
      assert s[j] == t[j - 1];
      if i > 0 {
        assert s[i] == t[i - 1];
      }
    }
  }

  /** The elements of a sequence, as a set. */
  function Elements<T>(s: seq<T>): set<T>
  {
    set x | x in s
  }

  /** The set of a sequence whose elements are pairwise different has as many elements as the sequence. */
  lemma {:induction false} DistinctCardinality<T>(s: seq<T>)
    requires Distinct(s)
    ensures |Elements(s)| == |s|
  {
    if s != [] {
      var t := s[1..];
      assert Distinct(t);
      DistinctCardinality(t);
      assert Elements(s) == {s[0]} + Elements(t);
      assert s[0] !in Elements(t);
    }
  }

  /** The first `n` elements of a sequence whose elements are pairwise different. */
  lemma DistinctPrefix<T>(s: seq<T>, n: nat)
    requires Distinct(s) && n <= |s|
    ensures Distinct(s[..n])
  {
  }

  /** A subset is no larger than the set containing it. */
  lemma {:induction false} SubsetCardinality<T>(a: set<T>, b: set<T>)
    requires a <= b
    ensures |a| <= |b|
    decreases a
  {
    if a != {} {
      var x :| x in a;
      SubsetCardinality(a - {x}, b - {x});
    }
  }

  /** A subset as large as the set containing it is that set. */
  lemma SubsetSameCardinality<T>(a: set<T>, b: set<T>)
    requires a <= b && |a| == |b|
    ensures a == b
  {
    if a != b {
      var x :| x in b && x !in a;
      SubsetCardinality(a, b - {x});
    }
  }

  /** Some member of a set that is not empty. */
  lemma Member<T>(s: set<T>) returns (x: T)
    requires s != {}
    ensures x in s
  {
    x :| x in s;
  }

  lemma AppendAssociative<T>(a: seq<T>, b: seq<T>, c: seq<T>)
    ensures (a + b) + c == a + (b + c)
  {
  }

  /** Shuffling keeps exactly the elements it was given. */
  lemma ShuffledMembers<T>(a: seq<T>, choices: seq<nat>)
    requires ValidChoices(choices, |a|)
    ensures forall x :: x in Shuffled(a, choices) <==> x in a
  {
    var r := Shuffled(a, choices);
    forall x
      ensures x in r <==> x in a
    {
      assert x in r <==> x in multiset(r);
      assert x in a <==> x in multiset(a);
    }
  }
}
