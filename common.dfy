/** Value types shared by every module: Option for a key a mapping may lack,
    Result for an operation that can raise, and facts about sequences
    without repetitions. */
module Common {

  datatype Option<T> = None | Some(value: T) {
    /** The value, or `default` when absent (Python's `dict.get(key, default)`). */
    function GetOr(default: T): T {
      if Some? then value else default
    }
  }

  datatype Result<T, E> = Success(value: T) | Failure(error: E)

  /** No element occurs twice in `s`. */
  predicate Distinct<T(==)>(s: seq<T>) {
    forall i, j :: 0 <= i < j < |s| ==> s[i] != s[j]
  }

  /** Appending in two steps is appending the concatenation; stated once so
      that proofs about appended findings need not rediscover it. */
  /** A sequence's multiset is that of its prefix plus its last element. */
  lemma MultisetLast<T>(s: seq<T>)
    requires s != []
    ensures multiset(s) == multiset(s[..|s| - 1]) + multiset{s[|s| - 1]}
  {
    assert s == s[..|s| - 1] + [s[|s| - 1]];
  }

  lemma AppendAssociative<T>(a: seq<T>, b: seq<T>, c: seq<T>)
    ensures a + b + c == a + (b + c)
  {
  }

  /** The set of the elements of `s`, built one element at a time. */
  function Elements<T(!new)>(s: seq<T>): (r: set<T>)
    ensures forall x :: x in r <==> x in s
  {
    if s == [] then {}
    else
      assert forall x :: x in s <==> x in s[..|s| - 1] || x == s[|s| - 1];
      Elements(s[..|s| - 1]) + {s[|s| - 1]}
  }

  /** The elements of `s`, each once, in the order in which they first occur:
      the key order of a Python dict after assigning the keys of `s` in turn. */
  function FirstOccurrences<T(==,!new)>(s: seq<T>): (r: seq<T>)
    ensures Distinct(r)
    ensures forall x :: x in r <==> x in s
  {
    if s == [] then []
    else
      var p := FirstOccurrences(s[..|s| - 1]);
      assert forall x :: x in s <==> x in s[..|s| - 1] || x == s[|s| - 1];
      if s[|s| - 1] in p then p else p + [s[|s| - 1]]
  }

  /** Order of first occurrences: whenever the element placed j-th occurs in
      `s` (at position k), the element placed before it has already occurred. */
  lemma {:induction false} FirstOccurrencesOrder<T(!new)>(s: seq<T>, i: int, j: int, k: int)
    requires 0 <= i < j < |FirstOccurrences(s)|
    requires 0 <= k < |s| && s[k] == FirstOccurrences(s)[j]
    ensures FirstOccurrences(s)[i] in s[..k]
  {
    var n := |s|;
    var s' := s[..n - 1];
    var p := FirstOccurrences(s');
    var r := FirstOccurrences(s);
    if s[n - 1] in p {
      assert r == p;
      if k < n - 1 {
        assert s'[k] == s[k];
        FirstOccurrencesOrder(s', i, j, k);
        assert s'[..k] == s[..k];
      } else {
        assert r[j] in s';
        var k' :| 0 <= k' < |s'| && s'[k'] == r[j];
        FirstOccurrencesOrder(s', i, j, k');
        assert s'[..k'] == s[..k'];
        assert s[..k'] <= s[..k];
      }
    } else {
      assert r == p + [s[n - 1]];
      if j < |p| {
        assert r[j] in p;
        assert k < n - 1;
        assert s'[k] == s[k];
        FirstOccurrencesOrder(s', i, j, k);
        assert s'[..k] == s[..k];
      } else {
        assert r[i] == p[i] && p[i] in s';
        assert r[j] !in s';
        assert k == n - 1;
        assert s[..k] == s';
      }
    }
  }

  /** A sequence without repetitions is its own list of first occurrences. */
  lemma {:induction false} FirstOccurrencesOfDistinct<T(!new)>(s: seq<T>)
    requires Distinct(s)
    ensures FirstOccurrences(s) == s
  {
    if s != [] {
      var s' := s[..|s| - 1];
      assert Distinct(s');
      FirstOccurrencesOfDistinct(s');
      assert s[|s| - 1] !in s';
      assert s == s' + [s[|s| - 1]];
    }
  }

  /** Appending after the first occurrences of `a` gives the same order as
      appending after `a` itself. */
  lemma {:induction false} FirstOccurrencesAppend<T(!new)>(a: seq<T>, b: seq<T>)
    ensures FirstOccurrences(FirstOccurrences(a) + b) == FirstOccurrences(a + b)
  {
    if b == [] {
      assert FirstOccurrences(a) + b == FirstOccurrences(a);
      assert a + b == a;
      FirstOccurrencesOfDistinct(FirstOccurrences(a));
    } else {
      var b' := b[..|b| - 1];
      FirstOccurrencesAppend(a, b');
      assert (FirstOccurrences(a) + b)[..|FirstOccurrences(a) + b| - 1] == FirstOccurrences(a) + b';
      assert (a + b)[..|a + b| - 1] == a + b';
    }
  }
}
