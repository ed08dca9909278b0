/** Generic facts about sequences used throughout the dashboard model:
    counting, duplicate freedom, first occurrences, subsequences and the
    first-seen de-duplication performed by a column's `unique()`. */
module Sequences {

  /** Number of positions of `s` holding `x`. */
  function Occurrences<T(==)>(s: seq<T>, x: T): (n: nat)
    ensures n <= |s|
    ensures n > 0 <==> x in s
  {
    if s == [] then 0 else (if s[0] == x then 1 else 0) + Occurrences(s[1..], x)
  }

  predicate NoDuplicates<T(==)>(s: seq<T>) {
    forall i, j :: 0 <= i < j < |s| ==> s[i] != s[j]
  }

  lemma NoDuplicatesCons<T>(x: T, s: seq<T>)
    ensures NoDuplicates([x] + s) <==> x !in s && NoDuplicates(s)
  {
    var t := [x] + s;
    if x !in s && NoDuplicates(s) {
      forall i, j | 0 <= i < j < |t| ensures t[i] != t[j] {
        assert t[j] == s[j - 1];
        if i > 0 { assert t[i] == s[i - 1]; }
      }
    }
    if NoDuplicates(t) {
      forall i, j | 0 <= i < j < |s| ensures s[i] != s[j] {
        assert s[i] == t[i + 1] && s[j] == t[j + 1];
      }
      forall j | 0 <= j < |s| ensures s[j] != x {
        assert t[0] == x && t[j + 1] == s[j] && t[0] != t[j + 1];
      }
    }
  }

  /** Position of the first occurrence of `x` in `s`. */
  function FirstIndex<T(==)>(s: seq<T>, x: T): (k: nat)
    requires x in s
    ensures k < |s| && s[k] == x
    ensures forall j :: 0 <= j < k ==> s[j] != x
  {
    if s[0] == x then 0 else 1 + FirstIndex(s[1..], x)
  }

  /** `a` is obtained from `b` by deleting elements, keeping the order. */
  predicate IsSubsequence<T(==)>(a: seq<T>, b: seq<T>)
    decreases |b|
  {
    if a == [] then true
    else if b == [] then false
    else (a[0] == b[0] && IsSubsequence(a[1..], b[1..])) || IsSubsequence(a, b[1..])
  }

  /** The values of `s` not in `seen`, each once, in the order of their first
      occurrence. */
  function DistinctFrom<T(==)>(s: seq<T>, seen: set<T>): seq<T>
  {
    if s == [] then []
    else if s[0] in seen then DistinctFrom(s[1..], seen)
    else [s[0]] + DistinctFrom(s[1..], seen + {s[0]})
  }

  /** First-seen de-duplication, as a column's `unique()` returns it. */
  function Distinct<T(==)>(s: seq<T>): seq<T> {
    DistinctFrom(s, {})
  }

  lemma {:induction false} DistinctFromMembers<T>(s: seq<T>, seen: set<T>)
    ensures forall x :: x in DistinctFrom(s, seen) <==> x in s && x !in seen
  {
    if s != [] {
      if s[0] in seen {
        DistinctFromMembers(s[1..], seen);
      } else {
        DistinctFromMembers(s[1..], seen + {s[0]});
      }
      assert s == [s[0]] + s[1..];
    }
  }

  lemma {:induction false} DistinctFromNoDuplicates<T>(s: seq<T>, seen: set<T>)
    ensures NoDuplicates(DistinctFrom(s, seen))
  {
    if s != [] {
      if s[0] in seen {
        DistinctFromNoDuplicates(s[1..], seen);
      } else {
        var seen' := seen + {s[0]};
        DistinctFromNoDuplicates(s[1..], seen');
        DistinctFromMembers(s[1..], seen');
        NoDuplicatesCons(s[0], DistinctFrom(s[1..], seen'));
      }
    }
  }

  lemma {:induction false} DistinctFromOrder<T>(s: seq<T>, seen: set<T>)
    ensures forall x :: x in DistinctFrom(s, seen) ==> x in s
    ensures forall i, j :: 0 <= i < j < |DistinctFrom(s, seen)| ==>
              FirstIndex(s, DistinctFrom(s, seen)[i]) < FirstIndex(s, DistinctFrom(s, seen)[j])
  {
    DistinctFromMembers(s, seen);
    if s != [] {
      var r := DistinctFrom(s, seen);
      if s[0] in seen {
        DistinctFromOrder(s[1..], seen);
        DistinctFromMembers(s[1..], seen);
        forall x | x in r ensures FirstIndex(s, x) == 1 + FirstIndex(s[1..], x) {
          assert x != s[0];
        }
      } else {
        var seen' := seen + {s[0]};
        var t := DistinctFrom(s[1..], seen');
        DistinctFromOrder(s[1..], seen');
        DistinctFromMembers(s[1..], seen');
        assert r == [s[0]] + t;
        forall x | x in t ensures FirstIndex(s, x) == 1 + FirstIndex(s[1..], x) {
          assert x != s[0];
        }
        forall i, j | 0 <= i < j < |r| ensures FirstIndex(s, r[i]) < FirstIndex(s, r[j]) {
          assert r[j] == t[j - 1] && r[j] in t;
          if i > 0 {
            assert r[i] == t[i - 1] && r[i] in t;
          }
        }
      }
    }
  }

  /** Everything `unique()` promises: no value twice, exactly the values of
      the input, listed in the order in which they first occur. */
  lemma DistinctSpec<T>(s: seq<T>)
    ensures NoDuplicates(Distinct(s))
    ensures forall x :: x in Distinct(s) <==> x in s
    ensures forall i, j :: 0 <= i < j < |Distinct(s)| ==>
              FirstIndex(s, Distinct(s)[i]) < FirstIndex(s, Distinct(s)[j])
  {
    DistinctFromMembers(s, {});
    DistinctFromNoDuplicates(s, {});
    DistinctFromOrder(s, {});
  }
}
