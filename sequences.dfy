/** Order-preserving operations on sequences that the pandas pipeline performs on
    data-frame rows: a boolean mask (`df[mask]`) and `drop_duplicates`, which keeps
    the first row of each key. */
module Sequences {

  /** `r` is obtained from `s` by deleting elements, keeping the order of the rest. */
  ghost predicate IsSubsequence<T>(r: seq<T>, s: seq<T>)
    decreases |s|
  {
    if r == [] then true
    else if s == [] then false
    else (r[0] == s[0] && IsSubsequence(r[1..], s[1..])) || IsSubsequence(r, s[1..])
  }

  /** The elements of `s` that satisfy `p`, in their original order. */
  function Where<T(!new)>(s: seq<T>, p: T -> bool): (r: seq<T>)
    ensures |r| <= |s|
    ensures forall x :: x in r <==> x in s && p(x)
  {
    if s == [] then []
    else if p(s[0]) then [s[0]] + Where(s[1..], p)
    else Where(s[1..], p)
  }

  /** The set of keys of the elements of `s`. */
  ghost function KeysOf<T, K>(s: seq<T>, key: T -> K): (ks: set<K>)
    ensures forall i :: 0 <= i < |s| ==> key(s[i]) in ks
  {
    if s == [] then {}
    else
      var ks' := KeysOf(s[1..], key);
      assert forall i :: 1 <= i < |s| ==> key(s[i]) == key(s[1..][i - 1]);
      {key(s[0])} + ks'
  }

  /** Position of the first element of `s` whose key is `k`. */
  ghost function FirstIndex<T, K>(s: seq<T>, key: T -> K, k: K): (i: nat)
    requires k in KeysOf(s, key)
    ensures i < |s| && key(s[i]) == k
    ensures forall j :: 0 <= j < i ==> key(s[j]) != k
  {
    if key(s[0]) == k then 0
    else
      var i' := FirstIndex(s[1..], key, k);
      assert forall j :: 1 <= j <= i' ==> s[j] == s[1..][j - 1];
      1 + i'
  }

  /** No two elements of `s` share a key. */
  ghost predicate DistinctKeys<T, K>(s: seq<T>, key: T -> K)
  {
    forall i, j :: 0 <= i < j < |s| ==> key(s[i]) != key(s[j])
  }

  /** No value occurs twice in `s`. */
  ghost predicate NoRepeats<T>(s: seq<T>)
  {
    forall i, j :: 0 <= i < j < |s| ==> s[i] != s[j]
  }

  /** Walks `s` front to back and keeps an element only when its key is not yet in
      `seen`; every kept key joins `seen`. */
  function DedupFrom<T, K(==)>(s: seq<T>, key: T -> K, seen: set<K>): (r: seq<T>)
    ensures |r| <= |s|
  {
    if s == [] then []
    else if key(s[0]) in seen then DedupFrom(s[1..], key, seen)
    else [s[0]] + DedupFrom(s[1..], key, seen + {key(s[0])})
  }

  /** `drop_duplicates(subset=key)` with the default `keep='first'`. */
  function DedupBy<T, K(==)>(s: seq<T>, key: T -> K): (r: seq<T>)
    ensures |r| <= |s|
  {
    DedupFrom(s, key, {})
  }

  function Identity<T>(x: T): T { x }

  /** `drop_duplicates()` on whole rows, and `Series.unique()`: each distinct value once,
      in order of first appearance. */
  function Distinct<T(==)>(s: seq<T>): seq<T>
  {
    DedupBy(s, Identity)
  }

  // ---------------------------------------------------------------------------
  // Where

  lemma {:induction false} SubsequenceOfTail<T(!new)>(r: seq<T>, s: seq<T>)
    requires s != [] && IsSubsequence(r, s[1..])
    ensures IsSubsequence(r, s)
  {
  }

  lemma {:induction false} WhereIsSubsequence<T(!new)>(s: seq<T>, p: T -> bool)
    ensures IsSubsequence(Where(s, p), s)
  {
    if s != [] {
      WhereIsSubsequence(s[1..], p);
      if p(s[0]) {
        var r := Where(s, p);
        assert r[0] == s[0] && r[1..] == Where(s[1..], p);
      } else {
        SubsequenceOfTail(Where(s[1..], p), s);
      }
    }
  }

  /** A mask keeps every copy of an element it accepts and no copy of one it rejects. */
  lemma {:induction false} WhereMultiplicity<T(!new)>(s: seq<T>, p: T -> bool, x: T)
    ensures multiset(Where(s, p))[x] == if p(x) then multiset(s)[x] else 0
  {
    if s != [] {
      WhereMultiplicity(s[1..], p, x);
      assert s == [s[0]] + s[1..];
    }
  }

  /** Two masks that agree on the elements of `s` select the same subsequence. */
  lemma {:induction false} WhereCongruent<T(!new)>(s: seq<T>, p: T -> bool, q: T -> bool)
    requires forall x :: x in s ==> p(x) == q(x)
    ensures Where(s, p) == Where(s, q)
  {
    if s != [] {
      WhereCongruent(s[1..], p, q);
    }
  }

  /** A mask that accepts every element changes nothing. */
  lemma {:induction false} WhereAll<T(!new)>(s: seq<T>, p: T -> bool)
    requires forall x :: x in s ==> p(x)
    ensures Where(s, p) == s
  {
    if s != [] {
      WhereAll(s[1..], p);
      assert s == [s[0]] + s[1..];
    }
  }

  /** Applying two masks one after the other is the same as applying their conjunction. */
  lemma {:induction false} WhereWhere<T(!new)>(s: seq<T>, p: T -> bool, q: T -> bool, pq: T -> bool)
    requires forall x :: x in s ==> pq(x) == (p(x) && q(x))
    ensures Where(Where(s, p), q) == Where(s, pq)
  {
    if s != [] {
      WhereWhere(s[1..], p, q, pq);
    }
  }

  // ---------------------------------------------------------------------------
  // KeysOf and FirstIndex

  lemma {:induction false} KeysOfIdentity<T(!new)>(s: seq<T>)
    ensures forall x :: x in KeysOf(s, Identity) <==> x in s
  {
    if s != [] {
      KeysOfIdentity(s[1..]);
      assert s == [s[0]] + s[1..];
    }
  }

  /** Distinct keys are counted once each, so their number is the length. */
  lemma {:induction false} DistinctKeysCount<T(!new), K>(s: seq<T>, key: T -> K)
    requires DistinctKeys(s, key)
    ensures |KeysOf(s, key)| == |s|
  {
    if s != [] {
      assert DistinctKeys(s[1..], key) by {
        forall i, j | 0 <= i < j < |s[1..]|
          ensures key(s[1..][i]) != key(s[1..][j])
        {
          assert s[1..][i] == s[i + 1] && s[1..][j] == s[j + 1];
        }
      }
      DistinctKeysCount(s[1..], key);
      HeadKeyNotInTail(s, key);
    }
  }

  lemma {:induction false} KeyNotInKeysOf<T, K>(s: seq<T>, key: T -> K, k: K)
    requires forall j :: 0 <= j < |s| ==> key(s[j]) != k
    ensures k !in KeysOf(s, key)
  {
    if s != [] {
      forall j | 0 <= j < |s[1..]|
        ensures key(s[1..][j]) != k
      {
        assert s[1..][j] == s[j + 1];
      }
      KeyNotInKeysOf(s[1..], key, k);
    }
  }

  lemma HeadKeyNotInTail<T, K>(s: seq<T>, key: T -> K)
    requires s != [] && DistinctKeys(s, key)
    ensures key(s[0]) !in KeysOf(s[1..], key)
  {
    forall j | 0 <= j < |s[1..]|
      ensures key(s[1..][j]) != key(s[0])
    {
      assert s[1..][j] == s[j + 1];
    }
    KeyNotInKeysOf(s[1..], key, key(s[0]));
  }

  /** Prefixing an element whose key is new keeps the keys distinct. */
  lemma ConsDistinctKeys<T, K>(x: T, t: seq<T>, key: T -> K)
    requires DistinctKeys(t, key) && key(x) !in KeysOf(t, key)
    ensures DistinctKeys([x] + t, key)
  {
    var r := [x] + t;
    forall i, j | 0 <= i < j < |r|
      ensures key(r[i]) != key(r[j])
    {
      assert r[j] == t[j - 1];
      if i > 0 { assert r[i] == t[i - 1]; }
    }
  }

  /** The first index of a key other than that of the head is one past its first index
      in the tail. */
  lemma {:induction false} FirstIndexTail<T(!new), K>(s: seq<T>, key: T -> K, k: K)
    requires s != [] && k in KeysOf(s[1..], key) && key(s[0]) != k
    ensures k in KeysOf(s, key)
    ensures FirstIndex(s, key, k) == 1 + FirstIndex(s[1..], key, k)
  {
  }

  // ---------------------------------------------------------------------------
  // DedupFrom / DedupBy

  /** The kept keys are exactly those of `s` not already seen. */
  lemma {:induction false} DedupKeys<T(!new), K>(s: seq<T>, key: T -> K, seen: set<K>)
    ensures KeysOf(DedupFrom(s, key, seen), key) == KeysOf(s, key) - seen
  {
    if s != [] {
      if key(s[0]) in seen {
        DedupKeys(s[1..], key, seen);
      } else {
        DedupKeys(s[1..], key, seen + {key(s[0])});
        var r := DedupFrom(s, key, seen);
        assert r[0] == s[0] && r[1..] == DedupFrom(s[1..], key, seen + {key(s[0])});
      }
    }
  }

  /** No two kept elements share a key. */
  lemma {:induction false} DedupDistinct<T(!new), K>(s: seq<T>, key: T -> K, seen: set<K>)
    ensures DistinctKeys(DedupFrom(s, key, seen), key)
  {
    if s != [] {
      if key(s[0]) in seen {
        DedupDistinct(s[1..], key, seen);
      } else {
        var seen' := seen + {key(s[0])};
        var t := DedupFrom(s[1..], key, seen');
        DedupDistinct(s[1..], key, seen');
        DedupKeys(s[1..], key, seen');
        ConsDistinctKeys(s[0], t, key);
      }
    }
  }

  /** The kept elements appear in `s` in the same order. */
  lemma {:induction false} DedupSubsequence<T(!new), K>(s: seq<T>, key: T -> K, seen: set<K>)
    ensures IsSubsequence(DedupFrom(s, key, seen), s)
  {
    if s != [] {
      if key(s[0]) in seen {
        DedupSubsequence(s[1..], key, seen);
        SubsequenceOfTail(DedupFrom(s[1..], key, seen), s);
      } else {
        DedupSubsequence(s[1..], key, seen + {key(s[0])});
        var r := DedupFrom(s, key, seen);
        assert r[0] == s[0] && r[1..] == DedupFrom(s[1..], key, seen + {key(s[0])});
      }
    }
  }

  /** Each kept element is the first element of `s` with its key, and the kept
      elements are ordered by the position of that first occurrence. */
  lemma {:induction false} DedupFirst<T(!new), K>(s: seq<T>, key: T -> K, seen: set<K>)
    ensures var r := DedupFrom(s, key, seen);
      (forall i :: 0 <= i < |r| ==> key(r[i]) in KeysOf(s, key) && r[i] == s[FirstIndex(s, key, key(r[i]))])
      && (forall i, j :: 0 <= i < j < |r| ==>
            key(r[i]) in KeysOf(s, key) && key(r[j]) in KeysOf(s, key) &&
            FirstIndex(s, key, key(r[i])) < FirstIndex(s, key, key(r[j])))
  {
    if s != [] {
      var r := DedupFrom(s, key, seen);
      var seen' := if key(s[0]) in seen then seen else seen + {key(s[0])};
      var t := DedupFrom(s[1..], key, seen');
      DedupFirst(s[1..], key, seen');
      DedupKeys(s[1..], key, seen');
      // every key kept from the tail differs from the head's key
      forall m | 0 <= m < |t|
        ensures key(t[m]) != key(s[0]) && key(t[m]) in KeysOf(s, key)
        ensures FirstIndex(s, key, key(t[m])) == 1 + FirstIndex(s[1..], key, key(t[m]))
        ensures t[m] == s[FirstIndex(s, key, key(t[m]))]
      {
        assert key(t[m]) in KeysOf(t, key);
        FirstIndexTail(s, key, key(t[m]));
      }
      if key(s[0]) in seen {
        assert r == t;
      } else {
        assert r == [s[0]] + t;
        assert key(s[0]) in KeysOf(s, key) && FirstIndex(s, key, key(s[0])) == 0;
        forall i | 0 <= i < |r|
          ensures key(r[i]) in KeysOf(s, key) && r[i] == s[FirstIndex(s, key, key(r[i]))]
        {
          if i > 0 { assert r[i] == t[i - 1]; }
        }
        forall i, j | 0 <= i < j < |r|
          ensures key(r[i]) in KeysOf(s, key) && key(r[j]) in KeysOf(s, key)
          ensures FirstIndex(s, key, key(r[i])) < FirstIndex(s, key, key(r[j]))
        {
          assert r[j] == t[j - 1];
          if i > 0 { assert r[i] == t[i - 1]; }
        }
      }
    }
  }

  /** A sequence whose keys are already distinct is left as it is. */
  lemma {:induction false} DedupOfDistinct<T(!new), K>(s: seq<T>, key: T -> K, seen: set<K>)
    requires DistinctKeys(s, key)
    requires forall i :: 0 <= i < |s| ==> key(s[i]) !in seen
    ensures DedupFrom(s, key, seen) == s
  {
    if s != [] {
      var seen' := seen + {key(s[0])};
      forall i | 0 <= i < |s[1..]|
        ensures key(s[1..][i]) !in seen'
      {
        assert s[1..][i] == s[i + 1];
      }
      assert DistinctKeys(s[1..], key) by {
        forall i, j | 0 <= i < j < |s[1..]|
          ensures key(s[1..][i]) != key(s[1..][j])
        {
          assert s[1..][i] == s[i + 1] && s[1..][j] == s[j + 1];
        }
      }
      DedupOfDistinct(s[1..], key, seen');
      assert s == [s[0]] + s[1..];
    }
  }

  /** `Distinct` keeps every value once: the same values, none repeated, in the order of
      their first occurrence. */
  lemma DistinctSpec<T(!new)>(s: seq<T>)
    ensures var d := Distinct(s);
      (forall x :: x in d <==> x in s)
      && NoRepeats(d)
      && IsSubsequence(d, s)
      && (forall i, j :: 0 <= i < j < |d| ==>
            d[i] in KeysOf(s, Identity) && d[j] in KeysOf(s, Identity) &&
            FirstIndex(s, Identity, d[i]) < FirstIndex(s, Identity, d[j]))
  {
    var key: T -> T := Identity;
    var d := Distinct(s);
    assert d == DedupFrom(s, key, {});
    DedupKeys(s, key, {});
    DedupDistinct(s, key, {});
    DedupSubsequence(s, key, {});
    DedupFirst(s, key, {});
    KeysOfIdentity(s);
    KeysOfIdentity(d);
  }

  /** `Distinct` of a sequence without repeats is that sequence. */
  lemma DistinctOfDistinct<T(!new)>(s: seq<T>)
    requires NoRepeats(s)
    ensures Distinct(s) == s
  {
    DedupOfDistinct(s, Identity, {});
  }

  /** Without repeats, every value occurs at most once ... */
  lemma {:induction false} NoRepeatsMultiplicity<T>(s: seq<T>)
    requires NoRepeats(s)
    ensures forall x :: multiset(s)[x] <= 1
  {
    if s != [] {
      var t := s[1..];
      assert NoRepeats(t) by {
        forall i, j | 0 <= i < j < |t|
          ensures t[i] != t[j]
        {
          assert t[i] == s[i + 1] && t[j] == s[j + 1];
        }
      }
      NoRepeatsMultiplicity(t);
      assert s == [s[0]] + t;
      forall j | 0 <= j < |t|
        ensures t[j] != s[0]
      {
        assert t[j] == s[j + 1];
      }
      assert s[0] !in t;
    }
  }

  /** ... and a sequence in which every value occurs at most once has no repeats. */
  lemma MultiplicityNoRepeats<T>(s: seq<T>)
    requires forall x :: multiset(s)[x] <= 1
    ensures NoRepeats(s)
  {
    forall i, j | 0 <= i < j < |s|
      ensures s[i] != s[j]
    {
      assert s == s[..j] + [s[j]] + s[j + 1..];
      assert s[i] in s[..j];
      assert multiset(s)[s[i]] >= multiset(s[..j])[s[i]] + multiset([s[j]])[s[i]];
    }
  }

  /** A permutation of a sequence without repeats has none either. */
  lemma PermutationNoRepeats<T>(a: seq<T>, b: seq<T>)
    requires NoRepeats(a) && multiset(a) == multiset(b)
    ensures NoRepeats(b)
  {
    NoRepeatsMultiplicity(a);
    MultiplicityNoRepeats(b);
  }

  /** A subsequence of a sequence without repeats has none. */
  lemma {:induction false} SubsequenceNoRepeats<T>(r: seq<T>, s: seq<T>)
    requires IsSubsequence(r, s) && NoRepeats(s)
    ensures NoRepeats(r)
    decreases |s|
  {
    if r != [] && s != [] {
      assert NoRepeats(s[1..]) by {
        forall i, j | 0 <= i < j < |s[1..]|
          ensures s[1..][i] != s[1..][j]
        {
          assert s[1..][i] == s[i + 1] && s[1..][j] == s[j + 1];
        }
      }
      if IsSubsequence(r, s[1..]) {
        SubsequenceNoRepeats(r, s[1..]);
      } else {
        SubsequenceNoRepeats(r[1..], s[1..]);
        SubsequenceMembers(r[1..], s[1..]);
        forall j | 0 <= j < |s[1..]|
          ensures s[1..][j] != s[0]
        {
          assert s[1..][j] == s[j + 1];
        }
        assert s[0] !in s[1..];
        forall i, j | 0 <= i < j < |r|
          ensures r[i] != r[j]
        {
          assert r[j] == r[1..][j - 1] && r[1..][j - 1] in r[1..];
          if i > 0 {
            assert r[i] == r[1..][i - 1];
          }
        }
      }
    }
  }

  /** Every element of a subsequence is an element of the sequence. */
  lemma {:induction false} SubsequenceMembers<T>(r: seq<T>, s: seq<T>)
    requires IsSubsequence(r, s)
    ensures forall x :: x in r ==> x in s
    decreases |s|
  {
    if r != [] && s != [] {
      if IsSubsequence(r, s[1..]) {
        SubsequenceMembers(r, s[1..]);
      } else {
        SubsequenceMembers(r[1..], s[1..]);
        assert r == [r[0]] + r[1..] && s == [s[0]] + s[1..];
      }
    }
  }
}
