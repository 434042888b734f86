/**
 * The order in which the page lists usernames: the sort comparator
 * `user1.toLowerCase().localeCompare(user2.toLowerCase())`, and a stable sort
 * by it (Array.prototype.sort is stable).
 */
module NameOrder {
  import opened Strings

  /**
   * The comparator answers "not after": the lower-cased names are in order.
   * Names equal but for case tie; otherwise a non-empty name comes first only
   * if its first letter, lower-cased, is not after the other's.
   */
  predicate NameLeq(a: string, b: string): (ok: bool)
    ensures Lower(a) == Lower(b) ==> ok
    ensures ok && a != "" ==> b != "" && LowerChar(a[0]) <= LowerChar(b[0])
  {
    LexLeq(Lower(a), Lower(b))
  }

  /** Lower-casing the names before comparing them changes nothing. */
  lemma NameLeqIgnoresCase(a: string, b: string)
    ensures NameLeq(Lower(a), Lower(b)) == NameLeq(a, b)
  {
    LowerIdempotent(a);
    LowerIdempotent(b);
  }

  lemma NameLeqReflexive(a: string)
    ensures NameLeq(a, a)
  {
  }

  lemma NameLeqTransitive(a: string, b: string, c: string)
    requires NameLeq(a, b) && NameLeq(b, c)
    ensures NameLeq(a, c)
  {
    LexLeqTransitive(Lower(a), Lower(b), Lower(c));
  }

  lemma NameLeqTotal(a: string, b: string)
    ensures NameLeq(a, b) || NameLeq(b, a)
  {
    LexLeqTotal(Lower(a), Lower(b));
  }

  /** The comparator ties two names exactly when they are equal after lower-casing. */
  lemma NameLeqTie(a: string, b: string)
    ensures NameLeq(a, b) && NameLeq(b, a) <==> Lower(a) == Lower(b)
  {
    if NameLeq(a, b) && NameLeq(b, a) {
      LexLeqAntisymmetric(Lower(a), Lower(b));
    }
  }

  /** Every adjacent pair is in comparator order. */
  predicate Sorted(s: seq<string>) {
    forall i :: 0 < i < |s| ==> NameLeq(s[i - 1], s[i])
  }

  /** In a sorted sequence every pair, not only the adjacent ones, is in order. */
  lemma {:induction false} SortedPairwise(s: seq<string>, i: nat, j: nat)
    requires Sorted(s) && i <= j < |s|
    ensures NameLeq(s[i], s[j])
    decreases j - i
  {
    if i == j {
      NameLeqReflexive(s[i]);
    } else {
      SortedPairwise(s, i, j - 1);
      NameLeqTransitive(s[i], s[j - 1], s[j]);
    }
  }

  /** Insert `x` into a sorted sequence before the first name it does not come after. */
  function Insert(x: string, s: seq<string>): (r: seq<string>)
    requires Sorted(s)
    ensures Sorted(r)
    ensures multiset(r) == multiset(s) + multiset{x}
    ensures |r| == |s| + 1 && (r[0] == x || (s != [] && r[0] == s[0]))
    decreases |s|
  {
    if s == [] || NameLeq(x, s[0]) then
      [x] + s
    else
      NameLeqTotal(x, s[0]);
      assert s == [s[0]] + s[1..];
      [s[0]] + Insert(x, s[1..])
  }

  /** The `.sort(...)` step: an ordered permutation of its input. */
  function Sort(s: seq<string>): (r: seq<string>)
    ensures Sorted(r)
    ensures multiset(r) == multiset(s)
    decreases |s|
  {
    if s == [] then
      []
    else
      assert s == [s[0]] + s[1..];
      Insert(s[0], Sort(s[1..]))
  }

  /** The names of `s` that lower-case to `key`, in their order in `s`: one tie class of the comparator. */
  function WithKey(s: seq<string>, key: string): seq<string>
    decreases |s|
  {
    if s == [] then [] else (if Lower(s[0]) == key then [s[0]] else []) + WithKey(s[1..], key)
  }

  lemma {:induction false} WithKeyMember(s: seq<string>, key: string, n: string)
    requires n in WithKey(s, key)
    ensures n in s && Lower(n) == key
    decreases |s|
  {
    if n != s[0] || Lower(n) != key {
      WithKeyMember(s[1..], key, n);
    }
  }

  /** Inserting `x` places it before every name of its own tie class already present. */
  lemma {:induction false} InsertTies(x: string, s: seq<string>, key: string)
    requires Sorted(s)
    ensures WithKey(Insert(x, s), key) == (if Lower(x) == key then [x] else []) + WithKey(s, key)
    decreases |s|
  {
    if s == [] || NameLeq(x, s[0]) {
      assert Insert(x, s) == [x] + s;
      assert ([x] + s)[1..] == s;
    } else {
      InsertTies(x, s[1..], key);
      if Lower(x) == key {
        NameLeqTie(x, s[0]);
      }
      assert Insert(x, s) == [s[0]] + Insert(x, s[1..]);
      assert s == [s[0]] + s[1..];
      TiesPast(x, s[0], s[1..], Insert(x, s[1..]), key);
    }
  }

  /** A head `h` outside `x`'s tie class can be passed by `x` without changing any tie class. */
  lemma TiesPast(x: string, h: string, t: seq<string>, u: seq<string>, key: string)
    requires Lower(x) == key ==> Lower(h) != key
    requires WithKey(u, key) == (if Lower(x) == key then [x] else []) + WithKey(t, key)
    ensures WithKey([h] + u, key) == (if Lower(x) == key then [x] else []) + WithKey([h] + t, key)
  {
    var preX := if Lower(x) == key then [x] else [];
    var preH := if Lower(h) == key then [h] else [];
    assert ([h] + u)[1..] == u && ([h] + t)[1..] == t;
    assert WithKey([h] + u, key) == preH + WithKey(u, key);
    assert WithKey([h] + t, key) == preH + WithKey(t, key);
    assert preH + (preX + WithKey(t, key)) == preX + (preH + WithKey(t, key));
  }

  /** Stability: the sort keeps names that tie under the comparator in their input order. */
  lemma {:induction false} SortStable(s: seq<string>, key: string)
    ensures WithKey(Sort(s), key) == WithKey(s, key)
    decreases |s|
  {
    if s != [] {
      SortStable(s[1..], key);
      InsertTies(s[0], Sort(s[1..]), key);
    }
  }

  lemma WithKeyHead(s: seq<string>)
    requires s != []
    ensures WithKey(s, Lower(s[0])) == [s[0]] + WithKey(s[1..], Lower(s[0]))
  {
  }

  /** Two sequences with the same tie classes are empty together. */
  lemma EmptyTogether(r1: seq<string>, r2: seq<string>)
    requires forall key :: WithKey(r1, key) == WithKey(r2, key)
    ensures r1 == [] <==> r2 == []
  {
    if r1 != [] {
      WithKeyHead(r1);
      assert WithKey(r2, Lower(r1[0])) != [];
    }
    if r2 != [] {
      WithKeyHead(r2);
      assert WithKey(r1, Lower(r2[0])) != [];
    }
  }

  /**
   * A sorted sequence is determined by its tie classes: two sorted sequences
   * that list every tie class in the same order are equal.
   */
  lemma {:induction false} SortedUnique(r1: seq<string>, r2: seq<string>)
    requires Sorted(r1) && Sorted(r2)
    requires forall key :: WithKey(r1, key) == WithKey(r2, key)
    ensures r1 == r2
    decreases |r1|
  {
    EmptyTogether(r1, r2);
    if r1 != [] {
      var a, b := r1[0], r2[0];
      WithKeyHead(r1);
      WithKeyHead(r2);
      assert a in WithKey(r2, Lower(a));
      WithKeyMember(r2, Lower(a), a);
      var j :| 0 <= j < |r2| && r2[j] == a;
      SortedPairwise(r2, 0, j);
      assert b in WithKey(r1, Lower(b));
      WithKeyMember(r1, Lower(b), b);
      var i :| 0 <= i < |r1| && r1[i] == b;
      SortedPairwise(r1, 0, i);
      NameLeqTie(a, b);
      assert Lower(a) == Lower(b);
      assert WithKey(r1, Lower(a)) == WithKey(r2, Lower(a));
      assert WithKey(r1, Lower(a))[0] == a && WithKey(r2, Lower(b))[0] == b;
      var t1, t2 := r1[1..], r2[1..];
      forall key ensures WithKey(t1, key) == WithKey(t2, key) {
        var pre := if Lower(a) == key then [a] else [];
        assert WithKey(r1, key) == pre + WithKey(t1, key);
        assert WithKey(r2, key) == pre + WithKey(t2, key);
        assert WithKey(t1, key) == WithKey(r1, key)[|pre|..];
        assert WithKey(t2, key) == WithKey(r2, key)[|pre|..];
        assert WithKey(r1, key) == WithKey(r2, key);
      }
      SortedUnique(t1, t2);
      assert r1 == [a] + t1 && r2 == [b] + t2;
    }
  }

  /** Any stable sort by the comparator produces exactly what `Sort` produces. */
  lemma StableSortIsSort(s: seq<string>, r: seq<string>)
    requires Sorted(r)
    requires forall key :: WithKey(r, key) == WithKey(s, key)
    ensures r == Sort(s)
  {
    forall key ensures WithKey(r, key) == WithKey(Sort(s), key) {
      SortStable(s, key);
    }
    SortedUnique(r, Sort(s));
  }
}
