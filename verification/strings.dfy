/**
 * The string operations the contributor filter and its sort rely on, over
 * `seq<char>`: substring search (`String.prototype.includes`), lower-casing
 * (`toLowerCase`, restricted to ASCII letters) and ordinal lexicographic order
 * (standing in for `localeCompare`).
 */
module Strings {

  /** `sub` occurs in `s` starting at position `i`. */
  predicate OccursAt(sub: string, s: string, i: nat) {
    i + |sub| <= |s| && s[i..i + |sub|] == sub
  }

  /** Declarative reading of "`s` contains `sub`": some position where it occurs. */
  ghost predicate IsSubstring(sub: string, s: string) {
    exists i: nat :: OccursAt(sub, s, i)
  }

  /** The search behind `includes`: scan `s` from the left for a suffix that starts with `sub`. */
  predicate Scan(s: string, sub: string)
    decreases |s|
  {
    sub <= s || (|s| > 0 && Scan(s[1..], sub))
  }

  /** The scanning search finds `sub` exactly when it occurs somewhere in `s`. */
  lemma {:induction false} ScanIff(s: string, sub: string)
    ensures Scan(s, sub) <==> IsSubstring(sub, s)
    decreases |s|
  {
    if sub <= s {
      assert OccursAt(sub, s, 0);
    } else if |s| == 0 {
      assert |sub| > 0;
    } else {
      ScanIff(s[1..], sub);
      forall i: nat | OccursAt(sub, s[1..], i) ensures OccursAt(sub, s, i + 1) {
        assert s[1..][i..i + |sub|] == s[i + 1..i + 1 + |sub|];
      }
      forall i: nat | OccursAt(sub, s, i) ensures IsSubstring(sub, s[1..]) {
        assert i != 0 by {
          assert OccursAt(sub, s, 0) ==> sub <= s;
        }
        var k: nat := i - 1;
        assert s[1..][k..k + |sub|] == s[k + 1..k + 1 + |sub|];
        assert OccursAt(sub, s[1..], k);
      }
    }
  }

  /** `s.includes(sub)`: true exactly when `sub` occurs somewhere in `s`. */
  predicate Includes(s: string, sub: string): (found: bool)
    ensures found <==> IsSubstring(sub, s)
  {
    ScanIff(s, sub);
    Scan(s, sub)
  }

  /** A string that lacks the first character of `sub` does not contain `sub`. */
  lemma IncludesNeedsHead(s: string, sub: string)
    requires |sub| > 0 && sub[0] !in s
    ensures !Includes(s, sub)
  {
    forall i: nat ensures !OccursAt(sub, s, i) {
      if i + |sub| <= |s| {
        assert s[i..i + |sub|][0] == s[i] != sub[0];
      }
    }
  }

  /** `toLowerCase` on one character, for the ASCII letters A to Z. */
  function LowerChar(c: char): char {
    if 'A' <= c <= 'Z' then (c as int - 'A' as int + 'a' as int) as char else c
  }

  /**
   * `toLowerCase` on a string, character by character: no ASCII capital is
   * left, each capital becomes its small letter, every other character stays.
   */
  function Lower(s: string): (r: string)
    ensures |r| == |s|
    ensures forall i :: 0 <= i < |r| ==> !('A' <= r[i] <= 'Z')
    ensures forall i :: 0 <= i < |s| ==> r[i] == s[i] || ('A' <= s[i] <= 'Z' && r[i] as int == s[i] as int + 32)
  {
    seq(|s|, i requires 0 <= i < |s| => LowerChar(s[i]))
  }

  /** Lower-casing a lower-cased string changes nothing. */
  lemma LowerIdempotent(s: string)
    ensures Lower(Lower(s)) == Lower(s)
  {
    forall i | 0 <= i < |s| ensures Lower(Lower(s))[i] == Lower(s)[i] {
      assert Lower(s)[i] == LowerChar(s[i]);
    }
  }

  /**
   * Ordinal lexicographic order: `a` is empty, or its first character is
   * smaller than that of `b`, or they agree and the rests are in order. A
   * prefix comes first, and nothing comes before a string whose first
   * character is smaller.
   */
  predicate LexLeq(a: string, b: string): (ok: bool)
    ensures a <= b ==> ok
    ensures ok && |a| > 0 ==> |b| > 0 && a[0] <= b[0]
    decreases |a|
  {
    |a| == 0 || (|b| > 0 && (a[0] < b[0] || (a[0] == b[0] && LexLeq(a[1..], b[1..]))))
  }

  /** Reference definition: `a` is a prefix of `b`, or they first differ at `k` with `a[k] < b[k]`. */
  ghost predicate LexLeqAt(a: string, b: string, k: nat) {
    k < |a| && k < |b| && a[..k] == b[..k] && a[k] < b[k]
  }

  /** The recursive comparison agrees with the prefix-or-first-difference definition. */
  lemma {:induction false} LexLeqIff(a: string, b: string)
    ensures LexLeq(a, b) <==> (a <= b || exists k: nat :: LexLeqAt(a, b, k))
    decreases |a|
  {
    if |a| == 0 || |b| == 0 {
    } else if a[0] < b[0] {
      assert LexLeqAt(a, b, 0);
    } else if a[0] > b[0] {
      forall k: nat ensures !LexLeqAt(a, b, k) {
        if 0 < k < |a| && k < |b| {
          assert a[..k][0] == a[0] && b[..k][0] == b[0];
        }
      }
    } else {
      LexLeqIff(a[1..], b[1..]);
      assert a[1..] <= b[1..] <==> a <= b by {
        assert a == [a[0]] + a[1..] && b == [b[0]] + b[1..];
      }
      forall k: nat | LexLeqAt(a[1..], b[1..], k) ensures LexLeqAt(a, b, k + 1) {
        assert a[..k + 1] == [a[0]] + a[1..][..k];
        assert b[..k + 1] == [b[0]] + b[1..][..k];
      }
      forall k: nat | LexLeqAt(a, b, k) ensures exists j: nat :: LexLeqAt(a[1..], b[1..], j) {
        assert k != 0;
        assert a[1..][..k - 1] == a[..k][1..];
        assert b[1..][..k - 1] == b[..k][1..];
        assert LexLeqAt(a[1..], b[1..], k - 1);
      }
    }
  }

  lemma {:induction false} LexLeqTransitive(a: string, b: string, c: string)
    requires LexLeq(a, b) && LexLeq(b, c)
    ensures LexLeq(a, c)
    decreases |a|
  {
    if |a| > 0 && a[0] == b[0] && b[0] == c[0] {
      LexLeqTransitive(a[1..], b[1..], c[1..]);
    }
  }

  lemma {:induction false} LexLeqTotal(a: string, b: string)
    ensures LexLeq(a, b) || LexLeq(b, a)
    decreases |a|
  {
    if |a| > 0 && |b| > 0 && a[0] == b[0] {
      LexLeqTotal(a[1..], b[1..]);
    }
  }

  lemma {:induction false} LexLeqAntisymmetric(a: string, b: string)
    requires LexLeq(a, b) && LexLeq(b, a)
    ensures a == b
    decreases |a|
  {
    if |a| > 0 {
      LexLeqAntisymmetric(a[1..], b[1..]);
      assert a == [a[0]] + a[1..] && b == [b[0]] + b[1..];
    }
  }
}
