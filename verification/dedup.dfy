/**
  Order-preserving removal of duplicate strings, as the friendship controller
  applies it to the recipients of an update.

  `Unique` is the reference definition: an element is kept exactly when its
  value has not appeared earlier in the input. `RemoveDuplicates` is the
  controller's single left-to-right loop with an "encountered" set, proved to
  compute `Unique`. The lemmas characterise `Unique` independently: no value
  twice, the same values, values ordered by where they first occur, and
  these three facts determine the result uniquely.
 */
module Dedup {

  /** No value occurs twice in `s`. */
  predicate NoDuplicates<T(==)>(s: seq<T>) {
    forall i, j | 0 <= i < j < |s| :: s[i] != s[j]
  }

  /** The values occurring in `s`. */
  function Elements<T>(s: seq<T>): set<T> {
    set x | x in s
  }

  /** The position of the first occurrence of `x` in `s`. */
  function FirstIndex<T(==)>(s: seq<T>, x: T): (k: nat)
    requires x in s
    ensures k < |s| && s[k] == x && x !in s[..k]
  {
    if s[0] == x then 0
    else
      assert x in s[1..] by { var i :| 0 <= i < |s| && s[i] == x; assert s[1..][i - 1] == x; }
      var k := 1 + FirstIndex(s[1..], x);
      assert s[..k] == [s[0]] + s[1..][..k - 1];
      k
  }

  /** Reference: the subsequence of `s` made of the first occurrence of each value. */
  function Unique<T(==)>(s: seq<T>): (r: seq<T>)
    ensures Elements(r) == Elements(s)
    ensures NoDuplicates(r)
  {
    if |s| == 0 then []
    else
      var prefix := s[..|s| - 1];
      var last := s[|s| - 1];
      assert s == prefix + [last];
      var p := Unique(prefix);
      if last in prefix then p
      else
        assert Elements(p + [last]) == Elements(p) + {last};
        assert forall i | 0 <= i < |p| :: p[i] in Elements(prefix);
        p + [last]
  }

  /** `r` lists each value of `s` once, in the order of the values' first occurrences in `s`. */
  predicate IsDedupOf<T(==)>(s: seq<T>, r: seq<T>) {
    && NoDuplicates(r)
    && Elements(r) == Elements(s)
    && forall i, j | 0 <= i < j < |r| && r[i] in s && r[j] in s :: FirstIndex(s, r[i]) < FirstIndex(s, r[j])
  }

  /** Appending a value does not move the first occurrence of a value already present. */
  lemma {:induction false} FirstIndexOfPrefix<T>(p: seq<T>, x: T, y: T)
    requires y in p
    ensures FirstIndex(p + [x], y) == FirstIndex(p, y)
  {
    if p[0] != y {
      assert (p + [x])[1..] == p[1..] + [x];
      assert y in p[1..] by { var i :| 0 <= i < |p| && p[i] == y; assert p[1..][i - 1] == y; }
      FirstIndexOfPrefix(p[1..], x, y);
    }
  }

  /** A value absent from `p` first occurs in `p + [x]` at its last position. */
  lemma {:induction false} FirstIndexOfLast<T>(p: seq<T>, x: T)
    requires x !in p
    ensures FirstIndex(p + [x], x) == |p|
  {
    if |p| > 0 {
      assert (p + [x])[1..] == p[1..] + [x];
      assert x !in p[1..] by { assert forall i | 0 <= i < |p[1..]| :: p[1..][i] == p[i + 1]; }
      FirstIndexOfLast(p[1..], x);
    }
  }

  /** `Unique` keeps the first occurrences in input order. */
  lemma {:induction false} UniqueIsDedup<T>(s: seq<T>)
    ensures IsDedupOf(s, Unique(s))
  {
    if |s| > 0 {
      var prefix := s[..|s| - 1];
      var last := s[|s| - 1];
      assert s == prefix + [last];
      var p := Unique(prefix);
      UniqueIsDedup(prefix);
      forall y | y in prefix
        ensures FirstIndex(s, y) == FirstIndex(prefix, y)
      {
        FirstIndexOfPrefix(prefix, last, y);
      }
      var r := Unique(s);
      if last !in prefix {
        assert r == p + [last];
        FirstIndexOfLast(prefix, last);
        forall i, j | 0 <= i < j < |r| && r[i] in s && r[j] in s
          ensures FirstIndex(s, r[i]) < FirstIndex(s, r[j])
        {
          assert r[i] in Elements(p);
          if j < |p| {
            assert r[j] in Elements(p);
            assert FirstIndex(prefix, p[i]) < FirstIndex(prefix, p[j]);
          }
        }
      } else {
        forall i, j | 0 <= i < j < |r| && r[i] in s && r[j] in s
          ensures FirstIndex(s, r[i]) < FirstIndex(s, r[j])
        {
          assert r[i] in Elements(p) && r[j] in Elements(p);
          assert FirstIndex(prefix, p[i]) < FirstIndex(prefix, p[j]);
        }
      }
    }
  }

  /** Dropping the last value of a duplicate-free sequence leaves exactly the other values. */
  lemma {:induction false} ElementsOfInit<T>(r: seq<T>)
    requires |r| > 0 && NoDuplicates(r)
    ensures Elements(r[..|r| - 1]) == Elements(r) - {r[|r| - 1]}
    ensures r[|r| - 1] !in r[..|r| - 1]
  {
    var init := r[..|r| - 1];
    assert r == init + [r[|r| - 1]];
    forall i | 0 <= i < |init|
      ensures init[i] != r[|r| - 1]
    {
      assert r[i] == init[i];
    }
  }

  /** A sequence that is a dedup of `s` is `Unique(s)`: the three properties determine the result. */
  lemma {:induction false} DedupIsUnique<T>(s: seq<T>, r: seq<T>)
    requires IsDedupOf(s, r)
    ensures r == Unique(s)
  {
    if |s| == 0 {
      assert Elements(s) == {};
      NoDuplicatesCardinality(r);
    } else {
      var prefix := s[..|s| - 1];
      var last := s[|s| - 1];
      assert s == prefix + [last];
      forall y | y in prefix
        ensures FirstIndex(s, y) == FirstIndex(prefix, y)
      {
        FirstIndexOfPrefix(prefix, last, y);
      }
      if last in prefix {
        assert Elements(s) == Elements(prefix);
        forall i, j | 0 <= i < j < |r| && r[i] in prefix && r[j] in prefix
          ensures FirstIndex(prefix, r[i]) < FirstIndex(prefix, r[j])
        {
          assert r[i] in Elements(r) && r[j] in Elements(r);
        }
        DedupIsUnique(prefix, r);
      } else {
        FirstIndexOfLast(prefix, last);
        assert last in Elements(r);
        forall i | 0 <= i < |r| - 1
          ensures r[i] != last
        {
          assert r[i] in Elements(r) && r[|r| - 1] in Elements(r);
          assert r[i] in s && r[|r| - 1] in s;
          assert FirstIndex(s, r[i]) < FirstIndex(s, r[|r| - 1]);
        }
        assert r[|r| - 1] == last by {
          var k :| 0 <= k < |r| && r[k] == last;
        }
        var init := r[..|r| - 1];
        assert r == init + [last];
        ElementsOfInit(r);
        assert Elements(init) == Elements(prefix) by {
          assert Elements(s) == Elements(prefix) + {last};
        }
        forall i, j | 0 <= i < j < |init| && init[i] in prefix && init[j] in prefix
          ensures FirstIndex(prefix, init[i]) < FirstIndex(prefix, init[j])
        {
          assert init[i] in Elements(init) && init[j] in Elements(init);
          assert FirstIndex(s, r[i]) < FirstIndex(s, r[j]);
        }
        DedupIsUnique(prefix, init);
      }
    }
  }

  /** `Unique(s)` is the only sequence listing the values of `s` once each in first-occurrence order. */
  lemma {:induction false} UniqueCharacterization<T>(s: seq<T>, r: seq<T>)
    ensures IsDedupOf(s, r) <==> r == Unique(s)
  {
    if IsDedupOf(s, r) {
      DedupIsUnique(s, r);
    }
    if r == Unique(s) {
      UniqueIsDedup(s);
    }
  }

  /** On duplicate-free input `Unique` is the identity, and only there. */
  lemma {:induction false} UniqueIdentity<T>(s: seq<T>)
    ensures Unique(s) == s <==> NoDuplicates(s)
  {
    if NoDuplicates(s) && |s| > 0 {
      var prefix := s[..|s| - 1];
      var last := s[|s| - 1];
      assert s == prefix + [last];
      ElementsOfInit(s);
      assert NoDuplicates(prefix);
      UniqueIdentity(prefix);
    }
  }

  /** Deduplicating twice is the same as deduplicating once. */
  lemma {:induction false} UniqueIdempotent<T>(s: seq<T>)
    ensures Unique(Unique(s)) == Unique(s)
  {
    UniqueIdentity(Unique(s));
  }

  /** A duplicate-free sequence is as long as its set of values is large. */
  lemma {:induction false} NoDuplicatesCardinality<T>(r: seq<T>)
    requires NoDuplicates(r)
    ensures |Elements(r)| == |r|
  {
    if |r| > 0 {
      var init := r[..|r| - 1];
      ElementsOfInit(r);
      assert NoDuplicates(init);
      NoDuplicatesCardinality(init);
    }
  }

  /** The output has one entry per distinct input value, so it is strictly shorter exactly when the input repeats a value. */
  lemma {:induction false} UniqueLength<T>(s: seq<T>)
    ensures |Unique(s)| == |Elements(s)|
    ensures |Unique(s)| <= |s|
    ensures |Unique(s)| < |s| <==> !NoDuplicates(s)
  {
    NoDuplicatesCardinality(Unique(s));
    CardinalityBound(s);
    UniqueIdentity(s);
    if !NoDuplicates(s) {
      var i, j :| 0 <= i < j < |s| && s[i] == s[j];
      RepeatShrinksElements(s, i, j);
    }
  }

  /** A repeated value makes the set of values smaller than the sequence. */
  lemma {:induction false} RepeatShrinksElements<T>(s: seq<T>, i: nat, j: nat)
    requires i < j < |s| && s[i] == s[j]
    ensures |Elements(s)| < |s|
  {
    var init := s[..|s| - 1];
    var last := s[|s| - 1];
    assert s == init + [last];
    assert Elements(s) == Elements(init) + {last};
    CardinalityBound(init);
    if j == |s| - 1 {
      assert last in Elements(init) by { assert init[i] == last; }
    } else {
      RepeatShrinksElements(init, i, j);
    }
  }

  /** A sequence never has more distinct values than entries. */
  lemma {:induction false} CardinalityBound<T>(s: seq<T>)
    ensures |Elements(s)| <= |s|
  {
    if |s| > 0 {
      var init := s[..|s| - 1];
      assert s == init + [s[|s| - 1]];
      assert Elements(s) == Elements(init) + {s[|s| - 1]};
      CardinalityBound(init);
    }
  }

  /**
    The controller's loop: walk the input once, remember every value seen in
    `encountered`, and append a value only the first time it is met.
   */
  method RemoveDuplicates(elements: seq<string>) returns (result: seq<string>)
    ensures result == Unique(elements)
    ensures IsDedupOf(elements, result)
  {
    var encountered: set<string> := {};
    result := [];
    for v := 0 to |elements|
      invariant encountered == Elements(elements[..v])
      invariant result == Unique(elements[..v])
    {
      assert elements[..v + 1][..v] == elements[..v];
      if elements[v] !in encountered {
        encountered := encountered + {elements[v]};
        result := result + [elements[v]];
      }
    }
    assert elements[..|elements|] == elements;
    UniqueIsDedup(elements);
  }
}
