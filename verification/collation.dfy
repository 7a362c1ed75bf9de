/** The ordering that `Array.prototype.sort` applies to the script names and
    codes before they are put into a `Set`: strict lexicographic order on
    characters, followed by removal of duplicates. */
module Collation {

  /** Strict lexicographic order: `a` is a proper prefix of `b`, or `a` has the
      smaller character at the first position where they differ. */
  predicate Less(a: string, b: string)
    decreases |a|
  {
    |b| > 0 && (|a| == 0 || a[0] < b[0] || (a[0] == b[0] && Less(a[1..], b[1..])))
  }

  lemma LessIrreflexive(a: string)
    ensures !Less(a, a)
  {
  }

  lemma {:induction false} LessAsymmetric(a: string, b: string)
    ensures !(Less(a, b) && Less(b, a))
    decreases |a|
  {
    if |a| > 0 && |b| > 0 && a[0] == b[0] {
      LessAsymmetric(a[1..], b[1..]);
    }
  }

  lemma {:induction false} LessTransitive(a: string, b: string, c: string)
    requires Less(a, b) && Less(b, c)
    ensures Less(a, c)
    decreases |a|
  {
    if |a| > 0 && a[0] == b[0] && b[0] == c[0] {
      LessTransitive(a[1..], b[1..], c[1..]);
    }
  }

  lemma {:induction false} LessTotal(a: string, b: string)
    requires a != b
    ensures Less(a, b) || Less(b, a)
    decreases |a|
  {
    if |a| > 0 && |b| > 0 && a[0] == b[0] {
      assert a == [a[0]] + a[1..] && b == [b[0]] + b[1..];
      LessTotal(a[1..], b[1..]);
    }
  }

  /** Strictly increasing, hence also free of duplicates. */
  ghost predicate Sorted(s: seq<string>)
  {
    forall i, j :: 0 <= i < j < |s| ==> Less(s[i], s[j])
  }

  /** Places `x` into the sorted sequence `s`, unless it is already there. */
  function Insert(x: string, s: seq<string>): (r: seq<string>)
    requires Sorted(s)
    ensures Sorted(r)
    ensures forall y :: y in r <==> y in s || y == x
    ensures |r| <= |s| + 1
    decreases |s|
  {
    if |s| == 0 then [x]
    else if x == s[0] then s
    else if Less(x, s[0]) then
      assert forall j :: 0 <= j < |s| ==> Less(x, s[j]) by {
        forall j | 0 <= j < |s| ensures Less(x, s[j]) {
          if j > 0 { LessTransitive(x, s[0], s[j]); }
        }
      }
      [x] + s
    else
      LessTotal(x, s[0]);
      var tail := Insert(x, s[1..]);
      assert forall y :: y in tail ==> Less(s[0], y);
      [s[0]] + tail
  }

  /** The deduplicated, sorted form of `xs`: what `new Set([...xs].sort())`
      iterates over. */
  function SortUnique(xs: seq<string>): (r: seq<string>)
    ensures Sorted(r)
    ensures forall y :: y in r <==> y in xs
    ensures |r| <= |xs|
    decreases |xs|
  {
    if |xs| == 0 then [] else Insert(xs[|xs| - 1], SortUnique(xs[..|xs| - 1]))
  }

  /** A sorted sequence is determined by its elements: two sorted sequences
      holding the same strings are equal. */
  lemma {:induction false} SortedUnique(a: seq<string>, b: seq<string>)
    requires Sorted(a) && Sorted(b)
    requires forall y :: y in a <==> y in b
    ensures a == b
    decreases |a|
  {
    EmptyIffNoMember(a);
    EmptyIffNoMember(b);
    if |a| > 0 {
      if a[0] != b[0] {
        assert a[0] in a && b[0] in b;
        var k :| 0 <= k < |b| && b[k] == a[0];
        var m :| 0 <= m < |a| && a[m] == b[0];
        assert Less(b[0], a[0]);
        assert Less(a[0], b[0]);
        LessAsymmetric(a[0], b[0]);
      }
      forall y | y in a[1..] ensures y in b[1..] {
        var i :| 1 <= i < |a| && a[i] == y;
        LessIrreflexive(y);
        assert y != a[0] && y in a;
        var j :| 0 <= j < |b| && b[j] == y;
        assert b[1..][j - 1] == y;
      }
      forall y | y in b[1..] ensures y in a[1..] {
        var i :| 1 <= i < |b| && b[i] == y;
        LessIrreflexive(y);
        assert y != b[0] && y in b;
        var j :| 0 <= j < |a| && a[j] == y;
        assert a[1..][j - 1] == y;
      }
      SortedUnique(a[1..], b[1..]);
      assert a == [a[0]] + a[1..] && b == [b[0]] + b[1..];
    }
  }

  lemma EmptyIffNoMember(s: seq<string>)
    ensures |s| == 0 <==> forall y :: y !in s
  {
    if |s| > 0 {
      assert s[0] in s;
    }
  }
}
