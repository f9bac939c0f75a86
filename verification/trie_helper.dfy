/** The shared helper package (trie/trie.go): byte-lexicographic comparison and
    the sort-then-compact normalisation every search result goes through. */
module TrieHelper {
  import opened Bytes

  /** Strict byte-lexicographic order: a proper prefix comes first, otherwise
      the first differing byte decides. */
  predicate Less(a: Word, b: Word): (r: bool)
    ensures r ==> |b| > 0
    ensures |a| == 0 ==> (r <==> |b| > 0)
    ensures |a| > 0 && |b| > 0 && a[0] != b[0] ==> (r <==> a[0] < b[0])
    decreases |a|
  {
    |b| > 0 && (|a| == 0 || a[0] < b[0] || (a[0] == b[0] && Less(a[1..], b[1..])))
  }

  /** `a` is a proper prefix of `b`. */
  predicate ProperPrefix(a: Word, b: Word) {
    |a| < |b| && a == b[..|a|]
  }

  /** `a` and `b` first differ at some position, where `a` has the smaller byte. */
  predicate SmallerAtFirstDifference(a: Word, b: Word) {
    exists k :: 0 <= k < |a| && k < |b| && a[..k] == b[..k] && a[k] < b[k]
  }

  /** A proper prefix precedes the longer word. */
  lemma {:induction false} ProperPrefixLess(a: Word, b: Word)
    requires ProperPrefix(a, b)
    ensures Less(a, b)
    decreases |a|
  {
    if |a| > 0 {
      assert a[0] == b[..|a|][0];
      assert a[1..] == b[..|a|][1..] == b[1..][..|a| - 1];
      ProperPrefixLess(a[1..], b[1..]);
    }
  }

  /** The first difference, at position `k`, decides. */
  lemma {:induction false} FirstDifferenceLess(a: Word, b: Word, k: nat)
    requires k < |a| && k < |b| && a[..k] == b[..k] && a[k] < b[k]
    ensures Less(a, b)
    decreases k
  {
    if k > 0 {
      assert a[0] == a[..k][0] && b[0] == b[..k][0];
      assert a[1..][..k - 1] == a[..k][1..] && b[1..][..k - 1] == b[..k][1..];
      FirstDifferenceLess(a[1..], b[1..], k - 1);
    }
  }

  /** `Less` holds only through a proper prefix or a smaller first differing byte. */
  lemma {:induction false} LessCases(a: Word, b: Word)
    requires Less(a, b)
    ensures ProperPrefix(a, b) || SmallerAtFirstDifference(a, b)
    decreases |a|
  {
    if |a| == 0 {
      assert a == b[..0];
    } else if a[0] < b[0] {
      assert a[..0] == b[..0];
    } else {
      LessCases(a[1..], b[1..]);
      if ProperPrefix(a[1..], b[1..]) {
        assert a == [a[0]] + a[1..];
        assert b[..|a|] == [b[0]] + b[1..][..|a| - 1];
      } else {
        var k :| 0 <= k < |a| - 1 && k < |b| - 1 && a[1..][..k] == b[1..][..k] && a[1..][k] < b[1..][k];
        assert a[..k + 1] == [a[0]] + a[1..][..k];
        assert b[..k + 1] == [b[0]] + b[1..][..k];
        assert a[k + 1] < b[k + 1];
      }
    }
  }

  /** `bytesLessThan` is exactly the textbook lexicographic order, in both directions. */
  lemma LessIsLexicographic(a: Word, b: Word)
    ensures Less(a, b) <==> ProperPrefix(a, b) || SmallerAtFirstDifference(a, b)
  {
    if Less(a, b) {
      LessCases(a, b);
    } else if ProperPrefix(a, b) {
      ProperPrefixLess(a, b);
    } else if SmallerAtFirstDifference(a, b) {
      var k :| 0 <= k < |a| && k < |b| && a[..k] == b[..k] && a[k] < b[k];
      FirstDifferenceLess(a, b, k);
    }
  }

  lemma {:induction false} LessIrreflexive(a: Word)
    ensures !Less(a, a)
    decreases |a|
  {
    if |a| > 0 {
      LessIrreflexive(a[1..]);
    }
  }

  lemma {:induction false} LessAsymmetric(a: Word, b: Word)
    ensures Less(a, b) ==> !Less(b, a)
    decreases |a|
  {
    if |a| > 0 && |b| > 0 && a[0] == b[0] {
      LessAsymmetric(a[1..], b[1..]);
    }
  }

  lemma {:induction false} LessTransitive(a: Word, b: Word, c: Word)
    requires Less(a, b) && Less(b, c)
    ensures Less(a, c)
    decreases |a|
  {
    if |a| > 0 && a[0] == b[0] && b[0] == c[0] {
      LessTransitive(a[1..], b[1..], c[1..]);
    }
  }

  /** For distinct words exactly one of `Less(a, b)`, `Less(b, a)` holds. */
  lemma {:induction false} LessTrichotomous(a: Word, b: Word)
    ensures a == b <==> !Less(a, b) && !Less(b, a)
    ensures !(Less(a, b) && Less(b, a))
    decreases |a|
  {
    LessAsymmetric(a, b);
    if a == b {
      LessIrreflexive(a);
    } else if |a| > 0 && |b| > 0 && a[0] == b[0] {
      LessTrichotomous(a[1..], b[1..]);
      assert a == [a[0]] + a[1..] && b == [b[0]] + b[1..];
    }
  }

  /** The loop of `bytesLessThan`: strip the common head, then decide on what is left. */
  method BytesLessThan(a: Word, b: Word) returns (r: bool)
    ensures r <==> ProperPrefix(a, b) || SmallerAtFirstDifference(a, b)
  {
    var i := 0;
    while i < |a| && i < |b| && a[i] == b[i]
      invariant 0 <= i <= |a| && i <= |b|
      invariant Less(a, b) <==> Less(a[i..], b[i..])
    {
      assert a[i..][1..] == a[i + 1..] && b[i..][1..] == b[i + 1..];
      i := i + 1;
    }
    if i == |b| {
      r := false;
    } else {
      r := i == |a| || a[i] < b[i];
    }
    LessIsLexicographic(a, b);
  }

  /** The loop of `bytesEqual`: strip the common head, then both must be used up. */
  method BytesEqual(a: Word, b: Word) returns (r: bool)
    ensures r <==> a == b
  {
    var i := 0;
    while i < |a| && i < |b| && a[i] == b[i]
      invariant 0 <= i <= |a| && i <= |b|
      invariant a[..i] == b[..i]
    {
      i := i + 1;
    }
    r := i == |a| && i == |b|;
    if i < |a| && i < |b| {
      assert a[i] != b[i];
    }
  }

  /** Ascending: no element strictly precedes an earlier one. */
  predicate Sorted(s: seq<Word>) {
    forall i, j :: 0 <= i < j < |s| ==> !Less(s[j], s[i])
  }

  /** Strictly ascending, hence without repeats. */
  predicate StrictlySorted(s: seq<Word>) {
    forall i, j :: 0 <= i < j < |s| ==> Less(s[i], s[j])
  }

  /** `!Less(y, x)` is the matching non-strict order: it is transitive. */
  lemma NotLessTransitive(x: Word, y: Word, z: Word)
    requires !Less(y, x) && !Less(z, y)
    ensures !Less(z, x)
  {
    LessTrichotomous(x, y);
    LessTrichotomous(y, z);
    LessTrichotomous(x, z);
    if x != y && y != z {
      LessTransitive(x, y, z);
    }
  }

  /** Insertion into a sorted sequence (the stand-in for one step of `sort.Slice`). */
  function Insert(x: Word, s: seq<Word>): (r: seq<Word>)
    requires Sorted(s)
    ensures Sorted(r)
    ensures multiset(r) == multiset(s) + multiset{x}
  {
    if s == [] then [x]
    else if Less(s[0], x) then
      var tail := Insert(x, s[1..]);
      assert s == [s[0]] + s[1..];
      assert forall k :: 0 <= k < |tail| ==> tail[k] in multiset(s[1..]) + multiset{x};
      InsertHeadBound(s, x, tail);
      [s[0]] + tail
    else
      assert forall k :: 0 <= k < |s| ==> !Less(s[k], x) by {
        forall k | 0 <= k < |s| ensures !Less(s[k], x) {
          if k > 0 {
            NotLessTransitive(x, s[0], s[k]);
          }
        }
      }
      [x] + s
  }

  lemma InsertHeadBound(s: seq<Word>, x: Word, tail: seq<Word>)
    requires |s| > 0 && Sorted(s) && Less(s[0], x) && Sorted(tail)
    requires forall k :: 0 <= k < |tail| ==> tail[k] in multiset(s[1..]) + multiset{x}
    ensures Sorted([s[0]] + tail)
  {
    var r := [s[0]] + tail;
    forall i, j | 0 <= i < j < |r|
      ensures !Less(r[j], r[i])
    {
      if i == 0 {
        assert r[j] == tail[j - 1];
        if r[j] == x {
          LessAsymmetric(s[0], x);
        } else {
          assert r[j] in multiset(s[1..]);
          var k :| 0 <= k < |s[1..]| && s[1..][k] == r[j];
          assert s[k + 1] == r[j];
        }
      }
    }
  }

  /** Sorting (the model of `sort.Slice` ordered by `bytesLessThan`): an ascending permutation. */
  function Sort(s: seq<Word>): (r: seq<Word>)
    ensures Sorted(r)
    ensures multiset(r) == multiset(s)
  {
    if s == [] then []
    else
      assert s == [s[0]] + s[1..];
      Insert(s[0], Sort(s[1..]))
  }

  /** Every element equal to its predecessor dropped (the in-place compaction of
      `UniqueifyResults`, as a value). */
  function Compact(s: seq<Word>): (r: seq<Word>)
    ensures |r| <= |s|
    ensures |s| > 0 ==> |r| > 0 && r[|r| - 1] == s[|s| - 1]
    decreases |s|
  {
    if |s| <= 1 then s
    else if s[|s| - 2] == s[|s| - 1] then Compact(s[..|s| - 1])
    else Compact(s[..|s| - 1]) + [s[|s| - 1]]
  }

  /** Compaction neither adds nor loses a value. */
  lemma {:induction false} CompactKeepsElements(s: seq<Word>)
    ensures forall x :: x in Compact(s) <==> x in s
    decreases |s|
  {
    if |s| > 1 {
      var init := s[..|s| - 1];
      assert s == init + [s[|s| - 1]];
      CompactKeepsElements(init);
    }
  }

  /** Compacting an ascending list leaves it strictly ascending. */
  lemma {:induction false} CompactStrictlySorted(s: seq<Word>)
    requires Sorted(s)
    ensures StrictlySorted(Compact(s))
    decreases |s|
  {
    if |s| > 1 {
      var init := s[..|s| - 1];
      assert Sorted(init);
      CompactStrictlySorted(init);
      if s[|s| - 2] != s[|s| - 1] {
        CompactExtend(s, Compact(init), s[|s| - 1]);
      }
    }
  }

  lemma CompactExtend(s: seq<Word>, c: seq<Word>, last: Word)
    requires |s| >= 2 && Sorted(s) && last == s[|s| - 1] && s[|s| - 2] != last
    requires StrictlySorted(c) && |c| > 0 && c[|c| - 1] == s[|s| - 2]
    ensures StrictlySorted(c + [last])
  {
    LessTrichotomous(s[|s| - 2], last);
    var r := c + [last];
    forall i, j | 0 <= i < j < |r|
      ensures Less(r[i], r[j])
    {
      if j == |r| - 1 && i < |c| - 1 {
        LessTransitive(r[i], c[|c| - 1], last);
      }
    }
  }

  /** Value of `UniqueifyResults`: sorted, then adjacent duplicates compacted. */
  function Uniqueify(xs: seq<Word>): (r: seq<Word>)
    ensures StrictlySorted(r)
    ensures forall x :: x in r <==> x in xs
    ensures |r| <= |xs|
    ensures xs == [] ==> r == []
  {
    var sorted := Sort(xs);
    assert forall x :: x in sorted <==> x in xs by {
      forall x ensures x in sorted <==> x in xs {
        assert x in sorted <==> x in multiset(sorted);
      }
    }
    CompactKeepsElements(sorted);
    CompactStrictlySorted(sorted);
    Compact(sorted)
  }

  /** The head of a strictly ascending sequence does not recur in its tail. */
  lemma StrictlySortedHead(a: seq<Word>, x: Word)
    requires StrictlySorted(a) && |a| > 0
    ensures x in a[1..] <==> x in a && x != a[0]
  {
    if x in a[1..] {
      var k :| 0 <= k < |a[1..]| && a[1..][k] == x;
      assert Less(a[0], a[k + 1]);
      LessIrreflexive(x);
    }
    if x in a && x != a[0] {
      var k :| 0 <= k < |a| && a[k] == x;
      assert a[1..][k - 1] == x;
    }
  }

  /** Two strictly ascending sequences with the same elements are equal. */
  lemma {:induction false} StrictlySortedUnique(a: seq<Word>, b: seq<Word>)
    requires StrictlySorted(a) && StrictlySorted(b)
    requires forall x :: x in a <==> x in b
    ensures a == b
    decreases |a|
  {
    if a != [] {
      assert a[0] in a;
    }
    if b != [] {
      assert b[0] in b;
    }
    if a != [] && b != [] {
      var i :| 0 <= i < |a| && a[i] == b[0];
      var j :| 0 <= j < |b| && b[j] == a[0];
      if i > 0 && j > 0 {
        LessAsymmetric(a[0], a[i]);
      } else if i > 0 {
        LessIrreflexive(a[0]);
      } else if j > 0 {
        LessIrreflexive(b[0]);
      }
      assert a[0] == b[0];
      forall x
        ensures x in a[1..] <==> x in b[1..]
      {
        StrictlySortedHead(a, x);
        StrictlySortedHead(b, x);
      }
      StrictlySortedUnique(a[1..], b[1..]);
      assert a == [a[0]] + a[1..] && b == [b[0]] + b[1..];
    }
  }

  /** The result does not depend on which ascending permutation the sort picked:
      compacting any of them gives the same sequence. */
  lemma AnySortGivesSameResult(xs: seq<Word>, p: seq<Word>)
    requires Sorted(p) && multiset(p) == multiset(xs)
    ensures Compact(p) == Uniqueify(xs)
  {
    CompactKeepsElements(p);
    CompactStrictlySorted(p);
    forall x
      ensures x in Compact(p) <==> x in Uniqueify(xs)
    {
      assert x in p <==> x in multiset(p);
      assert x in xs <==> x in multiset(xs);
    }
    StrictlySortedUnique(Compact(p), Uniqueify(xs));
  }

  /** Normalising a normalised list changes nothing. */
  lemma UniqueifyIdempotent(xs: seq<Word>)
    ensures Uniqueify(Uniqueify(xs)) == Uniqueify(xs)
  {
    StrictlySortedUnique(Uniqueify(Uniqueify(xs)), Uniqueify(xs));
  }

  /** Inputs with the same elements, in any order and multiplicity, normalise alike. */
  lemma UniqueifyDeterministic(xs: seq<Word>, ys: seq<Word>)
    requires forall x :: x in xs <==> x in ys
    ensures Uniqueify(xs) == Uniqueify(ys)
  {
    StrictlySortedUnique(Uniqueify(xs), Uniqueify(ys));
  }

  /** One more element of a sequence, compacted. */
  lemma CompactStep(s: seq<Word>, i: nat)
    requires 1 <= i < |s|
    ensures s[i - 1] == s[i] ==> Compact(s[..i + 1]) == Compact(s[..i])
    ensures s[i - 1] != s[i] ==> Compact(s[..i + 1]) == Compact(s[..i]) + [s[i]]
  {
    assert s[..i + 1][..i] == s[..i];
  }

  /** One pass of the compaction loop body at index `i`: from the array
      contents `pre` and shift `shift` to `post` and `shift'`. */
  lemma CompactionStep(sorted: seq<Word>, pre: seq<Word>, i: nat, shift: nat, shift': nat, post: seq<Word>)
    requires 1 <= i < |sorted| == |pre| && shift < i
    requires forall k :: i - 1 <= k < |pre| ==> pre[k] == sorted[k]
    requires pre[..i - shift] == Compact(sorted[..i])
    requires shift' == if sorted[i - 1] == sorted[i] then shift + 1 else shift
    requires post == if shift' > 0 then pre[i - shift' := pre[i]] else pre
    ensures post[..i + 1 - shift'] == Compact(sorted[..i + 1])
    ensures forall k :: i <= k < |post| ==> post[k] == sorted[k]
  {
    CompactStep(sorted, i);
    var before := pre[..i - shift];
    if sorted[i - 1] == sorted[i] {
      assert before[|before| - 1] == sorted[i];
      assert before == pre[..i - shift - 1] + [sorted[i]];
    } else if shift > 0 {
      assert pre[i - shift := pre[i]][..i + 1 - shift] == before + [sorted[i]];
    } else {
      assert pre[..i + 1] == before + [sorted[i]];
    }
  }

  /** The compaction loop of `UniqueifyResults` over an already sorted list:
      each entry equal to its predecessor bumps `shift`, and once `shift` is
      positive every entry moves `shift` places down; the tail is cut off. */
  method CompactAdjacent(sorted: seq<Word>) returns (r: seq<Word>)
    ensures r == Compact(sorted)
  {
    if |sorted| == 0 {
      return [];
    }
    var buf := sorted;
    var shift := 0;
    var i := 1;
    while i < |buf|
      invariant 1 <= i <= |buf| == |sorted|
      invariant 0 <= shift < i
      // writes land at i - shift <= i, so buf[i - 1] and everything after are as sorted
      invariant forall k :: i - 1 <= k < |buf| ==> buf[k] == sorted[k]
      invariant buf[..i - shift] == Compact(sorted[..i])
    {
      var same := BytesEqual(buf[i - 1], buf[i]);
      var shift' := if same then shift + 1 else shift;
      var buf' := if shift' > 0 then buf[i - shift' := buf[i]] else buf;
      CompactionStep(sorted, buf, i, shift, shift', buf');
      buf, shift, i := buf', shift', i + 1;
    }
    assert sorted[..|buf|] == sorted;
    r := buf[..|buf| - shift];
  }

  /** `UniqueifyResults`: sort, then compact adjacent duplicates. */
  method UniqueifyResults(retval: seq<Word>) returns (r: seq<Word>)
    ensures StrictlySorted(r)
    ensures forall x :: x in r <==> x in retval
    ensures |r| <= |retval|
    ensures r == Uniqueify(retval)
  {
    var sorted := Sort(retval);
    r := CompactAdjacent(sorted);
    assert r == Uniqueify(retval);
  }
}
