/** Byte strings as the trie packages see them, and the two ways a word can be
    spelled from a rack of letters. Shared by every trie variant. */
module Bytes {

  /** Go's `byte` (uint8). */
  newtype byte = x: int | 0 <= x < 256

  /** A stored word, a search path or a letter buffer: a Go `[]byte` taken as a value. */
  type Word = seq<byte>

  /** The word has no 0 byte (the sparse trie spends key 0 on its end-of-word marker). */
  predicate ZeroFree(w: Word) {
    forall i :: 0 <= i < |w| ==> w[i] != 0
  }

  /** Every character is ASCII, so Go's UTF-8 conversion gives one byte for it. */
  predicate AsciiText(s: string) {
    forall i :: 0 <= i < |s| ==> s[i] < 128 as char
  }

  /** Go's `[]byte(s)` for a string of ASCII characters: one byte per character. */
  function Ascii(s: string): (r: Word)
    requires AsciiText(s)
    ensures |r| == |s|
    ensures forall i :: 0 <= i < |s| ==> r[i] as int == s[i] as int
  {
    seq(|s|, i requires 0 <= i < |s| => s[i] as int as byte)
  }

  /** Distinct ASCII strings convert to distinct byte strings. */
  lemma AsciiInjective(a: string, b: string)
    requires AsciiText(a) && AsciiText(b) && Ascii(a) == Ascii(b)
    ensures a == b
  {
    assert |a| == |b|;
    forall i | 0 <= i < |a|
      ensures a[i] == b[i]
    {
      assert Ascii(a)[i] == Ascii(b)[i];
    }
  }

  /** Unlimited reuse: every byte of `w` occurs somewhere among the letters. */
  predicate UsesOnly(w: Word, letters: Word) {
    forall i :: 0 <= i < |w| ==> w[i] in letters
  }

  /** Consuming: each letter instance is used at most once, so the bytes of `w`
      form a sub-multiset of the letters. */
  predicate Consumes(w: Word, letters: Word) {
    multiset(w) <= multiset(letters)
  }

  /** Spellable from `letters` under the policy selected by the `consume` flag. */
  predicate Spellable(w: Word, letters: Word, consume: bool) {
    if consume then Consumes(w, letters) else UsesOnly(w, letters)
  }

  /** Spellability depends only on the multiset of the letters. */
  lemma SpellableSameLetters(w: Word, a: Word, b: Word, consume: bool)
    requires multiset(a) == multiset(b) && Spellable(w, a, consume)
    ensures Spellable(w, b, consume)
  {
    if !consume {
      forall i | 0 <= i < |w|
        ensures w[i] in b
      {
        assert w[i] in multiset(a);
      }
    }
  }

  /** No element occurs twice. */
  predicate NoRepeats<T(==)>(s: seq<T>) {
    forall i, j :: 0 <= i < j < |s| ==> s[i] != s[j]
  }

  lemma NoRepeatsConcat<T>(a: seq<T>, b: seq<T>)
    requires NoRepeats(a) && NoRepeats(b)
    requires forall x :: x in b ==> x !in a
    ensures NoRepeats(a + b)
  {
    var s := a + b;
    forall i, j | 0 <= i < j < |s|
      ensures s[i] != s[j]
    {
      if i < |a| <= j {
        assert s[j] == b[j - |a|];
        assert s[i] in a;
      }
    }
  }

  /** In a repeat-free sequence every element occurs exactly once. */
  lemma {:induction false} NoRepeatsCount<T>(s: seq<T>, z: T)
    requires NoRepeats(s)
    ensures multiset(s)[z] == if z in s then 1 else 0
  {
    if s != [] {
      assert s == [s[0]] + s[1..];
      assert s[0] !in s[1..];
      NoRepeatsCount(s[1..], z);
    }
  }

  /** A repeat-free sequence drawing only on two distinct values, both
      present, holds each exactly once. */
  lemma NoRepeatsPair<T>(s: seq<T>, x: T, y: T)
    requires NoRepeats(s) && x != y && x in s && y in s
    requires forall z :: z in s ==> z == x || z == y
    ensures multiset(s) == multiset{x, y} && |s| == 2
  {
    forall z
      ensures multiset(s)[z] == multiset{x, y}[z]
    {
      NoRepeatsCount(s, z);
    }
    assert multiset(s) == multiset{x, y};
    assert |multiset(s)| == 2;
  }

  /** `w` read back to front. */
  function Reverse(w: Word): (r: Word)
    ensures |r| == |w|
    ensures forall i :: 0 <= i < |w| ==> r[i] == w[|w| - 1 - i]
  {
    if w == [] then [] else Reverse(w[1..]) + [w[0]]
  }

  lemma ReverseInvolution(w: Word)
    ensures Reverse(Reverse(w)) == w
  {
  }

  /** Appending a byte to a reversed path prepends it to the word. */
  lemma ReverseSnoc(p: Word, c: byte)
    ensures Reverse(p + [c]) == [c] + Reverse(p)
  {
  }

  lemma {:induction false} ReverseMultiset(w: Word)
    ensures multiset(Reverse(w)) == multiset(w)
  {
    if w != [] {
      ReverseMultiset(w[1..]);
      assert w == [w[0]] + w[1..];
    }
  }

  /** Reversal keeps the byte multiset, so it keeps both spellability relations. */
  lemma ReverseSpellable(w: Word, letters: Word, consume: bool)
    requires Spellable(w, letters, consume)
    ensures Spellable(Reverse(w), letters, consume)
  {
    ReverseMultiset(w);
    if !consume {
      var r := Reverse(w);
      forall i | 0 <= i < |r|
        ensures r[i] in letters
      {
        assert r[i] == w[|w| - 1 - i];
      }
    }
  }

  /** The buffer with positions `i` and `j` exchanged (Go's `s[i], s[j] = s[j], s[i]`). */
  function Swap(s: Word, i: nat, j: nat): (r: Word)
    requires i < |s| && j < |s|
    ensures |r| == |s| && r[i] == s[j] && r[j] == s[i]
    ensures forall k :: 0 <= k < |s| && k != i && k != j ==> r[k] == s[k]
  {
    s[i := s[j]][j := s[i]]
  }

  /** A swap rearranges the buffer: the letters stay the same. */
  lemma SwapMultiset(s: Word, i: nat, j: nat)
    requires i < |s| && j < |s|
    ensures multiset(Swap(s, i, j)) == multiset(s)
  {
  }

  /** Spending the first byte of `w` on `letters[i]`, swapped to the front,
      leaves the rest of `w` spellable from the rest of the buffer. */
  lemma ConsumesTail(w: Word, letters: Word, i: nat)
    requires |w| > 0 && i < |letters| && letters[i] == w[0] && Consumes(w, letters)
    ensures Consumes(w[1..], Swap(letters, 0, i)[1..])
  {
    var swapped := Swap(letters, 0, i);
    assert multiset(w) == multiset{w[0]} + multiset(w[1..]) by {
      assert w == [w[0]] + w[1..];
    }
    assert multiset(letters) == multiset{w[0]} + multiset(swapped[1..]) by {
      SwapMultiset(letters, 0, i);
      assert swapped == [w[0]] + swapped[1..];
    }
    forall x
      ensures multiset(w[1..])[x] <= multiset(swapped[1..])[x]
    {
      assert multiset(w)[x] <= multiset(letters)[x];
    }
  }

  /** Go's `append(child, letter)` applied to every raw path of a sub-search. */
  function AppendToEach(paths: seq<Word>, letter: byte): seq<Word> {
    seq(|paths|, k requires 0 <= k < |paths| => paths[k] + [letter])
  }

  /** Every raw path of a search reversed into a word. */
  function ReverseAll(paths: seq<Word>): seq<Word> {
    seq(|paths|, k requires 0 <= k < |paths| => Reverse(paths[k]))
  }

  /** The two-index swap loop that turns one raw path around in place
      (every permuteAll runs it over each of its results). */
  method ReverseBytes(w: Word) returns (r: Word)
    ensures |r| == |w|
    ensures forall i :: 0 <= i < |w| ==> r[i] == w[|w| - 1 - i]
  {
    var buf := new byte[|w|](k requires 0 <= k < |w| => w[k]);
    var a, b := 0, |w| - 1;
    while a < b
      invariant 0 <= a && a + b == |w| - 1 && a <= b + 1
      invariant forall k :: 0 <= k < a ==> buf[k] == w[|w| - 1 - k]
      invariant forall k :: b < k < |w| ==> buf[k] == w[|w| - 1 - k]
      invariant forall k :: a <= k <= b ==> buf[k] == w[k]
    {
      buf[a], buf[b] := buf[b], buf[a];
      a, b := a + 1, b - 1;
    }
    r := buf[..];
  }

  /** The outer loop of the reversal pass: every raw path becomes its word. */
  method ReverseEach(paths: seq<Word>) returns (words: seq<Word>)
    ensures |words| == |paths|
    ensures forall k :: 0 <= k < |paths| ==> Reverse(words[k]) == paths[k]
  {
    words := [];
    var i := 0;
    while i < |paths|
      invariant 0 <= i <= |paths| && |words| == i
      invariant forall k :: 0 <= k < i ==> words[k] == Reverse(paths[k])
    {
      var w := ReverseBytes(paths[i]);
      words := words + [w];
      i := i + 1;
    }
    forall k | 0 <= k < |paths|
      ensures Reverse(words[k]) == paths[k]
    {
      ReverseInvolution(paths[k]);
    }
  }
}
