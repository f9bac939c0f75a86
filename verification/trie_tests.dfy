/** The cases of the repository's unit tests (maptrie/map_trie_test.go,
    arraytrie/array_trie_test.go, trie/trie_test.go), stated as lemmas about
    the model. */
module TrieTests {
  import opened Bytes
  import opened TrieHelper
  import MapTrie
  import ArrayTrie
  import ArrayTrieCore

  const FU: Word := [102, 117]
  const FULL: Word := [102, 117, 108, 108]
  const FULLX: Word := [102, 117, 108, 108, 120]
  const X: Word := [120]
  const FULXD: Word := [102, 117, 108, 120, 100]
  const FULXDLL: Word := [102, 117, 108, 120, 100, 108, 108]
  const BAA: Word := [98, 97, 97]
  const CAB: Word := [99, 97, 98]

  /** The ASCII strings of the tests are these byte words. */
  lemma AsciiWords()
    ensures Ascii("fu") == FU && Ascii("full") == FULL && Ascii("fullx") == FULLX
    ensures Ascii("x") == X && Ascii("") == []
  {
  }

  /** Neither a new map trie nor the nil one contains "" or "x". */
  lemma MapEmpty()
    ensures !MapTrie.ContainsString(MapTrie.New(), "") && !MapTrie.ContainsString(MapTrie.New(), "x")
    ensures !MapTrie.ContainsString(MapTrie.NilTrie, "") && !MapTrie.ContainsString(MapTrie.NilTrie, "x")
  {
  }

  /** After `LoadString("full")` and `LoadString("fu")` exactly those two of
      the test words are contained, and the count is 2. */
  lemma MapFull()
    ensures var m := MapTrie.LoadString(MapTrie.LoadString(MapTrie.New(), "full").0, "fu").0;
      && !MapTrie.ContainsString(m, "") && !MapTrie.ContainsString(m, "x")
      && !MapTrie.ContainsString(m, "fullx")
      && MapTrie.ContainsString(m, "full") && MapTrie.ContainsString(m, "fu")
      && MapTrie.Count(m) == 2
  {
    var m0 := MapTrie.New();
    var m1 := MapTrie.LoadString(m0, "full").0;
    var m := MapTrie.LoadString(m1, "fu").0;
    NewHoldsNoString(m0, "");
    NewHoldsNoString(m0, "x");
    NewHoldsNoString(m0, "fullx");
  }

  /** A new map trie contains no string. */
  lemma NewHoldsNoString(m: MapTrie.Trie, v: string)
    requires m == MapTrie.New() && AsciiText(v)
    ensures !MapTrie.ContainsString(m, v)
  {
    assert !MapTrie.Contains(m, Ascii(v));
  }

  lemma TestWordOrder()
    ensures StrictlySorted([FU, FULL]) && StrictlySorted([BAA, CAB])
  {
    assert FU == FULL[..2];
    ProperPrefixLess(FU, FULL);
    assert Less(BAA, CAB);
  }

  /** From "fulxd" "full" can be spelled only by reusing its one 'l'. */
  lemma SpellFulxd()
    ensures Consumes(FU, FULXD) && !Consumes(FULL, FULXD)
    ensures UsesOnly(FU, FULXD) && UsesOnly(FULL, FULXD)
  {
    assert multiset(FULL)[108] == 2 && multiset(FULXD)[108] == 1;
    assert FULXD == FU + [108, 120, 100];
  }

  /** "fulxdll" has the two 'l's "full" needs. */
  lemma SpellFulxdll()
    ensures Consumes(FU, FULXDLL) && Consumes(FULL, FULXDLL)
    ensures UsesOnly(FU, FULXDLL) && UsesOnly(FULL, FULXDLL)
  {
    FulxdllHoldsFull();
    assert FULL == FU + [108, 108];
    assert multiset(FU) <= multiset(FULL);
  }

  /** The letters of "fulxdll" are those of "full" and three more. */
  lemma FulxdllHoldsFull()
    ensures multiset(FULXDLL) == multiset(FULL) + multiset{120, 100, 108}
  {
    assert FULXDLL == FULL[..3] + [120, 100] + [108] + [108];
    assert FULL == FULL[..3] + [108];
  }

  /** From "cab" "baa" can be spelled only by reusing its one 'a'. */
  lemma SpellCab()
    ensures Consumes(CAB, CAB) && !Consumes(BAA, CAB)
    ensures UsesOnly(CAB, CAB) && UsesOnly(BAA, CAB)
  {
    assert multiset(BAA)[97] == 2 && multiset(CAB)[97] == 1;
  }

  /** trie/trie_test.go: "full" and "fu" loaded, letters "fulxd", unlimited. */
  lemma MapFulxdUnlimited()
    ensures MapTrie.PermuteAll(MapTrie.LoadAll(MapTrie.New(), [FU, FULL]), FULXD, false) == [FU, FULL]
  {
    TestWordOrder();
    SpellFulxd();
    MapTrie.PermuteAllOfLoaded([FU, FULL], FULXD, false, [FU, FULL]);
  }

  /** trie/trie_test.go: "full" and "fu" loaded, letters "fulxd", consuming. */
  lemma MapFulxdConsume()
    ensures MapTrie.PermuteAll(MapTrie.LoadAll(MapTrie.New(), [FU, FULL]), FULXD, true) == [FU]
  {
    SpellFulxd();
    MapTrie.PermuteAllOfLoaded([FU, FULL], FULXD, true, [FU]);
  }

  /** trie/trie_test.go: "full" and "fu" loaded, letters "fulxdll", both modes. */
  lemma MapFulxdll()
    ensures MapTrie.PermuteAll(MapTrie.LoadAll(MapTrie.New(), [FU, FULL]), FULXDLL, true) == [FU, FULL]
    ensures MapTrie.PermuteAll(MapTrie.LoadAll(MapTrie.New(), [FU, FULL]), FULXDLL, false) == [FU, FULL]
  {
    MapFulxdllMode(true);
    MapFulxdllMode(false);
  }

  /** "fulxdll" spells both words under either mode. */
  lemma MapFulxdllMode(consume: bool)
    ensures MapTrie.PermuteAll(MapTrie.LoadAll(MapTrie.New(), [FU, FULL]), FULXDLL, consume) == [FU, FULL]
  {
    TestWordOrder();
    SpellFulxdll();
    MapTrie.PermuteAllOfLoaded([FU, FULL], FULXDLL, consume, [FU, FULL]);
  }

  /** trie/trie_test.go: "baa" and "cab" loaded, letters "cab", both modes. */
  lemma MapCab()
    ensures MapTrie.PermuteAll(MapTrie.LoadAll(MapTrie.New(), [BAA, CAB]), CAB, false) == [BAA, CAB]
    ensures MapTrie.PermuteAll(MapTrie.LoadAll(MapTrie.New(), [BAA, CAB]), CAB, true) == [CAB]
  {
    TestWordOrder();
    SpellCab();
    MapTrie.PermuteAllOfLoaded([BAA, CAB], CAB, false, [BAA, CAB]);
    MapTrie.PermuteAllOfLoaded([BAA, CAB], CAB, true, [CAB]);
  }

  /** The dense trie with "full" loaded, then "fu". */
  function FullFu(): (r: ArrayTrie.Trie)
    ensures ArrayTrie.Valid(r)
    ensures forall v :: ArrayTrie.Contains(r, v) <==> v == FU || v == FULL
  {
    var r := ArrayTrie.Load(ArrayTrie.Load(ArrayTrie.Nil, FULL), FU);
    forall v
      ensures ArrayTrie.Contains(r, v) <==> v == FU || v == FULL
    {
      ArrayTrie.LoadContains(ArrayTrie.Load(ArrayTrie.Nil, FULL), FU, v);
      ArrayTrie.LoadContains(ArrayTrie.Nil, FULL, v);
    }
    r
  }

  /** arraytrie/array_trie_test.go: `New` (the nil trie) contains neither "" nor "x". */
  lemma ArrayEmpty()
    ensures !ArrayTrie.ContainsString(ArrayTrie.New(), "") && !ArrayTrie.ContainsString(ArrayTrie.New(), "x")
  {
  }

  /** arraytrie/array_trie_test.go: after loading "full" and "fu" exactly
      those two of the test words are contained. */
  lemma ArrayFull()
    ensures var at := FullFu();
      && !ArrayTrie.ContainsString(at, "") && !ArrayTrie.ContainsString(at, "x")
      && !ArrayTrie.ContainsString(at, "fullx")
      && ArrayTrie.ContainsString(at, "full") && ArrayTrie.ContainsString(at, "fu")
  {
    AsciiWords();
  }

  lemma FulxdDistinct()
    ensures NoRepeats(FULXD)
  {
  }

  /** Any dense trie holding exactly "fu" and "full" answers "fulxd" with
      each of them once. */
  lemma ArrayFulxdFor(at: ArrayTrie.Trie)
    requires ArrayTrie.Valid(at)
    requires forall v :: ArrayTrie.Contains(at, v) <==> v == FU || v == FULL
    ensures multiset(ArrayTrie.PermuteAll(at, FULXD)) == multiset{FU, FULL}
  {
    var r := ArrayTrie.PermuteAll(at, FULXD);
    ArrayFulxdMembers(at);
    NoRepeatsPair(r, FU, FULL);
  }

  /** The words found for "fulxd" are exactly "fu" and "full", none twice. */
  lemma ArrayFulxdMembers(at: ArrayTrie.Trie)
    requires ArrayTrie.Valid(at)
    requires forall v :: ArrayTrie.Contains(at, v) <==> v == FU || v == FULL
    ensures FU in ArrayTrie.PermuteAll(at, FULXD) && FULL in ArrayTrie.PermuteAll(at, FULXD)
    ensures forall z :: z in ArrayTrie.PermuteAll(at, FULXD) ==> z == FU || z == FULL
    ensures NoRepeats(ArrayTrie.PermuteAll(at, FULXD))
  {
    SpellFulxd();
    FulxdDistinct();
    ArrayTrie.PermuteAllExact(at, FULXD, FU);
    ArrayTrie.PermuteAllExact(at, FULXD, FULL);
    forall z | z in ArrayTrie.PermuteAll(at, FULXD)
      ensures z == FU || z == FULL
    {
      ArrayTrie.PermuteAllExact(at, FULXD, z);
    }
    ArrayTrie.PermuteAllDistinct(at, FULXD);
  }

  /** arraytrie/array_trie_test.go: letters "fulxd" give "fu" and "full",
      each once, in some order (the test sorts before comparing). */
  lemma ArrayFulxd()
    ensures multiset(ArrayTrie.PermuteAll(FullFu(), FULXD)) == multiset{FU, FULL}
  {
    ArrayFulxdFor(FullFu());
  }

  /** No deduplication in arraytrie/array_trie.go: with "a" loaded, the
      letters "aa" find "a" once per letter. */
  lemma ArrayRepeats()
    ensures ArrayTrie.PermuteAll(ArrayTrie.Load(ArrayTrie.Nil, [97]), [97, 97]) == [[97], [97]]
  {
    var at := ArrayTrie.Load(ArrayTrie.Nil, [97]);
    var letters: Word := [97, 97];
    var leaf := at.kids[97];
    assert at == ArrayTrie.Load(ArrayTrie.Empty(), [97]);
    assert leaf == ArrayTrie.Load(ArrayTrie.Empty(), []);
    assert leaf.hit && leaf.kids[97] == ArrayTrie.Nil && !at.hit;
    assert ArrayTrie.PermuteFrom(leaf, letters, 1) == [];
    assert ArrayTrie.PermuteFrom(leaf, letters, 0) == [];
    assert ArrayTrie.PermuteInner(leaf, letters) == [[]];
    assert AppendToEach([[]], 97)[0] == [97];
    assert ArrayTrie.PermuteFrom(at, letters, 1) == [[97]];
    assert ArrayTrie.PermuteFrom(at, letters, 0) == [[97], [97]];
    assert ArrayTrie.PermuteInner(at, letters) == [[97], [97]];
  }

  /** arraytrie/trie.go, unlimited mode: any dense trie holding exactly
      "fu" and "full" answers "fulxd" with exactly those, in order. */
  lemma ArrayCoreFulxdFor(at: ArrayTrie.Trie)
    requires ArrayTrie.Valid(at)
    requires forall v :: ArrayTrie.Contains(at, v) <==> v == FU || v == FULL
    ensures ArrayTrieCore.PermuteAll(at, FULXD, false) == [FU, FULL]
  {
    var r := ArrayTrieCore.PermuteAll(at, FULXD, false);
    TestWordOrder();
    ArrayCoreFulxdMembers(at);
    StrictlySortedUnique(r, [FU, FULL]);
  }

  /** The words found for "fulxd" in unlimited mode are exactly "fu" and "full". */
  lemma ArrayCoreFulxdMembers(at: ArrayTrie.Trie)
    requires ArrayTrie.Valid(at)
    requires forall v :: ArrayTrie.Contains(at, v) <==> v == FU || v == FULL
    ensures forall w :: w in ArrayTrieCore.PermuteAll(at, FULXD, false) <==> w in [FU, FULL]
  {
    SpellFulxd();
    forall w
      ensures w in ArrayTrieCore.PermuteAll(at, FULXD, false) <==> w in [FU, FULL]
    {
      ArrayTrieCore.PermuteAllUnlimitedExact(at, FULXD, w);
    }
  }

  lemma ArrayCoreFulxd()
    ensures ArrayTrieCore.PermuteAll(FullFu(), FULXD, false) == [FU, FULL]
  {
    ArrayCoreFulxdFor(FullFu());
  }
}
