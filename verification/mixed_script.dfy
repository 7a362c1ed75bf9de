/** The mixed-script layer of Unicode Technical Standard #39, section 5.1
    "Mixed-Script Detection": augmented and resolved script sets.

    This layer is specified by the test suite only (the functions it imports,
    `unicodeAugmentedScriptCodes`, `unicodeResolvedScriptCodes`,
    `isMixedScript`, `isSingleScript` and `listUnicodeAugmentedScriptCodes`,
    are not defined in `src/index.js`); it is not derived from source
    code. It is built on the extension indexes of the source-derived model. */
module MixedScript {
  import opened Wrappers
  import opened Collation
  import opened ScriptTables
  import opened ScriptExtensions
  import opened Queries

  /** The composite writing systems: Han with Bopomofo, Japanese, Korean. */
  const Synthetic: set<string> := {"Hanb", "Jpan", "Kore"}

  /** `listUnicodeAugmentedScriptCodes`. */
  function ListUnicodeAugmentedScriptCodes(): (r: seq<string>)
    ensures Sorted(r)
    ensures forall n :: n in r <==> n in Synthetic
  {
    ["Hanb", "Jpan", "Kore"]
  }

  /** Every flat alias and "Zzzz". */
  function KnownCodes(t: Tables): set<string>
  {
    (set n | n in FlatAliases(t.aliasKeys)) + {"Zzzz"}
  }

  /** The known codes are exactly what `listUnicodeScriptCodes` lists. */
  lemma KnownCodesAreListed(t: Tables)
    ensures forall n :: n in KnownCodes(t) <==> n in ListUnicodeScriptCodes(t)
  {
  }

  /** Every known code together with the three composite codes. */
  function AugmentedUniverse(t: Tables): set<string>
  {
    KnownCodes(t) + Synthetic
  }

  /** The ISO 15924 codes of a string's extension indexes ("Zzzz" for an index
      with no code). */
  function ExtensionCodeSet(t: Tables, s: seq<CodePoint>): (r: set<string>)
    ensures r <= KnownCodes(t)
  {
    set x | x in ExtensionIndexes(t, s) :: CodeFor(t, x)
  }

  /** Common or Inherited: script-neutral, so the set widens to everything. */
  predicate Wildcard(a: set<string>)
  {
    "Zyyy" in a || "Zinh" in a
  }

  /** The composite codes the rules add to `a`: Han implies all three,
      Hiragana and Katakana imply Japanese, Hangul implies Korean, Bopomofo
      implies Han-with-Bopomofo. */
  function Extras(a: set<string>): (r: set<string>)
    ensures r <= Synthetic
    ensures "Hani" in a ==> r == Synthetic
    ensures "Hanb" in r <==> "Hani" in a || "Bopo" in a
    ensures "Jpan" in r <==> "Hani" in a || "Hira" in a || "Kana" in a
    ensures "Kore" in r <==> "Hani" in a || "Hang" in a
  {
    (if "Hani" in a then Synthetic else {})
    + (if "Hira" in a || "Kana" in a then {"Jpan"} else {})
    + (if "Hang" in a then {"Kore"} else {})
    + (if "Bopo" in a then {"Hanb"} else {})
  }

  /** The augmentation of UTS #39: the rules' composite codes are added;
      Common or Inherited replace the whole set by the universe. */
  function Augment(t: Tables, a: set<string>): (r: set<string>)
    ensures Wildcard(a) ==> r == AugmentedUniverse(t)
    ensures !Wildcard(a) ==> r == a + Extras(a)
    ensures a <= KnownCodes(t) ==> r <= AugmentedUniverse(t)
  {
    if Wildcard(a) then AugmentedUniverse(t) else a + Extras(a)
  }

  /** No composite code is itself a wildcard or the trigger of a rule. */
  lemma SyntheticIsInert()
    ensures forall k :: k in Synthetic ==>
      k != "Zyyy" && k != "Zinh" && k != "Hani" && k != "Hira" && k != "Kana" && k != "Hang" && k != "Bopo"
  {
  }

  /** Adding composite codes neither creates a wildcard nor fires a rule. */
  lemma ExtrasIgnoreSynthetic(a: set<string>, x: set<string>)
    requires x <= Synthetic
    ensures Wildcard(a + x) <==> Wildcard(a)
    ensures Extras(a + x) == Extras(a)
  {
    SyntheticIsInert();
  }

  /** `unicodeAugmentedScriptCodes`. */
  function AugmentedScriptCodes(t: Tables, s: seq<CodePoint>): (r: set<string>)
    ensures r <= AugmentedUniverse(t)
  {
    Augment(t, ExtensionCodeSet(t, s))
  }

  /** The codes of one scalar's extension indexes: `ExtensionCodeSet(t, [c])`
      taken straight from the scalar's own index list. The resolution works
      per scalar, and this form keeps the string-level set comprehension out
      of its proofs; `ScalarCodesAgree` shows the two coincide. */
  function ScalarExtensionCodes(t: Tables, c: CodePoint): (r: set<string>)
  {
    set x | x in CharExtension(t, c) :: CodeFor(t, x)
  }

  /** The augmented set of one scalar: `AugmentedScriptCodes(t, [c])`, built
      on `ScalarExtensionCodes` (see `ScalarCodesAgree`). */
  function ScalarCodes(t: Tables, c: CodePoint): (r: set<string>)
  {
    Augment(t, ScalarExtensionCodes(t, c))
  }

  /** For a one-scalar string the per-scalar set is the string's augmented set. */
  lemma ScalarCodesAgree(t: Tables, c: CodePoint)
    ensures ScalarExtensionCodes(t, c) == ExtensionCodeSet(t, [c])
    ensures ScalarCodes(t, c) == AugmentedScriptCodes(t, [c])
  {
    assert ScalarExtensionCodes(t, c) == ExtensionCodeSet(t, [c]) by {
      forall x ensures x in CharExtension(t, c) <==> x in ExtensionIndexes(t, [c]) {
        assert [c][0] == c;
      }
    }
  }

  /** Augmenting an augmented set adds nothing more. */
  lemma AugmentIdempotent(t: Tables, a: set<string>)
    requires a <= KnownCodes(t)
    ensures Augment(t, Augment(t, a)) == Augment(t, a)
  {
    if Wildcard(a) {
      assert Wildcard(Augment(t, a));
    } else {
      ExtrasIgnoreSynthetic(a, Extras(a));
    }
  }

  /** Augmentation is monotone on known codes. */
  lemma AugmentMonotone(t: Tables, a: set<string>, b: set<string>)
    requires a <= b <= KnownCodes(t)
    ensures Augment(t, a) <= Augment(t, b)
  {
  }

  /** Code `k` is in every set of `sets`. */
  ghost predicate InAll(sets: seq<set<string>>, k: string)
  {
    forall i :: 0 <= i < |sets| ==> k in sets[i]
  }

  /** `u` intersected with every set of `sets`, left to right. */
  function IntersectAll(u: set<string>, sets: seq<set<string>>): (r: set<string>)
    ensures r <= u
    decreases |sets|
  {
    if |sets| == 0 then u else IntersectAll(u, sets[..|sets| - 1]) * sets[|sets| - 1]
  }

  /** A code survives the fold exactly when it is in `u` and in every set. */
  lemma {:induction false} IntersectAllMembership(u: set<string>, sets: seq<set<string>>, k: string)
    ensures k in IntersectAll(u, sets) <==> k in u && InAll(sets, k)
    decreases |sets|
  {
    if |sets| > 0 {
      var init := sets[..|sets| - 1];
      IntersectAllMembership(u, init, k);
      assert forall i :: 0 <= i < |init| ==> init[i] == sets[i];
    }
  }

  lemma IntersectAllAppend(u: set<string>, a: seq<set<string>>, b: seq<set<string>>)
    ensures IntersectAll(u, a + b) == IntersectAll(u, a) * IntersectAll(u, b)
  {
    forall k ensures k in IntersectAll(u, a + b) <==> k in IntersectAll(u, a) && k in IntersectAll(u, b) {
      IntersectAllMembership(u, a + b, k);
      IntersectAllMembership(u, a, k);
      IntersectAllMembership(u, b, k);
      var ab := a + b;
      if InAll(a, k) && InAll(b, k) {
        forall i | 0 <= i < |ab| ensures k in ab[i] {
          if i >= |a| {
            assert ab[i] == b[i - |a|];
          }
        }
      }
      if InAll(ab, k) {
        forall i | 0 <= i < |a| ensures k in a[i] {
          assert ab[i] == a[i];
        }
        forall i | 0 <= i < |b| ensures k in b[i] {
          assert ab[|a| + i] == b[i];
        }
      }
    }
  }

  /** The augmented set of each scalar, in string order. */
  function ScalarSets(t: Tables, s: seq<CodePoint>): (r: seq<set<string>>)
    ensures |r| == |s|
  {
    seq(|s|, i requires 0 <= i < |s| => ScalarCodes(t, s[i]))
  }

  lemma ScalarSetsAppend(t: Tables, a: seq<CodePoint>, b: seq<CodePoint>)
    ensures ScalarSets(t, a + b) == ScalarSets(t, a) + ScalarSets(t, b)
  {
    var ab := a + b;
    forall i | 0 <= i < |ab| ensures ScalarSets(t, ab)[i] == (ScalarSets(t, a) + ScalarSets(t, b))[i] {
      if i < |a| {
        assert ab[i] == a[i];
      } else {
        assert ab[i] == b[i - |a|];
      }
    }
  }

  /** `unicodeResolvedScriptCodes`: the augmented universe, intersected with
      the augmented set of every scalar in turn. */
  function ResolvedScriptCodes(t: Tables, s: seq<CodePoint>): (r: set<string>)
    ensures r <= AugmentedUniverse(t)
  {
    IntersectAll(AugmentedUniverse(t), ScalarSets(t, s))
  }

  /** A code survives exactly when it is in the universe and in the augmented
      set of every scalar. */
  lemma ResolvedMembership(t: Tables, s: seq<CodePoint>, k: string)
    ensures k in ResolvedScriptCodes(t, s) <==> k in AugmentedUniverse(t) && InAll(ScalarSets(t, s), k)
  {
    IntersectAllMembership(AugmentedUniverse(t), ScalarSets(t, s), k);
  }

  /** The fold as a loop that stops once the accumulator is empty. */
  method ResolveScriptCodes(t: Tables, s: seq<CodePoint>) returns (r: set<string>)
    ensures r == ResolvedScriptCodes(t, s)
  {
    r := AugmentedUniverse(t);
    var i := 0;
    while i < |s| && r != {}
      invariant 0 <= i <= |s|
      invariant r == ResolvedScriptCodes(t, s[..i])
    {
      assert s[..i + 1] == s[..i] + [s[i]];
      ScalarSetsAppend(t, s[..i], [s[i]]);
      var sets := ScalarSets(t, s[..i + 1]);
      assert sets[..i] == ScalarSets(t, s[..i]) && sets[i] == ScalarCodes(t, s[i]);
      r := r * ScalarCodes(t, s[i]);
      i := i + 1;
    }
    if i < |s| {
      assert s == s[..i] + s[i..];
      ResolvedAppend(t, s[..i], s[i..]);
    } else {
      assert s[..i] == s;
    }
  }

  /** `isMixedScript`: the resolved set is empty, i.e. no code of the
      augmented universe is consistent with every scalar. */
  predicate IsMixedScript(t: Tables, s: seq<CodePoint>): (r: bool)
    ensures r <==> forall k :: k in AugmentedUniverse(t) ==> !InAll(ScalarSets(t, s), k)
  {
    assert (ResolvedScriptCodes(t, s) == {}) <==> forall k :: k in AugmentedUniverse(t) ==> !InAll(ScalarSets(t, s), k) by {
      forall k {
        ResolvedMembership(t, s, k);
      }
    }
    ResolvedScriptCodes(t, s) == {}
  }

  /** `isSingleScript`: the negation of `isMixedScript`, i.e. some code of
      the augmented universe is consistent with every scalar. */
  predicate IsSingleScript(t: Tables, s: seq<CodePoint>): (r: bool)
    ensures r <==> exists k :: k in AugmentedUniverse(t) && InAll(ScalarSets(t, s), k)
  {
    !IsMixedScript(t, s)
  }

  /** The empty string resolves to the whole augmented universe. */
  lemma ResolvedOfEmpty(t: Tables)
    ensures ResolvedScriptCodes(t, []) == AugmentedUniverse(t)
    ensures IsSingleScript(t, [])
  {
    assert "Zzzz" in AugmentedUniverse(t);
  }

  /** The resolved set of a concatenation is the intersection of the parts'. */
  lemma ResolvedAppend(t: Tables, a: seq<CodePoint>, b: seq<CodePoint>)
    ensures ResolvedScriptCodes(t, a + b) == ResolvedScriptCodes(t, a) * ResolvedScriptCodes(t, b)
  {
    ScalarSetsAppend(t, a, b);
    IntersectAllAppend(AugmentedUniverse(t), ScalarSets(t, a), ScalarSets(t, b));
  }

  /** A Common or Inherited scalar is neutral: appending it changes nothing. */
  lemma NeutralScalar(t: Tables, s: seq<CodePoint>, c: CodePoint)
    requires Wildcard(ScalarExtensionCodes(t, c))
    ensures ScalarCodes(t, c) == AugmentedUniverse(t)
    ensures ResolvedScriptCodes(t, s + [c]) == ResolvedScriptCodes(t, s)
  {
    ResolvedAppend(t, s, [c]);
    assert ScalarSets(t, [c]) == [ScalarCodes(t, c)];
    var one := [ScalarCodes(t, c)];
    assert one[..0] == [];
    assert IntersectAll(AugmentedUniverse(t), one) == AugmentedUniverse(t) * ScalarCodes(t, c);
    assert ResolvedScriptCodes(t, s) <= AugmentedUniverse(t);
  }

  /** Once mixed, a string stays mixed however it is extended. */
  lemma MixedIsPreserved(t: Tables, s: seq<CodePoint>, u: seq<CodePoint>)
    requires IsMixedScript(t, s)
    ensures IsMixedScript(t, s + u) && IsMixedScript(t, u + s)
  {
    ResolvedAppend(t, s, u);
    ResolvedAppend(t, u, s);
  }

  /** With non-empty override lists a single scalar is always single-script. */
  lemma ScalarIsSingleScript(t: Tables, c: CodePoint)
    requires OverridesNonEmpty(t)
    ensures IsSingleScript(t, [c])
  {
    ExtensionIndexesNonEmpty(t, [c]);
    ScalarCodesAgree(t, c);
    var x :| x in ExtensionIndexes(t, [c]);
    var k := CodeFor(t, x);
    assert k in ScalarExtensionCodes(t, c);
    assert k in ScalarCodes(t, c) && k in AugmentedUniverse(t);
    ResolvedMembership(t, [c], k);
    assert ScalarSets(t, [c]) == [ScalarCodes(t, c)];
  }

  /** Hiragana with Katakana ("ねガ") augments to Hira, Kana and Jpan. */
  lemma KanaAugmentation(t: Tables)
    ensures Augment(t, {"Hira", "Kana"}) == {"Hira", "Kana", "Jpan"}
  {
    var a: set<string> := {"Hira", "Kana"};
    assert !Wildcard(a);
    assert Extras(a) == {"Jpan"};
  }

  /** A code that is neither a wildcard nor a rule trigger augments to itself. */
  lemma PlainCodeAugmentsToItself(t: Tables, k: string)
    requires k !in {"Zyyy", "Zinh", "Hani", "Hira", "Kana", "Hang", "Bopo"}
    ensures Augment(t, {k}) == {k}
  {
  }

  /** A scalar whose only extension code is plain keeps just that code. */
  lemma PlainScalar(t: Tables, c: CodePoint, k: string)
    requires k !in {"Zyyy", "Zinh", "Hani", "Hira", "Kana", "Hang", "Bopo"}
    requires ScalarExtensionCodes(t, c) == {k}
    ensures ScalarCodes(t, c) == {k}
  {
    PlainCodeAugmentsToItself(t, k);
  }

  /** If two of the sets share no code, nothing survives the fold. */
  lemma DisjointPairEmpties(u: set<string>, sets: seq<set<string>>, i: nat, j: nat)
    requires i < |sets| && j < |sets|
    requires sets[i] * sets[j] == {}
    ensures IntersectAll(u, sets) == {}
  {
    forall k ensures k !in IntersectAll(u, sets) {
      IntersectAllMembership(u, sets, k);
      var si, sj := sets[i], sets[j];
      assert InAll(sets, k) ==> k in si && k in sj;
      assert k !in si * sj;
    }
  }

  /** A string holding a scalar whose augmented set is {Latn} and one whose
      augmented set is {Cyrl} (as in "Сirсlе") is mixed. */
  lemma LatinCyrillicIsMixed(t: Tables, s: seq<CodePoint>, i: nat, j: nat)
    requires i < |s| && j < |s|
    requires ScalarCodes(t, s[i]) == {"Latn"}
    requires ScalarCodes(t, s[j]) == {"Cyrl"}
    ensures IsMixedScript(t, s)
  {
    var sets := ScalarSets(t, s);
    assert sets[i] * sets[j] == {};
    DisjointPairEmpties(AugmentedUniverse(t), sets, i, j);
  }
}
