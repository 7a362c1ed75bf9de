/** `unicodeScriptExtensionIndexes`: the Script_Extensions property of
    Unicode Standard Annex #24 ("Script_Extensions"), over a string. */
module ScriptExtensions {
  import opened Wrappers
  import opened ScriptTables
  import opened ScriptIndex

  /** The indexes one scalar contributes: its override list when it has one
      (any array is truthy in JavaScript, an empty one included), otherwise
      its primary script index. */
  function CharExtension(t: Tables, c: CodePoint): (r: seq<Option<int>>)
    ensures c in t.extensions ==> forall x :: x in r <==> x.Some? && x.value in t.extensions[c]
    ensures c !in t.extensions ==> r == [ScriptIndexOf(t, c)]
  {
    if c in t.extensions then
      var ids := t.extensions[c];
      var r := seq(|ids|, j requires 0 <= j < |ids| => Some(ids[j]));
      assert forall x :: x in r <==> x.Some? && x.value in ids by {
        forall x: Option<int> | x.Some? && x.value in ids ensures x in r {
          var j :| 0 <= j < |ids| && ids[j] == x.value;
          assert r[j] == x;
        }
      }
      r
    else [ScriptIndexOf(t, c)]
  }

  /** The indexes in the order `forEach` adds them to the `Set`. */
  function ExtensionIndexList(t: Tables, s: seq<CodePoint>): (r: seq<Option<int>>)
    ensures forall x :: x in r <==> exists i :: 0 <= i < |s| && x in CharExtension(t, s[i])
    decreases |s|
  {
    if |s| == 0 then []
    else
      var init := ExtensionIndexList(t, s[..|s| - 1]);
      assert forall i :: 0 <= i < |s| - 1 ==> s[..|s| - 1][i] == s[i];
      init + CharExtension(t, s[|s| - 1])
  }

  /** The `Set` of script indexes used by `s`. */
  function ExtensionIndexes(t: Tables, s: seq<CodePoint>): (r: set<Option<int>>)
    ensures forall x :: x in r <==> exists i :: 0 <= i < |s| && x in CharExtension(t, s[i])
  {
    set x | x in ExtensionIndexList(t, s)
  }

  /** The extension set of a concatenation is the union of the parts' sets. */
  lemma ExtensionIndexesAppend(t: Tables, a: seq<CodePoint>, b: seq<CodePoint>)
    ensures ExtensionIndexes(t, a + b) == ExtensionIndexes(t, a) + ExtensionIndexes(t, b)
  {
    var ab := a + b;
    forall x | x in ExtensionIndexes(t, ab)
      ensures x in ExtensionIndexes(t, a) + ExtensionIndexes(t, b)
    {
      var i :| 0 <= i < |ab| && x in CharExtension(t, ab[i]);
      if i < |a| {
        assert ab[i] == a[i];
      } else {
        assert ab[i] == b[i - |a|];
      }
    }
    forall x | x in ExtensionIndexes(t, a) + ExtensionIndexes(t, b)
      ensures x in ExtensionIndexes(t, ab)
    {
      if x in ExtensionIndexes(t, a) {
        var i :| 0 <= i < |a| && x in CharExtension(t, a[i]);
        assert ab[i] == a[i];
      } else {
        var i :| 0 <= i < |b| && x in CharExtension(t, b[i]);
        assert ab[|a| + i] == b[i];
      }
    }
  }

  /** Reordering the scalars of a string does not change its extension set. */
  lemma ExtensionIndexesPermutation(t: Tables, s: seq<CodePoint>, u: seq<CodePoint>)
    requires multiset(s) == multiset(u)
    ensures ExtensionIndexes(t, s) == ExtensionIndexes(t, u)
  {
    forall x | x in ExtensionIndexes(t, s) ensures x in ExtensionIndexes(t, u) {
      var i :| 0 <= i < |s| && x in CharExtension(t, s[i]);
      assert s[i] in multiset(u);
      var j :| 0 <= j < |u| && u[j] == s[i];
    }
    forall x | x in ExtensionIndexes(t, u) ensures x in ExtensionIndexes(t, s) {
      var i :| 0 <= i < |u| && x in CharExtension(t, u[i]);
      assert u[i] in multiset(s);
      var j :| 0 <= j < |s| && s[j] == u[i];
    }
  }

  /** Tables whose override lists are all non-empty. */
  predicate OverridesNonEmpty(t: Tables)
  {
    forall c :: c in t.extensions ==> |t.extensions[c]| > 0
  }

  /** With non-empty override lists every scalar contributes at least one
      index, so only the empty string has an empty extension set. */
  lemma ExtensionIndexesNonEmpty(t: Tables, s: seq<CodePoint>)
    requires OverridesNonEmpty(t)
    ensures forall i :: 0 <= i < |s| ==> |CharExtension(t, s[i])| > 0
    ensures ExtensionIndexes(t, s) == {} <==> |s| == 0
  {
    if |s| > 0 {
      assert CharExtension(t, s[0])[0] in ExtensionIndexes(t, s);
    }
  }

  /** An override with an empty list makes its scalar contribute nothing. */
  lemma EmptyOverrideContributesNothing(t: Tables, c: CodePoint)
    requires c in t.extensions && t.extensions[c] == []
    ensures ExtensionIndexes(t, [c]) == {}
  {
  }
}
