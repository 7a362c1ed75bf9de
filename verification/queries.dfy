/** The exported query functions of `src/index.js`. */
module Queries {
  import opened Wrappers
  import opened Collation
  import opened ScriptTables
  import opened ScriptIndex
  import opened ScriptExtensions

  /** A query argument after JavaScript's dynamic checks: a primitive string
      (as its scalar values), a `String` wrapper object (`new String(...)`,
      which passes the `instanceof String` test but is never `=== ""`), an
      integer number, or anything else (a non-integer number, `null`, another
      object, ...). */
  datatype Value = Str(chars: seq<CodePoint>) | StrObject(chars: seq<CodePoint>) | Int(n: int) | Other

  /** `String.fromCodePoint` throws a `RangeError` outside `[0, 0x10FFFF]`. */
  datatype Error = RangeError

  /** `codepointToChar`: an integer becomes the one-scalar string holding that
      code point; anything else passes through unchanged. */
  function CodepointToChar(v: Value): (r: Result<Value, Error>)
    ensures r.Failure? <==> v.Int? && !(0 <= v.n <= MaxCodePoint)
    ensures r.Success? && v.Int? ==> r.value.Str? && |r.value.chars| == 1 && r.value.chars[0] == v.n
    ensures !v.Int? ==> r == Success(v)
    ensures r.Success? ==> !r.value.Int?
  {
    match v
    case Int(n) => if 0 <= n <= MaxCodePoint then Success(Str([n])) else Failure(RangeError)
    case _ => Success(v)
  }

  /** `SCRIPT_NAMES[x] || "Unknown"`: a missing or empty entry falls back. */
  function NameFor(t: Tables, x: Option<int>): (r: string)
    ensures r != ""
    ensures r in t.names || r == "Unknown"
    ensures x.Some? && 0 <= x.value < |t.names| && t.names[x.value] != "" ==> r == t.names[x.value]
    ensures !(x.Some? && 0 <= x.value < |t.names| && t.names[x.value] != "") ==> r == "Unknown"
  {
    if x.Some? && 0 <= x.value < |t.names| && t.names[x.value] != "" then t.names[x.value] else "Unknown"
  }

  /** `SCRIPT_ALIASES_FLAT[x] || "Zzzz"`. */
  function CodeFor(t: Tables, x: Option<int>): (r: string)
    ensures r != "" && KeptAlias(r)
    ensures r in FlatAliases(t.aliasKeys) || r == "Zzzz"
    ensures x.Some? && 0 <= x.value < |FlatAliases(t.aliasKeys)| && FlatAliases(t.aliasKeys)[x.value] != "" ==>
      r == FlatAliases(t.aliasKeys)[x.value]
    ensures !(x.Some? && 0 <= x.value < |FlatAliases(t.aliasKeys)| && FlatAliases(t.aliasKeys)[x.value] != "") ==>
      r == "Zzzz"
  {
    var flat := FlatAliases(t.aliasKeys);
    if x.Some? && 0 <= x.value < |flat| && flat[x.value] != "" then
      assert flat[x.value] in flat;
      flat[x.value]
    else "Zzzz"
  }

  /** The script name of one scalar value. */
  function ScriptNameOf(t: Tables, c: CodePoint): string
  {
    NameFor(t, ScriptIndexOf(t, c))
  }

  /** The ISO 15924 code of one scalar value. */
  function ScriptCodeOf(t: Tables, c: CodePoint): string
  {
    CodeFor(t, ScriptIndexOf(t, c))
  }

  /** The normalised argument is a string of exactly one scalar value. */
  predicate IsSingleScalar(v: Value)
  {
    ((v.Str? || v.StrObject?) && |v.chars| == 1) || (v.Int? && 0 <= v.n <= MaxCodePoint)
  }

  /** The scalar value of a single-scalar argument. */
  function TheScalar(v: Value): CodePoint
    requires IsSingleScalar(v)
  {
    if v.Int? then v.n else v.chars[0]
  }

  /** The guard's `undefined` cases: not a string, the primitive `""`, or a
      second scalar present. An empty wrapper object is not `=== ""` and has
      no second scalar, so it gets through. */
  predicate Rejected(w: Value)
  {
    w.Other? || (w.Str? && |w.chars| != 1) || (w.StrObject? && |w.chars| > 1)
  }

  /** `unicodeScript`: `undefined` for a non-string, the empty string or a
      string of two or more scalars; otherwise the script name, never
      `undefined`. An empty wrapper object passes the guard, and its missing
      first code point indexes nothing, so it is named "Unknown". */
  function UnicodeScript(t: Tables, v: Value): (r: Result<Option<string>, Error>)
    ensures r.Failure? <==> v.Int? && !(0 <= v.n <= MaxCodePoint)
    ensures r == Success(None) <==> Rejected(v)
    ensures IsSingleScalar(v) ==> r == Success(Some(ScriptNameOf(t, TheScalar(v))))
    ensures v == StrObject([]) ==> r == Success(Some("Unknown"))
  {
    match CodepointToChar(v)
    case Failure(e) => Failure(e)
    case Success(w) =>
      if Rejected(w) then Success(None)
      else if |w.chars| == 1 then Success(Some(ScriptNameOf(t, w.chars[0])))
      else Success(Some(NameFor(t, None)))
  }

  /** `unicodeScriptCode`: as `UnicodeScript`, with the ISO 15924 code. */
  function UnicodeScriptCode(t: Tables, v: Value): (r: Result<Option<string>, Error>)
    ensures r.Failure? <==> v.Int? && !(0 <= v.n <= MaxCodePoint)
    ensures r == Success(None) <==> Rejected(v)
    ensures IsSingleScalar(v) ==> r == Success(Some(ScriptCodeOf(t, TheScalar(v))))
    ensures v == StrObject([]) ==> r == Success(Some("Zzzz"))
  {
    match CodepointToChar(v)
    case Failure(e) => Failure(e)
    case Success(w) =>
      if Rejected(w) then Success(None)
      else if |w.chars| == 1 then Success(Some(ScriptCodeOf(t, w.chars[0])))
      else Success(Some(CodeFor(t, None)))
  }

  /** A code point given as a number and the same scalar given as a string
      get the same answer. */
  lemma CodepointAgreesWithString(t: Tables, c: CodePoint)
    ensures UnicodeScript(t, Int(c)) == UnicodeScript(t, Str([c])) == Success(Some(ScriptNameOf(t, c)))
    ensures UnicodeScriptCode(t, Int(c)) == UnicodeScriptCode(t, Str([c])) == Success(Some(ScriptCodeOf(t, c)))
  {
  }

  /** A wrapper object gets the answer of its primitive string, except when
      empty: the primitive `""` is rejected, the empty wrapper is "Unknown". */
  lemma WrapperAgreesWithString(t: Tables, s: seq<CodePoint>)
    ensures |s| > 0 ==> UnicodeScript(t, StrObject(s)) == UnicodeScript(t, Str(s))
    ensures |s| > 0 ==> UnicodeScriptCode(t, StrObject(s)) == UnicodeScriptCode(t, Str(s))
    ensures s == [] ==> UnicodeScript(t, Str(s)) == Success(None) && UnicodeScript(t, StrObject(s)) == Success(Some("Unknown"))
  {
  }

  /** Alignment: when the data module `scripts.js` keeps its arrays aligned,
      a scalar whose index `i` has entries in both arrays is named `names[i]`
      and coded `flat[i]`. */
  lemma NameAndCodeAligned(t: Tables, c: CodePoint, i: int)
    requires Aligned(t)
    requires ScriptIndexOf(t, c) == Some(i) && 0 <= i < |t.names|
    requires t.names[i] != "" && FlatAliases(t.aliasKeys)[i] != ""
    ensures ScriptNameOf(t, c) == t.names[i]
    ensures ScriptCodeOf(t, c) == FlatAliases(t.aliasKeys)[i]
  {
  }

  /** `unicodeScripts`: the sorted, deduplicated names of every scalar. */
  function UnicodeScripts(t: Tables, s: seq<CodePoint>): (r: seq<string>)
    ensures Sorted(r)
    ensures forall n :: n in r <==> exists i :: 0 <= i < |s| && n == ScriptNameOf(t, s[i])
  {
    var names := seq(|s|, i requires 0 <= i < |s| => ScriptNameOf(t, s[i]));
    assert forall n :: n in names <==> exists i :: 0 <= i < |s| && n == ScriptNameOf(t, s[i]) by {
      forall n | (exists i :: 0 <= i < |s| && n == ScriptNameOf(t, s[i])) ensures n in names {
        var i :| 0 <= i < |s| && n == ScriptNameOf(t, s[i]);
        assert names[i] == n;
      }
    }
    SortUnique(names)
  }

  /** `unicodeScriptCodes`: the sorted, deduplicated codes of every scalar. */
  function UnicodeScriptCodes(t: Tables, s: seq<CodePoint>): (r: seq<string>)
    ensures Sorted(r)
    ensures forall n :: n in r <==> exists i :: 0 <= i < |s| && n == ScriptCodeOf(t, s[i])
  {
    var codes := seq(|s|, i requires 0 <= i < |s| => ScriptCodeOf(t, s[i]));
    assert forall n :: n in codes <==> exists i :: 0 <= i < |s| && n == ScriptCodeOf(t, s[i]) by {
      forall n | (exists i :: 0 <= i < |s| && n == ScriptCodeOf(t, s[i])) ensures n in codes {
        var i :| 0 <= i < |s| && n == ScriptCodeOf(t, s[i]);
        assert codes[i] == n;
      }
    }
    SortUnique(codes)
  }

  /** The empty string uses no script. */
  lemma UnicodeScriptsOfEmpty(t: Tables)
    ensures UnicodeScripts(t, []) == [] && UnicodeScriptCodes(t, []) == []
  {
    EmptyIffNoMember(UnicodeScripts(t, []));
    EmptyIffNoMember(UnicodeScriptCodes(t, []));
  }

  /** Reordering the scalars (e.g. "СA" and "AС") gives the same output. */
  lemma UnicodeScriptsPermutation(t: Tables, s: seq<CodePoint>, u: seq<CodePoint>)
    requires multiset(s) == multiset(u)
    ensures UnicodeScripts(t, s) == UnicodeScripts(t, u)
    ensures UnicodeScriptCodes(t, s) == UnicodeScriptCodes(t, u)
  {
    forall i | 0 <= i < |s| ensures exists j :: 0 <= j < |u| && u[j] == s[i] {
      assert s[i] in multiset(u);
    }
    forall j | 0 <= j < |u| ensures exists i :: 0 <= i < |s| && s[i] == u[j] {
      assert u[j] in multiset(s);
    }
    SortedUnique(UnicodeScripts(t, s), UnicodeScripts(t, u));
    SortedUnique(UnicodeScriptCodes(t, s), UnicodeScriptCodes(t, u));
  }

  /** The names of a concatenation are the merged names of its parts. */
  lemma UnicodeScriptsAppend(t: Tables, a: seq<CodePoint>, b: seq<CodePoint>)
    ensures UnicodeScripts(t, a + b) == SortUnique(UnicodeScripts(t, a) + UnicodeScripts(t, b))
  {
    var ab := a + b;
    forall n | n in UnicodeScripts(t, ab) ensures n in UnicodeScripts(t, a) + UnicodeScripts(t, b) {
      var i :| 0 <= i < |ab| && n == ScriptNameOf(t, ab[i]);
      if i < |a| {
        assert ab[i] == a[i];
      } else {
        assert ab[i] == b[i - |a|];
      }
    }
    forall n | n in UnicodeScripts(t, a) + UnicodeScripts(t, b) ensures n in UnicodeScripts(t, ab) {
      if n in UnicodeScripts(t, a) {
        var i :| 0 <= i < |a| && n == ScriptNameOf(t, a[i]);
        assert ab[i] == a[i];
      } else {
        var i :| 0 <= i < |b| && n == ScriptNameOf(t, b[i]);
        assert ab[|a| + i] == b[i];
      }
    }
    SortedUnique(UnicodeScripts(t, ab), SortUnique(UnicodeScripts(t, a) + UnicodeScripts(t, b)));
  }

  /** `SCRIPT_NAMES[x]` with no fallback: `None` is `undefined`. It differs
      from `NameFor` only where the fallback applies. */
  function NameAt(t: Tables, x: Option<int>): (r: Option<string>)
    ensures r.Some? ==> r.value in t.names
    ensures r.Some? && r.value != "" ==> NameFor(t, x) == r.value
    ensures r.None? || r == Some("") ==> NameFor(t, x) == "Unknown"
  {
    if x.Some? && 0 <= x.value < |t.names| then Some(t.names[x.value]) else None
  }

  /** `SCRIPT_ALIASES_FLAT[x]` with no fallback. It differs from `CodeFor`
      only where the fallback applies. */
  function CodeAt(t: Tables, x: Option<int>): (r: Option<string>)
    ensures r.Some? ==> r.value in FlatAliases(t.aliasKeys) && KeptAlias(r.value)
    ensures r.Some? && r.value != "" ==> CodeFor(t, x) == r.value
    ensures r.None? || r == Some("") ==> CodeFor(t, x) == "Zzzz"
  {
    var flat := FlatAliases(t.aliasKeys);
    if x.Some? && 0 <= x.value < |flat| then Some(flat[x.value]) else None
  }

  /** What `new Set(values.sort())` iterates over when some values may be
      `undefined`: the defined strings sorted and deduplicated, then one
      `undefined`, which `sort` always moves to the end. */
  datatype Listing = Listing(sorted: seq<string>, undefinedLast: bool)

  /** The defined strings among `vals`, in order. */
  function Defined(vals: seq<Option<string>>): (r: seq<string>)
    ensures forall n :: n in r <==> Some(n) in vals
    decreases |vals|
  {
    if |vals| == 0 then []
    else
      assert forall n :: Some(n) in vals <==> vals[0] == Some(n) || Some(n) in vals[1..];
      (if vals[0].Some? then [vals[0].value] else []) + Defined(vals[1..])
  }

  function Emit(vals: seq<Option<string>>): (r: Listing)
    ensures Sorted(r.sorted)
    ensures forall n :: n in r.sorted <==> Some(n) in vals
    ensures r.undefinedLast <==> None in vals
  {
    Listing(SortUnique(Defined(vals)), None in vals)
  }

  /** The `.map` over the extension indexes: a value is produced exactly
      when some index maps to it. */
  function MapIndexes(xs: seq<Option<int>>, f: Option<int> -> Option<string>): (r: seq<Option<string>>)
    ensures forall v :: v in r <==> exists x :: x in xs && f(x) == v
  {
    var r := seq(|xs|, i requires 0 <= i < |xs| => f(xs[i]));
    assert forall v :: v in r <==> exists x :: x in xs && f(x) == v by {
      forall v | (exists x :: x in xs && f(x) == v) ensures v in r {
        var x :| x in xs && f(x) == v;
        var i :| 0 <= i < |xs| && xs[i] == x;
        assert r[i] == v;
      }
    }
    r
  }

  /** `unicodeScriptExtensions`: the names of the string's extension indexes. */
  function UnicodeScriptExtensions(t: Tables, s: seq<CodePoint>): (r: Listing)
    ensures Sorted(r.sorted)
    ensures forall n :: n in r.sorted <==> exists x :: x in ExtensionIndexes(t, s) && NameAt(t, x) == Some(n)
    ensures r.undefinedLast <==> exists x :: x in ExtensionIndexes(t, s) && NameAt(t, x) == None
  {
    var xs := ExtensionIndexList(t, s);
    Emit(MapIndexes(xs, x => NameAt(t, x)))
  }

  /** `unicodeScriptExtensionCodes`: the codes of the string's extension indexes. */
  function UnicodeScriptExtensionCodes(t: Tables, s: seq<CodePoint>): (r: Listing)
    ensures Sorted(r.sorted)
    ensures forall n :: n in r.sorted <==> exists x :: x in ExtensionIndexes(t, s) && CodeAt(t, x) == Some(n)
    ensures r.undefinedLast <==> exists x :: x in ExtensionIndexes(t, s) && CodeAt(t, x) == None
  {
    var xs := ExtensionIndexList(t, s);
    Emit(MapIndexes(xs, x => CodeAt(t, x)))
  }

  /** The extension names of a concatenation are the merged names of its parts. */
  lemma UnicodeScriptExtensionsAppend(t: Tables, a: seq<CodePoint>, b: seq<CodePoint>)
    ensures UnicodeScriptExtensions(t, a + b).sorted ==
      SortUnique(UnicodeScriptExtensions(t, a).sorted + UnicodeScriptExtensions(t, b).sorted)
    ensures UnicodeScriptExtensions(t, a + b).undefinedLast ==
      (UnicodeScriptExtensions(t, a).undefinedLast || UnicodeScriptExtensions(t, b).undefinedLast)
  {
    ExtensionIndexesAppend(t, a, b);
    var ra, rb := UnicodeScriptExtensions(t, a), UnicodeScriptExtensions(t, b);
    var merged := SortUnique(ra.sorted + rb.sorted);
    SortedUnique(UnicodeScriptExtensions(t, a + b).sorted, merged);
  }

  /** The extension codes of a concatenation are the merged codes of its parts. */
  lemma UnicodeScriptExtensionCodesAppend(t: Tables, a: seq<CodePoint>, b: seq<CodePoint>)
    ensures UnicodeScriptExtensionCodes(t, a + b).sorted ==
      SortUnique(UnicodeScriptExtensionCodes(t, a).sorted + UnicodeScriptExtensionCodes(t, b).sorted)
    ensures UnicodeScriptExtensionCodes(t, a + b).undefinedLast ==
      (UnicodeScriptExtensionCodes(t, a).undefinedLast || UnicodeScriptExtensionCodes(t, b).undefinedLast)
  {
    ExtensionIndexesAppend(t, a, b);
    var ra, rb := UnicodeScriptExtensionCodes(t, a), UnicodeScriptExtensionCodes(t, b);
    var merged := SortUnique(ra.sorted + rb.sorted);
    SortedUnique(UnicodeScriptExtensionCodes(t, a + b).sorted, merged);
  }

  /** The empty string has no extension names. */
  lemma UnicodeScriptExtensionsOfEmpty(t: Tables)
    ensures UnicodeScriptExtensions(t, []) == Listing([], false)
    ensures UnicodeScriptExtensionCodes(t, []) == Listing([], false)
  {
    EmptyIffNoMember(UnicodeScriptExtensions(t, []).sorted);
    EmptyIffNoMember(UnicodeScriptExtensionCodes(t, []).sorted);
  }

  /** Every override id indexes a name. */
  ghost predicate OverridesInRange(t: Tables)
  {
    forall c, j :: c in t.extensions && 0 <= j < |t.extensions[c]| ==> 0 <= t.extensions[c][j] < |t.names|
  }

  /** On well-formed tables every index one character contributes has a
      name entry. */
  lemma CharExtensionNamed(t: Tables, c: CodePoint)
    requires IndexWellFormed(t, |t.names|) && OverridesInRange(t)
    ensures forall x :: x in CharExtension(t, c) ==> NameAt(t, x).Some?
  {
    if c !in t.extensions {
      ScriptIndexInRange(t, |t.names|, c);
    }
  }

  /** On well-formed tables no extension name is `undefined`. */
  lemma ExtensionNamesDefined(t: Tables, s: seq<CodePoint>)
    requires IndexWellFormed(t, |t.names|) && OverridesInRange(t)
    ensures !UnicodeScriptExtensions(t, s).undefinedLast
  {
    forall x | x in ExtensionIndexes(t, s) ensures NameAt(t, x).Some? {
      var i :| 0 <= i < |s| && x in CharExtension(t, s[i]);
      CharExtensionNamed(t, s[i]);
    }
    var r := UnicodeScriptExtensions(t, s);
    assert !r.undefinedLast;
  }

  /** A one-character string contributes exactly that character's indexes. */
  lemma SingleExtensionIndexes(t: Tables, c: CodePoint)
    ensures forall x :: x in ExtensionIndexes(t, [c]) <==> x in CharExtension(t, c)
  {
    assert [c][0] == c;
  }

  /** For a scalar without an override whose name entry is present, the
      extension names are exactly its script name. */
  lemma ExtensionOfPlainScalar(t: Tables, c: CodePoint)
    requires c !in t.extensions
    requires ScriptIndexOf(t, c).Some? && 0 <= ScriptIndexOf(t, c).value < |t.names|
    requires t.names[ScriptIndexOf(t, c).value] != ""
    ensures UnicodeScriptExtensions(t, [c]) == Listing([ScriptNameOf(t, c)], false)
  {
    var x := ScriptIndexOf(t, c);
    var n := ScriptNameOf(t, c);
    SingleExtensionIndexes(t, c);
    assert NameAt(t, x) == Some(n);
    var xs := ExtensionIndexes(t, [c]);
    forall y | y in xs ensures NameAt(t, y) == Some(n) {
      assert y == x;
    }
    assert x in xs;
    var r := UnicodeScriptExtensions(t, [c]);
    assert !r.undefinedLast;
    assert forall m :: m in r.sorted <==> m == n;
    SortedUnique(r.sorted, [n]);
  }

  /** An index with no name entry shows up as a trailing `undefined` rather
      than as "Unknown": the extension queries have no fallback. */
  lemma ExtensionOfNamelessScalar(t: Tables, c: CodePoint)
    requires c !in t.extensions
    requires NameAt(t, ScriptIndexOf(t, c)).None?
    ensures UnicodeScriptExtensions(t, [c]) == Listing([], true)
    ensures UnicodeScript(t, Str([c])) == Success(Some("Unknown"))
  {
    var x := ScriptIndexOf(t, c);
    assert UnicodeScriptExtensions(t, [c]) == Listing([], true) by {
      SingleExtensionIndexes(t, c);
      var xs := ExtensionIndexes(t, [c]);
      forall y | y in xs ensures NameAt(t, y) == None {
        assert y == x;
      }
      assert x in xs;
      var r := UnicodeScriptExtensions(t, [c]);
      assert r.undefinedLast;
      EmptyIffNoMember(r.sorted);
    }
    assert NameFor(t, x) == "Unknown";
  }

  /** `listUnicodeScripts`: every name plus "Unknown", sorted, deduplicated. */
  function ListUnicodeScripts(t: Tables): (r: seq<string>)
    ensures Sorted(r)
    ensures forall n :: n in r <==> n in t.names || n == "Unknown"
  {
    SortUnique(t.names + ["Unknown"])
  }

  /** `listUnicodeScriptCodes`: every flat alias plus "Zzzz". */
  function ListUnicodeScriptCodes(t: Tables): (r: seq<string>)
    ensures Sorted(r)
    ensures forall n :: n in r <==> n in FlatAliases(t.aliasKeys) || n == "Zzzz"
  {
    SortUnique(FlatAliases(t.aliasKeys) + ["Zzzz"])
  }

  /** Every answer of the single-scalar and per-string queries is listed. */
  lemma QueriesAreListed(t: Tables, s: seq<CodePoint>)
    ensures forall n :: n in UnicodeScripts(t, s) ==> n in ListUnicodeScripts(t)
    ensures forall n :: n in UnicodeScriptCodes(t, s) ==> n in ListUnicodeScriptCodes(t)
    ensures forall n :: n in UnicodeScriptExtensions(t, s).sorted ==> n in ListUnicodeScripts(t)
    ensures forall n :: n in UnicodeScriptExtensionCodes(t, s).sorted ==> n in ListUnicodeScriptCodes(t)
  {
  }

  /** No listed code is a private-use `Q` code. */
  lemma ListedCodesExcludeQ(t: Tables)
    ensures forall n :: n in ListUnicodeScriptCodes(t) ==> KeptAlias(n)
  {
  }
}
