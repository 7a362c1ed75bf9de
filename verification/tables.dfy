/** The data tables the lookup engine reads (the generated `scripts.js`
    module), taken as a parameter, and the alias array derived from them. */
module ScriptTables {

  const MaxCodePoint: int := 0x10FFFF

  /** A value returned by `codePointAt`: any code point, lone surrogates included. */
  type CodePoint = c: int | 0 <= c <= MaxCodePoint

  /** A level size of the multi-level index (`OFFSETS`). */
  type Divisor = d: int | 0 < d witness 1

  /** The nested `SCRIPTS` arrays: an array of children, or a scalar script index. */
  datatype Node = Leaf(id: int) | Branch(kids: seq<Node>)

  /** `SCRIPTS`, `OFFSETS`, `SCRIPT_NAMES`, the keys of `SCRIPT_ALIASES` in
      their property order, and `SCRIPT_EXTENSIONS` keyed by scalar value. */
  datatype Tables = Tables(
    scripts: Node,
    offsets: seq<Divisor>,
    names: seq<string>,
    aliasKeys: seq<string>,
    extensions: map<CodePoint, seq<int>>)

  /** An alias key survives the filter unless its first character is `Q`
      (the private-use range `Qaaa`..`Qabx`). An empty key has no first
      character, so `s[0] !== "Q"` keeps it. */
  predicate KeptAlias(k: string)
  {
    |k| == 0 || k[0] != 'Q'
  }

  /** `SCRIPT_ALIASES_FLAT`: the alias keys with the `Q` codes removed. */
  function FlatAliases(keys: seq<string>): (r: seq<string>)
    ensures |r| <= |keys|
    ensures forall k :: k in r <==> k in keys && KeptAlias(k)
    decreases |keys|
  {
    if |keys| == 0 then []
    else (if KeptAlias(keys[0]) then [keys[0]] else []) + FlatAliases(keys[1..])
  }

  /** The positions at or after `from` whose keys are kept, in increasing order. */
  function KeptPositions(keys: seq<string>, from: nat): (ps: seq<nat>)
    requires from <= |keys|
    ensures forall m :: 0 <= m < |ps| ==> from <= ps[m] < |keys|
    decreases |keys| - from
  {
    if from == |keys| then []
    else (if KeptAlias(keys[from]) then [from] else []) + KeptPositions(keys, from + 1)
  }

  /** The kept positions are increasing, each names a kept key, and every
      kept key's position is among them. */
  lemma {:induction false} KeptPositionsSpec(keys: seq<string>, from: nat)
    requires from <= |keys|
    ensures forall m, n :: 0 <= m < n < |KeptPositions(keys, from)| ==>
      KeptPositions(keys, from)[m] < KeptPositions(keys, from)[n]
    ensures forall m :: 0 <= m < |KeptPositions(keys, from)| ==> KeptAlias(keys[KeptPositions(keys, from)[m]])
    ensures forall i :: from <= i < |keys| && KeptAlias(keys[i]) ==> i in KeptPositions(keys, from)
    decreases |keys| - from
  {
    if from < |keys| {
      KeptPositionsSpec(keys, from + 1);
    }
  }

  /** The filter keeps order: the flat array lists exactly the kept keys, in
      the order of their positions among all keys. */
  lemma {:induction false} FlatAliasesAtKeptPositions(keys: seq<string>, from: nat)
    requires from <= |keys|
    ensures |FlatAliases(keys[from..])| == |KeptPositions(keys, from)|
    ensures forall m :: 0 <= m < |FlatAliases(keys[from..])| ==>
      FlatAliases(keys[from..])[m] == keys[KeptPositions(keys, from)[m]]
    decreases |keys| - from
  {
    if from < |keys| {
      var tail := keys[from..];
      assert tail[0] == keys[from] && tail[1..] == keys[from + 1..];
      FlatAliasesAtKeptPositions(keys, from + 1);
      var f, rf := FlatAliases(tail), FlatAliases(keys[from + 1..]);
      var ps, rps := KeptPositions(keys, from), KeptPositions(keys, from + 1);
      if KeptAlias(keys[from]) {
        assert f == [keys[from]] + rf && ps == [from] + rps;
        forall m | 0 < m < |f| ensures f[m] == keys[ps[m]] {
          assert f[m] == rf[m - 1] && ps[m] == rps[m - 1];
        }
      } else {
        assert f == rf && ps == rps;
      }
    }
  }

  /** Filtering distributes over concatenation of the key list. */
  lemma {:induction false} FlatAliasesAppend(a: seq<string>, b: seq<string>)
    ensures FlatAliases(a + b) == FlatAliases(a) + FlatAliases(b)
    decreases |a|
  {
    if |a| > 0 {
      assert (a + b)[1..] == a[1..] + b;
      FlatAliasesAppend(a[1..], b);
    } else {
      assert a + b == b;
    }
  }

  /** A key list with no `Q` code is left as it is. */
  lemma {:induction false} FlatAliasesKeepsUnfiltered(keys: seq<string>)
    requires forall i :: 0 <= i < |keys| ==> KeptAlias(keys[i])
    ensures FlatAliases(keys) == keys
    decreases |keys|
  {
    if |keys| > 0 {
      FlatAliasesKeepsUnfiltered(keys[1..]);
      assert keys == [keys[0]] + keys[1..];
    }
  }

  /** Filtering twice changes nothing. */
  lemma FlatAliasesIdempotent(keys: seq<string>)
    ensures FlatAliases(FlatAliases(keys)) == FlatAliases(keys)
  {
    var r := FlatAliases(keys);
    assert forall i :: 0 <= i < |r| ==> r[i] in r;
    FlatAliasesKeepsUnfiltered(r);
  }

  /** The alignment the data module `scripts.js` must provide and this code
      cannot check: the names and the filtered alias array have one entry per
      script index. */
  predicate Aligned(t: Tables)
  {
    |t.names| == |FlatAliases(t.aliasKeys)|
  }
}
