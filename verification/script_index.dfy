/** `unicodeScriptIndex`: descent through the multi-level `SCRIPTS` index. */
module ScriptIndex {
  import opened Wrappers
  import opened ScriptTables

  /** One step of the descent: the child taken and the remainder kept. */
  datatype Step = Step(child: nat, rem: nat)

  /** The descent starting from the array `kids` with remainder `rem`.
      `Some(id)` is a scalar reached; `None` is JavaScript's `undefined`: a
      child index past the end of its array, or a final position that holds
      an array instead of a scalar. */
  function Descend(kids: seq<Node>, offsets: seq<Divisor>, rem: nat): Option<int>
    decreases |offsets|
  {
    if |offsets| == 0 then
      if rem < |kids| && kids[rem].Leaf? then Some(kids[rem].id) else None
    else
      var child := rem / offsets[0];
      if child < |kids| then
        match kids[child]
        case Leaf(v) => Some(v)
        case Branch(g) => Descend(g, offsets[1..], rem % offsets[0])
      else None
  }

  /** One level of the descent, in the shape the loop takes it. */
  lemma DescendStep(kids: seq<Node>, offsets: seq<Divisor>, rem: nat)
    requires |offsets| > 0
    ensures rem / offsets[0] >= |kids| ==> Descend(kids, offsets, rem) == None
    ensures rem / offsets[0] < |kids| && kids[rem / offsets[0]].Leaf? ==>
      Descend(kids, offsets, rem) == Some(kids[rem / offsets[0]].id)
    ensures rem / offsets[0] < |kids| && kids[rem / offsets[0]].Branch? ==>
      Descend(kids, offsets, rem) == Descend(kids[rem / offsets[0]].kids, offsets[1..], rem % offsets[0])
  {
  }

  /** The value `unicodeScriptIndex` returns for code point `c`. A root that is
      itself a scalar cannot be indexed and yields `undefined`. */
  function ScriptIndexOf(t: Tables, c: CodePoint): (r: Option<int>)
    ensures t.scripts.Leaf? ==> r == None
    ensures t.scripts.Branch? ==> r == Walk(t.scripts, Address(t.offsets, c))
  {
    match t.scripts
    case Leaf(_) => None
    case Branch(k) =>
      AddressWalk(k, t.offsets, c);
      Descend(k, t.offsets, c)
  }

  /** The loop of `unicodeScriptIndex`, statement by statement. */
  method UnicodeScriptIndex(t: Tables, c: CodePoint) returns (r: Option<int>)
    ensures r == ScriptIndexOf(t, c)
  {
    if t.scripts.Leaf? {
      return None;
    }
    var node := t.scripts;
    var rem: nat := c;
    var i := 0;
    while i < |t.offsets|
      invariant 0 <= i <= |t.offsets|
      invariant node.Branch?
      invariant i > 0 ==> rem < t.offsets[i - 1]
      invariant Descend(node.kids, t.offsets[i..], rem) == ScriptIndexOf(t, c)
    {
      var depth := t.offsets[i];
      var child := rem / depth;
      DescendStep(node.kids, t.offsets[i..], rem);
      if child >= |node.kids| {
        return None;
      }
      var next := node.kids[child];
      assert t.offsets[i..][1..] == t.offsets[i + 1..];
      rem := rem % depth;
      if next.Leaf? {
        return Some(next.id);
      }
      node := next;
      i := i + 1;
    }
    if rem < |node.kids| && node.kids[rem].Leaf? {
      r := Some(node.kids[rem].id);
    } else {
      r := None;
    }
  }

  /** The remainders the descent goes through, one step per offset. */
  function Trace(offsets: seq<Divisor>, rem: nat): (tr: seq<Step>)
    ensures |tr| == |offsets|
    decreases |offsets|
  {
    if |offsets| == 0 then []
    else [Step(rem / offsets[0], rem % offsets[0])] + Trace(offsets[1..], rem % offsets[0])
  }

  /** Step `i` divides the remainder before it by offset `i`: the child is
      the quotient and the new remainder lies below the offset. */
  lemma {:induction false} TraceDivides(offsets: seq<Divisor>, rem: nat, i: nat)
    requires i < |offsets|
    ensures Trace(offsets, rem)[i].rem < offsets[i]
    ensures Trace(offsets, rem)[i].child * offsets[i] + Trace(offsets, rem)[i].rem
         == (if i == 0 then rem else Trace(offsets, rem)[i - 1].rem)
    decreases i
  {
    var tr := Trace(offsets, rem);
    var r := rem % offsets[0];
    var tr' := Trace(offsets[1..], r);
    assert tr == [Step(rem / offsets[0], r)] + tr';
    if i > 0 {
      TraceDivides(offsets[1..], r, i - 1);
      assert tr[i] == tr'[i - 1] && offsets[i] == offsets[1..][i - 1];
      if i > 1 {
        assert tr[i - 1] == tr'[i - 2];
      }
    }
  }

  /** The remainder left once every offset is used. */
  function FinalRemainder(offsets: seq<Divisor>, rem: nat): nat
  {
    var tr := Trace(offsets, rem);
    if |tr| == 0 then rem else tr[|tr| - 1].rem
  }

  /** The position the descent addresses: one child per level, then the final
      remainder that indexes the last array. */
  function Address(offsets: seq<Divisor>, rem: nat): (path: seq<nat>)
    ensures |path| == |offsets| + 1
  {
    var tr := Trace(offsets, rem);
    seq(|tr|, i requires 0 <= i < |tr| => tr[i].child) + [FinalRemainder(offsets, rem)]
  }

  /** Mixed-radix value of a path: each child weighted by its level's divisor,
      plus the final remainder. */
  function Recompose(offsets: seq<Divisor>, path: seq<nat>): int
    requires |path| == |offsets| + 1
    decreases |offsets|
  {
    if |offsets| == 0 then path[0]
    else path[0] * offsets[0] + Recompose(offsets[1..], path[1..])
  }

  lemma {:induction false} AddressStepsOnce(offsets: seq<Divisor>, rem: nat)
    requires |offsets| > 0
    ensures Address(offsets, rem) == [rem / offsets[0]] + Address(offsets[1..], rem % offsets[0])
  {
    var tr := Trace(offsets, rem);
    var tr' := Trace(offsets[1..], rem % offsets[0]);
    assert tr == [Step(rem / offsets[0], rem % offsets[0])] + tr';
    assert FinalRemainder(offsets, rem) == FinalRemainder(offsets[1..], rem % offsets[0]);
  }

  /** The address recomposes to the code point: the descent reads exactly the
      digits of `rem` in the mixed radix given by the offsets. */
  lemma {:induction false} AddressRecomposes(offsets: seq<Divisor>, rem: nat)
    ensures Recompose(offsets, Address(offsets, rem)) == rem
    decreases |offsets|
  {
    if |offsets| > 0 {
      AddressStepsOnce(offsets, rem);
      AddressRecomposes(offsets[1..], rem % offsets[0]);
      var a := Address(offsets, rem);
      assert a[1..] == Address(offsets[1..], rem % offsets[0]);
    }
  }

  /** Distinct code points address distinct positions. */
  lemma AddressInjective(offsets: seq<Divisor>, a: nat, b: nat)
    requires Address(offsets, a) == Address(offsets, b)
    ensures a == b
  {
    AddressRecomposes(offsets, a);
    AddressRecomposes(offsets, b);
  }

  /** Following a path from a node: stop at the first scalar; an index past
      the end, or running out of path on an array, gives `undefined`. */
  function Walk(n: Node, path: seq<nat>): Option<int>
    decreases |path|
  {
    match n
    case Leaf(v) => Some(v)
    case Branch(k) =>
      if |path| == 0 || path[0] >= |k| then None
      else Walk(k[path[0]], path[1..])
  }

  /** The descent returns the first scalar on the addressed path, or the
      entry of the last array at the final remainder. */
  lemma {:induction false} AddressWalk(kids: seq<Node>, offsets: seq<Divisor>, rem: nat)
    ensures Descend(kids, offsets, rem) == Walk(Branch(kids), Address(offsets, rem))
    decreases |offsets|
  {
    var path := Address(offsets, rem);
    if |offsets| == 0 {
      assert path == [rem];
      if rem < |kids| {
        assert path[1..] == [];
      }
    } else {
      AddressStepsOnce(offsets, rem);
      var child := rem / offsets[0];
      assert path[0] == child && path[1..] == Address(offsets[1..], rem % offsets[0]);
      if child < |kids| && kids[child].Branch? {
        AddressWalk(kids[child].kids, offsets[1..], rem % offsets[0]);
      }
    }
  }

  /** How many offsets the loop reads before it returns from inside the loop;
      `None` when it uses every offset and indexes the final array. */
  function OffsetsRead(kids: seq<Node>, offsets: seq<Divisor>, rem: nat): (n: Option<nat>)
    ensures n.Some? ==> 1 <= n.value <= |offsets|
    decreases |offsets|
  {
    if |offsets| == 0 then None
    else
      var child := rem / offsets[0];
      if child < |kids| && kids[child].Branch? then
        match OffsetsRead(kids[child].kids, offsets[1..], rem % offsets[0])
        case None => None
        case Some(n) => Some(n + 1)
      else Some(1)
  }

  /** Once the loop has returned, later offsets are never read: replacing
      them by anything leaves the result unchanged. */
  lemma {:induction false} LaterOffsetsUnread(kids: seq<Node>, offsets: seq<Divisor>, rem: nat, n: nat, later: seq<Divisor>)
    requires OffsetsRead(kids, offsets, rem) == Some(n)
    ensures Descend(kids, offsets[..n] + later, rem) == Descend(kids, offsets, rem)
    decreases |offsets|
  {
    var offs := offsets[..n] + later;
    assert offs[0] == offsets[0];
    var child := rem / offsets[0];
    if child < |kids| && kids[child].Branch? {
      assert offs[1..] == offsets[1..][..n - 1] + later;
      LaterOffsetsUnread(kids[child].kids, offsets[1..], rem % offsets[0], n - 1, later);
    }
  }

  /** Shape of an index that covers `span` values with script ids below
      `bound`: every array is long enough for the children its level can
      select, and a final array holds scalars only. */
  ghost predicate Shaped(n: Node, offsets: seq<Divisor>, span: nat, bound: nat)
    decreases |offsets|
  {
    match n
    case Leaf(v) => 0 <= v < bound
    case Branch(k) =>
      if |offsets| == 0 then
        span <= |k| && forall i :: 0 <= i < |k| ==> k[i].Leaf? && 0 <= k[i].id < bound
      else
        span <= |k| * offsets[0] && forall i :: 0 <= i < |k| ==> Shaped(k[i], offsets[1..], offsets[0], bound)
  }

  lemma QuotientBelow(rem: nat, d: Divisor, len: nat)
    requires rem < len * d
    ensures rem / d < len
  {
  }

  /** On a well-shaped index every value below the span resolves to a script
      id below the bound: no lookup falls off an array. */
  lemma {:induction false} ShapedResolves(kids: seq<Node>, offsets: seq<Divisor>, span: nat, bound: nat, rem: nat)
    requires Shaped(Branch(kids), offsets, span, bound)
    requires rem < span
    ensures Descend(kids, offsets, rem).Some?
    ensures 0 <= Descend(kids, offsets, rem).value < bound
    decreases |offsets|
  {
    if |offsets| > 0 {
      QuotientBelow(rem, offsets[0], |kids|);
      var child := rem / offsets[0];
      if kids[child].Branch? {
        ShapedResolves(kids[child].kids, offsets[1..], offsets[0], bound, rem % offsets[0]);
      }
    }
  }

  /** Tables whose index covers every code point with ids below `bound`. */
  ghost predicate IndexWellFormed(t: Tables, bound: nat)
  {
    t.scripts.Branch? && Shaped(t.scripts, t.offsets, MaxCodePoint + 1, bound)
  }

  /** For every code point a well-formed index yields an id in `[0, bound)`. */
  lemma ScriptIndexInRange(t: Tables, bound: nat, c: CodePoint)
    requires IndexWellFormed(t, bound)
    ensures ScriptIndexOf(t, c).Some? && 0 <= ScriptIndexOf(t, c).value < bound
  {
    ShapedResolves(t.scripts.kids, t.offsets, MaxCodePoint + 1, bound, c);
  }
}
