/**
 * mapIndexer: field key -> sorted leaves -> lines. Ingestion (Index), the lookup-only
 * AND query (Find) and the diagnostic summary (Stats).
 */
module Indexer {
  import opened ByteOrder
  import opened Types

  /** The content of the index: the leaf slice of every key. */
  type KeyMap = map<Bytes, seq<Leaf>>

  /** The leaves of key, or none for a key never seen (a new node starts empty). */
  function ValuesOf(m: KeyMap, key: Bytes): seq<Leaf> {
    if key in m then m[key] else []
  }

  /** One iteration of Index: the field's key gets ln on the leaf of the field's value. */
  function AddField(m: KeyMap, f: Field, ln: Line): KeyMap {
    m[f.key := AddLine(ValuesOf(m, f.key), f.value, ln)]
  }

  /** The index after Index(fields, ...) adds ln for each field, left to right. */
  function IndexSpec(m: KeyMap, fields: seq<Field>, ln: Line): KeyMap
    decreases |fields|
  {
    if fields == [] then m
    else AddField(IndexSpec(m, fields[..|fields| - 1], ln), fields[|fields| - 1], ln)
  }

  /** Index over one more field of the list is one more AddField. */
  lemma IndexSpecPrefix(m: KeyMap, fields: seq<Field>, n: nat, ln: Line)
    requires n < |fields|
    ensures IndexSpec(m, fields[..n + 1], ln) == AddField(IndexSpec(m, fields[..n], ln), fields[n], ln)
  {
    assert fields[..n + 1][..n] == fields[..n];
  }

  /** The keys a field list names. */
  function KeysOf(fields: seq<Field>): set<Bytes>
    decreases |fields|
  {
    if fields == [] then {} else KeysOf(fields[..|fields| - 1]) + {fields[|fields| - 1].key}
  }

  ghost predicate SortedMap(m: KeyMap) {
    forall k | k in m :: StrictlySorted(m[k])
  }

  /** Each leaf's lines are ordered by startOffset, and none starts after bound. */
  ghost predicate LeavesBelow(vs: seq<Leaf>, bound: int) {
    forall l | l in vs :: Ascending(l.lines) && forall x | x in l.lines :: x.startOffset <= bound
  }

  /** Each line of each leaf is one of ls. */
  ghost predicate LeavesIn(vs: seq<Leaf>, ls: seq<Line>) {
    forall l | l in vs :: forall x | x in l.lines :: x in ls
  }

  /** Every leaf's lines are ordered by startOffset: what the binary search over lines needs. */
  ghost predicate AscendingMap(m: KeyMap) {
    forall k | k in m :: forall l | l in m[k] :: Ascending(l.lines)
  }

  /** Every leaf's lines are ordered by startOffset and none starts after bound. */
  ghost predicate LinesBelow(m: KeyMap, bound: int) {
    forall k | k in m :: LeavesBelow(m[k], bound)
  }

  /** Every indexed line is one of ls. */
  ghost predicate LinesIn(m: KeyMap, ls: seq<Line>) {
    forall k | k in m :: LeavesIn(m[k], ls)
  }

  /** f's key has a leaf for f's value, where a search finds it, and its lines end with ln. */
  ghost predicate EndsWith(m: KeyMap, f: Field, ln: Line) {
    && f.key in m
    && var vs := m[f.key];
       var p := Position(vs, f.value);
       p < |vs| && vs[p].value == f.value && |vs[p].lines| > 0 && vs[p].lines[|vs[p].lines| - 1] == ln
  }

  /** b keeps every leaf of a, found where a search looks, with a's lines as a prefix of its lines. */
  ghost predicate SliceExtends(a: seq<Leaf>, b: seq<Leaf>) {
    forall i | 0 <= i < |a| ::
      var p := Position(b, a[i].value);
      p < |b| && b[p].value == a[i].value && a[i].lines <= b[p].lines
  }

  /** r keeps every key of m and, under it, every leaf and every line in order. */
  ghost predicate Extends(m: KeyMap, r: KeyMap) {
    forall k | k in m :: k in r && SliceExtends(m[k], r[k])
  }

  // ---------------------------------------------------------------------------
  // One AddLine step

  /** Position looks only at the values, so rewriting lines does not move it. */
  lemma PositionIgnoresLines(a: seq<Leaf>, b: seq<Leaf>, v: Bytes)
    requires |a| == |b| && forall k :: 0 <= k < |a| ==> a[k].value == b[k].value
    ensures Position(a, v) == Position(b, v)
  {
    PositionCharacterized(b, v, Position(a, v));
  }

  /** AddLine leaves every leaf but the one of v alone and gives that one ln as its last line. */
  lemma AddLineShape(vs: seq<Leaf>, v: Bytes, ln: Line)
    ensures var p := Position(vs, v);
      var r := AddLine(vs, v, ln);
      && p < |r| && Position(r, v) == p
      && r[p] == Leaf(v, (if p < |vs| && vs[p].value == v then vs[p].lines else []) + [ln])
      && (forall i | 0 <= i < |r| && i != p :: r[i] in vs)
      && |r| == (if p < |vs| && vs[p].value == v then |vs| else |vs| + 1)
    ensures var p := Position(vs, v);
      var r := AddLine(vs, v, ln);
      if p < |vs| && vs[p].value == v then r == vs[p := Leaf(v, vs[p].lines + [ln])]
      else r == vs[..p] + [Leaf(v, [ln])] + vs[p..]
  {
    var p := Position(vs, v);
    if p < |vs| && vs[p].value == v {
      AddLineShapeExisting(vs, v, ln);
    } else {
      AddLineShapeNew(vs, v, ln);
    }
  }

  /** AddLineShape when v already has a leaf: only that leaf changes. */
  lemma AddLineShapeExisting(vs: seq<Leaf>, v: Bytes, ln: Line)
    requires Position(vs, v) < |vs| && vs[Position(vs, v)].value == v
    ensures var p := Position(vs, v);
      var r := AddLine(vs, v, ln);
      && |r| == |vs| && Position(r, v) == p
      && r[p] == Leaf(v, vs[p].lines + [ln])
      && (forall i | 0 <= i < |r| && i != p :: r[i] in vs)
    ensures AddLine(vs, v, ln) == vs[Position(vs, v) := Leaf(v, vs[Position(vs, v)].lines + [ln])]
  {
    var p := Position(vs, v);
    var u := Upsert(vs, v);
    var r := AddLine(vs, v, ln);
    assert u == vs;
    PositionIgnoresLines(r, u, v);
    forall i | 0 <= i < |r| && i != p
      ensures r[i] in vs
    {
      assert r[i] == vs[i];
    }
  }

  /** AddLineShape when v has no leaf: a new one holding just ln is inserted at its position. */
  lemma AddLineShapeNew(vs: seq<Leaf>, v: Bytes, ln: Line)
    requires !(Position(vs, v) < |vs| && vs[Position(vs, v)].value == v)
    ensures var p := Position(vs, v);
      var r := AddLine(vs, v, ln);
      && |r| == |vs| + 1 && Position(r, v) == p
      && r[p] == Leaf(v, [ln])
      && (forall i | 0 <= i < |r| && i != p :: r[i] in vs)
    ensures var p := Position(vs, v);
      AddLine(vs, v, ln) == vs[..p] + [Leaf(v, [ln])] + vs[p..]
  {
    var p := Position(vs, v);
    var u := Upsert(vs, v);
    var r := AddLine(vs, v, ln);
    UpsertAbsent(vs, v);
    InsertThenUpdate(vs, p, Leaf(v, []), Leaf(v, [ln]));
    PositionIgnoresLines(r, u, v);
  }

  /** Inserting x at p and then overwriting slot p with y is inserting y; the other slots come from s. */
  lemma InsertThenUpdate(s: seq<Leaf>, p: nat, x: Leaf, y: Leaf)
    requires p <= |s|
    ensures (s[..p] + [x] + s[p..])[p := y] == s[..p] + [y] + s[p..]
    ensures forall i | 0 <= i <= |s| && i != p :: (s[..p] + [y] + s[p..])[i] in s
  {
    var w := s[..p] + [y] + s[p..];
    forall i | 0 <= i <= |s| && i != p
      ensures w[i] in s
    {
      if i > p {
        assert w[i] == s[i - 1];
      } else {
        assert w[i] == s[i];
      }
    }
  }

  /** Adding a line for another value w keeps the leaf of v intact and findable. */
  lemma AddLineKeepsOther(vs: seq<Leaf>, w: Bytes, v: Bytes, ln: Line)
    requires Position(vs, v) < |vs| && vs[Position(vs, v)].value == v
    requires w != v
    ensures var r := AddLine(vs, w, ln);
      var q := Position(r, v);
      q < |r| && r[q] == vs[Position(vs, v)]
  {
    var r := AddLine(vs, w, ln);
    PositionIgnoresLines(r, Upsert(vs, w), v);
    var pw := Position(vs, w);
    if !(pw < |vs| && vs[pw].value == w) {
      LessIsStrictTotalOrder(v, w, v);
      if Less(w, v) {
        InsertBefore(vs, w, v);
      } else {
        InsertAfter(vs, w, v);
      }
    }
  }

  /** A new value sorting before v is inserted at or before v's slot and shifts v right by one. */
  lemma InsertBefore(vs: seq<Leaf>, w: Bytes, v: Bytes)
    requires Position(vs, v) < |vs| && vs[Position(vs, v)].value == v
    requires !(Position(vs, w) < |vs| && vs[Position(vs, w)].value == w)
    requires Less(w, v)
    ensures var u := Upsert(vs, w);
      Position(u, v) == Position(vs, v) + 1 && u[Position(vs, v) + 1] == vs[Position(vs, v)]
  {
    var pv := Position(vs, v);
    var pw := Position(vs, w);
    PositionMonotone(vs, w, v);
    var u := Upsert(vs, w);
    UpsertAbsent(vs, w);
    InsertedPrefixBelow(vs, pw, Leaf(w, []), pv, v);
    assert u[pv + 1] == vs[pv];
    PositionCharacterized(u, v, pv + 1);
  }

  /** Inserting a leaf below v at or before slot q keeps the first q + 1 leaves below v. */
  lemma InsertedPrefixBelow(vs: seq<Leaf>, p: nat, x: Leaf, q: nat, v: Bytes)
    requires p <= q < |vs|
    requires forall k :: 0 <= k < q ==> Less(vs[k].value, v)
    requires Less(x.value, v)
    ensures var u := vs[..p] + [x] + vs[p..];
      forall k | 0 <= k < q + 1 :: Less(u[k].value, v)
  {
    var u := vs[..p] + [x] + vs[p..];
    forall k | 0 <= k < q + 1
      ensures Less(u[k].value, v)
    {
      if k < p {
        assert u[k] == vs[k];
      } else if p < k {
        assert u[k] == vs[k - 1];
      }
    }
  }

  /** A value sorting before v does not belong after v's slot. */
  lemma PositionMonotone(vs: seq<Leaf>, w: Bytes, v: Bytes)
    requires Position(vs, v) < |vs| && vs[Position(vs, v)].value == v
    requires Less(w, v)
    ensures Position(vs, w) <= Position(vs, v)
  {
    var pv := Position(vs, v);
    if Position(vs, w) > pv {
      assert Less(vs[pv].value, w);
      LessIsStrictTotalOrder(v, w, v);
      assert false;
    }
  }

  /** A new value sorting after v is inserted after v's slot. */
  lemma InsertAfter(vs: seq<Leaf>, w: Bytes, v: Bytes)
    requires Position(vs, v) < |vs| && vs[Position(vs, v)].value == v
    requires !(Position(vs, w) < |vs| && vs[Position(vs, w)].value == w)
    requires Less(v, w)
    ensures var u := Upsert(vs, w);
      Position(u, v) == Position(vs, v) && u[Position(vs, v)] == vs[Position(vs, v)]
  {
    var pv := Position(vs, v);
    var pw := Position(vs, w);
    if pw <= pv {
      if pw < pv {
        LessTransitive(vs[pw].value, v, w);
      }
      LessIsStrictTotalOrder(v, w, v);
      assert false;
    }
    var u := Upsert(vs, w);
    UpsertAbsent(vs, w);
    InsertedAfterKeepsPrefix(vs, pw, Leaf(w, []), pv);
    PositionCharacterized(u, v, pv);
  }

  /** Inserting a leaf after slot q leaves slots 0..q as they were. */
  lemma InsertedAfterKeepsPrefix(vs: seq<Leaf>, p: nat, x: Leaf, q: nat)
    requires q < p <= |vs|
    ensures var u := vs[..p] + [x] + vs[p..];
      forall k | 0 <= k <= q :: u[k] == vs[k]
  {
  }

  // ---------------------------------------------------------------------------
  // What Index promises

  /** A field's leaf is still marked with ln after any later field of the same line is added. */
  lemma EndsWithPreserved(m: KeyMap, f: Field, g: Field, ln: Line)
    requires EndsWith(m, f, ln)
    ensures EndsWith(AddField(m, g, ln), f, ln)
  {
    if g.key == f.key {
      var vs := m[f.key];
      AddLineShape(vs, g.value, ln);
      if g.value != f.value {
        AddLineKeepsOther(vs, g.value, f.value, ln);
      }
    }
  }

  /** The field just added ends with ln. */
  lemma AddFieldEndsWith(m: KeyMap, f: Field, ln: Line)
    ensures EndsWith(AddField(m, f, ln), f, ln)
  {
    AddLineShape(ValuesOf(m, f.key), f.value, ln);
  }

  /**
   * After Index(fields, index, size) every field's key has a leaf with the field's value whose
   * lines end with line{index, index+size}.
   */
  lemma {:induction false} IndexMarksEveryField(m: KeyMap, fields: seq<Field>, ln: Line)
    ensures forall j | 0 <= j < |fields| :: EndsWith(IndexSpec(m, fields, ln), fields[j], ln)
    decreases |fields|
  {
    if fields != [] {
      var init := fields[..|fields| - 1];
      var last := fields[|fields| - 1];
      var prev := IndexSpec(m, init, ln);
      var r := IndexSpec(m, fields, ln);
      assert r == AddField(prev, last, ln);
      IndexMarksEveryField(m, init, ln);
      forall j | 0 <= j < |fields|
        ensures EndsWith(r, fields[j], ln)
      {
        if j == |fields| - 1 {
          AddFieldEndsWith(prev, last, ln);
        } else {
          assert fields[j] == init[j];
          EndsWithPreserved(prev, fields[j], last, ln);
        }
      }
    }
  }

  /** Index adds exactly the keys it names; every key it does not name keeps its leaves. */
  lemma {:induction false} IndexTouchesOnlyNamedKeys(m: KeyMap, fields: seq<Field>, ln: Line)
    ensures IndexSpec(m, fields, ln).Keys == m.Keys + KeysOf(fields)
    ensures forall k | k in m && k !in KeysOf(fields) :: IndexSpec(m, fields, ln)[k] == m[k]
    ensures fields == [] ==> IndexSpec(m, fields, ln) == m
    decreases |fields|
  {
    if fields != [] {
      var init := fields[..|fields| - 1];
      IndexTouchesOnlyNamedKeys(m, init, ln);
      assert fields == init + [fields[|fields| - 1]];
      assert KeysOf(fields) == KeysOf(init) + {fields[|fields| - 1].key};
    }
  }

  /** On a sorted slice every leaf is where a search for its value looks. */
  lemma SortedPositions(vs: seq<Leaf>)
    requires StrictlySorted(vs)
    ensures forall i | 0 <= i < |vs| :: Position(vs, vs[i].value) == i
  {
    forall i | 0 <= i < |vs|
      ensures Position(vs, vs[i].value) == i
    {
      UpsertExisting(vs, vs[i].value, i);
    }
  }

  lemma SliceExtendsReflexive(vs: seq<Leaf>)
    requires StrictlySorted(vs)
    ensures SliceExtends(vs, vs)
  {
    SortedPositions(vs);
  }

  lemma SliceExtendsTransitive(a: seq<Leaf>, b: seq<Leaf>, c: seq<Leaf>)
    requires SliceExtends(a, b) && SliceExtends(b, c)
    ensures SliceExtends(a, c)
  {
    forall i | 0 <= i < |a|
      ensures var p := Position(c, a[i].value);
        p < |c| && c[p].value == a[i].value && a[i].lines <= c[p].lines
    {
      var pb := Position(b, a[i].value);
      assert b[pb].value == a[i].value;
    }
  }

  lemma ExtendsReflexive(m: KeyMap)
    requires SortedMap(m)
    ensures Extends(m, m)
  {
    forall k | k in m
      ensures SliceExtends(m[k], m[k])
    {
      SliceExtendsReflexive(m[k]);
    }
  }

  lemma ExtendsTransitive(a: KeyMap, b: KeyMap, c: KeyMap)
    requires Extends(a, b) && Extends(b, c)
    ensures Extends(a, c)
  {
    forall k | k in a
      ensures SliceExtends(a[k], c[k])
    {
      SliceExtendsTransitive(a[k], b[k], c[k]);
    }
  }

  /** AddLine keeps a sorted slice sorted and every old leaf findable with its old lines as a prefix. */
  lemma AddLineExtends(vs: seq<Leaf>, v: Bytes, ln: Line)
    requires StrictlySorted(vs)
    ensures StrictlySorted(AddLine(vs, v, ln))
    ensures SliceExtends(vs, AddLine(vs, v, ln))
  {
    var r := AddLine(vs, v, ln);
    var p := Position(vs, v);
    UpsertSorted(vs, v);
    AddLineShape(vs, v, ln);
    PositionIgnoresLines(r, Upsert(vs, v), v);
    assert StrictlySorted(r) by {
      forall i, j | 0 <= i < j < |r|
        ensures Less(r[i].value, r[j].value)
      {
        assert r[i].value == Upsert(vs, v)[i].value && r[j].value == Upsert(vs, v)[j].value;
      }
    }
    SortedPositions(vs);
    forall i | 0 <= i < |vs|
      ensures var q := Position(r, vs[i].value);
        q < |r| && r[q].value == vs[i].value && vs[i].lines <= r[q].lines
    {
      if vs[i].value != v {
        AddLineKeepsOther(vs, v, vs[i].value, ln);
      }
    }
  }

  lemma AddFieldExtends(m: KeyMap, g: Field, ln: Line)
    requires SortedMap(m)
    ensures SortedMap(AddField(m, g, ln))
    ensures Extends(m, AddField(m, g, ln))
  {
    var r := AddField(m, g, ln);
    var vs := ValuesOf(m, g.key);
    AddLineExtends(vs, g.value, ln);
    forall k | k in m
      ensures k in r && SliceExtends(m[k], r[k])
    {
      if k != g.key {
        SliceExtendsReflexive(m[k]);
      }
    }
  }

  /**
   * Index never removes a key, a leaf or a line, and keeps every node's values strictly sorted:
   * each old leaf is still found by its value and its old lines are a prefix of its new lines.
   */
  lemma {:induction false} IndexExtends(m: KeyMap, fields: seq<Field>, ln: Line)
    requires SortedMap(m)
    ensures SortedMap(IndexSpec(m, fields, ln))
    ensures Extends(m, IndexSpec(m, fields, ln))
    decreases |fields|
  {
    if fields == [] {
      ExtendsReflexive(m);
    } else {
      var init := fields[..|fields| - 1];
      var prev := IndexSpec(m, init, ln);
      IndexExtends(m, init, ln);
      AddFieldExtends(prev, fields[|fields| - 1], ln);
      ExtendsTransitive(m, prev, IndexSpec(m, fields, ln));
    }
  }

  /** A leaf of AddLine(vs, v, ln) is a leaf of vs or the leaf of v with ln appended. */
  lemma AddLineLeaves(vs: seq<Leaf>, v: Bytes, ln: Line)
    ensures var p := Position(vs, v);
      var r := AddLine(vs, v, ln);
      forall l | l in r :: l in vs || (l == r[p] && r[p].lines == (if p < |vs| && vs[p].value == v then vs[p].lines else []) + [ln])
  {
    var p := Position(vs, v);
    var r := AddLine(vs, v, ln);
    AddLineShape(vs, v, ln);
    forall l | l in r
      ensures l in vs || l == r[p]
    {
      var i :| 0 <= i < |r| && r[i] == l;
      if i != p {
        assert r[i] in vs;
      }
    }
  }

  lemma AddLineBelow(vs: seq<Leaf>, v: Bytes, ln: Line)
    requires LeavesBelow(vs, ln.startOffset)
    ensures LeavesBelow(AddLine(vs, v, ln), ln.startOffset)
  {
    var p := Position(vs, v);
    AddLineLeaves(vs, v, ln);
    if p < |vs| {
      assert vs[p] in vs;
    }
  }

  lemma AddLineIn(vs: seq<Leaf>, v: Bytes, ln: Line, ls: seq<Line>)
    requires LeavesIn(vs, ls) && ln in ls
    ensures LeavesIn(AddLine(vs, v, ln), ls)
  {
    var p := Position(vs, v);
    AddLineLeaves(vs, v, ln);
    if p < |vs| {
      assert vs[p] in vs;
    }
  }

  /**
   * When no indexed line starts after index, Index keeps every leaf's lines ordered by
   * startOffset, and afterwards still no line starts after index.
   */
  lemma {:induction false} IndexKeepsLinesAscending(m: KeyMap, fields: seq<Field>, ln: Line)
    requires LinesBelow(m, ln.startOffset)
    ensures LinesBelow(IndexSpec(m, fields, ln), ln.startOffset)
    ensures AscendingMap(IndexSpec(m, fields, ln))
    decreases |fields|
  {
    if fields != [] {
      var init := fields[..|fields| - 1];
      var prev := IndexSpec(m, init, ln);
      var g := fields[|fields| - 1];
      IndexKeepsLinesAscending(m, init, ln);
      AddLineBelow(ValuesOf(prev, g.key), g.value, ln);
    }
  }

  lemma {:induction false} IndexStaysIn(m: KeyMap, fields: seq<Field>, ln: Line, ls: seq<Line>)
    requires LinesIn(m, ls) && ln in ls
    ensures LinesIn(IndexSpec(m, fields, ln), ls)
    decreases |fields|
  {
    if fields != [] {
      var init := fields[..|fields| - 1];
      var prev := IndexSpec(m, init, ln);
      var g := fields[|fields| - 1];
      IndexStaysIn(m, init, ln, ls);
      AddLineIn(ValuesOf(prev, g.key), g.value, ln, ls);
    }
  }

  /** Index stores no line other than the one it is given. */
  lemma IndexAddsOnlyItsLine(m: KeyMap, fields: seq<Field>, ln: Line, ls: seq<Line>)
    requires LinesIn(m, ls)
    ensures LinesIn(IndexSpec(m, fields, ln), ls + [ln])
  {
    forall k | k in m
      ensures LeavesIn(m[k], ls + [ln])
    {
    }
    IndexStaysIn(m, fields, ln, ls + [ln]);
  }

  // ---------------------------------------------------------------------------
  // Find: the AND query the doc comment of mapIndexer.Find promises

  /** The lines recorded for f: those of the leaf holding f's value under f's key, if any. */
  function CandidateLines(m: KeyMap, f: Field): seq<Line> {
    match LeafFor(ValuesOf(m, f.key), f.value)
    case None => []
    case Some(l) => l.lines
  }

  /** One candidate list per queried field, in query order (findings in the source). */
  function Candidates(m: KeyMap, fields: seq<Field>): (cands: seq<seq<Line>>)
    ensures |cands| == |fields|
    ensures forall j | 0 <= j < |fields| :: cands[j] == CandidateLines(m, fields[j])
  {
    seq(|fields|, j requires 0 <= j < |fields| => CandidateLines(m, fields[j]))
  }

  /** Some line of ls starts at offset s: what a non-nil lines.binarySearch reports. */
  predicate HasStart(ls: seq<Line>, s: int) {
    exists x | x in ls :: x.startOffset == s
  }

  /** Every list after the first holds a line starting at s. */
  predicate InAll(cands: seq<seq<Line>>, s: int) {
    forall k | 1 <= k < |cands| :: HasStart(cands[k], s)
  }

  /** The lines of xs, in order, that every later candidate list also holds. */
  function Keep(cands: seq<seq<Line>>, xs: seq<Line>): seq<Line>
    decreases |xs|
  {
    if xs == [] then []
    else
      var x := xs[|xs| - 1];
      Keep(cands, xs[..|xs| - 1]) + (if InAll(cands, x.startOffset) then [x] else [])
  }

  /** The lines of the first candidate list found in all the others. */
  function Intersect(cands: seq<seq<Line>>): seq<Line> {
    if cands == [] then [] else Keep(cands, cands[0])
  }

  predicate AllKeys(m: KeyMap, fields: seq<Field>) {
    forall j | 0 <= j < |fields| :: fields[j].key in m
  }

  /** What Find returns: nothing when a queried key is unknown, else the intersection. */
  function FindSpec(m: KeyMap, fields: seq<Field>): seq<Line> {
    if !AllKeys(m, fields) then [] else Intersect(Candidates(m, fields))
  }

  /** a is b with some elements dropped, the rest kept in order. */
  predicate Subsequence<T(==)>(a: seq<T>, b: seq<T>)
    decreases |b|
  {
    || a == []
    || (&& b != []
        && ((a[|a| - 1] == b[|b| - 1] && Subsequence(a[..|a| - 1], b[..|b| - 1]))
            || Subsequence(a, b[..|b| - 1])))
  }

  lemma {:induction false} KeepMembers(cands: seq<seq<Line>>, xs: seq<Line>, x: Line)
    ensures x in Keep(cands, xs) <==> x in xs && InAll(cands, x.startOffset)
    decreases |xs|
  {
    if xs != [] {
      KeepMembers(cands, xs[..|xs| - 1], x);
      assert xs == xs[..|xs| - 1] + [xs[|xs| - 1]];
    }
  }

  lemma {:induction false} KeepSubsequence(cands: seq<seq<Line>>, xs: seq<Line>)
    ensures Subsequence(Keep(cands, xs), xs)
    decreases |xs|
  {
    if xs != [] {
      var init := xs[..|xs| - 1];
      KeepSubsequence(cands, init);
      assert xs[..|xs| - 1] == init;
      if InAll(cands, xs[|xs| - 1].startOffset) {
        var r := Keep(cands, xs);
        assert r == Keep(cands, init) + [xs[|xs| - 1]];
        assert r[..|r| - 1] == Keep(cands, init);
        assert r[|r| - 1] == xs[|xs| - 1];
        assert Subsequence(r[..|r| - 1], xs[..|xs| - 1]);
      } else {
        assert Keep(cands, xs) == Keep(cands, init);
        assert Subsequence(Keep(cands, init), xs[..|xs| - 1]);
      }
    }
  }

  /** When every line qualifies, Keep returns the list unchanged. */
  lemma {:induction false} KeepAll(cands: seq<seq<Line>>, xs: seq<Line>)
    requires forall x | x in xs :: InAll(cands, x.startOffset)
    ensures Keep(cands, xs) == xs
    decreases |xs|
  {
    if xs != [] {
      KeepAll(cands, xs[..|xs| - 1]);
      assert xs == xs[..|xs| - 1] + [xs[|xs| - 1]];
    }
  }

  /**
   * Every line Find returns is in the first field's list and, by startOffset, in every field's
   * list; every such line is returned; all queried keys are known; the result keeps the first
   * list's order.
   */
  lemma FindCharacterized(m: KeyMap, fields: seq<Field>, x: Line)
    ensures x in FindSpec(m, fields) <==>
      && AllKeys(m, fields) && |fields| > 0
      && x in CandidateLines(m, fields[0])
      && forall k | 0 <= k < |fields| :: HasStart(CandidateLines(m, fields[k]), x.startOffset)
    ensures AllKeys(m, fields) && |fields| > 0 ==> Subsequence(FindSpec(m, fields), CandidateLines(m, fields[0]))
  {
    if AllKeys(m, fields) && |fields| > 0 {
      var cands := Candidates(m, fields);
      KeepMembers(cands, cands[0], x);
      KeepSubsequence(cands, cands[0]);
    }
  }

  /** A query naming an unknown key finds nothing. */
  lemma FindMissingKey(m: KeyMap, fields: seq<Field>, j: nat)
    requires j < |fields| && fields[j].key !in m
    ensures FindSpec(m, fields) == []
  {
  }

  /**
   * A single-field query returns the lines of the leaf holding the value, in stored order,
   * and nothing when the key or the value is not indexed.
   */
  lemma FindSingleField(m: KeyMap, f: Field)
    requires SortedMap(m)
    ensures var vs := ValuesOf(m, f.key);
      var p := Position(vs, f.value);
      FindSpec(m, [f]) == if f.key in m && p < |vs| && vs[p].value == f.value then vs[p].lines else []
  {
    var vs := ValuesOf(m, f.key);
    var p := Position(vs, f.value);
    var cands := Candidates(m, [f]);
    assert cands == [CandidateLines(m, f)];
    KeepAll(cands, cands[0]);
    if f.key in m {
      assert AllKeys(m, [f]);
      assert FindSpec(m, [f]) == CandidateLines(m, f);
      if p < |vs| && vs[p].value == f.value {
        LeafForAt(vs, f.value, p);
      } else {
        LeafForAbsent(vs, f.value);
      }
    } else {
      assert !AllKeys(m, [f]);
    }
  }

  // ---------------------------------------------------------------------------
  // The multi-field branch of mapIndexer.Find as the source writes it

  datatype Outcome<T> = Done(value: T) | Panic

  /**
   * One probe of list k for offset s: lines.binarySearch never reports -1, so the found test
   * always passes and the slot at the insertion point is cut out, matching line or not; the
   * slice expression panics when that point is past the end.
   */
  function ProbeAsWritten(lists: seq<seq<Line>>, k: nat, s: int): (r: Outcome<(seq<seq<Line>>, bool)>)
    requires k < |lists|
    ensures r.Done? ==> |r.value.0| == |lists| && r.value.1
    ensures r.Done? ==> |r.value.0[k]| == |lists[k]| - 1
    ensures r.Done? ==> forall q | 0 <= q < |lists| && q != k :: r.value.0[q] == lists[q]
    ensures r.Panic? <==> LinesPosition(lists[k], s) == |lists[k]|
  {
    var foundIndex: int := LinesPosition(lists[k], s);
    if foundIndex > -1 then
      if foundIndex + 1 > |lists[k]| then Panic
      else Done((lists[k := lists[k][..foundIndex] + lists[k][foundIndex + 1..]], true))
    else Done((lists, false))
  }

  /**
   * The loop over k = i+1 .. n-1 for one line of list i. As written, every later list loses
   * one line, and the line counts as found as soon as there is a later list at all.
   */
  function ProbeRestAsWritten(lists: seq<seq<Line>>, k: nat, s: int, found: bool): (r: Outcome<(seq<seq<Line>>, bool)>)
    ensures r.Done? ==> |r.value.0| == |lists|
    ensures r.Done? ==> r.value.1 == (found || k < |lists|)
    ensures r.Done? ==> forall q | 0 <= q < |lists| ::
      |r.value.0[q]| == if q < k then |lists[q]| else |lists[q]| - 1
    ensures r.Done? ==> forall q | 0 <= q < k && q < |lists| :: r.value.0[q] == lists[q]
    decreases |lists| - k
  {
    if k >= |lists| then Done((lists, found))
    else match ProbeAsWritten(lists, k, s)
      case Panic => Panic
      case Done((next, hit)) => ProbeRestAsWritten(next, k + 1, s, found || hit)
  }

  /**
   * The loop over the lines j .. of list i, returning the lists as the probes left them and
   * the result so far. As written, every remaining line of the row is appended to the result
   * and each later list loses one line per probe.
   */
  function ScanAsWritten(lists: seq<seq<Line>>, i: nat, row: seq<Line>, j: nat, resp: seq<Line>): (r: Outcome<(seq<seq<Line>>, seq<Line>)>)
    ensures r.Done? ==> |r.value.0| == |lists|
    ensures r.Done? ==> forall q | 0 <= q <= i && q < |lists| :: r.value.0[q] == lists[q]
    ensures r.Done? && j <= |row| ==> forall q | i < q < |lists| :: |r.value.0[q]| == |lists[q]| - (|row| - j)
    ensures r.Done? && j <= |row| && i + 1 < |lists| ==> r.value.1 == resp + row[j..]
    decreases |row| - j
  {
    if j >= |row| then Done((lists, resp))
    else match ProbeRestAsWritten(lists, i + 1, row[j].startOffset, false)
      case Panic => Panic
      case Done((next, found)) =>
        var r := ScanAsWritten(next, i, row, j + 1, if found then resp + [row[j]] else resp);
        assert r.Done? && i + 1 < |lists| ==> r.value.1 == resp + row[j..] by {
          if r.Done? && i + 1 < |lists| {
            assert row[j..] == [row[j]] + row[j + 1..];
          }
        }
        r
  }

  /**
   * The outer loop over i = 0 .. n-2; each pass starts on the lists as the passes before it
   * left them. As written, the result starts with resp and then the whole list i.
   */
  function OuterAsWritten(lists: seq<seq<Line>>, i: nat, resp: seq<Line>): (r: Outcome<seq<Line>>)
    ensures r.Done? ==> |resp| <= |r.value| && r.value[..|resp|] == resp
    ensures r.Done? && i + 1 < |lists| ==>
      |resp| + |lists[i]| <= |r.value| && r.value[..|resp| + |lists[i]|] == resp + lists[i]
    decreases |lists| - i
  {
    if i + 1 >= |lists| then Done(resp)
    else match ScanAsWritten(lists, i, lists[i], 0, resp)
      case Panic => Panic
      case Done((next, r)) =>
        var out := OuterAsWritten(next, i + 1, r);
        assert lists[i][0..] == lists[i];
        assert out.Done? ==> out.value[..|resp|] == (resp + lists[i])[..|resp|] by {
          if out.Done? {
            assert out.value[..|resp|] == out.value[..|resp| + |lists[i]|][..|resp|];
          }
        }
        out
  }

  /**
   * mapIndexer.Find's loop as written, on candidate lists gathered lookup-only. With two fields or more,
   * unless it panics, every line of the first field's list is returned, matched or not.
   */
  function FindAsWritten(m: KeyMap, fields: seq<Field>): (r: Outcome<seq<Line>>)
    ensures !AllKeys(m, fields) ==> r == Done([])
    ensures AllKeys(m, fields) && |fields| == 1 ==> r == Done(CandidateLines(m, fields[0]))
    ensures r.Done? && AllKeys(m, fields) && |fields| >= 2 ==>
      var first := CandidateLines(m, fields[0]);
      |first| <= |r.value| && r.value[..|first|] == first
  {
    if !AllKeys(m, fields) then Done([])
    else if |fields| == 1 then Done(CandidateLines(m, fields[0]))
    else OuterAsWritten(Candidates(m, fields), 0, [])
  }

  /**
   * Two fields whose lists are [L1, L2] and [L1, L3]: only L1 carries both, yet the source
   * returns L1 and L2, because the probe for L2 reports the insertion point of L3 as a match.
   */
  lemma FindAsWrittenKeepsUnmatched()
    ensures var l1, l2, l3 := Line(0, 10), Line(10, 20), Line(20, 30);
      && OuterAsWritten([[l1, l2], [l1, l3]], 0, []) == Done([l1, l2])
      && Intersect([[l1, l2], [l1, l3]]) == [l1]
  {
    var l1, l2, l3 := Line(0, 10), Line(10, 20), Line(20, 30);
    var lists := [[l1, l2], [l1, l3]];
    // j = 0: L1 is found at index 0 of the second list and cut out.
    assert LinesPosition([l1, l3], 0) == 0;
    var after1 := [[l1, l2], [l3]];
    assert lists[1][..0] + lists[1][1..] == [l3];
    assert lists[1 := [l3]] == after1;
    assert ProbeAsWritten(lists, 1, 0) == Done((after1, true));
    assert ProbeRestAsWritten(lists, 1, 0, false) == Done((after1, true));
    // j = 1: L2 is not there, but the insertion point 0 holds L3, which is cut out instead.
    assert LinesPosition([l3], 10) == 0;
    var after2 := [[l1, l2], []];
    assert after1[1][..0] + after1[1][1..] == [];
    assert after1[1 := []] == after2;
    assert ProbeAsWritten(after1, 1, 10) == Done((after2, true));
    assert ProbeRestAsWritten(after1, 1, 10, false) == Done((after2, true));
    assert ScanAsWritten(after2, 0, [l1, l2], 2, [l1, l2]) == Done((after2, [l1, l2]));
    assert [l1] + [[l1, l2][1]] == [l1, l2];
    assert ScanAsWritten(after1, 0, [l1, l2], 1, [l1]) == Done((after2, [l1, l2]));
    assert [] + [[l1, l2][0]] == [l1];
    assert ScanAsWritten(lists, 0, [l1, l2], 0, []) == Done((after2, [l1, l2]));
    assert OuterAsWritten(after2, 1, [l1, l2]) == Done([l1, l2]);
    // The intended intersection keeps L1 only.
    assert !HasStart([l1, l3], 10);
    assert HasStart([l1, l3], 0) by {
      assert l1 in [l1, l3];
    }
    assert [l1, l2][..1] == [l1];
    assert [l1][..0] == [];
    assert Keep(lists, [l1]) == [l1];
  }

  /**
   * Three fields whose lists are all [L1]: the first pass cuts L1 out of the second and third
   * lists, and the second pass ranges over the emptied second list, so L1 is returned once.
   */
  lemma FindAsWrittenThreeFields()
    ensures var l1 := Line(0, 10);
      && OuterAsWritten([[l1], [l1], [l1]], 0, []) == Done([l1])
      && Intersect([[l1], [l1], [l1]]) == [l1]
  {
    var l1 := Line(0, 10);
    var lists := [[l1], [l1], [l1]];
    assert LinesPosition([l1], 0) == 0;
    assert [l1][..0] + [l1][1..] == [];
    var after1 := [[l1], [], [l1]];
    assert lists[1 := []] == after1;
    assert ProbeAsWritten(lists, 1, 0) == Done((after1, true));
    var after2 := [[l1], [], []];
    assert after1[2 := []] == after2;
    assert ProbeAsWritten(after1, 2, 0) == Done((after2, true));
    assert ProbeRestAsWritten(after2, 3, 0, true) == Done((after2, true));
    assert ProbeRestAsWritten(after1, 2, 0, true) == Done((after2, true));
    assert ProbeRestAsWritten(lists, 1, 0, false) == Done((after2, true));
    assert ScanAsWritten(after2, 0, [l1], 1, [l1]) == Done((after2, [l1]));
    assert [] + [[l1][0]] == [l1];
    assert ScanAsWritten(lists, 0, [l1], 0, []) == Done((after2, [l1]));
    // The second pass sees the emptied list and adds nothing.
    assert ScanAsWritten(after2, 1, after2[1], 0, [l1]) == Done((after2, [l1]));
    assert OuterAsWritten(after2, 2, [l1]) == Done([l1]);
    assert OuterAsWritten(after2, 1, [l1]) == Done([l1]);
    // The intended intersection also keeps L1.
    assert HasStart([l1], 0) by {
      assert l1 in [l1];
    }
    assert InAll(lists, 0);
    assert [l1][..0] == [];
    assert Keep(lists, [l1]) == [l1];
  }

  /**
   * Two fields whose lists are [L3] and [L1]: the search for L3 in [L1] gives the insertion
   * point 1, one past the end, and the removal slices out of range.
   */
  lemma FindAsWrittenPanics()
    ensures var l1, l3 := Line(0, 10), Line(20, 30);
      && OuterAsWritten([[l3], [l1]], 0, []) == Panic
      && Intersect([[l3], [l1]]) == []
  {
    var l1, l3 := Line(0, 10), Line(20, 30);
    var lists := [[l3], [l1]];
    assert LinesPosition([l1], 20) == 1;
    assert ProbeAsWritten(lists, 1, 20) == Panic;
    assert ProbeRestAsWritten(lists, 1, 20, false) == Panic;
    assert ScanAsWritten(lists, 0, [l3], 0, []) == Panic;
    assert !HasStart([l1], 20);
    assert [l3][..0] == [];
    assert !InAll(lists, 20);
    assert Keep(lists, [l3]) == [];
  }

  // ---------------------------------------------------------------------------
  // Stats

  datatype NodeStats = NodeStats(name: Bytes, lineCount: int, valueCount: int)
  datatype Stats = Summary(nodes: seq<NodeStats>, nodeCount: int)

  /** The number of lines over all leaves of a node. */
  function TotalLines(vs: seq<Leaf>): (n: nat)
    ensures vs == [] ==> n == 0
    decreases |vs|
  {
    if vs == [] then 0 else TotalLines(vs[..|vs| - 1]) + |vs[|vs| - 1].lines|
  }

  /** The sort.Slice comparator of Stats: more lines first, then names in Compare order. */
  predicate StatsLess(a: NodeStats, b: NodeStats)
    ensures StatsLess(a, b) <==> a.lineCount > b.lineCount || (a.lineCount == b.lineCount && Less(a.name, b.name))
  {
    var diff := a.lineCount - b.lineCount;
    if diff < 0 then false
    else if diff == 0 then Less(a.name, b.name)
    else true
  }

  ghost predicate SortedStats(ns: seq<NodeStats>) {
    forall i, j | 0 <= i < j < |ns| :: StatsLess(ns[i], ns[j])
  }

  /** On entries with distinct names the comparator is a strict total order. */
  lemma StatsLessIsStrictTotalOrder(a: NodeStats, b: NodeStats, c: NodeStats)
    ensures !StatsLess(a, a)
    ensures StatsLess(a, b) ==> !StatsLess(b, a)
    ensures StatsLess(a, b) && StatsLess(b, c) ==> StatsLess(a, c)
    ensures a.name != b.name ==> StatsLess(a, b) || StatsLess(b, a)
    ensures StatsLess(a, b) <==> a.lineCount > b.lineCount || (a.lineCount == b.lineCount && Less(a.name, b.name))
  {
    LessIsStrictTotalOrder(a.name, b.name, c.name);
  }

  /** The names of a list of entries. */
  function NamesOf(ns: seq<NodeStats>): set<Bytes> {
    set e | e in ns :: e.name
  }

  /** No two entries share a name. */
  predicate DistinctNames(ns: seq<NodeStats>) {
    forall i, j | 0 <= i < j < |ns| :: ns[i].name != ns[j].name
  }

  lemma DistinctNamesSnoc(ns: seq<NodeStats>, e: NodeStats)
    requires DistinctNames(ns) && e.name !in NamesOf(ns)
    ensures DistinctNames(ns + [e])
    ensures NamesOf(ns + [e]) == NamesOf(ns) + {e.name}
  {
    forall i | 0 <= i < |ns|
      ensures ns[i].name != e.name
    {
      assert ns[i].name in NamesOf(ns);
    }
  }

  /** Two entry lists sorted by the comparator with the same entries are equal: the order fixes the result. */
  lemma {:induction false} SortedStatsUnique(a: seq<NodeStats>, b: seq<NodeStats>)
    requires SortedStats(a) && SortedStats(b) && multiset(a) == multiset(b)
    ensures a == b
    decreases |a|
  {
    assert |a| == |multiset(a)| == |multiset(b)| == |b|;
    if a != [] {
      SortedHeadsEqual(a, b);
      MultisetTail(a);
      MultisetTail(b);
      SortedStatsUnique(a[1..], b[1..]);
      assert a == [a[0]] + a[1..] && b == [b[0]] + b[1..];
    }
  }

  /** Sorted lists with the same entries start with the same entry. */
  lemma SortedHeadsEqual(a: seq<NodeStats>, b: seq<NodeStats>)
    requires SortedStats(a) && SortedStats(b) && multiset(a) == multiset(b) && a != [] && b != []
    ensures a[0] == b[0]
  {
    if a[0] != b[0] {
      assert a[0] in multiset(b) && b[0] in multiset(a);
      var i :| 0 <= i < |a| && a[i] == b[0];
      var j :| 0 <= j < |b| && b[j] == a[0];
      // a[0] sorts before a[i] == b[0], and b[0] sorts before b[j] == a[0].
      assert i > 0 && j > 0;
      StatsLessIsStrictTotalOrder(a[0], b[0], a[0]);
      assert false;
    }
  }

  lemma MultisetTail<T>(a: seq<T>)
    requires a != []
    ensures multiset(a[1..]) == multiset(a) - multiset{a[0]}
  {
    assert a == [a[0]] + a[1..];
    assert multiset(a) == multiset{a[0]} + multiset(a[1..]);
  }

  /** Insert e into a sorted list of entries with names other than e's. */
  function InsertStat(ns: seq<NodeStats>, e: NodeStats): (r: seq<NodeStats>)
    requires SortedStats(ns)
    requires forall x | x in ns :: x.name != e.name
    ensures SortedStats(r)
    ensures multiset(r) == multiset(ns) + multiset{e} && |r| == |ns| + 1
    decreases |ns|
  {
    if ns == [] || StatsLess(e, ns[0]) then
      InsertFront(ns, e);
      [e] + ns
    else
      assert ns[0] in ns;
      var rest := InsertStat(ns[1..], e);
      InsertAfterHead(ns, e, rest);
      [ns[0]] + rest
  }

  lemma InsertFront(ns: seq<NodeStats>, e: NodeStats)
    requires SortedStats(ns) && (ns == [] || StatsLess(e, ns[0]))
    ensures SortedStats([e] + ns)
  {
    var r := [e] + ns;
    forall j | 0 < j < |r|
      ensures StatsLess(e, r[j])
    {
      if j > 1 {
        StatsLessIsStrictTotalOrder(e, ns[0], ns[j - 1]);
      }
    }
  }

  lemma InsertAfterHead(ns: seq<NodeStats>, e: NodeStats, rest: seq<NodeStats>)
    requires SortedStats(ns) && ns != [] && !StatsLess(e, ns[0]) && ns[0].name != e.name
    requires SortedStats(rest) && multiset(rest) == multiset(ns[1..]) + multiset{e}
    ensures SortedStats([ns[0]] + rest)
    ensures multiset([ns[0]] + rest) == multiset(ns) + multiset{e}
  {
    StatsLessIsStrictTotalOrder(ns[0], e, ns[0]);
    assert ns == [ns[0]] + ns[1..];
    var r := [ns[0]] + rest;
    forall j | 0 < j < |r|
      ensures StatsLess(ns[0], r[j])
    {
      assert r[j] in multiset(rest);
    }
  }

  /** sort.Slice with the Stats comparator, as an insertion sort. */
  method SortStats(ns: seq<NodeStats>) returns (sorted: seq<NodeStats>)
    requires DistinctNames(ns)
    ensures SortedStats(sorted)
    ensures multiset(sorted) == multiset(ns) && |sorted| == |ns|
  {
    sorted := [];
    for i := 0 to |ns|
      invariant SortedStats(sorted)
      invariant multiset(sorted) == multiset(ns[..i]) && |sorted| == i
    {
      forall x | x in sorted
        ensures x.name != ns[i].name
      {
        assert x in multiset(ns[..i]);
        var j :| 0 <= j < i && ns[..i][j] == x;
        assert ns[j] == x;
      }
      sorted := InsertStat(sorted, ns[i]);
      assert ns[..i + 1] == ns[..i] + [ns[i]];
    }
    assert ns[..|ns|] == ns;
  }

  lemma {:induction false} TotalLinesAppend(a: seq<Leaf>, b: seq<Leaf>)
    ensures TotalLines(a + b) == TotalLines(a) + TotalLines(b)
    decreases |b|
  {
    if b == [] {
      assert a + b == a;
    } else {
      var c := a + b;
      var bi := b[..|b| - 1];
      assert c[..|c| - 1] == a + bi;
      assert c[|c| - 1] == b[|b| - 1];
      TotalLinesAppend(a, bi);
    }
  }

  /** The lines of three consecutive pieces add up. */
  lemma TotalLinesSplit(a: seq<Leaf>, x: Leaf, b: seq<Leaf>)
    ensures TotalLines(a + [x] + b) == TotalLines(a) + |x.lines| + TotalLines(b)
  {
    TotalLinesAppend(a + [x], b);
    TotalLinesAppend(a, [x]);
    assert [x][..0] == [];
  }

  /** AddLine stores exactly one more line under the key. */
  lemma AddLineCount(vs: seq<Leaf>, v: Bytes, ln: Line)
    ensures TotalLines(AddLine(vs, v, ln)) == TotalLines(vs) + 1
  {
    var p := Position(vs, v);
    var u := Upsert(vs, v);
    var r := AddLine(vs, v, ln);
    assert u == u[..p] + [u[p]] + u[p + 1..];
    assert r == u[..p] + [r[p]] + u[p + 1..];
    TotalLinesSplit(u[..p], u[p], u[p + 1..]);
    TotalLinesSplit(u[..p], r[p], u[p + 1..]);
    if !(p < |vs| && vs[p].value == v) {
      UpsertCount(vs, v);
    }
  }

  /** Inserting a leaf with no lines adds no lines. */
  lemma UpsertCount(vs: seq<Leaf>, v: Bytes)
    ensures TotalLines(Upsert(vs, v)) == TotalLines(vs)
  {
    var p := Position(vs, v);
    if !(p < |vs| && vs[p].value == v) {
      var a, b := vs[..p], vs[p..];
      UpsertAbsent(vs, v);
      TotalLinesSplit(a, Leaf(v, []), b);
      TotalLinesAppend(a, b);
      assert vs == a + b;
    }
  }

  /** The number of fields in fields with key k. */
  function CountKey(fields: seq<Field>, k: Bytes): nat
    decreases |fields|
  {
    if fields == [] then 0
    else CountKey(fields[..|fields| - 1], k) + (if fields[|fields| - 1].key == k then 1 else 0)
  }

  /** Index adds to each key's line count (the Stats lineCount) the number of fields with that key. */
  lemma {:induction false} IndexLineCount(m: KeyMap, fields: seq<Field>, ln: Line, k: Bytes)
    ensures TotalLines(ValuesOf(IndexSpec(m, fields, ln), k)) == TotalLines(ValuesOf(m, k)) + CountKey(fields, k)
    decreases |fields|
  {
    if fields != [] {
      var init := fields[..|fields| - 1];
      var g := fields[|fields| - 1];
      var prev := IndexSpec(m, init, ln);
      IndexLineCount(m, init, ln, k);
      if g.key == k {
        AddLineCount(ValuesOf(prev, k), g.value, ln);
      }
    }
  }

  /** The candidate lists of the first |findings| fields are collected, each ordered by startOffset. */
  ghost predicate Gathered(m: KeyMap, fields: seq<Field>, findings: seq<seq<Line>>) {
    && AscendingMap(m)
    && |findings| <= |fields|
    && forall j | 0 <= j < |findings| ::
      fields[j].key in m && findings[j] == CandidateLines(m, fields[j]) && Ascending(findings[j])
  }

  lemma GatheredStep(m: KeyMap, fields: seq<Field>, findings: seq<seq<Line>>, leaf: Option<Leaf>)
    requires Gathered(m, fields, findings) && |findings| < |fields|
    requires fields[|findings|].key in m
    requires leaf == LeafFor(m[fields[|findings|].key], fields[|findings|].value)
    ensures Gathered(m, fields, findings + [if leaf.Some? then leaf.value.lines else []])
  {
    var f := fields[|findings|];
    if leaf.Some? {
      assert leaf.value in m[f.key];
    }
  }

  lemma GatheredAll(m: KeyMap, fields: seq<Field>, findings: seq<seq<Line>>)
    requires Gathered(m, fields, findings) && |findings| == |fields|
    ensures AllKeys(m, fields)
    ensures findings == Candidates(m, fields)
    ensures forall k | 0 <= k < |findings| :: Ascending(findings[k])
  {
  }

  /** Whether every list after the first holds a line starting at s, by binary search. */
  method InAllSearch(cands: seq<seq<Line>>, s: int) returns (found: bool)
    requires forall k | 0 <= k < |cands| :: Ascending(cands[k])
    ensures found == InAll(cands, s)
  {
    found := true;
    var k := 1;
    while k < |cands|
      invariant 1 <= k && (|cands| > 0 ==> k <= |cands|)
      invariant found <==> forall k' | 1 <= k' < k && k' < |cands| :: HasStart(cands[k'], s)
    {
      var idx, hit := LinesBinarySearch(cands[k], s);
      if hit.Some? {
        assert cands[k][idx] in cands[k];
      } else {
        assert !HasStart(cands[k], s) by {
          forall y | y in cands[k]
            ensures y.startOffset != s
          {
            var i :| 0 <= i < |cands[k]| && cands[k][i] == y;
          }
        }
      }
      found := found && hit.Some?;
      k := k + 1;
    }
  }

  /** The intersection loops of Find, driven by the first list only. */
  method IntersectLines(cands: seq<seq<Line>>) returns (resp: seq<Line>)
    requires forall k | 0 <= k < |cands| :: Ascending(cands[k])
    ensures resp == Intersect(cands)
  {
    resp := [];
    if |cands| > 0 {
      var first := cands[0];
      for j := 0 to |first|
        invariant resp == Keep(cands, first[..j])
      {
        var x := first[j];
        var found := InAllSearch(cands, x.startOffset);
        if found {
          resp := resp + [x];
        }
        assert first[..j + 1][..j] == first[..j];
      }
      assert first[..|first|] == first;
    }
  }

  /** The entry Stats reports for key k: its name, the lines over its leaves and its value count. */
  function Entry(m: KeyMap, k: Bytes): NodeStats
    requires k in m
  {
    NodeStats(k, TotalLines(m[k]), |m[k]|)
  }

  /** Every entry of ns is the entry of its name in m. */
  ghost predicate EntriesOf(m: KeyMap, ns: seq<NodeStats>) {
    forall e | e in ns :: e.name in m && e == Entry(m, e.name)
  }

  lemma EntriesOfSnoc(m: KeyMap, ns: seq<NodeStats>, e: NodeStats)
    requires EntriesOf(m, ns) && e.name in m && e == Entry(m, e.name)
    ensures EntriesOf(m, ns + [e])
  {
  }

  /** After the keys outside remaining are visited: one entry per visited key, each the key's Entry. */
  ghost predicate Collected(m: KeyMap, nodes: seq<NodeStats>, remaining: set<Bytes>) {
    && remaining <= m.Keys
    && |nodes| + |remaining| == |m.Keys|
    && NamesOf(nodes) == m.Keys - remaining
    && DistinctNames(nodes)
    && EntriesOf(m, nodes)
  }

  lemma CollectedStep(m: KeyMap, nodes: seq<NodeStats>, remaining: set<Bytes>, e: NodeStats)
    requires Collected(m, nodes, remaining) && e.name in remaining && e == Entry(m, e.name)
    ensures Collected(m, nodes + [e], remaining - {e.name})
  {
    DistinctNamesSnoc(nodes, e);
    EntriesOfSnoc(m, nodes, e);
  }

  /** A permutation has the same names and the same entries. */
  lemma PermutedEntries(a: seq<NodeStats>, b: seq<NodeStats>)
    requires multiset(a) == multiset(b)
    ensures NamesOf(a) == NamesOf(b)
    ensures forall e | e in b :: e in a
  {
    forall e | e in b
      ensures e in a
    {
      assert e in multiset(b);
    }
    forall e | e in a
      ensures e in b
    {
      assert e in multiset(a);
    }
  }

  /** The inner loop of Stats: the lines over all leaves of one node. */
  method CountLines(vs: seq<Leaf>) returns (lineCount: int)
    ensures lineCount == TotalLines(vs)
  {
    lineCount := 0;
    for i := 0 to |vs|
      invariant lineCount == TotalLines(vs[..i])
    {
      assert vs[..i + 1][..i] == vs[..i];
      lineCount := lineCount + |vs[i].lines|;
    }
    assert vs[..|vs|] == vs;
  }

  // ---------------------------------------------------------------------------
  // mapIndexer

  /**
   * The index: each key owns one node. Distinct keys hold distinct nodes, so updating the
   * node of one key changes no other key.
   */
  class MapIndexer {
    var keys: map<Bytes, Node>
    /** The leaves held under every key. */
    ghost var contents: KeyMap

    ghost predicate Valid()
      reads this, keys.Values
    {
      && contents.Keys == keys.Keys
      && (forall k | k in keys :: keys[k].Valid() && contents[k] == keys[k].values)
      && (forall k, k' | k in keys && k' in keys && k != k' :: keys[k] != keys[k'])
    }

    constructor ()
      ensures Valid() && contents == map[]
    {
      keys := map[];
      contents := map[];
    }

    /**
     * Index: append line{index, index+size} to the leaf of every field, creating the key's node
     * and the value's leaf when missing.
     */
    method Index(fields: seq<Field>, index: int, size: int)
      requires Valid()
      modifies this, keys.Values
      ensures Valid()
      ensures contents == IndexSpec(old(contents), fields, Line(index, index + size))
      ensures fresh(keys.Values - old(keys.Values))
    {
      var ln := Line(index, index + size);
      for n := 0 to |fields|
        invariant Valid()
        invariant contents == IndexSpec(old(contents), fields[..n], ln)
        invariant fresh(keys.Values - old(keys.Values))
      {
        IndexSpecPrefix(old(contents), fields, n, ln);
        AddFieldStep(fields[n], ln);
      }
      assert fields[..|fields|] == fields;
    }

    /** One iteration of Index: the leaf of f's value under f's key gets ln appended. */
    method AddFieldStep(f: Field, ln: Line)
      requires Valid()
      modifies this, keys.Values
      ensures Valid()
      ensures contents == AddField(old(contents), f, ln)
      ensures fresh(keys.Values - old(keys.Values))
    {
      var keyIndex := NodeFor(f.key);
      keyIndex.AppendLine(f.value, ln);
      keys := keys[f.key := keyIndex];
      contents := contents[f.key := keyIndex.values];
      forall k | k in keys
        ensures keys[k].Valid() && contents[k] == keys[k].values
      {
        if k != f.key {
          assert keys[k] == old(keys[k]) && keys[k] != keyIndex;
        }
      }
    }

    /** The node of key, or a new empty one when the key is not indexed yet. */
    method NodeFor(key: Bytes) returns (node: Node)
      requires Valid()
      ensures node.Valid() && node.values == ValuesOf(contents, key)
      ensures key in keys ==> node == keys[key]
      ensures key !in keys ==> fresh(node)
      ensures forall k | k in keys && k != key :: keys[k] != node
    {
      if key in keys {
        node := keys[key];
      } else {
        node := new Node();
      }
    }

    /**
     * Find, with a lookup that creates nothing and the AND semantics of its doc comment:
     * a line of the first field's list is kept when every other list holds a line with the
     * same startOffset.
     */
    method Find(fields: seq<Field>) returns (resp: seq<Line>)
      requires Valid() && AscendingMap(contents)
      ensures resp == FindSpec(contents, fields)
      ensures (exists j | 0 <= j < |fields| :: fields[j].key !in keys) ==> resp == []
    {
      ghost var m := contents;
      var findings: seq<seq<Line>> := [];
      for i := 0 to |fields|
        invariant Gathered(m, fields, findings) && |findings| == i
      {
        var f := fields[i];
        if f.key !in keys {
          return [];
        }
        var node := keys[f.key];
        var leaf := node.FindLeaf(f.value);
        GatheredStep(m, fields, findings, leaf);
        findings := findings + [if leaf.Some? then leaf.value.lines else []];
      }
      GatheredAll(m, fields, findings);
      if |fields| == 1 {
        KeepAll(findings, findings[0]);
        return findings[0];
      }
      resp := IntersectLines(findings);
    }

    /**
     * Stats: one entry per key with its line count and value count, sorted by line count
     * descending, then by name.
     */
    method Stats() returns (stats: Stats)
      requires Valid()
      ensures stats.nodeCount == |keys.Keys| && |stats.nodes| == |keys.Keys|
      ensures NamesOf(stats.nodes) == keys.Keys
      ensures forall e | e in stats.nodes :: e.name in keys && e == Entry(contents, e.name)
      ensures SortedStats(stats.nodes)
    {
      var nodes, nodeCount := CollectStats();
      var sorted := SortStats(nodes);
      PermutedEntries(nodes, sorted);
      stats := Summary(sorted, nodeCount);
    }

    /** The loop of Stats over the keys, in whatever order the map yields them. */
    method CollectStats() returns (nodes: seq<NodeStats>, nodeCount: int)
      requires Valid()
      ensures nodeCount == |nodes| == |keys.Keys|
      ensures NamesOf(nodes) == keys.Keys
      ensures DistinctNames(nodes)
      ensures EntriesOf(contents, nodes)
    {
      ghost var m := contents;
      nodes := [];
      nodeCount := 0;
      var remaining := keys.Keys;
      assert remaining == m.Keys;
      while remaining != {}
        invariant Collected(m, nodes, remaining)
        invariant nodeCount == |nodes|
        decreases |remaining|
      {
        var k :| k in remaining;
        var v := keys[k];
        nodeCount := nodeCount + 1;
        var lineCount := CountLines(v.values);
        var e := NodeStats(k, lineCount, v.len);
        CollectedStep(m, nodes, remaining, e);
        nodes := nodes + [e];
        remaining := remaining - {k};
      }
    }
  }
}
