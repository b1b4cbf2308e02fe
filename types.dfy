/**
 * The value types of the field index (line, field, leaf), the two iterative binary searches,
 * the shifting insertion into a leaf slice, and the per-key value node.
 */
module Types {
  import opened ByteOrder

  datatype Option<T> = None | Some(value: T)

  /** A log line: the byte range [startOffset, endOffset) of the raw buffer it occupies. */
  datatype Line = Line(startOffset: int, endOffset: int)

  /** A parsed key=value pair. */
  datatype Field = Field(key: Bytes, value: Bytes)

  /** One distinct value of a key together with the lines in which it occurred. */
  datatype Leaf = Leaf(value: Bytes, lines: seq<Line>)

  /** leafs.Less: leaf i sorts before leaf j when bytes.Compare of their values is -1. */
  predicate LeafsLess(l: seq<Leaf>, i: nat, j: nat)
    requires i < |l| && j < |l|
  {
    Compare(l[i].value, l[j].value) == -1
  }

  /** The node invariant: values strictly increasing in byte order, so no value occurs twice. */
  ghost predicate StrictlySorted(vs: seq<Leaf>) {
    forall i, j :: 0 <= i < j < |vs| ==> Less(vs[i].value, vs[j].value)
  }

  /** A line list ordered by startOffset (equal offsets allowed). */
  ghost predicate Ascending(ls: seq<Line>) {
    forall i, j :: 0 <= i < j < |ls| ==> ls[i].startOffset <= ls[j].startOffset
  }

  /** A line list whose startOffsets strictly increase. */
  ghost predicate StrictlyAscending(ls: seq<Line>) {
    forall i, j :: 0 <= i < j < |ls| ==> ls[i].startOffset < ls[j].startOffset
  }

  /** The sort order of a leaf slice is exactly the pairwise leafs.Less relation. */
  lemma StrictlySortedByLeafsLess(vs: seq<Leaf>)
    ensures StrictlySorted(vs) <==> forall i, j :: 0 <= i < j < |vs| ==> LeafsLess(vs, i, j)
  {
    forall i, j | 0 <= i < j < |vs|
      ensures Less(vs[i].value, vs[j].value) <==> LeafsLess(vs, i, j)
    {
      var c := Compare(vs[i].value, vs[j].value);
      assert c == -1 || c == 0 || c == 1;
    }
  }

  /**
   * leafs.binarySearch. Returns the index at which v is, or at which it would have to be
   * inserted to keep the slice sorted, and the leaf holding v when there is one.
   */
  method LeafsBinarySearch(leafs: seq<Leaf>, v: Bytes) returns (index: nat, leaf: Option<Leaf>)
    requires StrictlySorted(leafs)
    ensures index <= |leafs|
    ensures forall k :: 0 <= k < index ==> Less(leafs[k].value, v)
    ensures forall k :: index < k < |leafs| ==> Less(v, leafs[k].value)
    ensures leaf.Some? <==> index < |leafs| && leafs[index].value == v
    ensures leaf.Some? ==> leaf.value == leafs[index]
    ensures leaf.None? && index < |leafs| ==> Less(v, leafs[index].value)
    ensures leaf.None? ==> forall k :: 0 <= k < |leafs| ==> leafs[k].value != v
  {
    var n := |leafs|;
    if n == 0 {
      return 0, None;
    }
    if n == 1 {
      index, leaf := Settle(leafs, v, 0);
      return;
    }
    var low, high := 0, n - 1;
    while true
      invariant 0 <= low < high < n
      invariant forall k :: 0 <= k < low ==> Less(leafs[k].value, v)
      invariant forall k :: high < k < n ==> Less(v, leafs[k].value)
      decreases high - low
    {
      var mid := (low + high) / 2;
      var c := Compare(v, leafs[mid].value);
      if c == 0 {
        FoundFacts(leafs, v, mid);
        return mid, Some(leafs[mid]);
      } else if c == 1 {
        CompareAntisymmetric(v, leafs[mid].value);
        forall k | 0 <= k < mid
          ensures Less(leafs[k].value, v)
        {
          LessTransitive(leafs[k].value, leafs[mid].value, v);
        }
        low := mid + 1;
      } else {
        forall k | mid < k < n
          ensures Less(v, leafs[k].value)
        {
          LessTransitive(v, leafs[mid].value, leafs[k].value);
        }
        high := mid - 1;
      }
      if high <= low {
        index, leaf := Settle(leafs, v, low);
        return;
      }
    }
  }

  /**
   * The last comparison of leafs.binarySearch, once the range has narrowed to slot low: a hit
   * there, or the insertion point just before or just after it.
   */
  method Settle(leafs: seq<Leaf>, v: Bytes, low: nat) returns (index: nat, leaf: Option<Leaf>)
    requires low < |leafs|
    requires forall k :: 0 <= k < low ==> Less(leafs[k].value, v)
    requires forall k :: low < k < |leafs| ==> Less(v, leafs[k].value)
    ensures index <= |leafs|
    ensures forall k :: 0 <= k < index ==> Less(leafs[k].value, v)
    ensures forall k :: index < k < |leafs| ==> Less(v, leafs[k].value)
    ensures leaf.Some? <==> index < |leafs| && leafs[index].value == v
    ensures leaf.Some? ==> leaf.value == leafs[index]
    ensures leaf.None? && index < |leafs| ==> Less(v, leafs[index].value)
    ensures leaf.None? ==> forall k :: 0 <= k < |leafs| ==> leafs[k].value != v
  {
    var c := Compare(v, leafs[low].value);
    CompareAntisymmetric(v, leafs[low].value);
    if c == 0 {
      return low, Some(leafs[low]);
    }
    MissFacts(leafs, v, low);
    if c == 1 {
      return low + 1, None;
    } else {
      return low, None;
    }
  }

  /** A hit in a strictly sorted slice: everything before sorts below v, everything after above. */
  lemma FoundFacts(leafs: seq<Leaf>, v: Bytes, i: nat)
    requires StrictlySorted(leafs)
    requires i < |leafs| && leafs[i].value == v
    ensures forall k :: 0 <= k < i ==> Less(leafs[k].value, v)
    ensures forall k :: i < k < |leafs| ==> Less(v, leafs[k].value)
  {
  }

  /** Every slot sorting strictly below or above v holds some other value. */
  lemma MissFacts(leafs: seq<Leaf>, v: Bytes, i: nat)
    requires i < |leafs| && leafs[i].value != v
    requires forall k :: 0 <= k < i ==> Less(leafs[k].value, v)
    requires forall k :: i < k < |leafs| ==> Less(v, leafs[k].value)
    ensures forall k :: 0 <= k < |leafs| ==> leafs[k].value != v
  {
    LessIsStrictTotalOrder(v, v, v);
  }

  /**
   * lines.binarySearch: the same search over startOffset. On a list where offsets may repeat
   * a hit is some line with that offset; a miss gives the insertion point.
   */
  method LinesBinarySearch(lines: seq<Line>, value: int) returns (index: nat, line: Option<Line>)
    requires Ascending(lines)
    ensures index <= |lines|
    ensures line.Some? ==> index < |lines| && line.value == lines[index] && lines[index].startOffset == value
    ensures line.None? ==> forall k :: 0 <= k < index ==> lines[k].startOffset < value
    ensures line.None? ==> forall k :: index <= k < |lines| ==> value < lines[k].startOffset
    ensures StrictlyAscending(lines) ==> index == LinesPosition(lines, value)
  {
    index, line := LinesSearch(lines, value);
    if StrictlyAscending(lines) {
      if line.Some? {
        forall k | 0 <= k < index
          ensures lines[k].startOffset < value
        {
        }
      }
      LinesPositionCharacterized(lines, value, index);
    }
  }

  /** The binary search loop of lines.binarySearch. */
  method LinesSearch(lines: seq<Line>, value: int) returns (index: nat, line: Option<Line>)
    requires Ascending(lines)
    ensures index <= |lines|
    ensures line.Some? ==> index < |lines| && line.value == lines[index] && lines[index].startOffset == value
    ensures line.None? ==> forall k :: 0 <= k < index ==> lines[k].startOffset < value
    ensures line.None? ==> forall k :: index <= k < |lines| ==> value < lines[k].startOffset
  {
    var n := |lines|;
    if n == 0 {
      return 0, None;
    }
    if n == 1 {
      if value == lines[0].startOffset {
        return 0, Some(lines[0]);
      }
      if value > lines[0].startOffset {
        return 1, None;
      } else {
        return 0, None;
      }
    }
    var low, high := 0, n - 1;
    while true
      invariant 0 <= low < high < n
      invariant forall k :: 0 <= k < low ==> lines[k].startOffset < value
      invariant forall k :: high < k < n ==> value < lines[k].startOffset
      decreases high - low
    {
      var mid := (low + high) / 2;
      if value == lines[mid].startOffset {
        return mid, Some(lines[mid]);
      }
      if value > lines[mid].startOffset {
        low := mid + 1;
      } else {
        high := mid - 1;
      }
      if high <= low {
        if value == lines[low].startOffset {
          return low, Some(lines[low]);
        }
        if value > lines[low].startOffset {
          return low + 1, None;
        } else {
          return low, None;
        }
      }
    }
  }

  /** The first index whose line does not start before value: where value belongs in lines. */
  function LinesPosition(lines: seq<Line>, value: int): (i: nat)
    ensures i <= |lines|
    ensures forall k :: 0 <= k < i ==> lines[k].startOffset < value
    ensures i < |lines| ==> value <= lines[i].startOffset
  {
    if lines == [] || value <= lines[0].startOffset then 0 else 1 + LinesPosition(lines[1..], value)
  }

  /** Any index with the insertion-point property is the LinesPosition. */
  lemma LinesPositionCharacterized(lines: seq<Line>, value: int, i: nat)
    requires i <= |lines|
    requires forall k :: 0 <= k < i ==> lines[k].startOffset < value
    requires i < |lines| ==> value <= lines[i].startOffset
    ensures LinesPosition(lines, value) == i
  {
  }

  /**
   * leafs.insertAt with size == len(a): a slot is appended, the tail from index on is shifted
   * one place right, and value is written into the freed slot.
   */
  method LeafsInsertAt(a: seq<Leaf>, index: int, value: Leaf, size: int) returns (r: seq<Leaf>)
    requires size == |a| && 0 <= index <= size
    ensures |r| == size + 1 && r[index] == value
    ensures r[..index] == a[..index] && r[index + 1..] == a[index..]
  {
    if size == index {
      return a + [value];
    }
    var b := new Leaf[size + 1](j => if 0 <= j < size then a[j] else value);
    var k := size;
    while k > index
      invariant index <= k <= size
      invariant forall j :: 0 <= j < k ==> b[j] == a[j]
      invariant forall j :: k < j <= size ==> b[j] == a[j - 1]
    {
      b[k] := b[k - 1];
      k := k - 1;
    }
    b[index] := value;
    r := b[..];
  }

  /**
   * Where v belongs in vs: the number of leading leaves whose value sorts before v. On a
   * strictly sorted slice this is the index a binary search for v returns.
   */
  function Position(vs: seq<Leaf>, v: Bytes): (i: nat)
    ensures i <= |vs|
    ensures forall k {:trigger Less(vs[k].value, v)} :: 0 <= k < i ==> Less(vs[k].value, v)
    ensures i < |vs| ==> !Less(vs[i].value, v)
  {
    if vs == [] || !Less(vs[0].value, v) then 0 else 1 + Position(vs[1..], v)
  }

  /** Any index with the insertion-point property is the Position. */
  lemma PositionCharacterized(vs: seq<Leaf>, v: Bytes, i: nat)
    requires i <= |vs|
    requires forall k :: 0 <= k < i ==> Less(vs[k].value, v)
    requires i < |vs| ==> !Less(vs[i].value, v)
    ensures Position(vs, v) == i
  {
  }

  /**
   * The leaf slice after findOrCreateLeaf(v): unchanged when v is already at its position,
   * otherwise a fresh leaf with no lines inserted there.
   */
  function Upsert(vs: seq<Leaf>, v: Bytes): (u: seq<Leaf>)
    ensures Position(vs, v) < |u| && u[Position(vs, v)].value == v
    ensures Position(u, v) == Position(vs, v)
  {
    var i := Position(vs, v);
    if i < |vs| && vs[i].value == v then vs
    else
      var u := vs[..i] + [Leaf(v, [])] + vs[i..];
      PositionCharacterized(u, v, i);
      u
  }

  /** Without a leaf for v, findOrCreateLeaf inserts an empty one at v's Position. */
  lemma UpsertAbsent(vs: seq<Leaf>, v: Bytes)
    requires !(Position(vs, v) < |vs| && vs[Position(vs, v)].value == v)
    ensures Upsert(vs, v) == vs[..Position(vs, v)] + [Leaf(v, [])] + vs[Position(vs, v)..]
  {
  }

  /** The leaf slice after findOrCreateLeaf(v) and appending ln to that leaf's lines. */
  function AddLine(vs: seq<Leaf>, v: Bytes, ln: Line): (r: seq<Leaf>)
    ensures var p := Position(vs, v);
      && p < |r| && r[p].value == v
      && |r[p].lines| > 0 && r[p].lines[|r[p].lines| - 1] == ln
  {
    var u := Upsert(vs, v);
    var p := Position(vs, v);
    u[p := Leaf(v, u[p].lines + [ln])]
  }

  /** The leaf holding v, searched front to back: the reference for lookups. */
  function LeafFor(vs: seq<Leaf>, v: Bytes): (r: Option<Leaf>)
    ensures r.Some? ==> r.value in vs && r.value.value == v
    ensures r.None? ==> forall k :: 0 <= k < |vs| ==> vs[k].value != v
  {
    if vs == [] then None
    else if vs[0].value == v then Some(vs[0])
    else LeafFor(vs[1..], v)
  }

  /** On a sorted slice, a value already present sits at its Position and Upsert leaves the slice alone. */
  lemma UpsertExisting(vs: seq<Leaf>, v: Bytes, j: nat)
    requires StrictlySorted(vs)
    requires j < |vs| && vs[j].value == v
    ensures Position(vs, v) == j
    ensures Upsert(vs, v) == vs
  {
    PositionCharacterized(vs, v, j);
  }

  /** A new value adds exactly one leaf, with a copy of the value and no lines, at its Position. */
  lemma UpsertNew(vs: seq<Leaf>, v: Bytes)
    requires forall k :: 0 <= k < |vs| ==> vs[k].value != v
    ensures var p := Position(vs, v);
      Upsert(vs, v) == vs[..p] + [Leaf(v, [])] + vs[p..]
    ensures |Upsert(vs, v)| == |vs| + 1
  {
  }

  /** findOrCreateLeaf keeps the values strictly sorted, hence free of duplicates. */
  lemma UpsertSorted(vs: seq<Leaf>, v: Bytes)
    requires StrictlySorted(vs)
    ensures StrictlySorted(Upsert(vs, v))
  {
    var p := Position(vs, v);
    if !(p < |vs| && vs[p].value == v) {
      var u := Upsert(vs, v);
      if p < |vs| {
        LessIsStrictTotalOrder(v, vs[p].value, v);
        forall k | p <= k < |vs|
          ensures Less(v, vs[k].value)
        {
          if k > p {
            LessTransitive(v, vs[p].value, vs[k].value);
          }
        }
      }
      forall i, j | 0 <= i < j < |u|
        ensures Less(u[i].value, u[j].value)
      {
        if i < p && j > p {
          assert u[j] == vs[j - 1];
        }
      }
    }
  }

  /** Calling findOrCreateLeaf twice with the same value adds at most one leaf. */
  lemma UpsertIdempotent(vs: seq<Leaf>, v: Bytes)
    ensures Upsert(Upsert(vs, v), v) == Upsert(vs, v)
    ensures |vs| <= |Upsert(vs, v)| <= |vs| + 1
  {
  }

  /** On a sorted slice the front-to-back lookup finds the leaf at any index holding v. */
  lemma {:induction false} LeafForAt(vs: seq<Leaf>, v: Bytes, j: nat)
    requires StrictlySorted(vs)
    requires j < |vs| && vs[j].value == v
    ensures LeafFor(vs, v) == Some(vs[j])
  {
    if j > 0 {
      assert Less(vs[0].value, vs[j].value);
      LeafForAt(vs[1..], v, j - 1);
    }
  }

  /** On a sorted slice, a value not at its Position is not there at all. */
  lemma LeafForAbsent(vs: seq<Leaf>, v: Bytes)
    requires StrictlySorted(vs)
    requires !(Position(vs, v) < |vs| && vs[Position(vs, v)].value == v)
    ensures LeafFor(vs, v) == None
  {
    if LeafFor(vs, v).Some? {
      var i :| 0 <= i < |vs| && vs[i] == LeafFor(vs, v).value;
      UpsertExisting(vs, v, i);
      assert false;
    }
  }

  /**
   * node: the sorted leaves of one key, and len, a cached count of them.
   */
  class Node {
    var values: seq<Leaf>
    var len: int

    ghost predicate Valid()
      reads this
    {
      len == |values| && StrictlySorted(values)
    }

    constructor ()
      ensures Valid() && values == []
    {
      values := [];
      len := 0;
    }

    /** node.insertAt: insert a leaf holding a copy of value and no lines at index. */
    method InsertAt(index: int, value: Bytes) returns (leaf: Leaf)
      requires len == |values| && 0 <= index <= len
      modifies this
      ensures values == old(values)[..index] + [Leaf(value, [])] + old(values)[index..]
      ensures len == old(len) + 1
      ensures leaf == values[index]
    {
      var created := Leaf(value, []);
      values := LeafsInsertAt(values, index, created, len);
      len := len + 1;
      leaf := values[index];
    }

    /**
     * node.findOrCreateLeaf: the leaf for value, created when missing. Returns its index
     * (where the source returns a pointer into the slice) and the leaf.
     */
    method FindOrCreateLeaf(value: Bytes) returns (index: nat, leaf: Leaf)
      requires Valid()
      modifies this
      ensures Valid()
      ensures values == Upsert(old(values), value)
      ensures index == Position(old(values), value) == Position(values, value)
      ensures index < |values| && leaf == values[index] && leaf.value == value
    {
      var i, found := LeafsBinarySearch(values, value);
      if i < |values| && found.None? {
        CompareAntisymmetric(value, values[i].value);
      }
      PositionCharacterized(values, value, i);
      if found.None? {
        UpsertSorted(values, value);
        leaf := InsertAt(i, value);
      } else {
        leaf := found.value;
      }
      index := i;
    }

    /** The body of one Index iteration on this node: findOrCreateLeaf, then append ln to the leaf's lines. */
    method AppendLine(value: Bytes, ln: Line)
      requires Valid()
      modifies this
      ensures Valid()
      ensures values == AddLine(old(values), value, ln)
    {
      var p, leaf := FindOrCreateLeaf(value);
      var updated := values[p := Leaf(leaf.value, leaf.lines + [ln])];
      assert StrictlySorted(updated) by {
        assert forall i | 0 <= i < |updated| :: updated[i].value == values[i].value;
      }
      values := updated;
    }

    /** The lookup-only counterpart of FindOrCreateLeaf used by queries: it changes nothing. */
    method FindLeaf(value: Bytes) returns (leaf: Option<Leaf>)
      requires Valid()
      ensures leaf == LeafFor(values, value)
    {
      var i, found := LeafsBinarySearch(values, value);
      if found.Some? {
        LeafForAt(values, value, i);
      }
      leaf := found;
    }
  }
}
