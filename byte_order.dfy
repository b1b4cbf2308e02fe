/** Bytes and the lexicographic order that Go's bytes.Compare and strings.Compare implement. */
module ByteOrder {

  /** One byte of a log line. */
  newtype byte = x: int | 0 <= x < 256

  /** A byte slice; keys, values and raw log text are all byte strings. */
  type Bytes = seq<byte>

  const Newline: byte := 10
  const Space: byte := 32
  const Equals: byte := 61
  const LeftBrace: byte := 123

  /**
   * bytes.Compare: -1 when a sorts before b, 0 when they are equal, 1 when a sorts after b.
   * A proper prefix sorts before the longer string.
   */
  function Compare(a: Bytes, b: Bytes): (c: int)
    ensures c == -1 || c == 0 || c == 1
    ensures c == 0 <==> a == b
    decreases |a|
  {
    if |a| == 0 then (if |b| == 0 then 0 else -1)
    else if |b| == 0 then 1
    else if a[0] < b[0] then -1
    else if a[0] > b[0] then 1
    else
      var c := Compare(a[1..], b[1..]);
      assert a == [a[0]] + a[1..] && b == [b[0]] + b[1..];
      c
  }

  /** bytes.Compare(a, b) == -1: a sorts strictly before b. */
  predicate Less(a: Bytes, b: Bytes) {
    Compare(a, b) < 0
  }

  /** Swapping the operands negates the comparison. */
  lemma {:induction false} CompareAntisymmetric(a: Bytes, b: Bytes)
    ensures Compare(a, b) == -Compare(b, a)
    decreases |a|
  {
    if |a| > 0 && |b| > 0 && a[0] == b[0] {
      CompareAntisymmetric(a[1..], b[1..]);
    }
  }

  lemma {:induction false} LessTransitive(a: Bytes, b: Bytes, c: Bytes)
    requires Less(a, b) && Less(b, c)
    ensures Less(a, c)
    decreases |a|
  {
    if |a| > 0 && |b| > 0 && |c| > 0 && a[0] == b[0] && b[0] == c[0] {
      LessTransitive(a[1..], b[1..], c[1..]);
    }
  }

  /** Less is a strict total order on byte strings: irreflexive, asymmetric, transitive and connected. */
  lemma LessIsStrictTotalOrder(a: Bytes, b: Bytes, c: Bytes)
    ensures !Less(a, a)
    ensures Less(a, b) ==> !Less(b, a)
    ensures Less(a, b) && Less(b, c) ==> Less(a, c)
    ensures a != b ==> Less(a, b) || Less(b, a)
  {
    CompareAntisymmetric(a, b);
    if Less(a, b) && Less(b, c) {
      LessTransitive(a, b, c);
    }
  }

  /** A non-empty extension sorts after the string it extends. */
  lemma {:induction false} PrefixIsLess(a: Bytes, b: Bytes)
    requires |b| > 0
    ensures Less(a, a + b)
    decreases |a|
  {
    if |a| > 0 {
      assert (a + b)[1..] == a[1..] + b;
      PrefixIsLess(a[1..], b);
    }
  }
}
