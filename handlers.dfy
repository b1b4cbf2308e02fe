/**
 * The line parsers of handlers.go: the key=value text tokenizer textHandler, the
 * strategy selector defineParseStrategy, and jsonHandler as an opaque parser.
 *
 * TextFields is a reference definition written independently of the source loop: split
 * the line at every ' ' (dropping what follows the last one), then cut each token at its
 * first '='. TextHandler is the loop of handlers.go, proved to compute TextFields.
 */
module Handlers {
  import opened ByteOrder
  import opened Types

  /** Index of the first c in s, or |s| when s holds none. */
  function IndexOf(s: Bytes, c: byte): (i: nat)
    ensures i <= |s|
    ensures i < |s| ==> s[i] == c
    ensures forall k :: 0 <= k < i ==> s[k] != c
    decreases |s|
  {
    if s == [] then 0 else if s[0] == c then 0 else 1 + IndexOf(s[1..], c)
  }

  /** The space-terminated tokens of s, left to right; what follows the last ' ' is no token. */
  function Tokens(s: Bytes): seq<Bytes>
    decreases |s|
  {
    var j := IndexOf(s, Space);
    if j == |s| then [] else [s[..j]] + Tokens(s[j + 1..])
  }

  /**
   * The field of one token: split at its first '=' when it has one; otherwise the whole
   * token is the key and the value is prev, the value of the field emitted before it.
   */
  function FieldOf(t: Bytes, prev: Bytes): Field {
    var e := IndexOf(t, Equals);
    if e < |t| then Field(t[..e], t[e + 1..]) else Field(t, prev)
  }

  /** The value a token without '=' inherits: that of the last field, or nothing. */
  function LastValue(fs: seq<Field>): Bytes {
    if fs == [] then [] else fs[|fs| - 1].value
  }

  /** The fields of a token sequence, each token seeing the value of the one before. */
  function FieldsOf(ts: seq<Bytes>): (fs: seq<Field>)
    ensures |fs| == |ts|
    decreases |ts|
  {
    if ts == [] then []
    else
      var init := FieldsOf(ts[..|ts| - 1]);
      init + [FieldOf(ts[|ts| - 1], LastValue(init))]
  }

  /** What textHandler returns for a line. */
  function TextFields(line: Bytes): seq<Field> {
    FieldsOf(Tokens(line))
  }

  // ---------------------------------------------------------------------------
  // textHandler

  /** textHandler: one pass over the bytes with a cursor, a key/value flag and a reused field. */
  method TextHandler(line: Bytes) returns (fields: seq<Field>)
    ensures fields == TextFields(line)
  {
    var lineLen := |line|;
    var cur := 0;
    var isKey := true;
    var field := Field([], []);
    ghost var start := 0;
    fields := [];
    for i := 0 to lineLen
      invariant Scanned(line, i, start, cur, isKey, field, fields)
    {
      if line[i] == Space {
        ScanSpace(line, i, start, cur, isKey, field, fields);
        if isKey {
          field := field.(key := line[cur..i]);
        } else {
          field := field.(value := line[cur..i]);
        }
        isKey := true;
        cur := i + 1;
        fields := fields + [field];
        start := i + 1;
      } else if line[i] == Equals && isKey {
        ScanFirstEquals(line, i, start, cur, field, fields);
        isKey := false;
        field := field.(key := line[cur..i]);
        cur := i + 1;
      } else {
        ScanOther(line, i, start, cur, isKey, field, fields);
      }
    }
    ScanDone(line, start, cur, isKey, field, fields);
  }

  /**
   * The loop state of textHandler after i bytes: the current token began at start (after a
   * space, or at 0) and holds no space; fields are those of the tokens before it; field carries
   * the last value; isKey says no '=' has been seen in the token; otherwise cur is just past
   * the first '=' and field.key is what came before it.
   */
  ghost predicate Scanned(line: Bytes, i: nat, start: nat, cur: nat, isKey: bool, field: Field, fields: seq<Field>) {
    && start <= cur <= i <= |line|
    && (start == 0 || line[start - 1] == Space)
    && Space !in line[start..i]
    && fields == FieldsOf(Tokens(line[..start]))
    && field.value == LastValue(fields)
    && (isKey <==> Equals !in line[start..i])
    && (isKey ==> cur == start)
    && (!isKey ==> cur == start + IndexOf(line[start..i], Equals) + 1 && field.key == line[start..cur - 1])
  }

  /** A space emits the field of the token and opens a new one. */
  lemma ScanSpace(line: Bytes, i: nat, start: nat, cur: nat, isKey: bool, field: Field, fields: seq<Field>)
    requires Scanned(line, i, start, cur, isKey, field, fields)
    requires i < |line| && line[i] == Space
    ensures var f := if isKey then field.(key := line[cur..i]) else field.(value := line[cur..i]);
      Scanned(line, i + 1, i + 1, i + 1, true, f, fields + [f])
  {
    TokenClosed(line, start, i);
    FieldOfToken(line, start, cur, i, isKey, LastValue(fields));
    FieldsOfSnoc(Tokens(line[..start]), line[start..i]);
    assert line[i + 1..i + 1] == [];
  }

  /** The first '=' of a token ends its key. */
  lemma ScanFirstEquals(line: Bytes, i: nat, start: nat, cur: nat, field: Field, fields: seq<Field>)
    requires Scanned(line, i, start, cur, true, field, fields)
    requires i < |line| && line[i] == Equals
    ensures Scanned(line, i + 1, start, i + 1, false, field.(key := line[cur..i]), fields)
  {
    assert line[start..i + 1] == line[start..i] + [line[i]];
    IndexOfAppend(line[start..i], [line[i]], Equals);
    assert Space !in line[start..i + 1];
  }

  /** Any other byte, or a later '=', only extends the token. */
  lemma ScanOther(line: Bytes, i: nat, start: nat, cur: nat, isKey: bool, field: Field, fields: seq<Field>)
    requires Scanned(line, i, start, cur, isKey, field, fields)
    requires i < |line| && line[i] != Space && (line[i] != Equals || !isKey)
    ensures Scanned(line, i + 1, start, cur, isKey, field, fields)
  {
    assert line[start..i + 1] == line[start..i] + [line[i]];
    IndexOfAppend(line[start..i], [line[i]], Equals);
    assert Space !in line[start..i + 1];
  }

  /** At the end of the line the pending token is dropped. */
  lemma ScanDone(line: Bytes, start: nat, cur: nat, isKey: bool, field: Field, fields: seq<Field>)
    requires Scanned(line, |line|, start, cur, isKey, field, fields)
    ensures fields == TextFields(line)
  {
    TokensDropTail(line[..start], line[start..]);
    assert line[..start] + line[start..] == line;
  }

  /** Where the first c of a + b is. */
  lemma {:induction false} IndexOfAppend(a: Bytes, b: Bytes, c: byte)
    ensures IndexOf(a + b, c) == if c in a then IndexOf(a, c) else |a| + IndexOf(b, c)
    decreases |a|
  {
    if a == [] {
      assert a + b == b;
    } else if a[0] != c {
      assert (a + b)[1..] == a[1..] + b;
      IndexOfAppend(a[1..], b, c);
    }
  }

  /** A space at i closes the token that began at start. */
  lemma TokenClosed(line: Bytes, start: nat, i: nat)
    requires start <= i < |line| && line[i] == Space
    requires start == 0 || line[start - 1] == Space
    requires Space !in line[start..i]
    ensures Tokens(line[..i + 1]) == Tokens(line[..start]) + [line[start..i]]
  {
    assert line[..i + 1] == line[..start] + (line[start..i] + [Space]);
    TokensAppend(line[..start], line[start..i] + [Space]);
    TokenOfWord(line[start..i]);
  }

  /** The field the loop emits at the space closing line[start..i] is FieldOf that token. */
  lemma FieldOfToken(line: Bytes, start: nat, cur: nat, i: nat, isKey: bool, prev: Bytes)
    requires start <= cur <= i <= |line|
    requires isKey <==> Equals !in line[start..i]
    requires isKey ==> cur == start
    requires !isKey ==> cur == start + IndexOf(line[start..i], Equals) + 1
    ensures FieldOf(line[start..i], prev)
      == if isKey then Field(line[cur..i], prev) else Field(line[start..cur - 1], line[cur..i])
  {
    var t := line[start..i];
    var e := IndexOf(t, Equals);
    if !isKey {
      assert t[..e] == line[start..cur - 1];
      assert t[e + 1..] == line[cur..i];
    } else {
      assert e == |t|;
    }
  }

  /** One more token appends one field, which sees the value of the last one. */
  lemma FieldsOfSnoc(ts: seq<Bytes>, t: Bytes)
    ensures FieldsOf(ts + [t]) == FieldsOf(ts) + [FieldOf(t, LastValue(FieldsOf(ts)))]
  {
    assert (ts + [t])[..|ts|] == ts;
  }

  /** A word followed by a space is one token. */
  lemma TokenOfWord(t: Bytes)
    requires Space !in t
    ensures Tokens(t + [Space]) == [t]
  {
    var s := t + [Space];
    IndexOfAppend(t, [Space], Space);
    assert s[..|t|] == t;
    assert s[|t| + 1..] == [];
  }

  /** Splitting after a space splits the tokens. */
  lemma {:induction false} TokensAppend(a: Bytes, b: Bytes)
    requires a == [] || a[|a| - 1] == Space
    ensures Tokens(a + b) == Tokens(a) + Tokens(b)
    decreases |a|
  {
    if a != [] {
      var j := IndexOf(a, Space);
      var s := a + b;
      assert a[|a| - 1] in a;
      IndexOfAppend(a, b, Space);
      assert j < |a| && IndexOf(s, Space) == j;
      assert s[..j] == a[..j];
      assert s[j + 1..] == a[j + 1..] + b;
      TokensAppend(a[j + 1..], b);
      assert Tokens(a) == [a[..j]] + Tokens(a[j + 1..]);
      assert Tokens(s) == [s[..j]] + Tokens(s[j + 1..]);
    } else {
      assert a + b == b;
    }
  }

  /** Bytes after the last space add no token. */
  lemma {:induction false} TokensDropTail(a: Bytes, b: Bytes)
    requires Space !in b
    ensures Tokens(a + b) == Tokens(a)
    decreases |a|
  {
    var s := a + b;
    var j := IndexOf(a, Space);
    IndexOfAppend(a, b, Space);
    if j == |a| {
      assert Space !in a;
      assert IndexOf(s, Space) == |s|;
    } else {
      assert a[j] in a;
      assert s[..j] == a[..j];
      assert s[j + 1..] == a[j + 1..] + b;
      TokensDropTail(a[j + 1..], b);
    }
  }

  // ---------------------------------------------------------------------------
  // What textHandler promises

  /** There is one token per space byte of the line. */
  lemma {:induction false} TokensCount(s: Bytes)
    ensures |Tokens(s)| == multiset(s)[Space]
    decreases |s|
  {
    var j := IndexOf(s, Space);
    if j == |s| {
      assert Space !in multiset(s);
    } else {
      TokensCount(s[j + 1..]);
      assert s == s[..j] + [s[j]] + s[j + 1..];
      assert Space !in multiset(s[..j]);
    }
  }

  /** textHandler returns exactly one field per ' ' in the line. */
  lemma TextFieldsCount(line: Bytes)
    ensures |TextFields(line)| == multiset(line)[Space]
  {
    TokensCount(line);
  }

  /** x is a contiguous piece of s. */
  ghost predicate SliceOf(x: Bytes, s: Bytes) {
    exists a, b :: 0 <= a <= b <= |s| && s[a..b] == x
  }

  /** A piece of a piece of s is a piece of s. */
  lemma SliceOfSlice(x: Bytes, s: Bytes, a: nat, b: nat)
    requires a <= b <= |s|
    requires SliceOf(x, s[a..b])
    ensures SliceOf(x, s)
  {
    var c, d :| 0 <= c <= d <= b - a && s[a..b][c..d] == x;
    forall k | 0 <= k < d - c
      ensures s[a..b][c..d][k] == s[a + c..a + d][k]
    {
      assert s[a..b][c..d][k] == s[a..b][c + k] == s[a + c + k];
    }
    assert s[a + c..a + d] == x;
  }

  /** Every token is a space-free piece of the line. */
  lemma {:induction false} TokensArePieces(s: Bytes)
    ensures forall t | t in Tokens(s) :: Space !in t && SliceOf(t, s)
    decreases |s|
  {
    var j := IndexOf(s, Space);
    if j < |s| {
      TokensArePieces(s[j + 1..]);
      assert s[0..j] == s[..j];
      assert s[j + 1..|s|] == s[j + 1..];
      forall t | t in Tokens(s[j + 1..])
        ensures SliceOf(t, s)
      {
        SliceOfSlice(t, s, j + 1, |s|);
      }
    }
  }

  /** The key of a token is space- and '='-free; only its first '=' splits, later ones stay in the value. */
  lemma FieldOfSplit(t: Bytes, prev: Bytes)
    requires Equals in t
    ensures var f := FieldOf(t, prev);
      && f.key + [Equals] + f.value == t
      && Equals !in f.key
  {
    var e := IndexOf(t, Equals);
    assert t == t[..e] + [t[e]] + t[e + 1..];
  }

  /** A token without '=' becomes the key and keeps the previous value. */
  lemma FieldOfWord(t: Bytes, prev: Bytes)
    requires Equals !in t
    ensures FieldOf(t, prev) == Field(t, prev)
  {
  }

  /** Field i of FieldsOf is FieldOf token i with the value of field i - 1 (nothing for the first). */
  lemma {:induction false} FieldsOfAt(ts: seq<Bytes>, i: nat)
    requires i < |ts|
    ensures FieldsOf(ts)[i] == FieldOf(ts[i], if i == 0 then [] else FieldsOf(ts)[i - 1].value)
    decreases |ts|
  {
    var n := |ts|;
    var init := FieldsOf(ts[..n - 1]);
    var fs := FieldsOf(ts);
    assert fs == init + [FieldOf(ts[n - 1], LastValue(init))];
    if i < n - 1 {
      FieldsOfAt(ts[..n - 1], i);
      assert ts[..n - 1][i] == ts[i];
      assert fs[i] == init[i];
      if i > 0 {
        assert fs[i - 1] == init[i - 1];
      }
    } else if i > 0 {
      assert fs[i - 1] == init[i - 1];
    }
  }

  /** Keys and values hold no space and keys no '='; each is a piece of the line. */
  lemma TextFieldsClean(line: Bytes)
    ensures forall f | f in TextFields(line) ::
      && Space !in f.key && Space !in f.value && Equals !in f.key
      && SliceOf(f.key, line) && SliceOf(f.value, line)
  {
    TokensArePieces(line);
    assert SliceOf([], line) by {
      assert line[0..0] == [];
    }
    FieldsClean(Tokens(line), line);
  }

  /** A field is clean when its token and the inherited value are. */
  ghost predicate CleanField(f: Field, s: Bytes) {
    && Space !in f.key && Space !in f.value && Equals !in f.key
    && SliceOf(f.key, s) && SliceOf(f.value, s)
  }

  /** The field of a space-free piece of s, with a space-free inherited piece, is clean. */
  lemma FieldOfClean(t: Bytes, prev: Bytes, s: Bytes)
    requires Space !in t && SliceOf(t, s)
    requires Space !in prev && SliceOf(prev, s)
    ensures CleanField(FieldOf(t, prev), s)
  {
    var e := IndexOf(t, Equals);
    if e < |t| {
      var a, b :| 0 <= a <= b <= |s| && s[a..b] == t;
      PieceOfToken(t, s, a, b, 0, e);
      PieceOfToken(t, s, a, b, e + 1, |t|);
      assert Equals !in t[..e] by {
        assert t[..e] == t[0..e];
        NotInPiece(t[..e], Equals);
      }
    }
  }

  /** t[i..j] is a space-free piece of s when t is one. */
  lemma PieceOfToken(t: Bytes, s: Bytes, a: nat, b: nat, i: nat, j: nat)
    requires a <= b <= |s| && s[a..b] == t && Space !in t
    requires i <= j <= |t|
    ensures SliceOf(t[i..j], s) && Space !in t[i..j]
  {
    assert SliceOf(t[i..j], s[a..b]);
    SliceOfSlice(t[i..j], s, a, b);
  }

  /** A prefix before the first '=' holds none. */
  lemma NotInPiece(p: Bytes, c: byte)
    requires forall k :: 0 <= k < |p| ==> p[k] != c
    ensures c !in p
  {
  }

  /** FieldsOf of space-free pieces of s yields clean fields. */
  lemma {:induction false} FieldsClean(ts: seq<Bytes>, s: Bytes)
    requires forall t | t in ts :: Space !in t && SliceOf(t, s)
    requires SliceOf([], s)
    ensures forall f | f in FieldsOf(ts) :: CleanField(f, s)
    decreases |ts|
  {
    if ts != [] {
      var n := |ts|;
      assert forall t | t in ts[..n - 1] :: t in ts;
      FieldsClean(ts[..n - 1], s);
      var init := FieldsOf(ts[..n - 1]);
      var prev := LastValue(init);
      if init != [] {
        assert init[|init| - 1] in init;
      }
      assert ts[n - 1] in ts;
      FieldOfClean(ts[n - 1], prev, s);
      assert FieldsOf(ts) == init + [FieldOf(ts[n - 1], prev)];
    }
  }

  /** Bytes after the last space change nothing: a trailing token is never emitted. */
  lemma TextFieldsDropTail(line: Bytes, tail: Bytes)
    requires Space !in tail
    ensures TextFields(line + tail) == TextFields(line)
  {
    TokensDropTail(line, tail);
  }

  /** A line that ends in '\n', as every read line does, never yields its last token. */
  lemma NewlineTokenDropped(line: Bytes, t: Bytes)
    requires line == [] || line[|line| - 1] == Space
    requires Space !in t
    ensures TextFields(line + t + [Newline]) == TextFields(line)
  {
    assert line + t + [Newline] == line + (t + [Newline]);
    assert Space !in t + [Newline];
    TokensDropTail(line, t + [Newline]);
  }

  /** "a=b=c d " gives a = "b=c", then d with the value "b=c" carried over from a. */
  lemma TextFieldsExample()
    ensures var line: Bytes := [97, 61, 98, 61, 99, 32, 100, 32];
      TextFields(line) == [Field([97], [98, 61, 99]), Field([100], [98, 61, 99])]
  {
    TokensExample();
    FieldsExample();
  }

  /** "a=b=c d " splits into the tokens "a=b=c" and "d". */
  lemma TokensExample()
    ensures Tokens([97, 61, 98, 61, 99, 32, 100, 32]) == [[97, 61, 98, 61, 99], [100]]
  {
    var t1: Bytes, t2: Bytes := [97, 61, 98, 61, 99], [100];
    assert [97, 61, 98, 61, 99, 32, 100, 32] == (t1 + [Space]) + (t2 + [Space]);
    TokensAppend(t1 + [Space], t2 + [Space]);
    TokenOfWord(t1);
    TokenOfWord(t2);
  }

  /** The tokens "a=b=c" and "d" give a = "b=c" and d = "b=c". */
  lemma FieldsExample()
    ensures FieldsOf([[97, 61, 98, 61, 99], [100]]) == [Field([97], [98, 61, 99]), Field([100], [98, 61, 99])]
  {
    var t1: Bytes, t2: Bytes := [97, 61, 98, 61, 99], [100];
    var f1 := Field([97], [98, 61, 99]);
    assert IndexOf(t1, Equals) == 1;
    assert t1[..1] == [97] && t1[2..] == [98, 61, 99];
    assert FieldOf(t1, []) == f1;
    FieldsOfSnoc([], t1);
    assert [] + [t1] == [t1];
    FieldsOfSnoc([t1], t2);
    assert [t1] + [t2] == [t1, t2];
    assert FieldOf(t2, f1.value) == Field([100], [98, 61, 99]);
  }

  // ---------------------------------------------------------------------------
  // defineParseStrategy

  /** The two parser handlers a session can hold. */
  datatype Strategy = Json | Text

  /** defineParseStrategy: JSON when the first byte is '{', text for anything else. */
  function DefineParseStrategy(line: Bytes): (s: Strategy)
    requires |line| > 0
    ensures s == Json <==> line[0] == LeftBrace
    ensures s == Text <==> line[0] != LeftBrace
  {
    if line[0] == LeftBrace then Json else Text
  }

  /** What the held strategy's handler returns for line; json stands for jsonHandler. */
  function Parsed(strategy: Strategy, json: Bytes -> seq<Field>, line: Bytes): seq<Field>
  {
    match strategy
    case Json => json(line)
    case Text => TextFields(line)
  }

  /**
   * Run the held strategy on a line. jsonHandler, a call into fastjson, is the parameter json.
   */
  method Parse(strategy: Strategy, json: Bytes -> seq<Field>, line: Bytes) returns (fields: seq<Field>)
    ensures strategy == Json ==> fields == json(line)
    ensures strategy == Text ==> fields == TextFields(line)
  {
    if strategy == Json {
      fields := json(line);
    } else {
      fields := TextHandler(line);
    }
  }
}
