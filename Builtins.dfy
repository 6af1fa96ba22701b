/**
 * The JavaScript built-ins the core relies on, with their ECMAScript semantics
 * written out: `String.prototype.split` and `Array.prototype.join` for a
 * one-character separator, `slice` with its clamping of negative and
 * out-of-range indices, `indexOf` and `splice`.
 * Strings are sequences of `char`; JavaScript's UTF-16 code units are not
 * distinguished from characters.
 */
module Builtins {

  /** `s.split(sep)`: the fields between separators; never empty (`''.split('/')` is `['']`). */
  function Split(s: string, sep: char): (r: seq<string>)
    ensures |r| >= 1
    ensures forall i :: 0 <= i < |r| ==> sep !in r[i]
    decreases |s|
  {
    if s == [] then [[]]
    else
      var rest := Split(s[1..], sep);
      if s[0] == sep then [[]] + rest
      else [[s[0]] + rest[0]] + rest[1..]
  }

  /**
   * `parts.join(sep)`: `[]` gives `''`, a single part is returned as it is;
   * otherwise the result starts with the first part followed by `sep`.
   */
  function Join(parts: seq<string>, sep: char): (r: string)
    ensures parts == [] ==> r == []
    ensures |parts| == 1 ==> r == parts[0]
    ensures |parts| > 1 ==> parts[0] + [sep] <= r
  {
    if |parts| == 0 then []
    else if |parts| == 1 then parts[0]
    else parts[0] + [sep] + Join(parts[1..], sep)
  }

  /** Joining the fields of a split gives back the string. */
  lemma {:induction false} JoinSplit(s: string, sep: char)
    ensures Join(Split(s, sep), sep) == s
    decreases |s|
  {
    if s != [] {
      var rest := Split(s[1..], sep);
      JoinSplit(s[1..], sep);
      if s[0] == sep {
        assert ([[]] + rest)[1..] == rest;
      } else if |rest| > 1 {
        var r := [[s[0]] + rest[0]] + rest[1..];
        assert r[1..] == rest[1..];
        assert s == [s[0]] + s[1..];
      }
    }
  }

  /** A string without the separator is its own single field. */
  lemma {:induction false} SplitNoSeparator(s: string, sep: char)
    requires sep !in s
    ensures Split(s, sep) == [s]
    decreases |s|
  {
    if s != [] {
      SplitNoSeparator(s[1..], sep);
      assert [s[0]] + s[1..] == s;
    }
  }

  /** A separator-free prefix is glued to the first field of the rest. */
  lemma {:induction false} SplitPrepend(w: string, s: string, sep: char)
    requires sep !in w
    ensures Split(w + s, sep) == [w + Split(s, sep)[0]] + Split(s, sep)[1..]
    decreases |w|
  {
    var S := Split(s, sep);
    if w == [] {
      assert w + s == s;
      assert w + S[0] == S[0];
      assert [S[0]] + S[1..] == S;
    } else {
      SplitPrepend(w[1..], s, sep);
      assert w + s == [w[0]] + (w[1..] + s);
      SplitPrependStep(w[0], w[1..] + s, w[1..], S, sep);
      assert [w[0]] + w[1..] == w;
    }
  }

  /** The inductive step of `SplitPrepend`: one more non-separator in front. */
  lemma SplitPrependStep(c: char, y: string, h: string, fs: seq<string>, sep: char)
    requires c != sep && |fs| >= 1
    requires Split(y, sep) == [h + fs[0]] + fs[1..]
    ensures Split([c] + y, sep) == [[c] + h + fs[0]] + fs[1..]
  {
    var r := Split(y, sep);
    SplitCons(c, y, sep);
    assert r[0] == h + fs[0];
    assert r[1..] == fs[1..];
    assert [c] + (h + fs[0]) == [c] + h + fs[0];
  }

  /** A leading separator opens an empty first field. */
  lemma SplitLeadingSeparator(s: string, sep: char)
    ensures Split([sep] + s, sep) == [[]] + Split(s, sep)
  {
    assert ([sep] + s)[1..] == s;
  }

  /** The first field of a join is its first part when that part has no separator. */
  lemma SplitJoinFirst(parts: seq<string>, sep: char)
    requires |parts| >= 1 && sep !in parts[0]
    ensures Split(Join(parts, sep), sep)[0] == parts[0]
  {
    if |parts| == 1 {
      SplitNoSeparator(parts[0], sep);
    } else {
      var tail := Join(parts[1..], sep);
      var rest := Split([sep] + tail, sep);
      assert Join(parts, sep) == parts[0] + ([sep] + tail);
      SplitPrepend(parts[0], [sep] + tail, sep);
      SplitLeadingSeparator(tail, sep);
      assert rest[0] == [];
      assert parts[0] + rest[0] == parts[0];
    }
  }

  /** Splitting the join of separator-free parts gives back the parts. */
  lemma {:induction false} SplitJoin(parts: seq<string>, sep: char)
    requires |parts| >= 1
    requires forall i :: 0 <= i < |parts| ==> sep !in parts[i]
    ensures Split(Join(parts, sep), sep) == parts
    decreases |parts|
  {
    if |parts| == 1 {
      SplitNoSeparator(parts[0], sep);
    } else {
      var tail := Join(parts[1..], sep);
      SplitJoin(parts[1..], sep);
      SplitPrepend(parts[0], [sep] + tail, sep);
      SplitLeadingSeparator(tail, sep);
      assert Join(parts, sep) == parts[0] + ([sep] + tail);
      assert Split([sep] + tail, sep)[0] == [];
      assert Split([sep] + tail, sep)[1..] == parts[1..];
      assert parts[0] + [] == parts[0];
      assert [parts[0]] + parts[1..] == parts;
    }
  }

  /** A string is its first field, then, when there are more fields, the separator and the join of the others. */
  lemma SplitFirst(s: string, sep: char)
    ensures sep !in Split(s, sep)[0]
    ensures |Split(s, sep)| == 1 ==> s == Split(s, sep)[0]
    ensures |Split(s, sep)| > 1 ==>
      && s == Split(s, sep)[0] + [sep] + Join(Split(s, sep)[1..], sep)
      && Split(Join(Split(s, sep)[1..], sep), sep) == Split(s, sep)[1..]
  {
    var f := Split(s, sep);
    JoinSplit(s, sep);
    if |f| > 1 {
      SplitJoin(f[1..], sep);
    }
  }

  /** One step of `Split`: the first character either closes an empty field or opens the first field. */
  lemma SplitCons(c: char, t: string, sep: char)
    ensures Split([c] + t, sep) ==
      if c == sep then [[]] + Split(t, sep) else [[c] + Split(t, sep)[0]] + Split(t, sep)[1..]
  {
    assert ([c] + t)[0] == c;
    assert ([c] + t)[1..] == t;
  }

  /** Splitting at a separator splits the two sides independently. */
  lemma {:induction false} SplitAtSeparator(a: string, b: string, sep: char)
    ensures Split(a + [sep] + b, sep) == Split(a, sep) + Split(b, sep)
    decreases |a|
  {
    if a == [] {
      assert a + [sep] + b == [sep] + b;
      SplitCons(sep, b, sep);
    } else {
      SplitAtSeparator(a[1..], b, sep);
      assert a == [a[0]] + a[1..];
      assert a + [sep] + b == [a[0]] + (a[1..] + [sep] + b);
      SplitAtSeparatorStep(a[0], a[1..], a[1..] + [sep] + b, Split(b, sep), sep);
    }
  }

  /** The inductive step of `SplitAtSeparator`: one more character in front. */
  lemma SplitAtSeparatorStep(c: char, t: string, x: string, fb: seq<string>, sep: char)
    requires |fb| >= 1
    requires Split(x, sep) == Split(t, sep) + fb
    ensures Split([c] + x, sep) == Split([c] + t, sep) + fb
  {
    SplitCons(c, x, sep);
    SplitCons(c, t, sep);
    if c == sep {
      FieldsPrepend([], Split(t, sep), fb);
    } else {
      FieldsExtend([c], Split(t, sep), fb);
    }
  }

  /** Sequence algebra for a new first field. */
  lemma FieldsPrepend(h: string, fa: seq<string>, fb: seq<string>)
    ensures [h] + (fa + fb) == ([h] + fa) + fb
  {
  }

  /** Sequence algebra for a first field grown at its front. */
  lemma FieldsExtend(h: string, fa: seq<string>, fb: seq<string>)
    requires |fa| >= 1
    ensures [h + (fa + fb)[0]] + (fa + fb)[1..] == ([h + fa[0]] + fa[1..]) + fb
  {
    assert (fa + fb)[0] == fa[0];
    assert (fa + fb)[1..] == fa[1..] + fb;
  }

  /** The last field of a split is the text after the last separator. */
  lemma LastField(s: string, sep: char, j: int)
    requires 0 <= j < |s| && s[j] == sep && sep !in s[j + 1..]
    ensures Split(s, sep)[|Split(s, sep)| - 1] == s[j + 1..]
  {
    assert s == s[..j] + [sep] + s[j + 1..];
    SplitAtSeparator(s[..j], s[j + 1..], sep);
    SplitNoSeparator(s[j + 1..], sep);
  }

  /** An index argument of `slice`/`splice` resolved against a length: negative counts from the end. */
  function RelativeIndex(i: int, len: nat): (r: nat)
    ensures r <= len
    ensures 0 <= i <= len ==> r == i
    ensures -(len as int) <= i < 0 ==> r == len + i
  {
    if i < 0 then (if len + i < 0 then 0 else len + i)
    else if i > len then len
    else i
  }

  /** `s.slice(start, end)`. */
  function Slice(s: string, start: int, end: int): (r: string)
    ensures |r| <= |s|
    ensures 0 <= start <= end <= |s| ==> r == s[start..end]
    ensures 0 <= end <= start ==> r == []
  {
    var from := RelativeIndex(start, |s|);
    var to := RelativeIndex(end, |s|);
    if from < to then s[from..to] else []
  }

  /** `s.indexOf(x)`: the first position of `x`, or -1. */
  function IndexOf<T(==)>(s: seq<T>, x: T): (i: int)
    ensures -1 <= i < |s|
    ensures i == -1 <==> x !in s
    ensures 0 <= i ==> s[i] == x && x !in s[..i]
  {
    if s == [] then -1
    else if s[0] == x then 0
    else
      var j := IndexOf(s[1..], x);
      if j == -1 then -1 else j + 1
  }

  /** `s.lastIndexOf(x)`: the last position of `x`, or -1. */
  function LastIndexOf<T(==)>(s: seq<T>, x: T): (i: int)
    ensures -1 <= i < |s|
    ensures i == -1 <==> x !in s
    ensures 0 <= i ==> s[i] == x && x !in s[i + 1..]
  {
    if s == [] then -1
    else if s[|s| - 1] == x then |s| - 1
    else
      var i := LastIndexOf(s[..|s| - 1], x);
      assert s[..|s| - 1] + [s[|s| - 1]] == s;
      i
  }

  /** The array `s` after `s.splice(start, deleteCount)` (no items inserted). */
  function Splice<T>(s: seq<T>, start: int, deleteCount: int): (r: seq<T>)
    ensures |r| <= |s|
    ensures 0 <= start < |s| && deleteCount == 1 ==> r == s[..start] + s[start + 1..]
    ensures -|s| <= start < 0 && deleteCount == 1 ==> r == s[..|s| + start] + s[|s| + start + 1..]
    ensures s == [] ==> r == []
  {
    var from := RelativeIndex(start, |s|);
    var count := if deleteCount < 0 then 0 else if deleteCount > |s| - from then |s| - from else deleteCount;
    s[..from] + s[from + count..]
  }
}
