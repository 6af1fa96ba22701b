/**
 * Path validation and conversion (src/lib/Path.ts).
 *
 * A relative path is a `/`-separated list of segments. `isValidPath` accepts
 * the empty path and the language of the regular expression
 * `^([\w\däöü\-() ]+\/)*([\w\däöü\-() ]+(\.[\w\däöü\-()]+)*)$` with the
 * case-insensitive flag. The model gives that language twice: as a finite
 * automaton that accepts the same language (`Scan`) and as a reading
 * segment by segment (`WellFormedPath`), and proves the two agree.
 */
module Paths {
  import opened Wrappers
  import opened Builtins

  /** The directory every full path lives under. */
  const Root: string := "cloud"

  /** A character of a segment name: `[\w\däöü\-() ]` matched case-insensitively. */
  predicate IsNameChar(c: char)
  {
    || 'a' <= c <= 'z' || 'A' <= c <= 'Z' || '0' <= c <= '9' || c == '_'
    || c == 'ä' || c == 'ö' || c == 'ü' || c == 'Ä' || c == 'Ö' || c == 'Ü'
    || c == '-' || c == '(' || c == ')' || c == ' '
  }

  /** A character of an extension: a name character other than the space. */
  predicate IsExtChar(c: char)
  {
    IsNameChar(c) && c != ' '
  }

  predicate AllName(w: string)
  {
    forall i :: 0 <= i < |w| ==> IsNameChar(w[i])
  }

  /** `[\w\däöü\-() ]+` */
  predicate NameRun(w: string)
  {
    w != [] && AllName(w)
  }

  predicate AllExt(w: string)
  {
    forall i :: 0 <= i < |w| ==> IsExtChar(w[i])
  }

  /** `[\w\däöü\-()]+` */
  predicate ExtRun(w: string)
  {
    w != [] && AllExt(w)
  }

  /** The last segment: a name run, then zero or more extensions, each `.` and an extension run. */
  predicate IsLastSegment(seg: string)
  {
    var fields := Split(seg, '.');
    NameRun(fields[0]) && forall i :: 1 <= i < |fields| ==> ExtRun(fields[i])
  }

  /** The regular language read segment by segment: every segment but the last is a name run. */
  predicate WellFormedPath(s: string)
  {
    WellFormedSegments(Split(s, '/'))
  }

  predicate WellFormedSegments(segments: seq<string>)
    requires |segments| >= 1
  {
    && (forall i :: 0 <= i < |segments| - 1 ==> NameRun(segments[i]))
    && IsLastSegment(segments[|segments| - 1])
  }

  /** Segments are well formed when the first is a name run and the others are well formed. */
  lemma WellFormedSegmentsCons(f: seq<string>)
    requires |f| > 1
    ensures WellFormedSegments(f) <==> NameRun(f[0]) && WellFormedSegments(f[1..])
  {
    var g := f[1..];
    assert f[|f| - 1] == g[|g| - 1];
    if NameRun(f[0]) && WellFormedSegments(g) {
      forall i | 0 <= i < |f| - 1 ensures NameRun(f[i]) {
        if i > 0 {
          assert f[i] == g[i - 1];
        }
      }
    }
  }

  /** The states of the automaton that recognises the path regex. */
  datatype State = SegmentStart | InName | AfterDot | InExtension | Rejected

  function Step(q: State, c: char): State
  {
    match q
    case SegmentStart => if IsNameChar(c) then InName else Rejected
    case InName =>
      if IsNameChar(c) then InName
      else if c == '/' then SegmentStart
      else if c == '.' then AfterDot
      else Rejected
    case AfterDot => if IsExtChar(c) then InExtension else Rejected
    case InExtension =>
      if IsExtChar(c) then InExtension
      else if c == '.' then AfterDot
      else Rejected
    case Rejected => Rejected
  }

  /** The state reached from `q` after reading `s`. */
  function Scan(q: State, s: string): State
    decreases |s|
  {
    if s == [] then q else Scan(Step(q, s[0]), s[1..])
  }

  predicate Accepting(q: State)
  {
    q == InName || q == InExtension
  }

  /** `regex.test(path)`: the whole string matches; a match starts with a name character. */
  function RegexTest(s: string): (r: bool)
    ensures r ==> s != [] && IsNameChar(s[0])
  {
    if s != [] then
      RejectedStays(s[1..]);
      Accepting(Scan(SegmentStart, s))
    else
      Accepting(Scan(SegmentStart, s))
  }

  /**
   * `isValidPath`: the empty path, or a match of the regex; a non-empty
   * valid path starts with a name character and does not end with `/`.
   */
  function IsValidPath(s: string): (r: bool)
    ensures s == [] ==> r
    ensures r && s != [] ==> IsNameChar(s[0]) && s[|s| - 1] != '/'
  {
    if s == [] then true
    else if RegexTest(s) then
      NoOuterSeparator(s);
      true
    else false
  }

  /** A path is valid exactly when it is empty or its segments are well formed. */
  lemma ValidPathIsWellFormed(s: string)
    ensures IsValidPath(s) <==> s == [] || WellFormedPath(s)
  {
    RegexMatchesSegments(s);
  }

  /** Reading a concatenation reads the parts one after the other. */
  lemma {:induction false} ScanAppend(q: State, a: string, b: string)
    ensures Scan(q, a + b) == Scan(Scan(q, a), b)
    decreases |a|
  {
    if a == [] {
      assert a + b == b;
    } else {
      assert (a + b)[0] == a[0];
      assert (a + b)[1..] == a[1..] + b;
      ScanAppend(Step(q, a[0]), a[1..], b);
    }
  }

  /** Once rejected, always rejected. */
  lemma {:induction false} RejectedStays(s: string)
    ensures Scan(Rejected, s) == Rejected
    decreases |s|
  {
    if s != [] {
      RejectedStays(s[1..]);
    }
  }

  /** Reading one character after a word. */
  lemma ScanSnoc(q: State, w: string, c: char)
    ensures Scan(q, w + [c]) == Step(Scan(q, w), c)
  {
    ScanAppend(q, w, [c]);
    assert Scan(Scan(q, w), [c]) == Scan(Step(Scan(q, w), c), []);
  }

  /** A word without separators or dots: a name run keeps the automaton inside a name. */
  lemma {:induction false} NameWordScan(w: string)
    requires '/' !in w && '.' !in w
    ensures Scan(InName, w) == (if AllName(w) then InName else Rejected)
    ensures Scan(SegmentStart, w) == (if w == [] then SegmentStart else if AllName(w) then InName else Rejected)
    decreases |w|
  {
    if w != [] {
      NameWordScan(w[1..]);
      if !IsNameChar(w[0]) {
        RejectedStays(w[1..]);
      }
      assert AllName(w) <==> IsNameChar(w[0]) && AllName(w[1..]) by {
        if IsNameChar(w[0]) && AllName(w[1..]) {
          forall i | 0 <= i < |w| ensures IsNameChar(w[i]) {
            if i > 0 {
              assert w[i] == w[1..][i - 1];
            }
          }
        }
      }
    }
  }

  /** A word without dots: an extension run keeps the automaton inside an extension. */
  lemma {:induction false} ExtWordScan(w: string)
    requires '.' !in w
    ensures Scan(InExtension, w) == (if AllExt(w) then InExtension else Rejected)
    ensures Scan(AfterDot, w) == (if w == [] then AfterDot else if AllExt(w) then InExtension else Rejected)
    decreases |w|
  {
    if w != [] {
      ExtWordScan(w[1..]);
      if !IsExtChar(w[0]) {
        RejectedStays(w[1..]);
      }
      assert AllExt(w) <==> IsExtChar(w[0]) && AllExt(w[1..]) by {
        if IsExtChar(w[0]) && AllExt(w[1..]) {
          forall i | 0 <= i < |w| ensures IsExtChar(w[i]) {
            if i > 0 {
              assert w[i] == w[1..][i - 1];
            }
          }
        }
      }
    }
  }

  /** After a dot the automaton never returns to a name without a separator. */
  lemma {:induction false} NoReturnToName(q: State, w: string)
    requires q == AfterDot || q == InExtension || q == Rejected
    requires '/' !in w
    ensures Scan(q, w) != InName
    decreases |w|
  {
    if w != [] {
      NoReturnToName(Step(q, w[0]), w[1..]);
    }
  }

  /** Within one segment, the automaton is inside a name exactly after a name run. */
  lemma {:induction false} NameScan(w: string)
    requires '/' !in w
    ensures Scan(InName, w) == InName <==> AllName(w)
    ensures Scan(SegmentStart, w) == InName <==> NameRun(w)
    decreases |w|
  {
    if w != [] {
      NameScan(w[1..]);
      var q := Step(InName, w[0]);
      if !IsNameChar(w[0]) {
        NoReturnToName(q, w[1..]);
        NoReturnToName(Rejected, w[1..]);
      }
      assert AllName(w) <==> IsNameChar(w[0]) && AllName(w[1..]) by {
        if IsNameChar(w[0]) && AllName(w[1..]) {
          forall i | 0 <= i < |w| ensures IsNameChar(w[i]) {
            if i > 0 {
              assert w[i] == w[1..][i - 1];
            }
          }
        }
      }
    }
  }

  /** From just after a dot, the rest is accepted exactly when its dot-fields are all extension runs. */
  lemma {:induction false} AfterDotScan(t: string)
    ensures Accepting(Scan(AfterDot, t)) <==>
      forall i :: 0 <= i < |Split(t, '.')| ==> ExtRun(Split(t, '.')[i])
    decreases |t|
  {
    var g := Split(t, '.');
    SplitFirst(t, '.');
    ExtWordScan(g[0]);
    if |g| > 1 {
      var rest := Join(g[1..], '.');
      ScanThrough(AfterDot, g[0], '.', rest);
      if Scan(AfterDot, g[0]) != InExtension {
        RejectedStays(rest);
      }
      AfterDotScan(rest);
      AllExtRunsCons(g);
    }
  }

  /** Reading a word, one character and the rest. */
  lemma ScanThrough(q: State, w: string, c: char, rest: string)
    ensures Scan(q, w + [c] + rest) == Scan(Step(Scan(q, w), c), rest)
  {
    ScanAppend(q, w + [c], rest);
    ScanSnoc(q, w, c);
  }

  /** All fields are extension runs when the first is and all the others are. */
  lemma AllExtRunsCons(g: seq<string>)
    requires |g| >= 1
    ensures (forall i :: 0 <= i < |g| ==> ExtRun(g[i])) <==>
      ExtRun(g[0]) && forall i :: 0 <= i < |g[1..]| ==> ExtRun(g[1..][i])
  {
    if ExtRun(g[0]) && forall i :: 0 <= i < |g[1..]| ==> ExtRun(g[1..][i]) {
      forall i | 0 <= i < |g| ensures ExtRun(g[i]) {
        if i > 0 {
          assert g[i] == g[1..][i - 1];
        }
      }
    }
  }

  /** A string without separators is accepted exactly when it is a well-formed last segment. */
  lemma LastSegmentScan(w: string)
    requires '/' !in w
    ensures RegexTest(w) <==> IsLastSegment(w)
  {
    var g := Split(w, '.');
    SplitFirst(w, '.');
    NameWordScan(g[0]);
    if |g| > 1 {
      var rest := Join(g[1..], '.');
      var q := Scan(SegmentStart, g[0]);
      ScanAppend(SegmentStart, g[0] + ['.'], rest);
      ScanSnoc(SegmentStart, g[0], '.');
      if q != InName {
        RejectedStays(rest);
      }
      AfterDotScan(rest);
      assert Split(rest, '.') == g[1..];
      assert (forall i :: 1 <= i < |g| ==> ExtRun(g[i])) <==>
        forall i :: 0 <= i < |g[1..]| ==> ExtRun(g[1..][i]) by {
        forall i | 1 <= i < |g| ensures g[i] == g[1..][i - 1] { }
      }
    }
  }

  /** The automaton accepts exactly the well-formed paths: the regex read segment by segment. */
  lemma {:induction false} RegexMatchesSegments(s: string)
    ensures RegexTest(s) <==> WellFormedPath(s)
    decreases |s|
  {
    var f := Split(s, '/');
    SplitFirst(s, '/');
    if |f| == 1 {
      LastSegmentScan(s);
    } else {
      var rest := Join(f[1..], '/');
      FirstSegmentScan(s);
      FirstSegmentWellFormed(s);
      RegexMatchesSegments(rest);
    }
  }

  /** The automaton reads a first segment followed by `/` as a name run, then starts afresh. */
  lemma FirstSegmentScan(s: string)
    requires |Split(s, '/')| > 1
    ensures RegexTest(s) <==> NameRun(Split(s, '/')[0]) && RegexTest(Join(Split(s, '/')[1..], '/'))
  {
    var f := Split(s, '/');
    SplitFirst(s, '/');
    var rest := Join(f[1..], '/');
    var q := Scan(SegmentStart, f[0]);
    NameScan(f[0]);
    ScanAppend(SegmentStart, f[0] + ['/'], rest);
    ScanSnoc(SegmentStart, f[0], '/');
    if q != InName {
      RejectedStays(rest);
    }
  }

  /** A path of several segments is well formed when its first segment is a name run and the rest is well formed. */
  lemma FirstSegmentWellFormed(s: string)
    requires |Split(s, '/')| > 1
    ensures WellFormedPath(s) <==> NameRun(Split(s, '/')[0]) && WellFormedPath(Join(Split(s, '/')[1..], '/'))
  {
    SplitFirst(s, '/');
    WellFormedSegmentsCons(Split(s, '/'));
  }

  /** A name run has no dot, so it is neither `.` nor `..`. */
  lemma NameRunIsNoDotSegment(w: string)
    requires NameRun(w)
    ensures w != "." && w != ".."
  {
    assert w[0] != '.';
  }

  /**
   * A non-empty valid path has no empty segment and no `.` or `..` segment,
   * and neither starts nor ends with `/`.
   */
  lemma ValidPathSegments(s: string)
    requires IsValidPath(s) && s != ""
    ensures forall i :: 0 <= i < |Split(s, '/')| ==>
      Split(s, '/')[i] != "" && Split(s, '/')[i] != "." && Split(s, '/')[i] != ".."
    ensures s[0] != '/' && s[|s| - 1] != '/'
  {
    var f := Split(s, '/');
    RegexMatchesSegments(s);
    forall i | 0 <= i < |f|
      ensures f[i] != "" && f[i] != "." && f[i] != ".."
    {
      if i < |f| - 1 {
        NameRunIsNoDotSegment(f[i]);
      } else {
        LastSegmentIsNoDotSegment(f[i]);
      }
    }
    NoOuterSeparator(s);
  }

  /** A well-formed last segment starts with a name character, so it is neither empty nor `.` or `..`. */
  lemma LastSegmentIsNoDotSegment(seg: string)
    requires IsLastSegment(seg)
    ensures seg != "" && seg != "." && seg != ".."
  {
    var g := Split(seg, '.');
    SplitFirst(seg, '.');
    assert seg[0] == g[0][0];
  }

  /** A string the automaton accepts neither starts nor ends with `/`. */
  lemma NoOuterSeparator(s: string)
    requires RegexTest(s)
    ensures s[0] != '/' && s[|s| - 1] != '/'
  {
    var n := |s| - 1;
    assert s == s[..n] + [s[n]];
    ScanSnoc(SegmentStart, s[..n], s[n]);
  }

  /** From after a dot the automaton can only accept input without separators. */
  lemma {:induction false} ExtensionHasNoSeparator(q: State, t: string)
    requires q == AfterDot || q == InExtension
    requires Accepting(Scan(q, t))
    ensures '/' !in t
    decreases |t|
  {
    if t != [] {
      if Step(q, t[0]) == Rejected {
        RejectedStays(t[1..]);
      } else {
        ExtensionHasNoSeparator(Step(q, t[0]), t[1..]);
      }
    }
  }

  /**
   * Every dot of a valid path sits inside the last segment, does not start a
   * segment, and is followed by a character allowed in an extension.
   */
  lemma DotRules(s: string, i: int)
    requires IsValidPath(s) && 0 <= i < |s| && s[i] == '.'
    ensures 0 < i && s[i - 1] != '/'
    ensures i + 1 < |s| && IsExtChar(s[i + 1])
    ensures '/' !in s[i..]
  {
    var q := Scan(SegmentStart, s[..i]);
    assert s == s[..i] + ([s[i]] + s[i + 1..]);
    ScanAppend(SegmentStart, s[..i], [s[i]] + s[i + 1..]);
    assert Scan(q, [s[i]] + s[i + 1..]) == Scan(Step(q, '.'), s[i + 1..]);
    if Step(q, '.') == Rejected {
      RejectedStays(s[i + 1..]);
      assert false;
    }
    if i > 0 && s[i - 1] == '/' {
      assert s[..i] == s[..i - 1] + ['/'];
      ScanSnoc(SegmentStart, s[..i - 1], '/');
      assert false;
    }
    if i + 1 < |s| && !IsExtChar(s[i + 1]) {
      RejectedStays(s[i + 2..]);
      assert false;
    }
    ExtensionHasNoSeparator(AfterDot, s[i + 1..]);
    assert s[i..] == ['.'] + s[i + 1..];
  }

  /** Reading the root directory and a separator returns to the start of a segment. */
  lemma RootThenSeparator(t: string)
    ensures Scan(SegmentStart, Root + "/" + t) == Scan(SegmentStart, t)
    ensures Scan(SegmentStart, Root) == InName
  {
    NameWordScan(Root);
    ScanAppend(SegmentStart, Root + "/", t);
    ScanSnoc(SegmentStart, Root, '/');
  }

  /** `join(ROOT, ...path)` is valid exactly when the path is empty or joins to a non-empty valid path. */
  lemma FullPathValid(path: seq<string>)
    ensures path == [] ==> Join([Root] + path, '/') == Root && IsValidPath(Root)
    ensures path != [] ==> Join([Root] + path, '/') == Root + "/" + Join(path, '/')
    ensures path != [] ==> (IsValidPath(Join([Root] + path, '/')) <==> Join(path, '/') != "" && IsValidPath(Join(path, '/')))
  {
    RootThenSeparator(Join(path, '/'));
    if path != [] {
      assert ([Root] + path)[1..] == path;
    }
  }

  /** `getPath`: null for a missing or invalid path, `[]` for `''`, else the segments. */
  function GetPath(path: Option<string>): (r: Option<seq<string>>)
    ensures r.Some? <==> path.Some? && IsValidPath(path.value)
    ensures r.Some? ==> Join(r.value, '/') == path.value
    ensures path == Some("") ==> r == Some([])
    ensures r.Some? ==> forall i :: 0 <= i < |r.value| ==>
      r.value[i] != "" && r.value[i] != "." && r.value[i] != ".." && '/' !in r.value[i]
  {
    if path.None? || !IsValidPath(path.value) then None
    else if path.value == "" then Some([])
    else
      JoinSplit(path.value, '/');
      ValidPathSegments(path.value);
      Some(Split(path.value, '/'))
  }

  /** `getPathStr`: the joined path when it is valid, else null. */
  function GetPathStr(path: Option<seq<string>>): (r: Option<string>)
    ensures r.Some? <==> path.Some? && IsValidPath(Join(path.value, '/'))
    ensures r.Some? ==> r.value == Join(path.value, '/')
  {
    var joined := if path.None? then None else Some(Join(path.value, '/'));
    var pathArr := GetPath(joined);
    if pathArr.None? then None else Some(Join(pathArr.value, '/'))
  }

  /** Segments that are non-empty and free of separators survive `getPathStr` then `getPath`. */
  lemma PathStrRoundTrip(path: seq<string>)
    requires forall i :: 0 <= i < |path| ==> path[i] != "" && '/' !in path[i]
    requires GetPathStr(Some(path)).Some?
    ensures GetPath(GetPathStr(Some(path))) == Some(path)
  {
    if path != [] {
      assert |Join(path, '/')| >= |path[0]|;
      SplitJoin(path, '/');
    }
  }

  /** `getFullPath`: `/cloud` joined with the segments when the result is valid, else null. */
  function GetFullPath(path: seq<string>): (r: Option<string>)
    ensures path == [] ==> r == Some("/" + Root)
    ensures path != [] ==> (r.Some? <==> Join(path, '/') != "" && IsValidPath(Join(path, '/')))
    ensures r.Some? && path != [] ==> r.value == "/" + Root + "/" + Join(path, '/')
    ensures r.Some? ==> |r.value| >= 6 && r.value[..6] == "/cloud"
  {
    FullPathValid(path);
    var fullPath := Join([Root] + path, '/');
    if IsValidPath(fullPath) then Some("/" + fullPath) else None
  }

  /**
   * A full path stays inside the root directory: it is `/cloud` followed by
   * segments that are neither empty nor `.` or `..`.
   */
  lemma FullPathConfined(path: seq<string>)
    requires GetFullPath(path).Some?
    ensures var f := Split(GetFullPath(path).value, '/');
      && |f| >= 2 && f[0] == "" && f[1] == Root
      && forall i :: 1 <= i < |f| ==> f[i] != "" && f[i] != "." && f[i] != ".."
  {
    var full := Join([Root] + path, '/');
    FullPathValid(path);
    RootIsFirstSegment(path);
    ValidPathSegments(full);
    SplitLeadingSeparator(full, '/');
    assert GetFullPath(path).value == ['/'] + full;
    var f := Split(GetFullPath(path).value, '/');
    var g := Split(full, '/');
    assert f == [[]] + g;
    forall i | 1 <= i < |f| ensures f[i] == g[i - 1] { }
  }

  /** The first segment of `join(ROOT, ...path)` is the root directory. */
  lemma RootIsFirstSegment(path: seq<string>)
    ensures Split(Join([Root] + path, '/'), '/')[0] == Root
  {
    assert '/' !in Root;
    SplitJoinFirst([Root] + path, '/');
  }

  /** `getParentPath`: a copy of the path without its last segment. */
  function GetParentPath(path: seq<string>): (r: seq<string>)
    ensures path == [] ==> r == []
    ensures path != [] ==> r + [path[|path| - 1]] == path
  {
    if path == [] then [] else path[..|path| - 1]
  }
}
