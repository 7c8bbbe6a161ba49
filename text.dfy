/** The small optional-value wrapper used throughout the model. */
module Wrappers {
  datatype Option<+T> = None | Some(value: T) {
    function GetOr(default: T): T {
      match this
      case Some(v) => v
      case None => default
    }
  }
}

/**
 * The JavaScript string operations the routes and components rely on,
 * written out over `string` (a sequence of UTF-16 code units is modelled
 * as a sequence of characters).
 */
module Text {
  import opened Wrappers

  /** A string field of a request is truthy in JavaScript: present and non-empty. */
  predicate Given(field: Option<string>) {
    field.Some? && field.value != ""
  }

  /** `s.startsWith(prefix)` */
  predicate StartsWith(s: string, prefix: string) {
    |prefix| <= |s| && s[..|prefix|] == prefix
  }

  /** `s.endsWith(suffix)` */
  predicate EndsWith(s: string, suffix: string) {
    |suffix| <= |s| && s[|s| - |suffix|..] == suffix
  }

  /** `s.includes(t)`: `t` occurs somewhere in `s`. */
  predicate Includes(s: string, t: string)
    decreases |s|
  {
    StartsWith(s, t) || (|s| > 0 && Includes(s[1..], t))
  }

  /** `s.substring(start)`: the tail from `start`, or "" when `start` is past the end. */
  function Substring(s: string, start: nat): (r: string)
    ensures start <= |s| ==> s == s[..start] + r
    ensures start >= |s| ==> r == ""
  {
    if start <= |s| then s[start..] else ""
  }

  /** `s.indexOf(c)` for a character known to occur. */
  function IndexOf(s: string, c: char): (i: nat)
    requires c in s
    ensures i < |s| && s[i] == c && c !in s[..i]
  {
    if s[0] == c then 0 else 1 + IndexOf(s[1..], c)
  }

  /** `s.lastIndexOf(c)` for a character known to occur. */
  function LastIndexOf(s: string, c: char): (i: nat)
    requires c in s
    ensures i < |s| && s[i] == c && c !in s[i + 1..]
  {
    if s[|s| - 1] == c then |s| - 1 else LastIndexOf(s[..|s| - 1], c)
  }

  /** `parts.join(sep)` */
  function Join(parts: seq<string>, sep: char): string
  {
    if parts == [] then ""
    else if |parts| == 1 then parts[0]
    else parts[0] + [sep] + Join(parts[1..], sep)
  }

  /**
   * `s.split(sep)`: the maximal separator-free pieces, in order; there is
   * always at least one, and joining them back gives `s`.
   */
  function Split(s: string, sep: char): (parts: seq<string>)
    ensures |parts| >= 1
    ensures forall i :: 0 <= i < |parts| ==> sep !in parts[i]
    ensures Join(parts, sep) == s
    decreases |s|
  {
    if sep !in s then [s]
    else
      var i := IndexOf(s, sep);
      var rest := Split(s[i + 1..], sep);
      assert ([s[..i]] + rest)[1..] == rest;
      assert s == s[..i] + [sep] + s[i + 1..];
      [s[..i]] + rest
  }

  /** The first occurrence of `c` in `a + [c] + b`, when `a` has none, is right after `a`. */
  lemma {:induction false} IndexOfAfter(a: string, c: char, b: string)
    requires c !in a
    ensures IndexOf(a + [c] + b, c) == |a|
  {
    if a != [] {
      assert (a + [c] + b)[1..] == a[1..] + [c] + b;
      IndexOfAfter(a[1..], c, b);
    }
  }

  /** The first piece of `a + [sep] + b`, when `a` has no separator, is `a`. */
  lemma SplitFirst(a: string, sep: char, b: string)
    requires sep !in a
    ensures Split(a + [sep] + b, sep)[0] == a
  {
    IndexOfAfter(a, sep, b);
    assert (a + [sep] + b)[..|a|] == a;
  }

  /** `s.split(sep).pop()`: the piece after the last separator. */
  function LastSegment(s: string, sep: char): string {
    var parts := Split(s, sep);
    parts[|parts| - 1]
  }

  /** `s.split(sep).slice(0, -1).join(sep)`: everything before the last separator. */
  function Dirname(s: string, sep: char): string {
    var parts := Split(s, sep);
    Join(parts[..|parts| - 1], sep)
  }

  /** Splitting yields several pieces exactly when the separator occurs. */
  lemma SplitCount(s: string, sep: char)
    ensures sep in s <==> |Split(s, sep)| >= 2
  {
  }

  /** Joining puts the separator just before the last piece. */
  lemma {:induction false} JoinLast(parts: seq<string>, sep: char)
    requires |parts| >= 2
    ensures Join(parts, sep) == Join(parts[..|parts| - 1], sep) + [sep] + parts[|parts| - 1]
  {
    if |parts| > 2 {
      JoinLast(parts[1..], sep);
      assert parts[1..][..|parts| - 2] == parts[..|parts| - 1][1..];
    }
  }

  /**
   * The last piece and the part before it put `s` back together: the last
   * piece is the separator-free tail of `s`, and the separator sits just
   * before it unless `s` has none.
   */
  lemma SplitAtLastSeparator(s: string, sep: char)
    ensures sep !in LastSegment(s, sep)
    ensures sep !in s ==> LastSegment(s, sep) == s && Dirname(s, sep) == ""
    ensures sep in s ==> Dirname(s, sep) + [sep] + LastSegment(s, sep) == s
  {
    var parts := Split(s, sep);
    assert sep !in parts[|parts| - 1];
    if sep in s {
      SplitWithSeparator(s, sep);
    } else {
      SplitWithoutSeparator(s, sep);
    }
  }

  /** With a separator present, the part before the last piece, the separator and the last piece rebuild `s`. */
  lemma SplitWithSeparator(s: string, sep: char)
    requires sep in s
    ensures Dirname(s, sep) + [sep] + LastSegment(s, sep) == s
  {
    SplitCount(s, sep);
    JoinLast(Split(s, sep), sep);
  }

  /** Without a separator, the only piece is `s` itself. */
  lemma SplitWithoutSeparator(s: string, sep: char)
    requires sep !in s
    ensures LastSegment(s, sep) == s && Dirname(s, sep) == ""
  {
    var parts := Split(s, sep);
    assert parts == [s];
    assert parts[..0] == [];
  }

  /** Two separators each followed by no other one are the same separator. */
  lemma SeparatorPosition(s: string, sep: char, i: nat, j: nat)
    requires i < |s| && j < |s| && s[i] == sep && s[j] == sep
    requires sep !in s[i + 1..] && sep !in s[j + 1..]
    ensures i == j
  {
    if i != j {
      assert false;
    }
  }

  /** A separator-free tail after a separator is exactly the last piece. */
  lemma LastSegmentOfJoined(dir: string, sep: char, name: string)
    requires sep !in name
    ensures LastSegment(dir + [sep] + name, sep) == name
    ensures Dirname(dir + [sep] + name, sep) == dir
  {
    var s := dir + [sep] + name;
    SplitAtLastSeparator(s, sep);
    var r := LastSegment(s, sep);
    var d := Dirname(s, sep);
    assert d + [sep] + r == s;
    SeparatorPosition(s, sep, |d|, |dir|);
    assert |d| == |dir|;
    assert d == s[..|d|] == dir;
    assert r == s[|d| + 1..] == name;
  }

  /** A character occurrence with none after it is the last one. */
  lemma LastIndexOfAt(s: string, c: char, i: nat)
    requires i < |s| && s[i] == c && c !in s[i + 1..]
    ensures LastIndexOf(s, c) == i
  {
    SeparatorPosition(s, c, i, LastIndexOf(s, c));
  }

  /** A prefix of a prefix is a prefix. */
  lemma StartsWithTrans(s: string, t: string, u: string)
    requires StartsWith(s, t) && StartsWith(t, u)
    ensures StartsWith(s, u)
  {
    assert s[..|u|] == s[..|t|][..|u|];
  }

  /** A separator-free suffix of `s` is a suffix of its last piece. */
  lemma SuffixOfLastSegment(s: string, sep: char, t: string)
    requires EndsWith(s, t) && sep !in t
    ensures EndsWith(LastSegment(s, sep), t)
  {
    SplitAtLastSeparator(s, sep);
    if sep in s {
      var d := Dirname(s, sep);
      var n := LastSegment(s, sep);
      assert s == d + [sep] + n;
      assert s[|s| - |t|..] == t;
      forall j | |s| - |t| <= j < |s| ensures s[j] != sep {
        assert s[j] == t[j - (|s| - |t|)];
      }
      assert s[|d|] == sep;
      assert |t| <= |n|;
      assert n[|n| - |t|..] == s[|s| - |t|..];
    }
  }

  /** With a dot in the last segment, that dot is also the last dot of the whole path. */
  lemma ExtensionInLastSegment(d: string, n: string, with: string)
    requires '/' !in n && '.' in n
    ensures ReplaceExtension(d + "/" + n, with) == d + "/" + ReplaceExtension(n, with)
  {
    var s := d + "/" + n;
    var q := LastIndexOf(n, '.');
    var p := |d| + 1 + q;
    assert s[p] == n[q];
    assert s[p + 1..] == n[q + 1..];
    LastIndexOfAt(s, '.', p);
    assert HasExtension(s) == HasExtension(n);
    if HasExtension(n) {
      assert s[..p] == d + "/" + n[..q];
      assert s[..p] + with == d + "/" + (n[..q] + with);
    }
  }

  /** Without a dot in the last segment, any dot lies before the last "/", so there is no extension. */
  lemma NoExtensionInLastSegment(d: string, n: string)
    requires '/' !in n && '.' !in n
    ensures !HasExtension(d + "/" + n)
  {
    var s := d + "/" + n;
    if '.' in s {
      var p := LastIndexOf(s, '.');
      forall j | |d| < j < |s| ensures s[j] != '.' {
        assert s[j] == n[j - |d| - 1];
      }
      assert s[p + 1..][|d| - p - 1] == '/';
    }
  }

  /** The final extension of `d + "/" + n`, where `n` has no "/", is the final extension of `n`. */
  lemma ReplaceExtensionAfterSlash(d: string, n: string, with: string)
    requires '/' !in n
    ensures ReplaceExtension(d + "/" + n, with) == d + "/" + ReplaceExtension(n, with)
  {
    if '.' in n {
      ExtensionInLastSegment(d, n, with);
    } else {
      NoExtensionInLastSegment(d, n);
    }
  }

  /** A path whose last segment has no dot has no final extension. */
  lemma NoDotNoExtension(s: string)
    requires '.' !in LastSegment(s, '/')
    ensures !HasExtension(s) && !HasStemAndExtension(s)
  {
    SplitAtLastSeparator(s, '/');
    if '/' in s {
      NoExtensionInLastSegment(Dirname(s, '/'), LastSegment(s, '/'));
    }
  }

  /**
   * Replacing the final extension of a path works on its last segment
   * only: the directory part is kept, and the last segment has its own
   * final extension replaced.
   */
  lemma ReplaceExtensionInLastSegment(s: string, with: string)
    requires '/' !in with
    ensures Dirname(ReplaceExtension(s, with), '/') == Dirname(s, '/')
    ensures LastSegment(ReplaceExtension(s, with), '/') == ReplaceExtension(LastSegment(s, '/'), with)
  {
    if '/' in s {
      ReplaceExtensionBelowDirectory(s, with);
    } else {
      NoSlashReplaced(s, with);
      SplitAtLastSeparator(s, '/');
      SplitAtLastSeparator(ReplaceExtension(s, with), '/');
    }
  }

  /** Replacing an extension adds no "/" of its own. */
  lemma NoSlashReplaced(n: string, with: string)
    requires '/' !in n && '/' !in with
    ensures '/' !in ReplaceExtension(n, with)
  {
    if HasExtension(n) {
      assert n == n[..LastIndexOf(n, '.')] + n[LastIndexOf(n, '.')..];
    }
  }

  /** The case of `ReplaceExtensionInLastSegment` for a path with a directory part. */
  lemma ReplaceExtensionBelowDirectory(s: string, with: string)
    requires '/' !in with && '/' in s
    ensures Dirname(ReplaceExtension(s, with), '/') == Dirname(s, '/')
    ensures LastSegment(ReplaceExtension(s, with), '/') == ReplaceExtension(LastSegment(s, '/'), with)
  {
    SplitAtLastSeparator(s, '/');
    var d := Dirname(s, '/');
    var n := LastSegment(s, '/');
    ReplaceExtensionAfterSlash(d, n, with);
    NoSlashReplaced(n, with);
    LastSegmentOfJoined(d, '/', ReplaceExtension(n, with));
  }

  /**
   * With a dot-free, slash-free stem just before the final extension, the
   * stem-and-extension pattern matches and keeps everything up to the
   * stem.
   */
  lemma ReplaceStemExtensionShape(dir: string, stem: string, ext: string, with: string)
    requires stem != "" && '/' !in stem && '.' !in stem
    requires ext != "" && '/' !in ext && '.' !in ext
    ensures ReplaceStemExtension(dir + stem + "." + ext, with) == dir + stem + with
  {
    var s := dir + stem + "." + ext;
    var p := |dir| + |stem|;
    assert s[p] == '.';
    assert s[p + 1..] == ext;
    LastIndexOfAt(s, '.', p);
    assert s[p - 1] == stem[|stem| - 1];
    assert HasExtension(s);
    assert HasStemAndExtension(s);
    assert s[..p] == dir + stem;
  }

  /** `s.split(sep).filter(Boolean).pop()`: the last non-empty piece, if any. */
  function LastNonEmpty(parts: seq<string>): (r: Option<string>)
    ensures r.Some? ==> r.value != "" && r.value in parts
    ensures r.Some? ==> exists k :: 0 <= k < |parts| && parts[k] == r.value
                                    && forall j :: k < j < |parts| ==> parts[j] == ""
    ensures r.None? <==> forall i :: 0 <= i < |parts| ==> parts[i] == ""
  {
    if parts == [] then None
    else if parts[|parts| - 1] != "" then Some(parts[|parts| - 1])
    else
      var init := parts[..|parts| - 1];
      var r := LastNonEmpty(init);
      assert forall i :: 0 <= i < |init| ==> init[i] == parts[i];
      r
  }

  /** The characters matched by `\s` in a JavaScript regular expression (and removed by `trim`). */
  predicate IsWhitespace(c: char) {
    c == '\t' || c == '\n' || c == '\U{000B}' || c == '\U{000C}' || c == '\r' || c == ' '
    || c == '\U{00A0}' || c == '\U{1680}' || ('\U{2000}' <= c <= '\U{200A}')
    || c == '\U{2028}' || c == '\U{2029}' || c == '\U{202F}' || c == '\U{205F}'
    || c == '\U{3000}' || c == '\U{FEFF}'
  }

  predicate NoWhitespace(s: string) {
    forall i :: 0 <= i < |s| ==> !IsWhitespace(s[i])
  }

  /** Leading whitespace removed. */
  function TrimStart(s: string): (r: string)
    ensures EndsWith(s, r)
    ensures forall i :: 0 <= i < |s| - |r| ==> IsWhitespace(s[i])
    ensures r == "" || !IsWhitespace(r[0])
  {
    if |s| > 0 && IsWhitespace(s[0]) then
      var r := TrimStart(s[1..]);
      assert s[|s| - |r|..] == s[1..][|s| - 1 - |r|..];
      assert forall i :: 1 <= i < |s| - |r| ==> s[i] == s[1..][i - 1];
      r
    else s
  }

  /** Trailing whitespace removed. */
  function TrimEnd(s: string): (r: string)
    ensures StartsWith(s, r)
    ensures forall i :: |r| <= i < |s| ==> IsWhitespace(s[i])
    ensures r == "" || !IsWhitespace(r[|r| - 1])
  {
    if |s| > 0 && IsWhitespace(s[|s| - 1]) then TrimEnd(s[..|s| - 1]) else s
  }

  /** `s.trim()` */
  function Trim(s: string): (r: string)
    ensures r == "" || (!IsWhitespace(r[0]) && !IsWhitespace(r[|r| - 1]))
    ensures r == "" <==> forall i :: 0 <= i < |s| ==> IsWhitespace(s[i])
    ensures exists i, j :: 0 <= i <= j <= |s| && r == s[i..j]
                           && (forall k :: 0 <= k < i ==> IsWhitespace(s[k]))
                           && (forall k :: j <= k < |s| ==> IsWhitespace(s[k]))
  {
    var t := TrimStart(s);
    var r := TrimEnd(t);
    assert r != "" ==> r[0] == t[0];
    TrimIsWindow(s, t, r);
    r
  }

  /** The trimmed string is the window of `s` between its leading and trailing whitespace. */
  lemma TrimIsWindow(s: string, t: string, r: string)
    requires |t| <= |s| && s[|s| - |t|..] == t
    requires forall k :: 0 <= k < |s| - |t| ==> IsWhitespace(s[k])
    requires |r| <= |t| && t[..|r|] == r
    requires forall k :: |r| <= k < |t| ==> IsWhitespace(t[k])
    ensures exists i, j :: 0 <= i <= j <= |s| && r == s[i..j]
                           && (forall k :: 0 <= k < i ==> IsWhitespace(s[k]))
                           && (forall k :: j <= k < |s| ==> IsWhitespace(s[k]))
  {
    var i := |s| - |t|;
    var j := i + |r|;
    assert r == s[i..j];
    assert forall k :: j <= k < |s| ==> s[k] == t[k - i];
    assert forall k :: j <= k < |s| ==> IsWhitespace(s[k]);
  }

  /** Leading whitespace before a non-whitespace head is exactly what `TrimStart` removes. */
  lemma {:induction false} TrimStartPadded(before: string, x: string)
    requires forall k :: 0 <= k < |before| ==> IsWhitespace(before[k])
    requires x == "" || !IsWhitespace(x[0])
    ensures TrimStart(before + x) == x
    decreases |before|
  {
    if before == [] {
      assert before + x == x;
    } else {
      assert (before + x)[0] == before[0];
      assert (before + x)[1..] == before[1..] + x;
      TrimStartPadded(before[1..], x);
    }
  }

  /** Trailing whitespace after a non-whitespace tail is exactly what `TrimEnd` removes. */
  lemma {:induction false} TrimEndPadded(x: string, after: string)
    requires forall k :: 0 <= k < |after| ==> IsWhitespace(after[k])
    requires x == "" || !IsWhitespace(x[|x| - 1])
    ensures TrimEnd(x + after) == x
    decreases |after|
  {
    if after == [] {
      assert x + after == x;
    } else {
      var s := x + after;
      assert s[|s| - 1] == after[|after| - 1];
      assert s[..|s| - 1] == x + after[..|after| - 1];
      TrimEndPadded(x, after[..|after| - 1]);
    }
  }

  /** Whitespace padding around an unpadded string is exactly what `trim` removes. */
  lemma TrimRemovesPadding(before: string, m: string, after: string)
    requires forall k :: 0 <= k < |before| ==> IsWhitespace(before[k])
    requires forall k :: 0 <= k < |after| ==> IsWhitespace(after[k])
    requires m != "" && !IsWhitespace(m[0]) && !IsWhitespace(m[|m| - 1])
    ensures Trim(before + m + after) == m
  {
    assert before + m + after == before + (m + after);
    assert (m + after)[0] == m[0];
    TrimStartPadded(before, m + after);
    TrimEndPadded(m, after);
  }

  lemma TrimWithoutWhitespace(s: string)
    requires NoWhitespace(s)
    ensures Trim(s) == s
  {
    assert TrimStart(s) == s;
  }

  /** `s.replace(/\s+/g, "_")`: every maximal run of whitespace becomes one "_". */
  function UnderscoreWhitespaceRuns(s: string): (r: string)
    ensures NoWhitespace(r)
    ensures NoWhitespace(s) ==> r == s
    ensures r == "" <==> s == ""
    decreases |s|
  {
    if s == [] then []
    else if IsWhitespace(s[0]) then
      var t := TrimStart(s);
      assert |t| < |s|;
      "_" + UnderscoreWhitespaceRuns(t)
    else
      [s[0]] + UnderscoreWhitespaceRuns(s[1..])
  }

  /** A whitespace run trims away up to the first non-whitespace character after it. */
  lemma {:induction false} TrimStartRun(w: string, b: string)
    requires forall i :: 0 <= i < |w| ==> IsWhitespace(w[i])
    requires b == "" || !IsWhitespace(b[0])
    ensures TrimStart(w + b) == b
  {
    if w == [] {
      assert w + b == b;
    } else {
      assert (w + b)[0] == w[0];
      assert (w + b)[1..] == w[1..] + b;
      forall i | 0 <= i < |w[1..]| ensures IsWhitespace(w[1..][i]) {
        assert w[1..][i] == w[i + 1];
      }
      TrimStartRun(w[1..], b);
    }
  }

  /** When `a` ends in a non-whitespace character, trimming `a + rest` trims within `a`. */
  lemma {:induction false} TrimStartAppend(a: string, rest: string)
    requires a != [] && !IsWhitespace(a[|a| - 1])
    ensures TrimStart(a + rest) == TrimStart(a) + rest
  {
    if IsWhitespace(a[0]) {
      assert |a| > 1;
      assert (a + rest)[0] == a[0];
      assert (a + rest)[1..] == a[1..] + rest;
      TrimStartAppend(a[1..], rest);
    } else {
      assert (a + rest)[0] == a[0];
    }
  }

  /** A non-whitespace character is kept as it is. */
  lemma UnderscoreKeepsHead(c: char, s: string)
    requires !IsWhitespace(c)
    ensures UnderscoreWhitespaceRuns([c] + s) == [c] + UnderscoreWhitespaceRuns(s)
  {
    assert ([c] + s)[0] == c;
    assert ([c] + s)[1..] == s;
  }

  /** A leading run becomes one "_" followed by what comes after the run. */
  lemma UnderscoreRunThen(w: string, b: string)
    requires w != [] && forall i :: 0 <= i < |w| ==> IsWhitespace(w[i])
    requires b == "" || !IsWhitespace(b[0])
    ensures UnderscoreWhitespaceRuns(w + b) == "_" + UnderscoreWhitespaceRuns(b)
  {
    assert (w + b)[0] == w[0];
    TrimStartRun(w, b);
  }

  /** Trimming a string that ends without whitespace keeps its last character, and a leading run makes it shorter. */
  lemma LeadingTrimShape(a: string)
    requires a != [] && IsWhitespace(a[0]) && !IsWhitespace(a[|a| - 1])
    ensures var t := TrimStart(a); t != [] && |t| < |a| && t[|t| - 1] == a[|a| - 1]
  {
    var t := TrimStart(a);
    assert !IsWhitespace(a[|a| - 1]);
    assert t != [];
    assert |t| < |a| by {
      assert TrimStart(a) == TrimStart(a[1..]);
    }
    assert a[|a| - |t|..] == t;
  }

  /** A string starting with whitespace and ending without: its leading run becomes one "_", even with more appended. */
  lemma UnderscoreLeadingRun(a: string, rest: string)
    requires a != [] && IsWhitespace(a[0]) && !IsWhitespace(a[|a| - 1])
    ensures UnderscoreWhitespaceRuns(a) == "_" + UnderscoreWhitespaceRuns(TrimStart(a))
    ensures UnderscoreWhitespaceRuns(a + rest) == "_" + UnderscoreWhitespaceRuns(TrimStart(a) + rest)
  {
    assert (a + rest)[0] == a[0];
    TrimStartAppend(a, rest);
  }

  /**
   * Each maximal run of whitespace becomes exactly one "_": with `w` a
   * non-empty run that `a` does not continue backwards and `b` does not
   * continue forwards, the run turns into a single "_" between the
   * replaced `a` and the replaced `b`.
   */
  lemma {:induction false} UnderscoreCollapsesRun(a: string, w: string, b: string)
    requires w != [] && forall i :: 0 <= i < |w| ==> IsWhitespace(w[i])
    requires a == "" || !IsWhitespace(a[|a| - 1])
    requires b == "" || !IsWhitespace(b[0])
    ensures UnderscoreWhitespaceRuns(a + w + b) == UnderscoreWhitespaceRuns(a) + "_" + UnderscoreWhitespaceRuns(b)
    decreases |a|, 1
  {
    if a == [] {
      assert a + w + b == w + b;
      UnderscoreRunThen(w, b);
    } else if IsWhitespace(a[0]) {
      CollapseAfterLeadingRun(a, w, b);
    } else {
      CollapseAfterHead(a, w, b);
    }
  }

  /** The case of `UnderscoreCollapsesRun` where `a` itself starts with a run. */
  lemma {:induction false} CollapseAfterLeadingRun(a: string, w: string, b: string)
    requires w != [] && forall i :: 0 <= i < |w| ==> IsWhitespace(w[i])
    requires a != [] && IsWhitespace(a[0]) && !IsWhitespace(a[|a| - 1])
    requires b == "" || !IsWhitespace(b[0])
    ensures UnderscoreWhitespaceRuns(a + w + b) == UnderscoreWhitespaceRuns(a) + "_" + UnderscoreWhitespaceRuns(b)
    decreases |a|, 0
  {
    var t := TrimStart(a);
    LeadingTrimShape(a);
    UnderscoreLeadingRun(a, w + b);
    Associate(a, w, b);
    Associate(t, w, b);
    UnderscoreCollapsesRun(t, w, b);
    var ut, ub := UnderscoreWhitespaceRuns(t), UnderscoreWhitespaceRuns(b);
    Regroup("_", ut, "_", ub);
  }

  /** The case of `UnderscoreCollapsesRun` where `a` starts with a kept character. */
  lemma {:induction false} CollapseAfterHead(a: string, w: string, b: string)
    requires w != [] && forall i :: 0 <= i < |w| ==> IsWhitespace(w[i])
    requires a != [] && !IsWhitespace(a[0]) && !IsWhitespace(a[|a| - 1])
    requires b == "" || !IsWhitespace(b[0])
    ensures UnderscoreWhitespaceRuns(a + w + b) == UnderscoreWhitespaceRuns(a) + "_" + UnderscoreWhitespaceRuns(b)
    decreases |a|, 0
  {
    var c, tail := a[0], a[1..];
    assert a == [c] + tail;
    Regroup([c], tail, w, b);
    UnderscoreKeepsHead(c, tail + w + b);
    UnderscoreKeepsHead(c, tail);
    assert tail == "" || tail[|tail| - 1] == a[|a| - 1];
    UnderscoreCollapsesRun(tail, w, b);
    var ut, ub := UnderscoreWhitespaceRuns(tail), UnderscoreWhitespaceRuns(b);
    Regroup([c], ut, "_", ub);
  }

  /** Concatenation is associative. */
  lemma Associate(x: string, y: string, z: string)
    ensures x + y + z == x + (y + z)
  {
  }

  /** Concatenation regrouped. */
  lemma Regroup(x: string, y: string, z: string, u: string)
    ensures x + (y + z + u) == (x + y) + z + u
  {
  }

  /** A string that neither starts nor ends with whitespace trims to itself. */
  lemma TrimKeepsUnpadded(s: string)
    requires s != "" && !IsWhitespace(s[0]) && !IsWhitespace(s[|s| - 1])
    ensures Trim(s) == s
  {
    assert TrimStart(s) == s;
    assert TrimEnd(s) == s;
  }

  /** `s.replace(/x/g, y)` for a single character `x`. */
  function ReplaceChar(s: string, x: char, y: char): (r: string)
    ensures |r| == |s|
    ensures forall i :: 0 <= i < |s| ==> r[i] == if s[i] == x then y else s[i]
  {
    if s == [] then [] else [if s[0] == x then y else s[0]] + ReplaceChar(s[1..], x, y)
  }

  /** Lower-casing of one character, for the ASCII letters. */
  function ToLowerChar(c: char): char {
    if 'A' <= c <= 'Z' then (c as int + 32) as char else c
  }

  /** `s.toLowerCase()`, folding the ASCII letters. */
  function ToLower(s: string): (r: string)
    ensures |r| == |s|
    ensures forall i :: 0 <= i < |s| ==> r[i] == ToLowerChar(s[i])
  {
    if s == [] then [] else [ToLowerChar(s[0])] + ToLower(s[1..])
  }

  /**
   * The pattern `/\.[^/.]+$/` matches: the last "." is followed by at least
   * one character and by no "/".
   */
  predicate HasExtension(s: string) {
    '.' in s && LastIndexOf(s, '.') + 1 < |s| && '/' !in s[LastIndexOf(s, '.') + 1..]
  }

  /**
   * `s.replace(/\.[^/.]+$/, with)`: the final extension, dot included, gives
   * way to `with`; a string without one is left as it is.
   */
  function ReplaceExtension(s: string, with: string): string {
    if HasExtension(s) then s[..LastIndexOf(s, '.')] + with else s
  }

  /**
   * The pattern `/(.*\/)?([^/.]+)\.[^/.]+$/` matches: there is a final
   * extension and the character just before its dot is neither "/" nor ".".
   */
  predicate HasStemAndExtension(s: string) {
    HasExtension(s) && LastIndexOf(s, '.') > 0
    && s[LastIndexOf(s, '.') - 1] != '/' && s[LastIndexOf(s, '.') - 1] != '.'
  }

  /**
   * `s.replace(/(.*\/)?([^/.]+)\.[^/.]+$/, "$1$2" + with)`. Whatever the match
   * starts with, groups 1 and 2 give back the match minus the final ".ext",
   * so the result is `s` with its final extension replaced by `with`.
   */
  function ReplaceStemExtension(s: string, with: string): string {
    if HasStemAndExtension(s) then s[..LastIndexOf(s, '.')] + with else s
  }
}
