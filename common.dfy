/**
 * Values and string helpers shared by every part of the model: an optional
 * value, bytes, and the handful of string operations the C++ sources borrow
 * from `std::string_view` and Abseil (`StripAsciiWhitespace`, `StrSplit`
 * with `SkipWhitespace`, `MaxSplits`, `find`, `starts_with`, `ends_with`).
 */
module Common {

  datatype Option<T> = None | Some(value: T)

  /** One octet of a byte buffer (`std::byte`). */
  newtype byte = b: int | 0 <= b < 256

  predicate StartsWith<T(==)>(s: seq<T>, prefix: seq<T>) {
    |prefix| <= |s| && s[..|prefix|] == prefix
  }

  predicate EndsWith<T(==)>(s: seq<T>, suffix: seq<T>) {
    |suffix| <= |s| && s[|s| - |suffix|..] == suffix
  }

  /** The characters `absl::ascii_isspace` accepts. */
  predicate IsAsciiSpace(c: char) {
    c == ' ' || c == '\t' || c == '\n' || c == '\r' || c == '\U{0B}' || c == '\U{0C}'
  }

  /** True when a piece is empty or holds only ASCII whitespace (Abseil's `SkipWhitespace`). */
  predicate IsBlank(s: string) {
    forall i :: 0 <= i < |s| ==> IsAsciiSpace(s[i])
  }

  /** Index of the first non-whitespace character at or after `i`, or `|s|`. */
  function SpanEnd(s: string, i: nat): (k: nat)
    requires i <= |s|
    ensures i <= k <= |s|
    ensures forall j :: i <= j < k ==> IsAsciiSpace(s[j])
    ensures k == |s| || !IsAsciiSpace(s[k])
    decreases |s| - i
  {
    if i == |s| || !IsAsciiSpace(s[i]) then i else SpanEnd(s, i + 1)
  }

  /** Index just after the last non-whitespace character before `j`, or 0. */
  function SpanStart(s: string, j: nat): (k: nat)
    requires j <= |s|
    ensures k <= j
    ensures forall i :: k <= i < j ==> IsAsciiSpace(s[i])
    ensures k == 0 || !IsAsciiSpace(s[k - 1])
  {
    if j == 0 || !IsAsciiSpace(s[j - 1]) then j else SpanStart(s, j - 1)
  }

  /** `absl::StripAsciiWhitespace`: the longest slice of `s` with no
      whitespace at either end, obtained by dropping whitespace only. */
  function Strip(s: string): (r: string)
    ensures |r| <= |s|
    ensures r == [] <==> IsBlank(s)
    ensures r == [] || (!IsAsciiSpace(r[0]) && !IsAsciiSpace(r[|r| - 1]))
  {
    var a := SpanEnd(s, 0);
    if a == |s| then []
    else
      var b := SpanStart(s, |s|);
      assert !IsAsciiSpace(s[a]);
      s[a..b]
  }

  /** Index of the first `c` in `s` at or after `from` (`find(c, from)`). */
  function FindFrom<T(==)>(s: seq<T>, c: T, from: nat): (r: Option<nat>)
    requires from <= |s|
    ensures r.Some? ==> from <= r.value < |s| && s[r.value] == c
    ensures forall j :: from <= j < (if r.Some? then r.value else |s|) ==> s[j] != c
    decreases |s| - from
  {
    if from == |s| then None
    else if s[from] == c then Some(from)
    else FindFrom(s, c, from + 1)
  }

  /** Index of the first `c` in `s` (`find(c)`). */
  function Find<T(==)>(s: seq<T>, c: T): (r: Option<nat>)
    ensures r.Some? ==> r.value < |s| && s[r.value] == c
    ensures forall j :: 0 <= j < (if r.Some? then r.value else |s|) ==> s[j] != c
  {
    FindFrom(s, c, 0)
  }

  /** True when `t` occurs in `s` at position `i`. */
  predicate OccursAt<T(==)>(s: seq<T>, t: seq<T>, i: nat) {
    i + |t| <= |s| && s[i..i + |t|] == t
  }

  /** Index of the leftmost occurrence of `t` in `s` at or after `from`. */
  function FindSeqFrom<T(==)>(s: seq<T>, t: seq<T>, from: nat): (r: Option<nat>)
    ensures r.Some? ==> from <= r.value && OccursAt(s, t, r.value)
    ensures forall j :: from <= j && (r.None? || j < r.value) ==> !OccursAt(s, t, j)
    decreases |s| - from
  {
    if from + |t| > |s| then None
    else if s[from..from + |t|] == t then Some(from)
    else FindSeqFrom(s, t, from + 1)
  }

  /** `s.find(t) != npos` */
  predicate Contains<T(==)>(s: seq<T>, t: seq<T>) {
    FindSeqFrom(s, t, 0).Some?
  }

  /** `absl::StrSplit(s, d)`: the pieces between the leftmost non-overlapping
      occurrences of the non-empty delimiter `d`. */
  function Split<T(==)>(s: seq<T>, d: seq<T>): (r: seq<seq<T>>)
    requires |d| > 0
    ensures |r| >= 1
    decreases |s|
  {
    match FindSeqFrom(s, d, 0)
    case None => [s]
    case Some(i) => [s[..i]] + Split(s[i + |d|..], d)
  }

  /** No piece of a split holds the delimiter. */
  lemma {:induction false} SplitPiecesLackDelimiter<T>(s: seq<T>, d: seq<T>)
    requires |d| > 0
    ensures forall k :: 0 <= k < |Split(s, d)| ==> FindSeqFrom(Split(s, d)[k], d, 0).None?
    decreases |s|
  {
    match FindSeqFrom(s, d, 0)
    case None =>
    case Some(i) =>
      NoOccurrenceInPrefix(s, d, i);
      SplitPiecesLackDelimiter(s[i + |d|..], d);
      assert Split(s, d) == [s[..i]] + Split(s[i + |d|..], d);
  }

  lemma NoOccurrenceInPrefix<T>(s: seq<T>, d: seq<T>, i: nat)
    requires |d| > 0 && i <= |s|
    requires forall j :: 0 <= j < i ==> !OccursAt(s, d, j)
    ensures FindSeqFrom(s[..i], d, 0).None?
  {
    var p := s[..i];
    forall j: nat ensures !OccursAt(p, d, j) {
      if j + |d| <= |p| {
        assert p[j..j + |d|] == s[j..j + |d|];
        assert !OccursAt(s, d, j);
      }
    }
  }

  /** Inverse of `Split`: the pieces glued back with the delimiter. */
  function Join<T>(pieces: seq<seq<T>>, d: seq<T>): seq<T>
    requires |pieces| >= 1
  {
    if |pieces| == 1 then pieces[0] else pieces[0] + d + Join(pieces[1..], d)
  }

  /** Splitting loses nothing: gluing the pieces back gives the input. */
  lemma {:induction false} SplitJoin<T>(s: seq<T>, d: seq<T>)
    requires |d| > 0
    ensures Join(Split(s, d), d) == s
    decreases |s|
  {
    match FindSeqFrom(s, d, 0)
    case None =>
    case Some(i) =>
      var rest := s[i + |d|..];
      var pieces := Split(s, d);
      assert pieces == [s[..i]] + Split(rest, d);
      assert pieces[1..] == Split(rest, d);
      assert Join(pieces, d) == s[..i] + d + Join(Split(rest, d), d);
      SplitJoin(rest, d);
      assert s[i..i + |d|] == d;
      assert s == s[..i] + s[i..i + |d|] + rest;
  }

  /** Abseil's `SkipWhitespace` predicate applied to a list of pieces. */
  function SkipBlank(pieces: seq<string>): (r: seq<string>)
    ensures |r| <= |pieces|
    ensures forall k :: 0 <= k < |r| ==> !IsBlank(r[k])
  {
    if pieces == [] then []
    else if IsBlank(pieces[0]) then SkipBlank(pieces[1..])
    else [pieces[0]] + SkipBlank(pieces[1..])
  }

  /** `SkipBlank` keeps exactly the non-blank pieces. */
  lemma {:induction false} SkipBlankMembers(pieces: seq<string>, p: string)
    ensures p in SkipBlank(pieces) <==> p in pieces && !IsBlank(p)
  {
    if pieces != [] {
      SkipBlankMembers(pieces[1..], p);
      assert pieces == [pieces[0]] + pieces[1..];
    }
  }

  /** Text up to the first `c` and text after it; the whole text on both
      sides when there is no `c` (`s.substr(0, i)` and `s.substr(i + 1)`
      with `i == npos`, whose `npos + 1` wraps to 0). */
  function SplitAtFirst(s: string, c: char): (r: (string, string))
    ensures Find(s, c).Some? ==> r.0 + [c] + r.1 == s && c !in r.0
    ensures Find(s, c).None? ==> r.0 == s && r.1 == s
  {
    match Find(s, c)
    case Some(i) =>
      assert s == s[..i] + [c] + s[i + 1..];
      (s[..i], s[i + 1..])
    case None => (s, s)
  }

  /** The line one `std::getline` reads: everything before the first
      newline, or the whole text when there is none (an empty text gives
      an empty line). */
  function FirstLine(output: string): (line: string)
    ensures '\n' !in line
    ensures StartsWith(output, line)
    ensures line == output || (|line| < |output| && output[|line|] == '\n')
  {
    var parts := SplitAtFirst(output, '\n');
    if Find(output, '\n').Some? then
      assert output == parts.0 + ("\n" + parts.1);
      parts.0
    else
      assert '\n' !in output;
      output
  }

  /** An occurrence anywhere makes `find` succeed. */
  lemma ContainsAt<T>(s: seq<T>, t: seq<T>, i: nat)
    requires OccursAt(s, t, i)
    ensures Contains(s, t)
  {
  }

  /** What a text contains, the text with anything in front contains too. */
  lemma ContainsAfter<T>(pre: seq<T>, s: seq<T>, t: seq<T>)
    requires Contains(s, t)
    ensures Contains(pre + s, t)
  {
    var i := FindSeqFrom(s, t, 0).value;
    assert (pre + s)[|pre| + i..|pre| + i + |t|] == s[i..i + |t|];
    ContainsAt(pre + s, t, |pre| + i);
  }

  // ---------------------------------------------------------------------
  // Facts about the helpers on concrete shapes of text

  /** `FindFrom` stops at the first `c` at or after `from`. */
  lemma FindFromIs<T>(s: seq<T>, c: T, from: nat, i: nat)
    requires from <= i < |s| && s[i] == c
    requires forall j :: from <= j < i ==> s[j] != c
    ensures FindFrom(s, c, from) == Some(i)
    decreases i - from
  {
    if from < i {
      FindFromIs(s, c, from + 1, i);
    }
  }

  /** `FindSeqFrom` stops at the first occurrence at or after `from`. */
  lemma FindSeqFromIs<T>(s: seq<T>, t: seq<T>, from: nat, i: nat)
    requires from <= i && OccursAt(s, t, i)
    requires forall j :: from <= j < i ==> !OccursAt(s, t, j)
    ensures FindSeqFrom(s, t, from) == Some(i)
    decreases i - from
  {
    if from < i {
      FindSeqFromIs(s, t, from + 1, i);
    }
  }

  /** One differing element rules an occurrence out. */
  lemma NotOccursAt<T>(s: seq<T>, t: seq<T>, j: nat, k: nat)
    requires j + |t| <= |s| && k < |t| && s[j + k] != t[k]
    ensures !OccursAt(s, t, j)
  {
    assert s[j..j + |t|][k] == s[j + k];
  }

  /** Text without the first element of `t` does not contain `t`. */
  lemma NotContainedWithoutFirst<T>(s: seq<T>, t: seq<T>)
    requires t != [] && t[0] !in s
    ensures !Contains(s, t)
  {
    forall j: nat ensures !OccursAt(s, t, j) {
      if j + |t| <= |s| {
        NotOccursAt(s, t, j, 0);
      }
    }
  }

  /** A prefix without the first element of `t` adds no occurrence of `t`. */
  lemma NotContainedAfterPrefix<T>(pre: seq<T>, s: seq<T>, t: seq<T>)
    requires t != [] && t[0] !in pre && !Contains(s, t)
    ensures !Contains(pre + s, t)
  {
    var x := pre + s;
    forall j: nat ensures !OccursAt(x, t, j) {
      if j + |t| <= |x| {
        if j < |pre| {
          NotOccursAt(x, t, j, 0);
        } else {
          assert x[j..j + |t|] == s[j - |pre|..j - |pre| + |t|];
          assert !OccursAt(s, t, j - |pre|);
        }
      }
    }
  }

  /** A one-element delimiter is found where its element is. */
  lemma {:induction false} FindSeqFromSingle<T>(s: seq<T>, c: T, from: nat)
    ensures FindSeqFrom(s, [c], from) == (if from <= |s| then FindFrom(s, c, from) else None)
    decreases |s| - from
  {
    if from + 1 <= |s| {
      assert s[from..from + 1] == [c] <==> s[from] == c;
      if s[from] != c {
        FindSeqFromSingle(s, c, from + 1);
      }
    }
  }

  /** Splitting at the first `c`, when the text before it holds no `c`. */
  lemma SplitSingleCons<T>(a: seq<T>, c: T, b: seq<T>)
    requires c !in a
    ensures Split(a + [c] + b, [c]) == [a] + Split(b, [c])
  {
    var s := a + [c] + b;
    FindSeqFromSingle(s, c, 0);
    FindFromIs(s, c, 0, |a|);
    assert s[..|a|] == a;
    assert s[|a| + 1..] == b;
  }

  /** Splitting where the first delimiter is found. */
  lemma SplitCons<T>(a: seq<T>, d: seq<T>, b: seq<T>)
    requires |d| > 0 && FindSeqFrom(a + d + b, d, 0) == Some(|a|)
    ensures Split(a + d + b, d) == [a] + Split(b, d)
  {
    var s := a + d + b;
    assert s[..|a|] == a;
    assert s[|a| + |d|..] == b;
  }

  /** Text without `c` is one piece. */
  lemma SplitSingleNone<T>(a: seq<T>, c: T)
    requires c !in a
    ensures Split(a, [c]) == [a]
  {
    FindSeqFromSingle(a, c, 0);
  }

  lemma SpanEndIs(s: string, i: nat, k: nat)
    requires i <= k <= |s|
    requires forall j :: i <= j < k ==> IsAsciiSpace(s[j])
    requires k == |s| || !IsAsciiSpace(s[k])
    ensures SpanEnd(s, i) == k
    decreases k - i
  {
    if i < k {
      SpanEndIs(s, i + 1, k);
    }
  }

  lemma SpanStartIs(s: string, j: nat, k: nat)
    requires k <= j <= |s|
    requires forall i :: k <= i < j ==> IsAsciiSpace(s[i])
    requires k == 0 || !IsAsciiSpace(s[k - 1])
    ensures SpanStart(s, j) == k
    decreases j - k
  {
    if k < j {
      SpanStartIs(s, j - 1, k);
    }
  }

  /** Text with no whitespace at either end is its own stripping. */
  lemma StripTrimmed(x: string)
    requires x != [] && !IsAsciiSpace(x[0]) && !IsAsciiSpace(x[|x| - 1])
    ensures Strip(x) == x
  {
    SpanEndIs(x, 0, 0);
    SpanStartIs(x, |x|, |x|);
  }

  /** Stripping removes exactly the whitespace around a word. */
  lemma StripPadded(pre: string, x: string, post: string)
    requires IsBlank(pre) && IsBlank(post)
    requires x != [] && !IsAsciiSpace(x[0]) && !IsAsciiSpace(x[|x| - 1])
    ensures Strip(pre + x + post) == x
  {
    var t := pre + x + post;
    var a, b := |pre|, |pre| + |x|;
    forall j | 0 <= j < a ensures IsAsciiSpace(t[j]) {
      assert t[j] == pre[j];
    }
    assert t[a] == x[0];
    SpanEndIs(t, 0, a);
    forall i | b <= i < |t| ensures IsAsciiSpace(t[i]) {
      assert t[i] == post[i - b];
    }
    assert t[b - 1] == x[|x| - 1];
    SpanStartIs(t, |t|, b);
    assert t[a..b] == x;
  }
}
