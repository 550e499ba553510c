/**
 * The Python `str` operations the updater relies on: `startswith`,
 * `endswith`, `find`, `split(sep)`, `strip()` and the slice `s[0:-1]`.
 */
module Strings {

  predicate StartsWith(s: string, prefix: string) {
    |prefix| <= |s| && s[..|prefix|] == prefix
  }

  predicate EndsWith(s: string, suffix: string) {
    |suffix| <= |s| && s[|s| - |suffix|..] == suffix
  }

  /** `sub` occurs in `s` starting at index `i`. */
  predicate OccursAt(s: string, sub: string, i: int) {
    0 <= i && i + |sub| <= |s| && s[i..i + |sub|] == sub
  }

  predicate IsSubstring(sub: string, s: string) {
    exists i :: 0 <= i <= |s| && OccursAt(s, sub, i)
  }

  /** `str.find`: the lowest index at which `sub` occurs in `s`, or -1. */
  function Find(s: string, sub: string): (r: int)
    ensures r == -1 <==> !IsSubstring(sub, s)
    ensures r != -1 ==> OccursAt(s, sub, r)
    ensures r != -1 ==> forall j :: 0 <= j < r ==> !OccursAt(s, sub, j)
  {
    FindFrom(s, sub, 0)
  }

  function FindFrom(s: string, sub: string, start: nat): (r: int)
    decreases |s| - start
    ensures r == -1 ==> forall j :: start <= j ==> !OccursAt(s, sub, j)
    ensures r != -1 ==> start <= r && OccursAt(s, sub, r)
    ensures r != -1 ==> forall j :: start <= j < r ==> !OccursAt(s, sub, j)
  {
    if start + |sub| > |s| then -1
    else if s[start..start + |sub|] == sub then start
    else FindFrom(s, sub, start + 1)
  }

  /** The test `s.find(sub) != -1` the source writes for "contains". */
  predicate Contains(s: string, sub: string) {
    Find(s, sub) != -1
  }

  /** `s.split(sep)` for a non-empty separator: the pieces between the
      non-overlapping occurrences of `sep`, scanned left to right. */
  function Split(s: string, sep: string): (parts: seq<string>)
    requires |sep| > 0
    decreases |s|
    ensures |parts| >= 1
    ensures forall k :: 0 <= k < |parts| ==> !IsSubstring(sep, parts[k])
  {
    var i := Find(s, sep);
    if i == -1 then [s]
    else
      FirstOccurrenceBounds(s, sep, i);
      [s[..i]] + Split(s[i + |sep|..], sep)
  }

  /** The text in front of the first occurrence of `sep` does not contain `sep`. */
  lemma FirstOccurrenceBounds(s: string, sep: string, i: int)
    requires |sep| > 0 && i == Find(s, sep) && i != -1
    ensures !IsSubstring(sep, s[..i])
  {
    if IsSubstring(sep, s[..i]) {
      var j :| 0 <= j <= i && OccursAt(s[..i], sep, j);
      assert s[..i][j..j + |sep|] == s[j..j + |sep|];
      assert OccursAt(s, sep, j) && j < i;
    }
  }

  /** `sep.join(parts)`. */
  function Join(parts: seq<string>, sep: string): string {
    if |parts| == 0 then ""
    else if |parts| == 1 then parts[0]
    else parts[0] + sep + Join(parts[1..], sep)
  }

  /** Splitting and joining again with the same separator gives back the text. */
  lemma {:induction false} JoinSplit(s: string, sep: string)
    requires |sep| > 0
    ensures Join(Split(s, sep), sep) == s
    decreases |s|
  {
    var i := Find(s, sep);
    if i != -1 {
      var rest := s[i + |sep|..];
      JoinSplit(rest, sep);
      var tail := Split(rest, sep);
      var parts := Split(s, sep);
      assert parts == [s[..i]] + tail;
      assert parts[1..] == tail;
      assert Join(parts, sep) == s[..i] + sep + Join(tail, sep);
      assert s[i..i + |sep|] == sep;
      assert s == s[..i] + s[i..i + |sep|] + rest;
    }
  }

  /** When no occurrence of `sep` starts inside `x`, splitting `x + sep + y`
      cuts exactly after `x`. */
  lemma {:induction false} SplitAfterFirst(x: string, sep: string, y: string)
    requires |sep| > 0 && !IsSubstring(sep, x + sep[..|sep| - 1])
    ensures Split(x + sep + y, sep) == [x] + Split(y, sep)
  {
    var s := x + sep + y;
    assert OccursAt(s, sep, |x|);
    assert IsSubstring(sep, s);
    var i := Find(s, sep);
    assert 0 <= i;
    if i < |x| {
      var w := x + sep[..|sep| - 1];
      assert |w| == |x| + |sep| - 1;
      assert forall k :: 0 <= k < |w| ==> s[k] == w[k];
      assert s[i..i + |sep|] == w[i..i + |sep|];
      assert OccursAt(w, sep, i);
    }
    assert i == |x|;
    assert s[..i] == x;
    assert s[i + |sep|..] == y;
  }

  /** A text lacking one of the characters of `sub` cannot contain `sub`. */
  lemma NoOccurrenceWithoutChar(s: string, sub: string, k: nat)
    requires k < |sub| && sub[k] !in s
    ensures !IsSubstring(sub, s)
  {
  }

  /** A text free of the one-character separator splits into itself alone. */
  lemma SplitWithoutSeparator(s: string, sep: string)
    requires |sep| == 1 && sep[0] !in s
    ensures Split(s, sep) == [s]
  {
    NoOccurrenceWithoutChar(s, sep, 0);
  }

  /** The first field of `v + tail`, where `tail` is empty or starts with the
      one-character separator and `v` lacks it, is `v`. */
  lemma SplitFirstField(v: string, sep: string, tail: string)
    requires |sep| == 1 && sep[0] !in v
    requires tail == "" || tail[0] == sep[0]
    ensures Split(v + tail, sep)[0] == v
  {
    if tail == "" {
      assert v + tail == v;
      SplitWithoutSeparator(v, sep);
    } else {
      var w := v + tail;
      assert w[|v|..|v| + 1] == sep;
      assert OccursAt(w, sep, |v|);
      var i := Find(w, sep);
      assert w[..i] == v;
    }
  }

  /** Splitting on a one-character separator absent from `x` cuts exactly after `x`. */
  lemma SplitAfterField(x: string, sep: string, y: string)
    requires |sep| == 1 && sep[0] !in x
    ensures Split(x + sep + y, sep) == [x] + Split(y, sep)
  {
    NoOccurrenceWithoutChar(x, sep, 0);
    assert x + sep[..0] == x;
    SplitAfterFirst(x, sep, y);
  }

  /** Two fields free of the one-character separator in front of `rest` are
      the first two pieces. */
  lemma SplitTwoFields(b: string, c: string, sep: string, rest: string)
    requires |sep| == 1 && sep[0] !in b && sep[0] !in c
    ensures Split(b + sep + (c + sep + rest), sep) == [b, c] + Split(rest, sep)
  {
    var r2 := c + sep + rest;
    var t := Split(rest, sep);
    SplitAfterField(c, sep, rest);
    assert Split(r2, sep) == [c] + t;
    SplitAfterField(b, sep, r2);
    assert [b] + ([c] + t) == [b, c] + t;
  }

  /** The first piece is the text up to the first occurrence of the
      separator, or all of it: a prefix followed by the end or by the
      separator. */
  lemma SplitFirstPiece(s: string, sep: string)
    requires |sep| > 0
    ensures Split(s, sep)[0] == if Find(s, sep) == -1 then s else s[..Find(s, sep)]
    ensures var f := Split(s, sep)[0];
            StartsWith(s, f) && (|s| == |f| || StartsWith(s[|f|..], sep))
  {
    var j := Find(s, sep);
    if j != -1 {
      var f := Split(s, sep)[0];
      assert f == s[..j];
      assert s[|f|..][..|sep|] == s[j..j + |sep|];
    }
  }

  /** There is a second piece exactly when the separator occurs; it is the
      text after the first occurrence, up to the next occurrence or the end. */
  lemma SplitSecondPiece(s: string, sep: string)
    requires |sep| > 0
    ensures |Split(s, sep)| >= 2 <==> IsSubstring(sep, s)
    ensures |Split(s, sep)| >= 2 ==>
              var rest := s[Find(s, sep) + |sep|..];
              Split(s, sep)[1] == if Find(rest, sep) == -1 then rest else rest[..Find(rest, sep)]
    ensures |Split(s, sep)| >= 2 ==>
              var rest := s[Find(s, sep) + |sep|..];
              var f := Split(s, sep)[1];
              StartsWith(rest, f) && (|rest| == |f| || StartsWith(rest[|f|..], sep))
  {
    var i := Find(s, sep);
    if i != -1 {
      var rest := s[i + |sep|..];
      var t := Split(rest, sep);
      assert Split(s, sep) == [s[..i]] + t;
      assert Split(s, sep)[1] == t[0];
      SplitFirstPiece(rest, sep);
    }
  }

  /** Python's `str.isspace()` characters, the ones `strip()` removes. */
  predicate IsSpace(c: char) {
    var n := c as int;
    n == 0x20 || 0x09 <= n <= 0x0D || 0x1C <= n <= 0x1F || n == 0x85 || n == 0xA0
    || n == 0x1680 || 0x2000 <= n <= 0x200A || n == 0x2028 || n == 0x2029
    || n == 0x202F || n == 0x205F || n == 0x3000
  }

  /** The number of leading whitespace characters. */
  function LeadingSpaces(s: string): (n: nat)
    ensures n <= |s|
    ensures forall k :: 0 <= k < n ==> IsSpace(s[k])
    ensures n < |s| ==> !IsSpace(s[n])
  {
    if |s| == 0 || !IsSpace(s[0]) then 0
    else
      var n := 1 + LeadingSpaces(s[1..]);
      assert forall k :: 1 <= k < n ==> s[k] == s[1..][k - 1];
      n
  }

  /** The number of trailing whitespace characters. */
  function TrailingSpaces(s: string): (n: nat)
    ensures n <= |s|
    ensures forall k :: |s| - n <= k < |s| ==> IsSpace(s[k])
    ensures n < |s| ==> !IsSpace(s[|s| - n - 1])
  {
    if |s| == 0 || !IsSpace(s[|s| - 1]) then 0
    else 1 + TrailingSpaces(s[..|s| - 1])
  }

  /** `t` is `s` with only whitespace cut away: `i` characters in front, the rest at the end. */
  predicate TrimmedAt(s: string, t: string, i: int) {
    0 <= i <= |s| - |t| && s[i..i + |t|] == t
    && (forall k :: 0 <= k < i ==> IsSpace(s[k]))
    && (forall k :: i + |t| <= k < |s| ==> IsSpace(s[k]))
  }

  /** `s.strip()`: the text without its leading and trailing whitespace. */
  function Strip(s: string): (t: string)
    ensures t == "" || (!IsSpace(t[0]) && !IsSpace(t[|t| - 1]))
    ensures TrimmedAt(s, t, LeadingSpaces(s))
  {
    var u := s[LeadingSpaces(s)..];
    u[..|u| - TrailingSpaces(u)]
  }

  /** Stripping twice removes nothing more. */
  lemma StripIdempotent(s: string)
    ensures Strip(Strip(s)) == Strip(s)
  {
    var t := Strip(s);
    if t != "" {
      assert LeadingSpaces(t) == 0;
      assert TrailingSpaces(t) == 0;
      assert t[0..] == t;
    }
  }

  /** `s[0:-1]`: everything but the last character (empty stays empty). */
  function DropLast(s: string): (t: string)
    ensures |s| > 0 ==> t + [s[|s| - 1]] == s
    ensures |s| == 0 ==> t == ""
  {
    if |s| == 0 then "" else s[..|s| - 1]
  }
}
