/**
 * The string operations of JavaScript that the application relies on:
 * `trim`, `toLowerCase`, `includes`, `indexOf` and `split` with a string
 * separator, and the code-point order SQLite uses for `ORDER BY` on text.
 * Strings are sequences of Unicode scalar values.
 */
module Text {
  import opened Wrappers

  /** ECMAScript's WhiteSpace and LineTerminator code points: what `trim` and `parseInt` skip. */
  predicate IsSpace(c: char) {
    || c == '\t' || c == '\n' || c == '\U{000B}' || c == '\U{000C}' || c == '\r'
    || c == ' ' || c == '\U{00A0}' || c == '\U{1680}'
    || ('\U{2000}' <= c <= '\U{200A}')
    || c == '\U{2028}' || c == '\U{2029}' || c == '\U{202F}' || c == '\U{205F}'
    || c == '\U{3000}' || c == '\U{FEFF}'
  }

  /** What is left after dropping the leading white space. */
  function TrimStart(s: string): (r: string)
    ensures |r| <= |s| && r == s[|s| - |r|..]
    ensures forall k :: 0 <= k < |s| - |r| ==> IsSpace(s[k])
    ensures r == [] || !IsSpace(r[0])
  {
    if s != [] && IsSpace(s[0]) then TrimStart(s[1..]) else s
  }

  /** What is left after dropping the trailing white space. */
  function TrimEnd(s: string): (r: string)
    ensures |r| <= |s| && r == s[..|r|]
    ensures forall k :: |r| <= k < |s| ==> IsSpace(s[k])
    ensures r == [] || !IsSpace(r[|r| - 1])
  {
    if s != [] && IsSpace(s[|s| - 1]) then TrimEnd(s[..|s| - 1]) else s
  }

  /**
   * `r` is `s` with the first `i` characters and the characters after
   * `i + |r|` dropped, and every dropped character is white space.
   */
  predicate TrimmedAt(s: string, r: string, i: int) {
    && 0 <= i && i + |r| <= |s| && r == s[i..i + |r|]
    && (forall k :: 0 <= k < i ==> IsSpace(s[k]))
    && (forall k :: i + |r| <= k < |s| ==> IsSpace(s[k]))
  }

  /** `String.prototype.trim`: only white space is removed, and only at the two ends. */
  function Trim(s: string): (r: string)
    ensures |r| <= |s|
    ensures r == [] || (!IsSpace(r[0]) && !IsSpace(r[|r| - 1]))
    ensures exists i :: TrimmedAt(s, r, i)
  {
    var t := TrimStart(s);
    var r := TrimEnd(t);
    assert r != [] ==> r[0] == t[0];
    TrimmedBoth(s, t, r);
    r
  }

  /** Dropping white space in front and then behind leaves a middle slice of `s`. */
  lemma TrimmedBoth(s: string, t: string, r: string)
    requires |t| <= |s| && t == s[|s| - |t|..]
    requires forall k :: 0 <= k < |s| - |t| ==> IsSpace(s[k])
    requires |r| <= |t| && r == t[..|r|]
    requires forall k :: |r| <= k < |t| ==> IsSpace(t[k])
    ensures TrimmedAt(s, r, |s| - |t|)
  {
    var i := |s| - |t|;
    assert r == s[i..i + |r|];
    forall k | i + |r| <= k < |s|
      ensures IsSpace(s[k])
    {
      assert s[k] == t[k - i];
    }
  }

  /**
   * `toLowerCase` on a fixed repertoire: ASCII, Latin-1 and the letters of
   * Vietnamese (Ă Â Đ Ê Ô Ơ Ư, Ĩ Ũ and the Latin Extended Additional block
   * U+1EA0..U+1EF9). Every other character is left unchanged.
   */
  function LowerChar(c: char): char {
    if 'A' <= c <= 'Z' then (c as int + 32) as char
    else if '\U{00C0}' <= c <= '\U{00DE}' && c != '\U{00D7}' then (c as int + 32) as char
    else if c == '\U{0102}' || c == '\U{0110}' || c == '\U{0128}' || c == '\U{0168}' || c == '\U{01A0}' || c == '\U{01AF}'
    then (c as int + 1) as char
    else if '\U{1EA0}' <= c <= '\U{1EF8}' && (c as int) % 2 == 0 then (c as int + 1) as char
    else c
  }

  /** `toLowerCase`: each character is mapped on its own. */
  function ToLower(s: string): (r: string)
    ensures |r| == |s|
    ensures forall i :: 0 <= i < |s| ==> r[i] == LowerChar(s[i])
  {
    seq(|s|, i requires 0 <= i < |s| => LowerChar(s[i]))
  }

  /** The table maps onto lower-case letters only: lower-casing twice is lower-casing once. */
  lemma ToLowerIdempotent(s: string)
    ensures ToLower(ToLower(s)) == ToLower(s)
  {
  }

  predicate StartsWith(s: string, p: string) {
    |p| <= |s| && s[..|p|] == p
  }

  /** `sep` occurs in `s` starting at position `k`. */
  predicate OccursAt(s: string, sep: string, k: int) {
    0 <= k && k + |sep| <= |s| && s[k..k + |sep|] == sep
  }

  /** The first occurrence of `sep` at or after `from`. */
  function IndexFrom(s: string, sep: string, from: nat): (r: Option<nat>)
    ensures r.Some? ==> from <= r.value && OccursAt(s, sep, r.value)
    ensures r.Some? ==> forall k :: from <= k < r.value ==> !OccursAt(s, sep, k)
    ensures r.None? ==> forall k :: from <= k ==> !OccursAt(s, sep, k)
    decreases |s| - from
  {
    if from + |sep| > |s| then None
    else if s[from..from + |sep|] == sep then Some(from)
    else IndexFrom(s, sep, from + 1)
  }

  /** The first position at which `sep` occurs in `s` (`String.prototype.indexOf`, with None for -1). */
  function IndexOf(s: string, sep: string): (r: Option<nat>)
    ensures r.Some? ==> OccursAt(s, sep, r.value) && forall k :: 0 <= k < r.value ==> !OccursAt(s, sep, k)
    ensures r.None? ==> forall k :: !OccursAt(s, sep, k)
  {
    IndexFrom(s, sep, 0)
  }

  /** `String.prototype.includes`. */
  predicate Contains(s: string, sub: string) {
    IndexOf(s, sub).Some?
  }

  /** An occurrence with none before it is the one IndexOf finds. */
  lemma FirstOccurrence(s: string, sep: string, i: nat)
    requires OccursAt(s, sep, i)
    requires forall k :: 0 <= k < i ==> !OccursAt(s, sep, k)
    ensures IndexOf(s, sep) == Some(i)
  {
  }

  /** `String.prototype.split` with a non-empty string separator and no limit. */
  function Split(s: string, sep: string): (parts: seq<string>)
    requires sep != []
    ensures |parts| >= 1
    decreases |s|
  {
    match IndexOf(s, sep)
    case None => [s]
    case Some(i) => [s[..i]] + Split(s[i + |sep|..], sep)
  }

  /** Splitting at the first occurrence. */
  lemma SplitAt(s: string, sep: string, i: nat)
    requires sep != [] && IndexOf(s, sep) == Some(i)
    ensures Split(s, sep) == [s[..i]] + Split(s[i + |sep|..], sep)
  {
  }

  /** A string without the separator is a single piece. */
  lemma SplitWhole(p: string, sep: string)
    requires sep != [] && !Contains(p, sep)
    ensures Split(p, sep) == [p]
  {
  }

  /** `Array.prototype.join`: the inverse of Split. */
  function Join(parts: seq<string>, sep: string): string {
    if |parts| == 0 then ""
    else if |parts| == 1 then parts[0]
    else parts[0] + sep + Join(parts[1..], sep)
  }

  /** An occurrence cuts a string into what comes before it, the separator and what follows. */
  lemma OccurrenceSplits(s: string, sep: string, i: nat)
    requires OccursAt(s, sep, i)
    ensures s[..i + |sep|] == s[..i] + sep
    ensures s == s[..i] + sep + s[i + |sep|..]
  {
    assert s[..i + |sep|] == s[..i] + s[i..i + |sep|];
    assert s == s[..i + |sep|] + s[i + |sep|..];
  }

  /** Joining the pieces of a split gives back the original string. */
  lemma {:induction false} JoinSplit(s: string, sep: string)
    requires sep != []
    ensures Join(Split(s, sep), sep) == s
    decreases |s|
  {
    match IndexOf(s, sep)
    case None =>
    case Some(i) =>
      var rest := s[i + |sep|..];
      JoinSplit(rest, sep);
      OccurrenceSplits(s, sep, i);
  }

  /** A prefix that stops before the first occurrence does not contain the separator. */
  lemma PrefixBeforeFirst(s: string, sep: string, i: nat)
    requires sep != [] && i <= |s|
    requires forall k :: 0 <= k < i ==> !OccursAt(s, sep, k)
    ensures !Contains(s[..i], sep)
  {
    var p := s[..i];
    forall k | 0 <= k
      ensures !OccursAt(p, sep, k)
    {
      if k + |sep| <= |p| {
        assert p[k..k + |sep|] == s[k..k + |sep|];
        assert !OccursAt(s, sep, k);
      }
    }
  }

  /** No piece of a split contains the separator. */
  lemma {:induction false} SplitPiecesFree(s: string, sep: string)
    requires sep != []
    ensures forall k :: 0 <= k < |Split(s, sep)| ==> !Contains(Split(s, sep)[k], sep)
    decreases |s|
  {
    match IndexOf(s, sep)
    case None =>
      PrefixBeforeFirst(s, sep, |s|);
      assert s[..|s|] == s;
    case Some(i) =>
      PrefixBeforeFirst(s, sep, i);
      SplitPiecesFree(s[i + |sep|..], sep);
  }

  /** When `a` holds no character that could start `sep`, splitting `a + sep + b` cuts exactly after `a`. */
  lemma {:induction false} SplitAfter(a: string, sep: string, b: string)
    requires sep != []
    requires forall k :: 0 <= k < |a| ==> a[k] != sep[0]
    ensures Split(a + sep + b, sep) == [a] + Split(b, sep)
  {
    var s := a + sep + b;
    assert s[|a|..|a| + |sep|] == sep;
    forall k | 0 <= k < |a|
      ensures !OccursAt(s, sep, k)
    {
      assert s[k] == a[k];
    }
    FirstOccurrence(s, sep, |a|);
    assert s[..|a|] == a;
    assert s[|a| + |sep|..] == b;
  }

  /** A string that lacks one of the characters of `sub` does not contain `sub`. */
  lemma AbsentChar(s: string, sub: string, j: nat)
    requires j < |sub| && sub[j] !in s
    ensures !Contains(s, sub)
  {
    forall k | 0 <= k
      ensures !OccursAt(s, sub, k)
    {
      if k + |sub| <= |s| {
        assert s[k..k + |sub|][j] == s[k + j];
      }
    }
  }

  /** A string without any occurrence of `sep` splits into itself alone. */
  lemma SplitNone(s: string, sep: string)
    requires sep != []
    requires sep[0] !in s
    ensures Split(s, sep) == [s]
  {
    AbsentChar(s, sep, 0);
  }

  /** Trimming a string that neither starts nor ends with white space leaves it as it is. */
  lemma TrimUnchanged(s: string)
    requires s != [] && !IsSpace(s[0]) && !IsSpace(s[|s| - 1])
    ensures Trim(s) == s
  {
  }

  /** Two strings with a common prefix agree on every slice inside it. */
  lemma SliceOfCommonPrefix(s: string, t: string, n: nat, k: nat, m: nat)
    requires k + m <= n <= |s| && n <= |t| && s[..n] == t[..n]
    ensures s[k..k + m] == t[k..k + m]
  {
    assert s[k..k + m] == s[..n][k..k + m];
    assert t[k..k + m] == t[..n][k..k + m];
  }

  /** A string agreeing with `s` up to and including the first occurrence has it first too. */
  lemma SameFirstOccurrence(s: string, t: string, sep: string, i: nat)
    requires sep != [] && IndexOf(s, sep) == Some(i)
    requires i + |sep| <= |t| && t[..i + |sep|] == s[..i + |sep|]
    ensures IndexOf(t, sep) == Some(i)
  {
    SliceOfCommonPrefix(s, t, i + |sep|, i, |sep|);
    forall k | 0 <= k < i
      ensures !OccursAt(t, sep, k)
    {
      SliceOfCommonPrefix(s, t, i + |sep|, k, |sep|);
      assert !OccursAt(s, sep, k);
    }
    FirstOccurrence(t, sep, i);
  }

  lemma ConcatPrefix(a: string, b: string)
    ensures (a + b)[..|a|] == a
  {
  }

  lemma ConcatSuffix(a: string, b: string)
    ensures (a + b)[|a|..] == b
  {
  }

  /** Rejoining the text before the first occurrence with a separator-free piece splits back into the two. */
  lemma RejoinFirst(s: string, sep: string, i: nat, p1: string)
    requires sep != [] && IndexOf(s, sep) == Some(i) && !Contains(p1, sep)
    ensures Split(s[..i] + sep + p1, sep) == [s[..i], p1]
  {
    var p0 := s[..i];
    var t := p0 + sep + p1;
    OccurrenceSplits(s, sep, i);
    ConcatPrefix(p0 + sep, p1);
    SameFirstOccurrence(s, t, sep, i);
    SplitAt(t, sep, i);
    assert t == p0 + (sep + p1);
    ConcatPrefix(p0, sep + p1);
    ConcatSuffix(p0 + sep, p1);
    SplitWhole(p1, sep);
  }

  /**
   * Only the first two pieces of a split matter to a reader of pieces 0 and
   * 1: rejoining those two and splitting again gives the same two pieces.
   */
  lemma SplitFirstTwo(s: string, sep: string)
    requires sep != [] && |Split(s, sep)| >= 2
    ensures Split(Split(s, sep)[0] + sep + Split(s, sep)[1], sep) == Split(s, sep)[..2]
  {
    var i := IndexOf(s, sep).value;
    var rest := s[i + |sep|..];
    SplitAt(s, sep, i);
    SplitPiecesFree(rest, sep);
    RejoinFirst(s, sep, i, Split(rest, sep)[0]);
  }

  /** The order SQLite's BINARY collation puts text in: code point by code point, a proper prefix first. */
  predicate LexLess(a: string, b: string) {
    if a == [] then b != []
    else if b == [] then false
    else if a[0] != b[0] then a[0] < b[0]
    else LexLess(a[1..], b[1..])
  }

  lemma {:induction false} LexLessIrreflexive(a: string)
    ensures !LexLess(a, a)
  {
    if a != [] { LexLessIrreflexive(a[1..]); }
  }

  lemma {:induction false} LexLessTransitive(a: string, b: string, c: string)
    requires LexLess(a, b) && LexLess(b, c)
    ensures LexLess(a, c)
  {
    if a != [] && b != [] && c != [] && a[0] == b[0] && b[0] == c[0] {
      LexLessTransitive(a[1..], b[1..], c[1..]);
    }
  }

  lemma {:induction false} LexLessTotal(a: string, b: string)
    ensures a == b || LexLess(a, b) || LexLess(b, a)
  {
    if a != [] && b != [] && a[0] == b[0] {
      LexLessTotal(a[1..], b[1..]);
      if a[1..] == b[1..] {
        assert a == [a[0]] + a[1..] && b == [b[0]] + b[1..];
      }
    }
  }

  lemma LexLessAsymmetric(a: string, b: string)
    requires LexLess(a, b)
    ensures !LexLess(b, a)
  {
    if LexLess(b, a) {
      LexLessTransitive(a, b, a);
      LexLessIrreflexive(a);
    }
  }

  /** A common prefix does not change the order. */
  lemma {:induction false} LexLessCommonPrefix(p: string, a: string, b: string)
    ensures LexLess(p + a, p + b) <==> LexLess(a, b)
  {
    if p == [] {
      assert p + a == a && p + b == b;
    } else {
      assert (p + a)[0] == (p + b)[0] == p[0];
      assert (p + a)[1..] == p[1..] + a;
      assert (p + b)[1..] == p[1..] + b;
      LexLessCommonPrefix(p[1..], a, b);
    }
  }

  /** The greatest string of a non-empty list (`ORDER BY ... DESC LIMIT 1`). */
  function MaxLex(s: seq<string>): (m: string)
    requires |s| > 0
    ensures m in s
    ensures forall x :: x in s ==> !LexLess(m, x)
  {
    if |s| == 1 then LexLessIrreflexive(s[0]); s[0]
    else
      var rest := MaxLex(s[1..]);
      if LexLess(rest, s[0]) then
        assert forall x :: x in s[1..] && LexLess(s[0], x) ==> LexLess(rest, x) by {
          forall x | x in s[1..] && LexLess(s[0], x) ensures LexLess(rest, x) {
            LexLessTransitive(rest, s[0], x);
          }
        }
        LexLessIrreflexive(s[0]);
        s[0]
      else rest
  }

  /** The greatest element is the only one nothing else exceeds. */
  lemma MaxLexUnique(s: seq<string>, m: string)
    requires |s| > 0 && m in s
    requires forall x :: x in s ==> !LexLess(m, x)
    ensures MaxLex(s) == m
  {
    var g := MaxLex(s);
    LexLessTotal(g, m);
  }
}
