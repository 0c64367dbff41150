/** The small part of java.lang.String and java.util.regex that the analysers rely on:
    the character classes of their patterns, String.trim, String.split and
    String.contains, written over `string` (a `seq<char>`). */
module JavaText {

  datatype Option<T> = None | Some(value: T)

  /** The first of two alternatives that succeeds, as a backtracking matcher tries them. */
  function OrElse<T>(first: Option<T>, second: Option<T>): (r: Option<T>)
    ensures r.Some? <==> first.Some? || second.Some?
    ensures first.Some? ==> r == first
  {
    if first.Some? then first else second
  }

  /** f applied to every element of xs, in order. */
  function MapSeq<A, B>(f: A -> B, xs: seq<A>): (ys: seq<B>)
    ensures |ys| == |xs|
  {
    if xs == [] then [] else MapSeq(f, xs[..|xs| - 1]) + [f(xs[|xs| - 1])]
  }

  /** Each element of MapSeq(f, xs) is f of the element in the same place. */
  lemma {:induction false} MapSeqAt<A, B>(f: A -> B, xs: seq<A>, k: nat)
    requires k < |xs|
    ensures MapSeq(f, xs)[k] == f(xs[k])
    decreases |xs|
  {
    var front := xs[..|xs| - 1];
    if k < |front| {
      assert front[k] == xs[k];
      MapSeqAt(f, front, k);
    }
  }

  lemma MapSeqOne<A, B>(f: A -> B, x: A)
    ensures MapSeq(f, [x]) == [f(x)]
  {
    assert [x][..0] == [];
  }

  /** `\s` of a java.util.regex pattern compiled without UNICODE_CHARACTER_CLASS. */
  predicate IsSpace(c: char) {
    c == ' ' || c == '\t' || c == '\n' || c == '\U{000B}' || c == '\U{000C}' || c == '\r'
  }

  /** `\d`: the ASCII digits. */
  predicate IsDigit(c: char) { '0' <= c <= '9' }

  /** `[a-zA-Z_]`, the first character of an identifier. */
  predicate IsIdentStart(c: char) { 'a' <= c <= 'z' || 'A' <= c <= 'Z' || c == '_' }

  /** `[a-zA-Z0-9_]`: the rest of an identifier, and the word characters of `\b`. */
  predicate IsWordChar(c: char) { IsIdentStart(c) || IsDigit(c) }

  /** The characters that `.` does not match: the line terminators of java.util.regex. */
  predicate IsLineTerminator(c: char) {
    c == '\n' || c == '\r' || c == '\U{0085}' || c == '\U{2028}' || c == '\U{2029}'
  }

  /** The characters String.trim removes from both ends: everything up to U+0020. */
  predicate IsTrimmable(c: char) { c <= ' ' }

  /** A character class whose longest runs the matchers take. */
  datatype CharClass = Space | Digit | Word | NonSpace | AnyButTerminator | AnyBut(excluded: char)

  predicate In(cls: CharClass, c: char) {
    match cls
    case Space => IsSpace(c)
    case Digit => IsDigit(c)
    case Word => IsWordChar(c)
    case NonSpace => !IsSpace(c)
    case AnyButTerminator => !IsLineTerminator(c)
    case AnyBut(x) => c != x
  }

  /** Every character of `s[i..j]` belongs to `cls`. */
  ghost predicate AllIn(s: string, i: nat, j: nat, cls: CharClass)
    requires i <= j <= |s|
  {
    forall k :: i <= k < j ==> In(cls, s[k])
  }

  /** The end of the longest run of `cls` characters starting at `i` (a greedy `cls*`). */
  function RunEnd(s: string, i: nat, cls: CharClass): (j: nat)
    requires i <= |s|
    ensures i <= j <= |s|
    ensures AllIn(s, i, j, cls)
    ensures j == |s| || !In(cls, s[j])
    decreases |s| - i
  {
    if i < |s| && In(cls, s[i]) then RunEnd(s, i + 1, cls) else i
  }

  /** A greedy `\s*` from `i`. */
  function SkipSpaces(s: string, i: nat): (j: nat)
    requires i <= |s|
    ensures i <= j <= |s|
  {
    RunEnd(s, i, Space)
  }

  /** Every run of `cls` characters from `i` ends at or before the longest one. */
  lemma RunEndIsLongest(s: string, i: nat, a: nat, cls: CharClass)
    requires i <= a <= |s| && AllIn(s, i, a, cls)
    ensures a <= RunEnd(s, i, cls)
    ensures a < |s| && !In(cls, s[a]) ==> a == RunEnd(s, i, cls)
  {
  }

  /** s[i..a] is white space: a `\s*` that ends at `a`. */
  ghost predicate Gap(s: string, i: nat, a: nat) {
    i <= a <= |s| && AllIn(s, i, a, Space)
  }

  /** `\d*` over the whole of `t`. */
  predicate AllDigits(t: string) {
    forall k :: 0 <= k < |t| ==> IsDigit(t[k])
  }

  /** `[a-zA-Z_][a-zA-Z0-9_]*` */
  predicate IsIdentifier(t: string) {
    |t| >= 1 && IsIdentStart(t[0]) && forall k :: 1 <= k < |t| ==> IsWordChar(t[k])
  }

  /** `\d+\.\d+`: digits on both sides of a decimal point. */
  predicate IsDecimal(t: string) {
    exists k :: 0 < k < |t| - 1 && t[k] == '.' && AllDigits(t[..k]) && AllDigits(t[k + 1..])
  }

  /** `'.'`: one character other than a line terminator between apostrophes. */
  predicate IsQuotedChar(t: string) {
    |t| == 3 && t[0] == '\'' && !IsLineTerminator(t[1]) && t[2] == '\''
  }

  // ---------------------------------------------------------------- String.trim

  /** Index of the first character String.trim keeps (or |s|). */
  function TrimStart(s: string, i: nat): (a: nat)
    requires i <= |s|
    ensures i <= a <= |s|
    ensures forall k :: i <= k < a ==> IsTrimmable(s[k])
    ensures a == |s| || !IsTrimmable(s[a])
    decreases |s| - i
  {
    if i < |s| && IsTrimmable(s[i]) then TrimStart(s, i + 1) else i
  }

  /** One past the last character String.trim keeps, scanning down to `a`. */
  function TrimEnd(s: string, a: nat, b: nat): (e: nat)
    requires a <= b <= |s|
    ensures a <= e <= b
    ensures forall k :: e <= k < b ==> IsTrimmable(s[k])
    ensures e == a || !IsTrimmable(s[e - 1])
    decreases b
  {
    if a < b && IsTrimmable(s[b - 1]) then TrimEnd(s, a, b - 1) else b
  }

  /** String.trim: drop the leading and trailing characters up to U+0020. */
  function Trim(s: string): (t: string)
  {
    var a := TrimStart(s, 0);
    s[a..TrimEnd(s, a, |s|)]
  }

  /** What Trim keeps: a middle slice of `s` that neither starts nor ends with a
      trimmable character, with only trimmable characters cut off either side. */
  lemma TrimIsStrip(s: string)
    ensures Trim(s) == [] || (!IsTrimmable(Trim(s)[0]) && !IsTrimmable(Trim(s)[|Trim(s)| - 1]))
    ensures exists a, b :: 0 <= a <= b <= |s| && Trim(s) == s[a..b]
              && (forall k :: 0 <= k < a ==> IsTrimmable(s[k]))
              && (forall k :: b <= k < |s| ==> IsTrimmable(s[k]))
  {
    var a := TrimStart(s, 0);
    var b := TrimEnd(s, a, |s|);
    assert Trim(s) == s[a..b];
    if a < b {
      assert Trim(s)[0] == s[a];
    }
  }

  // ---------------------------------------------------------------- String.split

  /** All pieces of `s` between newline characters, empty ones included. */
  function SplitAll(s: string): (r: seq<string>)
    ensures |r| >= 1
    ensures forall k :: 0 <= k < |r| ==> '\n' !in r[k]
  {
    if s == [] then [[]]
    else
      var rest := SplitAll(s[1..]);
      if s[0] == '\n' then [[]] + rest
      else [[s[0]] + rest[0]] + rest[1..]
  }

  /** The inverse of SplitAll: the pieces glued back with newlines. */
  function JoinLines(pieces: seq<string>): string
  {
    if pieces == [] then []
    else if |pieces| == 1 then pieces[0]
    else pieces[0] + "\n" + JoinLines(pieces[1..])
  }

  /** Splitting on newlines loses nothing: joining the pieces gives the text back. */
  lemma {:induction false} SplitAllRoundTrip(s: string)
    ensures JoinLines(SplitAll(s)) == s
  {
    if s != [] {
      var rest := SplitAll(s[1..]);
      SplitAllRoundTrip(s[1..]);
      if s[0] == '\n' {
        assert SplitAll(s) == [[]] + rest;
        assert ([[]] + rest)[1..] == rest;
      } else {
        var r := SplitAll(s);
        assert r == [[s[0]] + rest[0]] + rest[1..];
        if |rest| == 1 {
          assert r == [[s[0]] + rest[0]];
          assert JoinLines(rest) == rest[0];
        } else {
          assert r[1..] == rest[1..];
          assert JoinLines(rest) == rest[0] + "\n" + JoinLines(rest[1..]);
          assert JoinLines(r) == [s[0]] + rest[0] + "\n" + JoinLines(rest[1..]);
        }
      }
    }
  }

  /** The longest prefix of `pieces` that does not end with an empty piece. */
  function DropTrailingEmpty(pieces: seq<string>): (r: seq<string>)
    ensures |r| <= |pieces| && r == pieces[..|r|]
    ensures forall k :: |r| <= k < |pieces| ==> pieces[k] == []
    ensures r == [] || r[|r| - 1] != []
  {
    if pieces == [] then []
    else if pieces[|pieces| - 1] == [] then DropTrailingEmpty(pieces[..|pieces| - 1])
    else pieces
  }

  /** `s.split("\n")` (and `s.split("\\n")`): the input itself when it holds no
      newline, otherwise the pieces between newlines with trailing empty pieces removed. */
  function SplitLines(s: string): (lines: seq<string>)
    ensures forall k :: 0 <= k < |lines| ==> '\n' !in lines[k]
  {
    if '\n' !in s then [s] else DropTrailingEmpty(SplitAll(s))
  }

  /** SplitLines keeps a prefix of the newline-separated pieces and drops only empty ones;
      with SplitAllRoundTrip, this says the lines are exactly the text's lines. */
  lemma SplitLinesArePieces(s: string)
    ensures |SplitLines(s)| <= |SplitAll(s)|
    ensures SplitLines(s) == SplitAll(s)[..|SplitLines(s)|]
    ensures forall k :: |SplitLines(s)| <= k < |SplitAll(s)| ==> SplitAll(s)[k] == []
    ensures s != [] ==> SplitLines(s) == [] || SplitLines(s)[|SplitLines(s)| - 1] != []
    ensures '\n' !in s ==> SplitLines(s) == [s]
  {
    if '\n' !in s {
      SplitAllNoNewline(s);
    } else {
      var ps := SplitAll(s);
      assert SplitLines(s) == DropTrailingEmpty(ps);
    }
  }

  /** Without a newline, SplitAll has one piece: the text itself. */
  lemma {:induction false} SplitAllNoNewline(s: string)
    requires '\n' !in s
    ensures SplitAll(s) == [s]
  {
    if s != [] {
      assert '\n' !in s[1..] by {
        forall k | 0 <= k < |s[1..]| ensures s[1..][k] != '\n' { assert s[1..][k] == s[k + 1]; }
      }
      SplitAllNoNewline(s[1..]);
      assert [s[0]] + s[1..] == s;
    }
  }

  /** Appending a character either ends the last piece (a newline, which opens an empty
      one) or extends it. */
  lemma {:induction false} SplitAllSnoc(x: string, c: char)
    ensures c == '\n' ==> SplitAll(x + [c]) == SplitAll(x) + [[]]
    ensures c != '\n' ==> SplitAll(x + [c]) == Extended(SplitAll(x), [c])
    decreases |x|
  {
    if x == [] {
      assert x + [c] == [c] && [c][1..] == [];
      assert SplitAll([c][1..]) == [[]];
      assert [c] + [] == [c];
    } else {
      var rest := SplitAll(x[1..]);
      assert (x + [c])[1..] == x[1..] + [c];
      SplitAllSnoc(x[1..], c);
      var rest' := SplitAll(x[1..] + [c]);
      if x[0] == '\n' {
        assert SplitAll(x) == [[]] + rest;
        assert SplitAll(x + [c]) == [[]] + rest';
        PiecesSnoc([], rest, rest', c);
      } else {
        assert SplitAll(x) == [[x[0]] + rest[0]] + rest[1..];
        assert SplitAll(x + [c]) == [[x[0]] + rest'[0]] + rest'[1..];
        HeadPieceSnoc([x[0]], rest, rest', c);
      }
    }
  }

  /** The pieces with the last one extended by t. */
  function Extended(pieces: seq<string>, t: string): (r: seq<string>)
    requires pieces != []
    ensures |r| == |pieces| && r[..|r| - 1] == pieces[..|pieces| - 1]
    ensures r[|r| - 1] == pieces[|pieces| - 1] + t
  {
    pieces[..|pieces| - 1] + [pieces[|pieces| - 1] + t]
  }

  /** A whole piece in front of the pieces of the rest. */
  lemma PiecesSnoc(p: string, rest: seq<string>, rest': seq<string>, c: char)
    requires rest != []
    requires c == '\n' ==> rest' == rest + [[]]
    requires c != '\n' ==> rest' == Extended(rest, [c])
    ensures c == '\n' ==> [p] + rest' == ([p] + rest) + [[]]
    ensures c != '\n' ==> [p] + rest' == Extended([p] + rest, [c])
  {
    if c != '\n' {
      assert ([p] + rest)[..|rest|] == [p] + rest[..|rest| - 1];
    }
  }

  /** The first character h glued to the first piece of the rest. */
  lemma HeadPieceSnoc(h: string, rest: seq<string>, rest': seq<string>, c: char)
    requires rest != []
    requires c == '\n' ==> rest' == rest + [[]]
    requires c != '\n' ==> rest' == Extended(rest, [c])
    ensures c == '\n' ==> [h + rest'[0]] + rest'[1..] == ([h + rest[0]] + rest[1..]) + [[]]
    ensures c != '\n' ==> [h + rest'[0]] + rest'[1..] == Extended([h + rest[0]] + rest[1..], [c])
  {
    if c == '\n' {
      assert rest'[0] == rest[0] && rest'[1..] == rest[1..] + [[]];
    } else if |rest| == 1 {
      assert rest' == [rest[0] + [c]];
      assert h + (rest[0] + [c]) == (h + rest[0]) + [c];
    } else {
      assert rest'[0] == rest[0];
      assert rest'[1..] == Extended(rest[1..], [c]);
    }
  }

  /** Appending text without a newline extends the last piece by it. */
  lemma {:induction false} SplitAllExtend(x: string, t: string)
    requires '\n' !in t
    ensures SplitAll(x + t) == Extended(SplitAll(x), t)
    decreases |t|
  {
    if t == [] {
      assert x + t == x;
      ExtendedNothing(SplitAll(x));
    } else {
      var u := t[..|t| - 1];
      var c := t[|t| - 1];
      assert u + [c] == t && c in t;
      assert '\n' !in u by {
        forall k | 0 <= k < |u| ensures u[k] != '\n' { assert u[k] in t; }
      }
      SplitAllExtend(x, u);
      assert x + t == (x + u) + [c];
      SplitAllSnoc(x + u, c);
      ExtendedTwice(SplitAll(x), u, c);
    }
  }

  lemma ExtendedNothing(pieces: seq<string>)
    requires pieces != []
    ensures Extended(pieces, []) == pieces
  {
    assert pieces[|pieces| - 1] + [] == pieces[|pieces| - 1];
  }

  lemma ExtendedTwice(pieces: seq<string>, u: string, c: char)
    requires pieces != []
    ensures Extended(Extended(pieces, u), [c]) == Extended(pieces, u + [c])
  {
    var e := Extended(pieces, u);
    assert e[|e| - 1] + [c] == pieces[|pieces| - 1] + (u + [c]);
  }

  /** A line and its newline after text that ends a piece: one more piece, then the
      empty one after the newline. */
  lemma SplitAllLine(x: string, t: string, pieces: seq<string>)
    requires '\n' !in t && SplitAll(x) == pieces + [[]]
    ensures SplitAll(x + (t + "\n")) == pieces + [t] + [[]]
  {
    SplitAllExtend(x, t);
    assert [] + t == t;
    assert x + (t + "\n") == (x + t) + ['\n'];
    SplitAllSnoc(x + t, '\n');
  }

  // ---------------------------------------------------------------- String.contains

  /** `s.contains(sub)`. */
  predicate Contains(s: string, sub: string) {
    exists k :: 0 <= k <= |s| && sub <= s[k..]
  }

  /** Text added in front keeps an occurrence. */
  lemma ContainsAfter(pre: string, s: string, sub: string)
    requires Contains(s, sub)
    ensures Contains(pre + s, sub)
  {
    var k :| 0 <= k <= |s| && sub <= s[k..];
    var all := pre + s;
    assert sub <= all[|pre| + k..] by {
      forall m | 0 <= m < |sub| ensures sub[m] == all[|pre| + k..][m] {
        assert sub[m] == s[k..][m] == s[k + m];
        assert all[|pre| + k + m] == s[k + m];
      }
    }
  }

  /** Text added behind keeps an occurrence. */
  lemma ContainsBefore(s: string, post: string, sub: string)
    requires Contains(s, sub)
    ensures Contains(s + post, sub)
  {
    var k :| 0 <= k <= |s| && sub <= s[k..];
    var all := s + post;
    assert sub <= all[k..] by {
      forall m | 0 <= m < |sub| ensures sub[m] == all[k..][m] {
        assert sub[m] == s[k..][m] == s[k + m];
        assert all[k + m] == s[k + m];
      }
    }
  }

  /** A text contains itself. */
  lemma ContainsSelf(s: string)
    ensures Contains(s, s)
  {
    assert s <= s[0..];
  }

  /** Text added on both sides keeps an occurrence. */
  lemma ContainsMiddle(pre: string, s: string, post: string, sub: string)
    requires Contains(s, sub)
    ensures Contains(pre + s + post, sub)
  {
    ContainsAfter(pre, s, sub);
    ContainsBefore(pre + s, post, sub);
  }

  /** `s.endsWith(suffix)`. */
  predicate EndsWith(s: string, suffix: string) {
    |suffix| <= |s| && s[|s| - |suffix|..] == suffix
  }

  /** A text ends with what was appended last. */
  lemma EndsWithAppended(pre: string, suffix: string)
    ensures EndsWith(pre + suffix, suffix)
  {
    assert (pre + suffix)[|pre|..] == suffix;
  }

  /** A text cannot end with two suffixes that differ at the same distance from the end. */
  lemma EndsWithExclusive(s: string, a: string, b: string, k: nat)
    requires EndsWith(s, a) && 0 < k <= |a| && k <= |b| && a[|a| - k] != b[|b| - k]
    ensures !EndsWith(s, b)
  {
    assert s[|s| - k] == s[|s| - |a|..][|a| - k] == a[|a| - k];
  }

  // ---------------------------------------------------------------- a declaration line

  /** `t n = v;`: a declaration with one space around each piece, as both analysers
      expect them to be written. */
  function Declaration(t: string, n: string, v: string): string {
    t + " " + n + " = " + v + ";"
  }

  /** Where the pieces of a declaration sit: the type from 0, the name from |t| + 1,
      the value from |t| + |n| + 4, and the `;` last. */
  lemma DeclarationLayout(t: string, n: string, v: string)
    ensures |Declaration(t, n, v)| == |t| + |n| + |v| + 5
    ensures Declaration(t, n, v)[..|t|] == t && Declaration(t, n, v)[|t|] == ' '
    ensures Declaration(t, n, v)[|t| + 1..|t| + 1 + |n|] == n
    ensures Declaration(t, n, v)[|t| + 1 + |n|] == ' ' && Declaration(t, n, v)[|t| + 2 + |n|] == '='
    ensures Declaration(t, n, v)[|t| + 3 + |n|] == ' '
    ensures Declaration(t, n, v)[|t| + 4 + |n|..|t| + 4 + |n| + |v|] == v
    ensures Declaration(t, n, v)[|t| + 4 + |n| + |v|] == ';'
  {
  }

  /** A declaration whose pieces hold no newline is a single line. */
  lemma DeclarationOneLine(t: string, n: string, v: string)
    requires '\n' !in t && '\n' !in n && '\n' !in v
    ensures Declaration(t, n, v) != []
    ensures SplitLines(Declaration(t, n, v)) == [Declaration(t, n, v)]
  {
    assert '\n' !in Declaration(t, n, v);
  }

  /** An occurrence of `sub` found by `s.contains(sub)`, as a position. */
  lemma ContainsAt(s: string, sub: string) returns (k: nat)
    requires Contains(s, sub)
    ensures k + |sub| <= |s| && s[k..k + |sub|] == sub
  {
    k :| 0 <= k <= |s| && sub <= s[k..];
  }
}
