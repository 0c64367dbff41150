/** The lexical stage (src/actions/LexicalAnalyzer.java): each trimmed line is matched
    in full against one anchored pattern of five optional groups

      ^\s*(\b(?:byte|short|int|long|float|double|boolean|char|String)\b)?\s*
      ([a-zA-Z_][a-zA-Z0-9_]*)?\s*(=)?\s*
      (("[^"]*"|'[^']*'|\d+(\.\d+)?|true|false|'.'|\bnull\b))?\s*(;)?\s*$

    The matcher below is a backtracking search specialised to that pattern: it tries
    the choices in the order java.util.regex does (an optional group present before
    absent, a longer identifier before a shorter one, the alternatives of the literal
    from left to right) and returns the groups of the first path that reaches the end.
    Choices java.util.regex would also try but that can never reach the end are not
    enumerated: a shorter `\s*` (no piece starts with white space), a shorter `[^"]*`
    or `[^']*` (the next character would have to be the closing quote), a shorter
    digit run (it would be followed by a digit, and nothing after a literal starts
    with one). `Accepts` is the language of the pattern stated independently, and
    `MatchIffAccepts` shows the search finds a match exactly when there is one. */
module LexicalAnalyzer {
  import opened JavaText

  /** The type keywords of group 1, in the order the alternation lists them. */
  const Keywords: seq<string> := ["byte", "short", "int", "long", "float", "double", "boolean", "char", "String"]

  /** The capture groups of a successful match. Group 4 and group 5 always hold the
      same text (group 5 is group 4 without its outer parentheses), so only `value`
      is kept; `fraction` is group 6, the `(\.\d+)` inside a decimal literal, and
      `delimiter` is group 7, the `;`. */
  datatype LexMatch = LexMatch(
    dataType: Option<string>,    // group 1
    identifier: Option<string>,  // group 2
    assignment: bool,            // group 3, "="
    value: Option<string>,       // group 4 (= group 5)
    fraction: Option<string>,    // group 6
    delimiter: bool)             // group 7, ";"

  const NoGroups := LexMatch(None, None, false, None, None, false)

  /** `\b` at position `k`: exactly one of the characters around it is a word character. */
  predicate AtBoundary(s: string, k: nat)
    requires k <= |s|
  {
    (k > 0 && IsWordChar(s[k - 1])) != (k < |s| && IsWordChar(s[k]))
  }

  // ---------------------------------------------------------------- token classes

  /** `"[^"]*"` for q = '"' and `'[^']*'` for q = '\'' */
  ghost predicate IsQuoted(t: string, q: char) {
    |t| >= 2 && t[0] == q && t[|t| - 1] == q && forall k :: 0 < k < |t| - 1 ==> t[k] != q
  }

  /** `f` is the `\.\d+` part of the decimal literal `t`. */
  ghost predicate IsFractionOf(f: string, t: string) {
    2 <= |f| < |t| && f[0] == '.' && AllDigits(f[1..])
    && t[|t| - |f|..] == f && AllDigits(t[..|t| - |f|])
  }

  /** s[a..b] is a literal of group 5, the word boundaries of `\bnull\b` included. */
  ghost predicate IsLiteralAt(s: string, a: nat, b: nat)
    requires a <= b <= |s|
  {
    var t := s[a..b];
    || IsQuoted(t, '"')
    || IsQuoted(t, '\'')
    || (|t| >= 1 && AllDigits(t))
    || IsDecimal(t)
    || t == "true"
    || t == "false"
    || IsQuotedChar(t)
    || (t == "null" && AtBoundary(s, a) && AtBoundary(s, b))
  }

  /** s[a..] begins with keyword `w`, with a word boundary on either side. */
  predicate KeywordAt(s: string, a: nat, w: string)
    requires a <= |s|
  {
    a + |w| <= |s| && s[a..a + |w|] == w && AtBoundary(s, a) && AtBoundary(s, a + |w|)
  }

  // ---------------------------------------------------------------- the language

  /** Which optional group of the pattern comes next: the states of the matcher. */
  datatype Expect = ExpectType | ExpectIdentifier | ExpectAssign | ExpectValue | ExpectDelimiter

  /** How many groups are still to come after this state's own. */
  function Rank(st: Expect): nat {
    match st
    case ExpectType => 4
    case ExpectIdentifier => 3
    case ExpectAssign => 2
    case ExpectValue => 1
    case ExpectDelimiter => 0
  }

  /** s[i..] matches the pattern from the group of `st` on. */
  ghost predicate Rest(st: Expect, s: string, i: nat)
    decreases Rank(st), 1
  {
    match st
    case ExpectDelimiter => DelimiterLang(s, i)
    case ExpectValue => ValueLang(s, i)
    case ExpectAssign => AssignLang(s, i)
    case ExpectIdentifier => IdentLang(s, i)
    case ExpectType => TypeLang(s, i)
  }

  /** `\s*(;)?\s*$` */
  ghost predicate DelimiterLang(s: string, i: nat)
    decreases Rank(ExpectDelimiter), 0
  {
    || Gap(s, i, |s|)
    || exists a: nat :: Gap(s, i, a) && a < |s| && s[a] == ';' && Gap(s, a + 1, |s|)
  }

  /** `\s*(literal)?` and the rest */
  ghost predicate ValueLang(s: string, i: nat)
    decreases Rank(ExpectValue), 0
  {
    || Rest(ExpectDelimiter, s, i)
    || exists a: nat, b: nat :: Gap(s, i, a) && a < b <= |s| && IsLiteralAt(s, a, b)
                                && Rest(ExpectDelimiter, s, b)
  }

  /** `\s*(=)?` and the rest */
  ghost predicate AssignLang(s: string, i: nat)
    decreases Rank(ExpectAssign), 0
  {
    || Rest(ExpectValue, s, i)
    || exists a: nat :: Gap(s, i, a) && a < |s| && s[a] == '=' && Rest(ExpectValue, s, a + 1)
  }

  /** `\s*([a-zA-Z_][a-zA-Z0-9_]*)?` and the rest */
  ghost predicate IdentLang(s: string, i: nat)
    decreases Rank(ExpectIdentifier), 0
  {
    || Rest(ExpectAssign, s, i)
    || exists a: nat, b: nat :: Gap(s, i, a) && a < b <= |s| && IsIdentifier(s[a..b])
                                && Rest(ExpectAssign, s, b)
  }

  /** `^\s*(type)?` and the rest */
  ghost predicate TypeLang(s: string, i: nat)
    decreases Rank(ExpectType), 0
  {
    || Rest(ExpectIdentifier, s, i)
    || exists a: nat, w: string :: Gap(s, i, a) && w in Keywords && KeywordAt(s, a, w)
                                   && Rest(ExpectIdentifier, s, a + |w|)
  }

  /** The line is, in order, an optional type keyword, identifier, `=`, literal and `;`,
      with white space around and between them. */
  ghost predicate Accepts(line: string) {
    Rest(ExpectType, line, 0)
  }

  /** What a match captures: each group holds a token of its own class, and the
      fraction group is present exactly when the value is a decimal literal. */
  ghost predicate GroupsWellFormed(m: LexMatch) {
    && (m.identifier.Some? ==> IsIdentifier(m.identifier.value))
    && (m.fraction.Some? <==> m.value.Some? && IsDecimal(m.value.value))
    && (m.fraction.Some? ==> IsFractionOf(m.fraction.value, m.value.value))
  }

  /** The groups of a match that starts at the group of `st`: the earlier groups are
      absent and the others are well formed. */
  ghost predicate GroupsFrom(st: Expect, m: LexMatch) {
    && (Rank(st) < 4 ==> m.dataType.None?)
    && (Rank(st) < 3 ==> m.identifier.None?)
    && (Rank(st) < 2 ==> !m.assignment)
    && (Rank(st) < 1 ==> m.value.None? && m.fraction.None?)
    && GroupsWellFormed(m)
  }

  // ---------------------------------------------------------------- the matcher

  /** The groups of the first path, in the regex engine's order, that matches s[i..]
      from the group of `st` on. */
  function MatchFrom(st: Expect, s: string, i: nat): (r: Option<LexMatch>)
    requires i <= |s|
    decreases Rank(st), 3, 0
  {
    match st
    case ExpectDelimiter => DelimiterStep(s, i)
    case ExpectValue => ValueStep(s, i)
    case ExpectAssign => AssignStep(s, i)
    case ExpectIdentifier => IdentStep(s, i)
    case ExpectType => TypeStep(s, i)
  }

  /** `\s*(;)?\s*$`: the `;` first, then without it. */
  function DelimiterStep(s: string, i: nat): (r: Option<LexMatch>)
    requires i <= |s|
    decreases Rank(ExpectDelimiter), 2, 0
  {
    var j := SkipSpaces(s, i);
    if j < |s| && s[j] == ';' && SkipSpaces(s, j + 1) == |s| then Some(NoGroups.(delimiter := true))
    else if j == |s| then Some(NoGroups)
    else None
  }

  /** `\s*(literal)?`: the alternatives of group 5 from left to right, then the group absent. */
  function ValueStep(s: string, i: nat): (r: Option<LexMatch>)
    requires i <= |s|
    decreases Rank(ExpectValue), 2, 0
  {
    var j := SkipSpaces(s, i);
    OrElse(QuotedAlt(s, j, '"'),
    OrElse(QuotedAlt(s, j, '\''),
    OrElse(NumberAlt(s, j),
    OrElse(WordAlt(s, j, "true"),
    OrElse(WordAlt(s, j, "false"),
    OrElse(QuotedCharAlt(s, j),
    OrElse(NullAlt(s, j),
           MatchFrom(ExpectDelimiter, s, i))))))))
  }

  /** `\s*(=)?`: present first, then absent. */
  function AssignStep(s: string, i: nat): (r: Option<LexMatch>)
    requires i <= |s|
    decreases Rank(ExpectAssign), 2, 0
  {
    var j := SkipSpaces(s, i);
    var present :=
      if j < |s| && s[j] == '=' then
        match MatchFrom(ExpectValue, s, j + 1)
        case None => None
        case Some(m) => Some(m.(assignment := true))
      else None;
    OrElse(present, MatchFrom(ExpectValue, s, i))
  }

  /** `\s*([a-zA-Z_][a-zA-Z0-9_]*)?`: the longest identifier first, shorter ones after
      it, then the group absent. */
  function IdentStep(s: string, i: nat): (r: Option<LexMatch>)
    requires i <= |s|
    decreases Rank(ExpectIdentifier), 2, 0
  {
    var j := SkipSpaces(s, i);
    var present :=
      if j < |s| && IsIdentStart(s[j]) then IdentTry(s, j, RunEnd(s, j + 1, Word)) else None;
    OrElse(present, MatchFrom(ExpectAssign, s, i))
  }

  /** `^\s*(type)?`: the keywords in the order of the alternation, then the group absent. */
  function TypeStep(s: string, i: nat): (r: Option<LexMatch>)
    requires i <= |s|
    decreases Rank(ExpectType), 2, 0
  {
    OrElse(KeywordTry(s, SkipSpaces(s, i), Keywords), MatchFrom(ExpectIdentifier, s, i))
  }

  /** The literal s[j..e] followed by the rest of the pattern. */
  function ValueThen(s: string, j: nat, e: nat, fraction: Option<string>): (r: Option<LexMatch>)
    requires j <= e <= |s|
    decreases Rank(ExpectValue), 0, 0
  {
    match MatchFrom(ExpectDelimiter, s, e)
    case None => None
    case Some(m) => Some(m.(value := Some(s[j..e]), fraction := fraction))
  }

  /** Alternative `"[^"]*"` (q = '"') or `'[^']*'` (q = '\''). */
  function QuotedAlt(s: string, j: nat, q: char): (r: Option<LexMatch>)
    requires j <= |s|
    decreases Rank(ExpectValue), 1, 0
  {
    if j < |s| && s[j] == q then
      var c := RunEnd(s, j + 1, AnyBut(q));
      if c < |s| then ValueThen(s, j, c + 1, None) else None
    else None
  }

  /** Alternative `\d+(\.\d+)?`: with the fraction first, then without. */
  function NumberAlt(s: string, j: nat): (r: Option<LexMatch>)
    requires j <= |s|
    decreases Rank(ExpectValue), 1, 0
  {
    var d := RunEnd(s, j, Digit);
    if d == j then None
    else
      var withFraction :=
        if d < |s| && s[d] == '.' then
          var f := RunEnd(s, d + 1, Digit);
          if f > d + 1 then ValueThen(s, j, f, Some(s[d..f])) else None
        else None;
      OrElse(withFraction, ValueThen(s, j, d, None))
  }

  /** Alternatives `true` and `false`. */
  function WordAlt(s: string, j: nat, w: string): (r: Option<LexMatch>)
    requires j <= |s|
    decreases Rank(ExpectValue), 1, 0
  {
    if j + |w| <= |s| && s[j..j + |w|] == w then ValueThen(s, j, j + |w|, None) else None
  }

  /** Alternative `'.'`. */
  function QuotedCharAlt(s: string, j: nat): (r: Option<LexMatch>)
    requires j <= |s|
    decreases Rank(ExpectValue), 1, 0
  {
    if j + 3 <= |s| && s[j] == '\'' && !IsLineTerminator(s[j + 1]) && s[j + 2] == '\''
    then ValueThen(s, j, j + 3, None) else None
  }

  /** Alternative `\bnull\b`. */
  function NullAlt(s: string, j: nat): (r: Option<LexMatch>)
    requires j <= |s|
    decreases Rank(ExpectValue), 1, 0
  {
    if AtBoundary(s, j) && j + 4 <= |s| && s[j..j + 4] == "null" && AtBoundary(s, j + 4)
    then ValueThen(s, j, j + 4, None) else None
  }

  /** The identifier s[j..k], then shorter ones down to one character, each followed
      by the rest of the pattern (the greedy `[a-zA-Z0-9_]*` backing off). */
  function IdentTry(s: string, j: nat, k: nat): (r: Option<LexMatch>)
    requires j < k <= |s|
    decreases Rank(ExpectIdentifier), 1, k
  {
    var here :=
      match MatchFrom(ExpectAssign, s, k)
      case None => None
      case Some(m) => Some(m.(identifier := Some(s[j..k])));
    OrElse(here, if k > j + 1 then IdentTry(s, j, k - 1) else None)
  }

  /** One keyword alternative w of group 1 at position j, then the rest of the pattern. */
  function KeywordAlt(s: string, j: nat, w: string): (r: Option<LexMatch>)
    requires j <= |s|
    decreases Rank(ExpectType), 1, 0
  {
    if KeywordAt(s, j, w) then
      match MatchFrom(ExpectIdentifier, s, j + |w|)
      case None => None
      case Some(m) => Some(m.(dataType := Some(w)))
    else None
  }

  /** The keyword alternatives `ws` of group 1 at position j, in order. */
  function KeywordTry(s: string, j: nat, ws: seq<string>): (r: Option<LexMatch>)
    requires j <= |s|
    decreases Rank(ExpectType), 1, |ws|
  {
    if ws == [] then None
    else OrElse(KeywordAlt(s, j, ws[0]), KeywordTry(s, j, ws[1..]))
  }

  /** `matcher.matches()` on a line, with the groups of the first successful path. */
  function Match(line: string): (r: Option<LexMatch>)
  {
    MatchFrom(ExpectType, line, 0)
  }

  // ---------------------------------------------------------------- helpers

  /** A gap ends at or before the greedy `\s*`, and exactly there when a non-space follows. */
  lemma GapEndsAtSkip(s: string, i: nat, a: nat)
    requires Gap(s, i, a)
    ensures a <= SkipSpaces(s, i)
    ensures a < |s| && !IsSpace(s[a]) ==> a == SkipSpaces(s, i)
    ensures a == |s| ==> SkipSpaces(s, i) == |s|
  {
    RunEndIsLongest(s, i, a, Space);
  }

  lemma DigitsSlice(s: string, a: nat, b: nat)
    requires a <= b <= |s|
    ensures AllDigits(s[a..b]) <==> AllIn(s, a, b, Digit)
  {
    if AllIn(s, a, b, Digit) {
      forall k | 0 <= k < b - a ensures IsDigit(s[a..b][k]) { assert In(Digit, s[a + k]); }
    }
    if AllDigits(s[a..b]) {
      forall k | a <= k < b ensures In(Digit, s[k]) { assert s[a..b][k - a] == s[k]; }
    }
  }

  lemma DecimalStartsWithDigit(t: string)
    requires IsDecimal(t)
    ensures IsDigit(t[0])
  {
    var k :| 0 < k < |t| - 1 && t[k] == '.' && AllDigits(t[..k]) && AllDigits(t[k + 1..]);
    assert t[..k][0] == t[0];
  }

  lemma DigitsNotDecimal(t: string)
    requires AllDigits(t)
    ensures !IsDecimal(t)
  {
  }

  // ---------------------------------------------------------------- correctness of the stages

  /** What may follow a literal: white space, the `;`, or the end of the line. */
  lemma SemiLangHead(s: string, b: nat)
    requires Rest(ExpectDelimiter, s, b) && b < |s|
    ensures IsSpace(s[b]) || s[b] == ';'
  {
    if !Gap(s, b, |s|) {
      var a: nat :| Gap(s, b, a) && a < |s| && s[a] == ';' && Gap(s, a + 1, |s|);
      if a > b { assert In(Space, s[b]); }
    } else {
      assert In(Space, s[b]);
    }
  }

  lemma {:induction false} SemiStageCorrect(s: string, i: nat)
    requires i <= |s|
    ensures MatchFrom(ExpectDelimiter, s, i).Some? <==> Rest(ExpectDelimiter, s, i)
  {
    var j := SkipSpaces(s, i);
    assert Gap(s, i, j);
    if MatchFrom(ExpectDelimiter, s, i).Some? {
      if j < |s| && s[j] == ';' && SkipSpaces(s, j + 1) == |s| {
        assert Gap(s, j + 1, |s|);
      }
    }
    if Rest(ExpectDelimiter, s, i) {
      if Gap(s, i, |s|) {
        GapEndsAtSkip(s, i, |s|);
      } else {
        var a: nat :| Gap(s, i, a) && a < |s| && s[a] == ';' && Gap(s, a + 1, |s|);
        GapEndsAtSkip(s, i, a);
        GapEndsAtSkip(s, a + 1, |s|);
      }
    }
  }

  lemma ValueThenCorrect(s: string, j: nat, e: nat, fraction: Option<string>)
    requires j <= e <= |s|
    ensures ValueThen(s, j, e, fraction).Some? <==> Rest(ExpectDelimiter, s, e)
    ensures ValueThen(s, j, e, fraction).Some? ==>
              ValueThen(s, j, e, fraction).value.(delimiter := false)
              == NoGroups.(value := Some(s[j..e]), fraction := fraction)
  {
    SemiStageCorrect(s, e);
  }

  /** s[j..e] is a literal and the rest of the pattern matches after it. */
  ghost predicate LiteralThenRest(s: string, j: nat, e: nat) {
    j < e <= |s| && IsLiteralAt(s, j, e) && Rest(ExpectDelimiter, s, e)
  }

  /** Every literal alternative that succeeds at j ends a literal followed by the rest. */
  lemma AlternativesSound(s: string, j: nat)
    requires j <= |s|
    requires || QuotedAlt(s, j, '"').Some? || QuotedAlt(s, j, '\'').Some? || NumberAlt(s, j).Some?
             || WordAlt(s, j, "true").Some? || WordAlt(s, j, "false").Some?
             || QuotedCharAlt(s, j).Some? || NullAlt(s, j).Some?
    ensures exists e: nat :: LiteralThenRest(s, j, e)
  {
    if QuotedAlt(s, j, '"').Some? { QuotedSound(s, j, '"'); }
    else if QuotedAlt(s, j, '\'').Some? { QuotedSound(s, j, '\''); }
    else if NumberAlt(s, j).Some? { NumberSound(s, j); }
    else if WordAlt(s, j, "true").Some? { ValueThenCorrect(s, j, j + 4, None); assert LiteralThenRest(s, j, j + 4); }
    else if WordAlt(s, j, "false").Some? { ValueThenCorrect(s, j, j + 5, None); assert LiteralThenRest(s, j, j + 5); }
    else if QuotedCharAlt(s, j).Some? { ValueThenCorrect(s, j, j + 3, None); assert LiteralThenRest(s, j, j + 3); }
    else { ValueThenCorrect(s, j, j + 4, None); assert LiteralThenRest(s, j, j + 4); }
  }

  lemma QuotedSound(s: string, j: nat, q: char)
    requires j <= |s|
    requires QuotedAlt(s, j, q).Some?
    requires q == '"' || q == '\''
    ensures exists e: nat :: LiteralThenRest(s, j, e)
  {
    var c := RunEnd(s, j + 1, AnyBut(q));
    ValueThenCorrect(s, j, c + 1, None);
    var t := s[j..c + 1];
    forall k | 0 < k < |t| - 1 ensures t[k] != q { assert t[k] == s[j + k]; assert In(AnyBut(q), s[j + k]); }
    assert IsQuoted(t, q);
    assert LiteralThenRest(s, j, c + 1);
  }

  lemma NumberSound(s: string, j: nat)
    requires j <= |s|
    requires NumberAlt(s, j).Some?
    ensures exists e: nat :: LiteralThenRest(s, j, e)
  {
    var d := RunEnd(s, j, Digit);
    DigitsSlice(s, j, d);
    if d < |s| && s[d] == '.' && RunEnd(s, d + 1, Digit) > d + 1
       && ValueThen(s, j, RunEnd(s, d + 1, Digit), Some(s[d..RunEnd(s, d + 1, Digit)])).Some? {
      var f := RunEnd(s, d + 1, Digit);
      ValueThenCorrect(s, j, f, Some(s[d..f]));
      DecimalWitness(s, j, d, f);
      assert LiteralThenRest(s, j, f);
    } else {
      ValueThenCorrect(s, j, d, None);
      assert LiteralThenRest(s, j, d);
    }
  }

  /** s[j..d] digits, a point at d, digits s[d+1..f]: a decimal literal whose fraction is s[d..f]. */
  lemma DecimalWitness(s: string, j: nat, d: nat, f: nat)
    requires j < d && d + 1 < f <= |s| && s[d] == '.'
    requires AllIn(s, j, d, Digit) && AllIn(s, d + 1, f, Digit)
    ensures IsDecimal(s[j..f])
    ensures IsFractionOf(s[d..f], s[j..f])
  {
    var t := s[j..f];
    var k := d - j;
    DigitsSlice(s, j, d);
    DigitsSlice(s, d + 1, f);
    assert t[..k] == s[j..d];
    assert t[k + 1..] == s[d + 1..f];
    assert t[k] == '.';
    assert s[d..f][1..] == s[d + 1..f];
    assert t[|t| - (f - d)..] == s[d..f];
  }

  /** A literal at j is found by one of the alternatives. */
  lemma AlternativesComplete(s: string, j: nat, e: nat)
    requires LiteralThenRest(s, j, e)
    ensures || QuotedAlt(s, j, '"').Some? || QuotedAlt(s, j, '\'').Some? || NumberAlt(s, j).Some?
            || WordAlt(s, j, "true").Some? || WordAlt(s, j, "false").Some?
            || QuotedCharAlt(s, j).Some? || NullAlt(s, j).Some?
  {
    var t := s[j..e];
    ValueThenCorrect(s, j, e, None);
    if IsQuoted(t, '"') {
      QuotedComplete(s, j, e, '"');
    } else if IsQuoted(t, '\'') {
      QuotedComplete(s, j, e, '\'');
    } else if (|t| >= 1 && AllDigits(t)) || IsDecimal(t) {
      NumberComplete(s, j, e);
    } else if t == "true" {
    } else if t == "false" {
    } else if IsQuotedChar(t) {
      assert s[j] == t[0] && s[j + 1] == t[1] && s[j + 2] == t[2];
    } else {
    }
  }

  lemma QuotedComplete(s: string, j: nat, e: nat, q: char)
    requires LiteralThenRest(s, j, e) && IsQuoted(s[j..e], q)
    ensures QuotedAlt(s, j, q).Some?
  {
    var t := s[j..e];
    assert s[j] == t[0];
    assert s[e - 1] == t[|t| - 1];
    forall k | j + 1 <= k < e - 1 ensures In(AnyBut(q), s[k]) { assert s[k] == t[k - j]; }
    RunEndIsLongest(s, j + 1, e - 1, AnyBut(q));
    ValueThenCorrect(s, j, e, None);
  }

  lemma NumberComplete(s: string, j: nat, e: nat)
    requires LiteralThenRest(s, j, e)
    requires (e > j && AllDigits(s[j..e])) || IsDecimal(s[j..e])
    ensures NumberAlt(s, j).Some?
  {
    if e < |s| { SemiLangHead(s, e); }
    if AllDigits(s[j..e]) { IntegerComplete(s, j, e); } else { DecimalComplete(s, j, e); }
  }

  lemma IntegerComplete(s: string, j: nat, e: nat)
    requires j < e <= |s| && Rest(ExpectDelimiter, s, e) && AllDigits(s[j..e])
    requires e < |s| ==> IsSpace(s[e]) || s[e] == ';'
    ensures NumberAlt(s, j).Some?
  {
    DigitsSlice(s, j, e);
    RunEndIsLongest(s, j, e, Digit);
    ValueThenCorrect(s, j, e, None);
  }

  lemma DecimalComplete(s: string, j: nat, e: nat)
    requires j < e <= |s| && Rest(ExpectDelimiter, s, e) && IsDecimal(s[j..e])
    requires e < |s| ==> IsSpace(s[e]) || s[e] == ';'
    ensures NumberAlt(s, j).Some?
  {
    var d := DecimalPointAt(s, j, e);
    DecimalPointComplete(s, j, d, e);
  }

  /** The point of the decimal literal s[j..e], with digit runs on both sides. */
  lemma DecimalPointAt(s: string, j: nat, e: nat) returns (d: nat)
    requires j <= e <= |s| && IsDecimal(s[j..e])
    ensures j < d < e - 1 && s[d] == '.' && AllIn(s, j, d, Digit) && AllIn(s, d + 1, e, Digit)
  {
    var k := DecimalSplit(s[j..e]);
    d := j + k;
    DigitsIn(s, j, s[j..e][..k]);
    DigitsIn(s, d + 1, s[j..e][k + 1..]);
  }

  /** The point of a decimal literal, with digits on both sides. */
  lemma DecimalSplit(t: string) returns (k: nat)
    requires IsDecimal(t)
    ensures 0 < k < |t| - 1 && t[k] == '.' && AllDigits(t[..k]) && AllDigits(t[k + 1..])
  {
    k :| 0 < k < |t| - 1 && t[k] == '.' && AllDigits(t[..k]) && AllDigits(t[k + 1..]);
  }

  /** Digits u found at a in s. */
  lemma DigitsIn(s: string, a: nat, u: string)
    requires a + |u| <= |s| && s[a..a + |u|] == u && AllDigits(u)
    ensures AllIn(s, a, a + |u|, Digit)
  {
    forall i | a <= i < a + |u| ensures In(Digit, s[i]) {
      assert s[i] == u[i - a];
    }
  }

  /** The decimal s[j..e] with its point at d. */
  lemma DecimalPointComplete(s: string, j: nat, d: nat, e: nat)
    requires j < d < e - 1 && e <= |s| && Rest(ExpectDelimiter, s, e)
    requires s[d] == '.' && AllIn(s, j, d, Digit) && AllIn(s, d + 1, e, Digit)
    requires e < |s| ==> IsSpace(s[e]) || s[e] == ';'
    ensures NumberAlt(s, j).Some?
  {
    RunEndIsLongest(s, j, d, Digit);
    assert RunEnd(s, j, Digit) == d;
    RunEndIsLongest(s, d + 1, e, Digit);
    assert RunEnd(s, d + 1, Digit) == e;
    ValueThenCorrect(s, j, e, Some(s[d..e]));
  }

  /** Every literal starts with a character that is not white space. */
  lemma LiteralStartsSolid(s: string, a: nat, b: nat)
    requires a < b <= |s| && IsLiteralAt(s, a, b)
    ensures !IsSpace(s[a])
  {
    var t := s[a..b];
    assert s[a] == t[0];
    if IsDecimal(t) { DecimalStartsWithDigit(t); }
  }

  lemma {:induction false} ValueStageCorrect(s: string, i: nat)
    requires i <= |s|
    ensures MatchFrom(ExpectValue, s, i).Some? <==> Rest(ExpectValue, s, i)
  {
    var j := SkipSpaces(s, i);
    assert Gap(s, i, j);
    SemiStageCorrect(s, i);
    if MatchFrom(ExpectValue, s, i).Some? && !MatchFrom(ExpectDelimiter, s, i).Some? {
      AlternativesSound(s, j);
      var e: nat :| LiteralThenRest(s, j, e);
    }
    if Rest(ExpectValue, s, i) && !Rest(ExpectDelimiter, s, i) {
      var a: nat, b: nat :| Gap(s, i, a) && a < b <= |s| && IsLiteralAt(s, a, b) && Rest(ExpectDelimiter, s, b);
      LiteralStartsSolid(s, a, b);
      GapEndsAtSkip(s, i, a);
      AlternativesComplete(s, j, b);
    }
  }

  lemma AssignStageCorrect(s: string, i: nat)
    requires i <= |s|
    ensures MatchFrom(ExpectAssign, s, i).Some? <==> Rest(ExpectAssign, s, i)
  {
    if MatchFrom(ExpectAssign, s, i).Some? { AssignStageSound(s, i); }
    if Rest(ExpectAssign, s, i) { AssignStageComplete(s, i); }
  }

  /** The `=` at a, after white space from i, followed by a value and the rest. */
  lemma AssignIntro(s: string, i: nat, a: nat)
    requires Gap(s, i, a) && a < |s| && s[a] == '=' && Rest(ExpectValue, s, a + 1)
    ensures Rest(ExpectAssign, s, i)
  {
  }

  lemma AssignStageSound(s: string, i: nat)
    requires i <= |s| && MatchFrom(ExpectAssign, s, i).Some?
    ensures Rest(ExpectAssign, s, i)
  {
    var j := SkipSpaces(s, i);
    if j < |s| && s[j] == '=' && MatchFrom(ExpectValue, s, j + 1).Some? {
      ValueStageCorrect(s, j + 1);
      AssignIntro(s, i, j);
    } else {
      assert MatchFrom(ExpectValue, s, i).Some?;
      ValueStageCorrect(s, i);
    }
  }

  lemma AssignStageComplete(s: string, i: nat)
    requires i <= |s| && Rest(ExpectAssign, s, i)
    ensures MatchFrom(ExpectAssign, s, i).Some?
  {
    if Rest(ExpectValue, s, i) {
      ValueStageCorrect(s, i);
    } else {
      var a := AssignWitness(s, i);
      AssignAtComplete(s, i, a);
    }
  }

  /** An `=` after the white space from i, followed by a suffix of the language. */
  lemma AssignAtComplete(s: string, i: nat, a: nat)
    requires i <= |s| && Gap(s, i, a) && a < |s| && s[a] == '=' && Rest(ExpectValue, s, a + 1)
    ensures MatchFrom(ExpectAssign, s, i).Some?
  {
    GapEndsAtSkip(s, i, a);
    ValueStageCorrect(s, a + 1);
    AssignPresentIs(s, i, a);
  }

  /** Where the `=` of such a suffix stands when the suffix does not skip it. */
  lemma AssignWitness(s: string, i: nat) returns (a: nat)
    requires i <= |s| && Rest(ExpectAssign, s, i) && !Rest(ExpectValue, s, i)
    ensures Gap(s, i, a) && a < |s| && s[a] == '=' && Rest(ExpectValue, s, a + 1)
  {
    a :| Gap(s, i, a) && a < |s| && s[a] == '=' && Rest(ExpectValue, s, a + 1);
  }

  /** Some identifier end b, j < b <= k, is followed by a match of the rest. */
  ghost predicate IdentEndBelow(s: string, j: nat, k: nat) {
    exists b: nat :: j < b <= k <= |s| && MatchFrom(ExpectAssign, s, b).Some?
  }

  /** The identifier search from length k down succeeds iff some shorter or equal
      identifier is followed by a match of the rest. */
  lemma {:induction false} IdentTryCorrect(s: string, j: nat, k: nat)
    requires j < k <= |s|
    ensures IdentTry(s, j, k).Some? <==> IdentEndBelow(s, j, k)
    decreases k
  {
    var here := MatchFrom(ExpectAssign, s, k);
    assert IdentTry(s, j, k).Some? <==> here.Some? || (k > j + 1 && IdentTry(s, j, k - 1).Some?);
    if here.Some? {
      assert IdentEndBelow(s, j, k);
    } else if k > j + 1 {
      IdentTryCorrect(s, j, k - 1);
      if IdentEndBelow(s, j, k) {
        var b: nat :| j < b <= k <= |s| && MatchFrom(ExpectAssign, s, b).Some?;
        assert b < k;
        assert IdentEndBelow(s, j, k - 1);
      }
      if IdentEndBelow(s, j, k - 1) {
        var b: nat :| j < b <= k - 1 <= |s| && MatchFrom(ExpectAssign, s, b).Some?;
        assert IdentEndBelow(s, j, k);
      }
    }
  }

  lemma IdentifierSlice(s: string, j: nat, b: nat)
    requires j < b <= |s| && IsIdentStart(s[j]) && AllIn(s, j + 1, b, Word)
    ensures IsIdentifier(s[j..b])
  {
    forall k | 1 <= k < b - j ensures IsWordChar(s[j..b][k]) { assert In(Word, s[j + k]); }
  }

  lemma IdentStageCorrect(s: string, i: nat)
    requires i <= |s|
    ensures MatchFrom(ExpectIdentifier, s, i).Some? <==> Rest(ExpectIdentifier, s, i)
  {
    if MatchFrom(ExpectIdentifier, s, i).Some? { IdentStageSound(s, i); }
    if Rest(ExpectIdentifier, s, i) { IdentStageComplete(s, i); }
  }

  lemma IdentStageSound(s: string, i: nat)
    requires i <= |s| && MatchFrom(ExpectIdentifier, s, i).Some?
    ensures Rest(ExpectIdentifier, s, i)
  {
    var j := SkipSpaces(s, i);
    assert Gap(s, i, j);
    AssignStageCorrect(s, i);
    if j < |s| && IsIdentStart(s[j]) {
      var e := RunEnd(s, j + 1, Word);
      IdentTryCorrect(s, j, e);
      if IdentTry(s, j, e).Some? {
        var b: nat :| j < b <= e && MatchFrom(ExpectAssign, s, b).Some?;
        AssignStageCorrect(s, b);
        IdentifierSlice(s, j, b);
      }
    }
  }

  lemma IdentStageComplete(s: string, i: nat)
    requires i <= |s| && Rest(ExpectIdentifier, s, i)
    ensures MatchFrom(ExpectIdentifier, s, i).Some?
  {
    var j := SkipSpaces(s, i);
    AssignStageCorrect(s, i);
    if !Rest(ExpectAssign, s, i) {
      var a: nat, b: nat :| Gap(s, i, a) && a < b <= |s| && IsIdentifier(s[a..b]) && Rest(ExpectAssign, s, b);
      assert s[a] == s[a..b][0];
      GapEndsAtSkip(s, i, a);
      forall k | j + 1 <= k < b ensures In(Word, s[k]) { assert s[k] == s[a..b][k - a]; }
      RunEndIsLongest(s, j + 1, b, Word);
      AssignStageCorrect(s, b);
      IdentTryCorrect(s, j, RunEnd(s, j + 1, Word));
    }
  }

  /** When the keyword alternatives succeed, one of them stands at j, is followed by a
      match of the rest, and is the one whose groups the result carries. */
  lemma KeywordTrySound(s: string, j: nat, ws: seq<string>) returns (n: nat)
    requires j <= |s| && KeywordTry(s, j, ws).Some?
    ensures n < |ws| && KeywordAt(s, j, ws[n]) && MatchFrom(ExpectIdentifier, s, j + |ws[n]|).Some?
    ensures KeywordTry(s, j, ws).value
            == MatchFrom(ExpectIdentifier, s, j + |ws[n]|).value.(dataType := Some(ws[n]))
  {
    n := KeywordTryPick(s, j, ws);
    KeywordAltIs(s, j, ws[n]);
  }

  /** The alternative whose result the alternation reports. */
  lemma {:induction false} KeywordTryPick(s: string, j: nat, ws: seq<string>) returns (n: nat)
    requires j <= |s| && KeywordTry(s, j, ws).Some?
    ensures n < |ws| && KeywordTry(s, j, ws) == KeywordAlt(s, j, ws[n])
    decreases |ws|
  {
    if KeywordAlt(s, j, ws[0]).Some? {
      n := 0;
    } else {
      var m := KeywordTryPick(s, j, ws[1..]);
      n := m + 1;
      assert ws[n] == ws[1..][m];
    }
  }

  /** A successful alternative: its keyword at j, followed by a match of the rest. */
  lemma KeywordAltIs(s: string, j: nat, w: string)
    requires j <= |s| && KeywordAlt(s, j, w).Some?
    ensures KeywordAt(s, j, w) && MatchFrom(ExpectIdentifier, s, j + |w|).Some?
    ensures KeywordAlt(s, j, w).value == MatchFrom(ExpectIdentifier, s, j + |w|).value.(dataType := Some(w))
  {
  }

  /** The first keyword, when it stands at j and the rest of the pattern follows it. */
  lemma KeywordTryHead(s: string, j: nat, ws: seq<string>)
    requires j <= |s| && ws != [] && KeywordAt(s, j, ws[0])
    requires MatchFrom(ExpectIdentifier, s, j + |ws[0]|).Some?
    ensures KeywordTry(s, j, ws)
            == Some(MatchFrom(ExpectIdentifier, s, j + |ws[0]|).value.(dataType := Some(ws[0])))
  {
  }

  /** Otherwise the later keywords. */
  lemma KeywordTryTail(s: string, j: nat, ws: seq<string>)
    requires j <= |s| && ws != []
    requires !(KeywordAt(s, j, ws[0]) && MatchFrom(ExpectIdentifier, s, j + |ws[0]|).Some?)
    ensures KeywordTry(s, j, ws) == KeywordTry(s, j, ws[1..])
  {
  }

  /** Any keyword of `ws` at j that the rest of the pattern can follow makes the
      alternatives succeed. */
  lemma {:induction false} KeywordTryComplete(s: string, j: nat, ws: seq<string>, w: string)
    requires j <= |s| && w in ws && KeywordAt(s, j, w)
    requires MatchFrom(ExpectIdentifier, s, j + |w|).Some?
    ensures KeywordTry(s, j, ws).Some?
    decreases |ws|
  {
    if KeywordAt(s, j, ws[0]) && MatchFrom(ExpectIdentifier, s, j + |ws[0]|).Some? {
      KeywordTryHead(s, j, ws);
    } else {
      KeywordTryTail(s, j, ws);
      var m :| 0 <= m < |ws| && ws[m] == w;
      assert m != 0;
      assert ws[1..][m - 1] == w;
      KeywordTryComplete(s, j, ws[1..], w);
    }
  }

  lemma KeywordThenIdentifier(s: string, a: nat, ws: seq<string>, w: string)
    requires a <= |s| && w in ws && KeywordAt(s, a, w) && Rest(ExpectIdentifier, s, a + |w|)
    ensures KeywordTry(s, a, ws).Some?
  {
    IdentStageCorrect(s, a + |w|);
    KeywordTryComplete(s, a, ws, w);
  }

  lemma TypeStageCorrect(s: string, i: nat)
    requires i <= |s|
    ensures MatchFrom(ExpectType, s, i).Some? <==> Rest(ExpectType, s, i)
  {
    if MatchFrom(ExpectType, s, i).Some? { TypeStageSound(s, i); }
    if Rest(ExpectType, s, i) { TypeStageComplete(s, i); }
  }

  /** Keyword w at a, after white space from i, followed by the rest. */
  lemma TypeIntro(s: string, i: nat, a: nat, w: string)
    requires Gap(s, i, a) && w in Keywords && KeywordAt(s, a, w)
    requires Rest(ExpectIdentifier, s, a + |w|)
    ensures Rest(ExpectType, s, i)
  {
  }

  lemma TypeStageSound(s: string, i: nat)
    requires i <= |s| && MatchFrom(ExpectType, s, i).Some?
    ensures Rest(ExpectType, s, i)
  {
    if KeywordTry(s, SkipSpaces(s, i), Keywords).Some? {
      KeywordStageSound(s, i);
    } else {
      assert MatchFrom(ExpectIdentifier, s, i).Some?;
      IdentStageCorrect(s, i);
    }
  }

  lemma KeywordStageSound(s: string, i: nat)
    requires i <= |s| && KeywordTry(s, SkipSpaces(s, i), Keywords).Some?
    ensures Rest(ExpectType, s, i)
  {
    var a, w := KeywordPiece(s, i, Keywords);
    TypeIntro(s, i, a, w);
  }

  /** The keyword of `ws` a successful KeywordTry found, and where it starts. */
  lemma KeywordPiece(s: string, i: nat, ws: seq<string>) returns (a: nat, w: string)
    requires i <= |s| && KeywordTry(s, SkipSpaces(s, i), ws).Some?
    ensures Gap(s, i, a) && w in ws && KeywordAt(s, a, w) && Rest(ExpectIdentifier, s, a + |w|)
  {
    a := SkipSpaces(s, i);
    var n := KeywordTrySound(s, a, ws);
    w := ws[n];
    IdentStageCorrect(s, a + |w|);
  }

  lemma TypeStageComplete(s: string, i: nat)
    requires i <= |s| && Rest(ExpectType, s, i)
    ensures MatchFrom(ExpectType, s, i).Some?
  {
    IdentStageCorrect(s, i);
    if !Rest(ExpectIdentifier, s, i) {
      var a: nat, w: string :| Gap(s, i, a) && w in Keywords && KeywordAt(s, a, w)
                               && Rest(ExpectIdentifier, s, a + |w|);
      KeywordsAreWords(w);
      KeywordAfterGap(s, i, a, Keywords, w);
    }
  }

  /** Every type keyword starts with a letter. */
  lemma KeywordsAreWords(w: string)
    requires w in Keywords
    ensures w != [] && IsIdentStart(w[0])
  {
  }

  lemma KeywordAfterGap(s: string, i: nat, a: nat, ws: seq<string>, w: string)
    requires Gap(s, i, a) && w in ws && w != [] && IsIdentStart(w[0]) && KeywordAt(s, a, w)
    requires Rest(ExpectIdentifier, s, a + |w|)
    ensures KeywordTry(s, SkipSpaces(s, i), ws).Some?
  {
    assert s[a] == s[a..a + |w|][0];
    GapEndsAtSkip(s, i, a);
    KeywordThenIdentifier(s, a, ws, w);
  }

  /** The matcher succeeds on a line exactly when the line is in the pattern's language. */
  lemma MatchIffAccepts(line: string)
    ensures Match(line).Some? <==> Accepts(line)
  {
    TypeStageCorrect(line, 0);
  }

  // ---------------------------------------------------------------- the groups

  /** A literal that does not start with a digit is not a decimal. */
  lemma NotDecimal(t: string)
    requires |t| > 0 && !IsDigit(t[0])
    ensures !IsDecimal(t)
  {
    if IsDecimal(t) { DecimalStartsWithDigit(t); }
  }

  lemma DelimiterGroups(s: string, i: nat)
    requires i <= |s| && MatchFrom(ExpectDelimiter, s, i).Some?
    ensures GroupsFrom(ExpectDelimiter, MatchFrom(ExpectDelimiter, s, i).value)
  {
  }

  /** The literal s[j..e] with group 6 as given, followed by the rest. */
  lemma ValueThenGroups(s: string, j: nat, e: nat, fraction: Option<string>)
    requires j <= e <= |s| && ValueThen(s, j, e, fraction).Some?
    requires fraction.Some? <==> IsDecimal(s[j..e])
    requires fraction.Some? ==> IsFractionOf(fraction.value, s[j..e])
    ensures GroupsFrom(ExpectValue, ValueThen(s, j, e, fraction).value)
  {
    ValueThenCorrect(s, j, e, fraction);
  }

  lemma QuotedGroups(s: string, j: nat, q: char)
    requires j <= |s| && QuotedAlt(s, j, q).Some? && !IsDigit(q)
    ensures GroupsFrom(ExpectValue, QuotedAlt(s, j, q).value)
  {
    var c := RunEnd(s, j + 1, AnyBut(q));
    assert s[j..c + 1][0] == q;
    NotDecimal(s[j..c + 1]);
    ValueThenGroups(s, j, c + 1, None);
  }

  lemma NumberGroups(s: string, j: nat)
    requires j <= |s| && NumberAlt(s, j).Some?
    ensures GroupsFrom(ExpectValue, NumberAlt(s, j).value)
  {
    var d := RunEnd(s, j, Digit);
    if d < |s| && s[d] == '.' && RunEnd(s, d + 1, Digit) > d + 1
       && ValueThen(s, j, RunEnd(s, d + 1, Digit), Some(s[d..RunEnd(s, d + 1, Digit)])).Some? {
      var f := RunEnd(s, d + 1, Digit);
      NumberIsFraction(s, j, d, f);
      DecimalWitness(s, j, d, f);
      ValueThenGroups(s, j, f, Some(s[d..f]));
    } else {
      NumberIsWhole(s, j, d);
      DigitsSlice(s, j, d);
      DigitsNotDecimal(s[j..d]);
      ValueThenGroups(s, j, d, None);
    }
  }

  /** A number with a fraction: digits, a point and at least one more digit. */
  lemma NumberIsFraction(s: string, j: nat, d: nat, f: nat)
    requires j <= |s| && d == RunEnd(s, j, Digit) && j < d && d < |s| && s[d] == '.'
    requires f == RunEnd(s, d + 1, Digit) && f > d + 1 && ValueThen(s, j, f, Some(s[d..f])).Some?
    ensures NumberAlt(s, j) == ValueThen(s, j, f, Some(s[d..f]))
  {
  }

  /** Otherwise a whole number: the digits alone. */
  lemma NumberIsWhole(s: string, j: nat, d: nat)
    requires j <= |s| && d == RunEnd(s, j, Digit) && NumberAlt(s, j).Some?
    requires !(d < |s| && s[d] == '.' && RunEnd(s, d + 1, Digit) > d + 1
               && ValueThen(s, j, RunEnd(s, d + 1, Digit), Some(s[d..RunEnd(s, d + 1, Digit)])).Some?)
    ensures j < d && NumberAlt(s, j) == ValueThen(s, j, d, None)
  {
  }

  /** `true`, `false`, `'.'` and `null`: a literal that starts with a letter or an
      apostrophe, so not a decimal. */
  lemma FixedGroups(s: string, j: nat, e: nat)
    requires j < e <= |s| && !IsDigit(s[j]) && ValueThen(s, j, e, None).Some?
    ensures GroupsFrom(ExpectValue, ValueThen(s, j, e, None).value)
  {
    assert s[j..e][0] == s[j];
    NotDecimal(s[j..e]);
    ValueThenGroups(s, j, e, None);
  }

  lemma ValueGroups(s: string, i: nat)
    requires i <= |s| && MatchFrom(ExpectValue, s, i).Some?
    ensures GroupsFrom(ExpectValue, MatchFrom(ExpectValue, s, i).value)
  {
    var j := SkipSpaces(s, i);
    if QuotedAlt(s, j, '"').Some? { QuotedGroups(s, j, '"'); }
    else if QuotedAlt(s, j, '\'').Some? { QuotedGroups(s, j, '\''); }
    else if NumberAlt(s, j).Some? { NumberGroups(s, j); }
    else if WordAlt(s, j, "true").Some? { assert s[j..j + 4][0] == s[j]; FixedGroups(s, j, j + 4); }
    else if WordAlt(s, j, "false").Some? { assert s[j..j + 5][0] == s[j]; FixedGroups(s, j, j + 5); }
    else if QuotedCharAlt(s, j).Some? { FixedGroups(s, j, j + 3); }
    else if NullAlt(s, j).Some? { assert s[j..j + 4][0] == s[j]; FixedGroups(s, j, j + 4); }
    else { DelimiterGroups(s, i); }
  }

  lemma AssignGroups(s: string, i: nat)
    requires i <= |s| && MatchFrom(ExpectAssign, s, i).Some?
    ensures GroupsFrom(ExpectAssign, MatchFrom(ExpectAssign, s, i).value)
  {
    var j := SkipSpaces(s, i);
    if j < |s| && s[j] == '=' && MatchFrom(ExpectValue, s, j + 1).Some? {
      ValueGroups(s, j + 1);
    } else {
      ValueGroups(s, i);
    }
  }

  lemma {:induction false} IdentTryGroups(s: string, j: nat, k: nat)
    requires j < k <= |s| && IsIdentStart(s[j]) && AllIn(s, j + 1, k, Word)
    requires IdentTry(s, j, k).Some?
    ensures GroupsFrom(ExpectIdentifier, IdentTry(s, j, k).value)
    decreases k
  {
    if MatchFrom(ExpectAssign, s, k).Some? {
      AssignGroups(s, k);
      IdentifierSlice(s, j, k);
    } else {
      IdentTryGroups(s, j, k - 1);
    }
  }

  lemma IdentGroups(s: string, i: nat)
    requires i <= |s| && MatchFrom(ExpectIdentifier, s, i).Some?
    ensures GroupsFrom(ExpectIdentifier, MatchFrom(ExpectIdentifier, s, i).value)
  {
    var j := SkipSpaces(s, i);
    if j < |s| && IsIdentStart(s[j]) && IdentTry(s, j, RunEnd(s, j + 1, Word)).Some? {
      IdentTryGroups(s, j, RunEnd(s, j + 1, Word));
    } else {
      AssignGroups(s, i);
    }
  }

  lemma TypeGroups(s: string, i: nat)
    requires i <= |s| && MatchFrom(ExpectType, s, i).Some?
    ensures GroupsFrom(ExpectType, MatchFrom(ExpectType, s, i).value)
  {
    var j := SkipSpaces(s, i);
    if KeywordTry(s, j, Keywords).Some? {
      KeywordGroups(s, j, Keywords);
    } else {
      IdentGroups(s, i);
    }
  }

  lemma KeywordGroups(s: string, j: nat, ws: seq<string>)
    requires j <= |s| && KeywordTry(s, j, ws).Some?
    ensures GroupsFrom(ExpectType, KeywordTry(s, j, ws).value)
  {
    var n := KeywordTrySound(s, j, ws);
    IdentGroups(s, j + |ws[n]|);
  }

  /** Group 1, when present, is one of the type keywords. */
  lemma TypeIsKeyword(s: string, i: nat)
    requires i <= |s| && MatchFrom(ExpectType, s, i).Some?
    ensures MatchFrom(ExpectType, s, i).value.dataType.Some? ==>
              MatchFrom(ExpectType, s, i).value.dataType.value in Keywords
  {
    var j := SkipSpaces(s, i);
    if KeywordTry(s, j, Keywords).Some? {
      var n := KeywordTrySound(s, j, Keywords);
    } else {
      IdentGroups(s, i);
    }
  }

  /** The groups of a match are well formed; in particular group 6 (printed on the
      "Delimiter" line) is present exactly when the value is a decimal literal, and
      is then that literal's `.digits` tail. */
  lemma MatchGroups(line: string)
    requires Match(line).Some?
    ensures GroupsWellFormed(Match(line).value)
    ensures Match(line).value.dataType.Some? ==> Match(line).value.dataType.value in Keywords
  {
    TypeGroups(line, 0);
    TypeIsKeyword(line, 0);
  }

  // ---------------------------------------------------------------- the groups spell the line

  /** The texts of the groups a match holds from the group of `st` on, in the pattern's
      order: the type keyword, the identifier, `=`, the literal and `;`. */
  function TokensFrom(st: Expect, m: LexMatch): seq<string>
    decreases Rank(st)
  {
    match st
    case ExpectType => (if m.dataType.Some? then [m.dataType.value] else []) + TokensFrom(ExpectIdentifier, m)
    case ExpectIdentifier => (if m.identifier.Some? then [m.identifier.value] else []) + TokensFrom(ExpectAssign, m)
    case ExpectAssign => (if m.assignment then ["="] else []) + TokensFrom(ExpectValue, m)
    case ExpectValue => (if m.value.Some? then [m.value.value] else []) + TokensFrom(ExpectDelimiter, m)
    case ExpectDelimiter => if m.delimiter then [";"] else []
  }

  /** s[i..] is the texts `ts` in order, each after the run of white space in front of
      it, then white space to the end. No piece of the pattern starts with white space,
      so the run before a piece is all of the white space there. */
  ghost predicate Spaced(s: string, i: nat, ts: seq<string>)
    requires i <= |s|
    decreases |ts|
  {
    if ts == [] then Gap(s, i, |s|)
    else
      var a := SkipSpaces(s, i);
      a + |ts[0]| <= |s| && s[a..a + |ts[0]|] == ts[0] && Spaced(s, a + |ts[0]|, ts[1..])
  }

  lemma SpacedCons(s: string, i: nat, t: string, ts: seq<string>)
    requires i <= |s| && SkipSpaces(s, i) + |t| <= |s|
    requires s[SkipSpaces(s, i)..SkipSpaces(s, i) + |t|] == t
    requires Spaced(s, SkipSpaces(s, i) + |t|, ts)
    ensures Spaced(s, i, [t] + ts)
  {
    assert ([t] + ts)[0] == t;
    assert ([t] + ts)[1..] == ts;
  }

  /** The pieces below say where each group of the result stands in the line, and
      which of the earlier groups are still absent. */
  lemma DelimiterSpells(s: string, i: nat)
    requires i <= |s| && MatchFrom(ExpectDelimiter, s, i).Some?
    ensures var r := MatchFrom(ExpectDelimiter, s, i).value;
            && Spaced(s, i, TokensFrom(ExpectDelimiter, r))
            && r.dataType.None? && r.identifier.None? && !r.assignment && r.value.None?
  {
    var j := SkipSpaces(s, i);
    if j < |s| && s[j] == ';' && SkipSpaces(s, j + 1) == |s| {
      assert MatchFrom(ExpectDelimiter, s, i).value == NoGroups.(delimiter := true);
      assert s[j..j + 1] == [';'];
      SpacedCons(s, i, ";", []);
      assert [";"] + [] == [";"];
    } else {
      assert MatchFrom(ExpectDelimiter, s, i).value == NoGroups;
    }
  }

  lemma ValueThenSpells(s: string, i: nat, j: nat, e: nat, fraction: Option<string>)
    requires i <= |s| && j == SkipSpaces(s, i) && j <= e <= |s|
    requires ValueThen(s, j, e, fraction).Some?
    ensures var r := ValueThen(s, j, e, fraction).value;
            && Spaced(s, i, TokensFrom(ExpectValue, r))
            && r.dataType.None? && r.identifier.None? && !r.assignment
  {
    var m := MatchFrom(ExpectDelimiter, s, e).value;
    DelimiterSpells(s, e);
    var r := ValueThen(s, j, e, fraction).value;
    assert r == m.(value := Some(s[j..e]), fraction := fraction);
    assert TokensFrom(ExpectDelimiter, r) == TokensFrom(ExpectDelimiter, m);
    assert TokensFrom(ExpectValue, r) == [s[j..e]] + TokensFrom(ExpectDelimiter, m);
    SpacedCons(s, i, s[j..e], TokensFrom(ExpectDelimiter, m));
  }

  lemma NumberSpells(s: string, i: nat)
    requires i <= |s| && NumberAlt(s, SkipSpaces(s, i)).Some?
    ensures var r := NumberAlt(s, SkipSpaces(s, i)).value;
            && Spaced(s, i, TokensFrom(ExpectValue, r))
            && r.dataType.None? && r.identifier.None? && !r.assignment
  {
    var j := SkipSpaces(s, i);
    var d := RunEnd(s, j, Digit);
    if d < |s| && s[d] == '.' && RunEnd(s, d + 1, Digit) > d + 1
       && ValueThen(s, j, RunEnd(s, d + 1, Digit), Some(s[d..RunEnd(s, d + 1, Digit)])).Some? {
      ValueThenSpells(s, i, j, RunEnd(s, d + 1, Digit), Some(s[d..RunEnd(s, d + 1, Digit)]));
    } else {
      ValueThenSpells(s, i, j, d, None);
    }
  }

  lemma ValueSpells(s: string, i: nat)
    requires i <= |s| && MatchFrom(ExpectValue, s, i).Some?
    ensures var r := MatchFrom(ExpectValue, s, i).value;
            && Spaced(s, i, TokensFrom(ExpectValue, r))
            && r.dataType.None? && r.identifier.None? && !r.assignment
  {
    var j := SkipSpaces(s, i);
    if QuotedAlt(s, j, '"').Some? {
      QuotedSpells(s, i, '"');
    } else if QuotedAlt(s, j, '\'').Some? {
      QuotedSpells(s, i, '\'');
    } else if NumberAlt(s, j).Some? {
      NumberSpells(s, i);
    } else if WordAlt(s, j, "true").Some? {
      WordSpells(s, i, "true");
    } else if WordAlt(s, j, "false").Some? {
      WordSpells(s, i, "false");
    } else if QuotedCharAlt(s, j).Some? {
      QuotedCharSpells(s, i);
    } else if NullAlt(s, j).Some? {
      NullSpells(s, i);
    } else {
      var m := MatchFrom(ExpectDelimiter, s, i).value;
      DelimiterSpells(s, i);
      assert TokensFrom(ExpectValue, m) == TokensFrom(ExpectDelimiter, m);
    }
  }

  lemma QuotedSpells(s: string, i: nat, q: char)
    requires i <= |s| && QuotedAlt(s, SkipSpaces(s, i), q).Some?
    ensures var r := QuotedAlt(s, SkipSpaces(s, i), q).value;
            && Spaced(s, i, TokensFrom(ExpectValue, r))
            && r.dataType.None? && r.identifier.None? && !r.assignment
  {
    var j := SkipSpaces(s, i);
    ValueThenSpells(s, i, j, RunEnd(s, j + 1, AnyBut(q)) + 1, None);
  }

  lemma WordSpells(s: string, i: nat, w: string)
    requires i <= |s| && WordAlt(s, SkipSpaces(s, i), w).Some?
    ensures var r := WordAlt(s, SkipSpaces(s, i), w).value;
            && Spaced(s, i, TokensFrom(ExpectValue, r))
            && r.dataType.None? && r.identifier.None? && !r.assignment
  {
    var j := SkipSpaces(s, i);
    ValueThenSpells(s, i, j, j + |w|, None);
  }

  lemma QuotedCharSpells(s: string, i: nat)
    requires i <= |s| && QuotedCharAlt(s, SkipSpaces(s, i)).Some?
    ensures var r := QuotedCharAlt(s, SkipSpaces(s, i)).value;
            && Spaced(s, i, TokensFrom(ExpectValue, r))
            && r.dataType.None? && r.identifier.None? && !r.assignment
  {
    var j := SkipSpaces(s, i);
    ValueThenSpells(s, i, j, j + 3, None);
  }

  lemma NullSpells(s: string, i: nat)
    requires i <= |s| && NullAlt(s, SkipSpaces(s, i)).Some?
    ensures var r := NullAlt(s, SkipSpaces(s, i)).value;
            && Spaced(s, i, TokensFrom(ExpectValue, r))
            && r.dataType.None? && r.identifier.None? && !r.assignment
  {
    var j := SkipSpaces(s, i);
    ValueThenSpells(s, i, j, j + 4, None);
  }

  lemma AssignSpells(s: string, i: nat)
    requires i <= |s| && MatchFrom(ExpectAssign, s, i).Some?
    ensures var r := MatchFrom(ExpectAssign, s, i).value;
            && Spaced(s, i, TokensFrom(ExpectAssign, r)) && r.dataType.None? && r.identifier.None?
  {
    var j := SkipSpaces(s, i);
    if j < |s| && s[j] == '=' && MatchFrom(ExpectValue, s, j + 1).Some? {
      AssignPresentSpells(s, i, j);
    } else {
      var m := MatchFrom(ExpectValue, s, i).value;
      assert MatchFrom(ExpectAssign, s, i).value == m;
      ValueSpells(s, i);
      assert TokensFrom(ExpectAssign, m) == TokensFrom(ExpectValue, m);
    }
  }

  lemma AssignPresentSpells(s: string, i: nat, j: nat)
    requires i <= |s| && j == SkipSpaces(s, i) && j < |s| && s[j] == '='
    requires MatchFrom(ExpectValue, s, j + 1).Some?
    ensures MatchFrom(ExpectAssign, s, i).Some?
    ensures var r := MatchFrom(ExpectAssign, s, i).value;
            && Spaced(s, i, TokensFrom(ExpectAssign, r)) && r.dataType.None? && r.identifier.None?
  {
    ValueSpells(s, j + 1);
    AssignPresentIs(s, i, j);
    AssignThenSpaced(s, i, j, MatchFrom(ExpectValue, s, j + 1).value, MatchFrom(ExpectAssign, s, i));
  }

  lemma AssignThenSpaced(s: string, i: nat, j: nat, m: LexMatch, o: Option<LexMatch>)
    requires i <= |s| && j == SkipSpaces(s, i) && j < |s| && s[j..j + 1] == "="
    requires Spaced(s, j + 1, TokensFrom(ExpectValue, m)) && m.dataType.None? && m.identifier.None?
    requires o == Some(m.(assignment := true))
    ensures o.Some?
    ensures var r := o.value;
            Spaced(s, i, TokensFrom(ExpectAssign, r)) && r.dataType.None? && r.identifier.None?
  {
    AssignTokens(m);
    SpacedCons(s, i, "=", TokensFrom(ExpectValue, m));
  }

  lemma AssignPresentIs(s: string, i: nat, j: nat)
    requires i <= |s| && j == SkipSpaces(s, i) && j < |s| && s[j] == '='
    requires MatchFrom(ExpectValue, s, j + 1).Some?
    ensures MatchFrom(ExpectAssign, s, i) == Some(MatchFrom(ExpectValue, s, j + 1).value.(assignment := true))
    ensures s[j..j + 1] == "="
  {
  }

  lemma AssignTokens(m: LexMatch)
    ensures TokensFrom(ExpectAssign, m.(assignment := true)) == ["="] + TokensFrom(ExpectValue, m)
  {
    assert TokensFrom(ExpectValue, m.(assignment := true)) == TokensFrom(ExpectValue, m);
  }

  lemma {:induction false} IdentTrySpells(s: string, i: nat, j: nat, k: nat)
    requires i <= |s| && j == SkipSpaces(s, i) && j < k <= |s| && IdentTry(s, j, k).Some?
    ensures var r := IdentTry(s, j, k).value;
            && Spaced(s, i, TokensFrom(ExpectIdentifier, r)) && r.dataType.None?
    decreases k
  {
    if MatchFrom(ExpectAssign, s, k).Some? {
      IdentTryHere(s, j, k);
      AssignSpells(s, k);
      IdentThenSpaced(s, i, j, k, MatchFrom(ExpectAssign, s, k).value);
    } else {
      IdentTryBack(s, j, k);
      IdentTrySpells(s, i, j, k - 1);
    }
  }

  /** The identifier s[j..k] when the rest of the pattern matches after it. */
  lemma IdentTryHere(s: string, j: nat, k: nat)
    requires j < k <= |s| && MatchFrom(ExpectAssign, s, k).Some?
    ensures IdentTry(s, j, k) == Some(MatchFrom(ExpectAssign, s, k).value.(identifier := Some(s[j..k])))
  {
  }

  /** Otherwise one character shorter. */
  lemma IdentTryBack(s: string, j: nat, k: nat)
    requires j < k <= |s| && MatchFrom(ExpectAssign, s, k).None? && IdentTry(s, j, k).Some?
    ensures j < k - 1 && IdentTry(s, j, k) == IdentTry(s, j, k - 1)
  {
  }

  lemma IdentThenSpaced(s: string, i: nat, j: nat, k: nat, m: LexMatch)
    requires i <= |s| && j == SkipSpaces(s, i) && j < k <= |s|
    requires Spaced(s, k, TokensFrom(ExpectAssign, m)) && m.dataType.None?
    ensures var r := m.(identifier := Some(s[j..k]));
            Spaced(s, i, TokensFrom(ExpectIdentifier, r)) && r.dataType.None?
  {
    var r := m.(identifier := Some(s[j..k]));
    assert TokensFrom(ExpectAssign, r) == TokensFrom(ExpectAssign, m);
    assert TokensFrom(ExpectIdentifier, r) == [s[j..k]] + TokensFrom(ExpectAssign, m);
    SpacedCons(s, i, s[j..k], TokensFrom(ExpectAssign, m));
  }

  lemma IdentSpells(s: string, i: nat)
    requires i <= |s| && MatchFrom(ExpectIdentifier, s, i).Some?
    ensures var r := MatchFrom(ExpectIdentifier, s, i).value;
            && Spaced(s, i, TokensFrom(ExpectIdentifier, r)) && r.dataType.None?
  {
    var j := SkipSpaces(s, i);
    if j < |s| && IsIdentStart(s[j]) && IdentTry(s, j, RunEnd(s, j + 1, Word)).Some? {
      assert MatchFrom(ExpectIdentifier, s, i) == IdentTry(s, j, RunEnd(s, j + 1, Word));
      IdentTrySpells(s, i, j, RunEnd(s, j + 1, Word));
    } else {
      var m := MatchFrom(ExpectAssign, s, i).value;
      assert MatchFrom(ExpectIdentifier, s, i).value == m;
      AssignSpells(s, i);
      assert TokensFrom(ExpectIdentifier, m) == TokensFrom(ExpectAssign, m);
    }
  }

  lemma {:induction false} KeywordTrySpells(s: string, i: nat, ws: seq<string>)
    requires i <= |s| && KeywordTry(s, SkipSpaces(s, i), ws).Some?
    ensures Spaced(s, i, TokensFrom(ExpectType, KeywordTry(s, SkipSpaces(s, i), ws).value))
    decreases |ws|
  {
    var j := SkipSpaces(s, i);
    var w := ws[0];
    if KeywordAt(s, j, w) && MatchFrom(ExpectIdentifier, s, j + |w|).Some? {
      KeywordTryHead(s, j, ws);
      KeywordHereSpells(s, i, j, w);
    } else {
      KeywordTryTail(s, j, ws);
      KeywordTrySpells(s, i, ws[1..]);
    }
  }

  /** Keyword w after the white space from i, and the rest of the pattern after it. */
  lemma KeywordHereSpells(s: string, i: nat, j: nat, w: string)
    requires i <= |s| && j == SkipSpaces(s, i) && KeywordAt(s, j, w)
    requires MatchFrom(ExpectIdentifier, s, j + |w|).Some?
    ensures Spaced(s, i, TokensFrom(ExpectType, MatchFrom(ExpectIdentifier, s, j + |w|).value.(dataType := Some(w))))
  {
    IdentSpells(s, j + |w|);
    KeywordThenSpaced(s, i, j, w, MatchFrom(ExpectIdentifier, s, j + |w|).value);
  }

  lemma KeywordThenSpaced(s: string, i: nat, j: nat, w: string, m: LexMatch)
    requires i <= |s| && j == SkipSpaces(s, i) && j + |w| <= |s| && s[j..j + |w|] == w
    requires Spaced(s, j + |w|, TokensFrom(ExpectIdentifier, m))
    ensures Spaced(s, i, TokensFrom(ExpectType, m.(dataType := Some(w))))
  {
    TypeTokens(m, w);
    SpacedCons(s, i, w, TokensFrom(ExpectIdentifier, m));
  }

  lemma TypeTokens(m: LexMatch, w: string)
    ensures TokensFrom(ExpectType, m.(dataType := Some(w))) == [w] + TokensFrom(ExpectIdentifier, m)
  {
    var r := m.(dataType := Some(w));
    assert TokensFrom(ExpectIdentifier, r) == TokensFrom(ExpectIdentifier, m);
  }

  /** A match is the line spelt out: the line consists of exactly the groups it reports,
      in the pattern's order, with white space before, between and after them. */
  lemma MatchSpells(line: string)
    requires Match(line).Some?
    ensures Spaced(line, 0, TokensFrom(ExpectType, Match(line).value))
  {
    if KeywordTry(line, SkipSpaces(line, 0), Keywords).Some? {
      KeywordTrySpells(line, 0, Keywords);
    } else {
      var m := MatchFrom(ExpectIdentifier, line, 0).value;
      assert Match(line).value == m;
      IdentSpells(line, 0);
      assert TokensFrom(ExpectType, m) == TokensFrom(ExpectIdentifier, m);
    }
  }

  // ---------------------------------------------------------------- foreign characters

  /** The characters a line without quotes can be made of: white space, the letters,
      digits and `_` of keywords, identifiers and words, the digits and point of a
      number, `=` and `;`. */
  predicate IsPlain(c: char) {
    IsWordChar(c) || IsSpace(c) || c == '=' || c == ';' || c == '.'
  }

  /** The line holds neither of the quote characters. */
  predicate NoQuotes(s: string) {
    forall k :: 0 <= k < |s| ==> s[k] != '"' && s[k] != '\''
  }

  ghost predicate PlainBetween(s: string, i: nat, j: nat)
    requires i <= j <= |s|
  {
    forall k :: i <= k < j ==> IsPlain(s[k])
  }

  /** Every type keyword is made of letters. */
  lemma KeywordLetters(w: string)
    requires w in Keywords
    ensures forall m :: 0 <= m < |w| ==> IsIdentStart(w[m])
  {
  }

  /** Without quotes, a literal is a number or one of the words true, false, null. */
  lemma LiteralPlain(s: string, a: nat, b: nat)
    requires a < b <= |s| && NoQuotes(s) && IsLiteralAt(s, a, b)
    ensures PlainBetween(s, a, b)
  {
    var t := s[a..b];
    assert t[0] == s[a];
    forall k | a <= k < b ensures IsPlain(s[k]) {
      assert s[k] == t[k - a];
      if IsDecimal(t) {
        var d :| 0 < d < |t| - 1 && t[d] == '.' && AllDigits(t[..d]) && AllDigits(t[d + 1..]);
        if k - a < d {
          assert t[k - a] == t[..d][k - a];
        } else if k - a > d {
          assert t[k - a] == t[d + 1..][k - a - d - 1];
        }
      }
    }
  }

  // Whatever part of a quote-free line the pattern accepts is made of plain
  // characters: one lemma per group of the pattern.

  lemma DelimiterPlain(s: string, i: nat)
    requires i <= |s| && Rest(ExpectDelimiter, s, i)
    ensures PlainBetween(s, i, |s|)
  {
    if !Gap(s, i, |s|) {
      var a: nat :| Gap(s, i, a) && a < |s| && s[a] == ';' && Gap(s, a + 1, |s|);
    }
  }

  lemma ValuePlain(s: string, i: nat)
    requires i <= |s| && NoQuotes(s) && Rest(ExpectValue, s, i)
    ensures PlainBetween(s, i, |s|)
  {
    if Rest(ExpectDelimiter, s, i) {
      DelimiterPlain(s, i);
    } else {
      var a: nat, b: nat :| Gap(s, i, a) && a < b <= |s| && IsLiteralAt(s, a, b)
                             && Rest(ExpectDelimiter, s, b);
      LiteralPlain(s, a, b);
      DelimiterPlain(s, b);
      PlainJoined(s, i, a, b);
    }
  }

  lemma AssignPlain(s: string, i: nat)
    requires i <= |s| && NoQuotes(s) && Rest(ExpectAssign, s, i)
    ensures PlainBetween(s, i, |s|)
  {
    if Rest(ExpectValue, s, i) {
      ValuePlain(s, i);
    } else {
      var a: nat :| Gap(s, i, a) && a < |s| && s[a] == '=' && Rest(ExpectValue, s, a + 1);
      ValuePlain(s, a + 1);
      assert PlainBetween(s, a, a + 1);
      PlainJoined(s, i, a, a + 1);
    }
  }

  lemma IdentPlain(s: string, i: nat)
    requires i <= |s| && NoQuotes(s) && Rest(ExpectIdentifier, s, i)
    ensures PlainBetween(s, i, |s|)
  {
    if Rest(ExpectAssign, s, i) {
      AssignPlain(s, i);
    } else {
      var a: nat, b: nat :| Gap(s, i, a) && a < b <= |s| && IsIdentifier(s[a..b])
                             && Rest(ExpectAssign, s, b);
      forall k | a <= k < b ensures IsPlain(s[k]) {
        assert s[k] == s[a..b][k - a];
        if k > a {
          assert IsWordChar(s[a..b][k - a]);
        }
      }
      AssignPlain(s, b);
      PlainJoined(s, i, a, b);
    }
  }

  lemma KeywordPlain(s: string, a: nat, w: string)
    requires a <= |s| && w in Keywords && KeywordAt(s, a, w)
    ensures PlainBetween(s, a, a + |w|)
  {
    KeywordLetters(w);
    forall k | a <= k < a + |w| ensures IsPlain(s[k]) {
      assert s[k] == s[a..a + |w|][k - a];
    }
  }

  lemma TypePlain(s: string, i: nat)
    requires i <= |s| && NoQuotes(s) && Rest(ExpectType, s, i)
    ensures PlainBetween(s, i, |s|)
  {
    if Rest(ExpectIdentifier, s, i) {
      IdentPlain(s, i);
    } else {
      var a: nat, w: string :| Gap(s, i, a) && w in Keywords && KeywordAt(s, a, w)
                                && Rest(ExpectIdentifier, s, a + |w|);
      KeywordLinePlain(s, i, a, w);
    }
  }

  lemma KeywordLinePlain(s: string, i: nat, a: nat, w: string)
    requires NoQuotes(s) && Gap(s, i, a) && w in Keywords && KeywordAt(s, a, w)
    requires Rest(ExpectIdentifier, s, a + |w|)
    ensures PlainBetween(s, i, |s|)
  {
    KeywordPlain(s, a, w);
    IdentPlain(s, a + |w|);
    PlainJoined(s, i, a, a + |w|);
  }

  /** White space, then plain characters up to b, then plain characters to the end. */
  lemma PlainJoined(s: string, i: nat, a: nat, b: nat)
    requires Gap(s, i, a) && a <= b <= |s| && PlainBetween(s, a, b) && PlainBetween(s, b, |s|)
    ensures PlainBetween(s, i, |s|)
  {
    forall k | i <= k < |s| ensures IsPlain(s[k]) {
      if k < a {
        assert In(Space, s[k]);
      }
    }
  }

  /** A quote-free line holding any other character (`$`, `+`, `(`, ...) is an Unknown
      Token. */
  lemma ForeignCharacterUnknown(line: string, k: nat)
    requires NoQuotes(line) && k < |line| && !IsPlain(line[k])
    ensures Match(line).None?
  {
    MatchIffAccepts(line);
    assert !Accepts(line) by {
      if Accepts(line) {
        TypePlain(line, 0);
        assert false;
      }
    }
  }

  /** An empty line (a blank line, once trimmed) matches with no group at all. */
  lemma EmptyLineMatches()
    ensures Match("") == Some(NoGroups)
    ensures Entry("") == "\n"
  {
  }

  // ---------------------------------------------------------------- a String declaration

  /** A `;` as the last character: the delimiter group, then the end of the line. */
  lemma DelimiterLast(s: string, e: nat)
    requires e + 1 == |s| && s[e] == ';'
    ensures MatchFrom(ExpectDelimiter, s, e) == Some(NoGroups.(delimiter := true))
  {
    assert SkipSpaces(s, e) == e;
    assert SkipSpaces(s, e + 1) == |s|;
  }

  /** A double-quoted literal without inner quotes that closes right before the final
      `;` is the first alternative of the value group. */
  lemma QuotedValueLast(s: string, j: nat)
    requires j + 3 <= |s| && s[j] == '"' && s[|s| - 2] == '"' && s[|s| - 1] == ';'
    requires forall k :: j < k < |s| - 2 ==> s[k] != '"'
    ensures QuotedAlt(s, j, '"') == Some(NoGroups.(delimiter := true, value := Some(s[j..|s| - 1])))
  {
    assert AllIn(s, j + 1, |s| - 2, AnyBut('"'));
    RunEndIsLongest(s, j + 1, |s| - 2, AnyBut('"'));
    DelimiterLast(s, |s| - 1);
  }

  /** ` = "…";` at the end of the line: the assignment and the quoted value. */
  lemma AssignQuotedLast(s: string, i: nat)
    requires i + 6 <= |s| && s[i] == ' ' && s[i + 1] == '=' && s[i + 2] == ' ' && s[i + 3] == '"'
    requires s[|s| - 2] == '"' && s[|s| - 1] == ';'
    requires forall k :: i + 3 < k < |s| - 2 ==> s[k] != '"'
    ensures MatchFrom(ExpectAssign, s, i)
            == Some(LexMatch(None, None, true, Some(s[i + 3..|s| - 1]), None, true))
  {
    assert RunEnd(s, i + 1, Space) == i + 1;
    assert SkipSpaces(s, i) == i + 1;
    assert RunEnd(s, i + 3, Space) == i + 3;
    assert SkipSpaces(s, i + 2) == i + 3;
    QuotedValueLast(s, i + 3);
  }

  /** ` n` followed by a non-word character: the whole identifier is group 2, in front
      of whatever the rest of the line matches. */
  lemma IdentifierThen(s: string, i: nat, k: nat, m: LexMatch)
    requires i + 1 < k < |s| && s[i] == ' ' && IsIdentifier(s[i + 1..k]) && !IsWordChar(s[k])
    requires MatchFrom(ExpectAssign, s, k) == Some(m)
    ensures MatchFrom(ExpectIdentifier, s, i) == Some(m.(identifier := Some(s[i + 1..k])))
  {
    assert s[i + 1] == s[i + 1..k][0];
    assert RunEnd(s, i + 1, Space) == i + 1;
    assert SkipSpaces(s, i) == i + 1;
    assert AllIn(s, i + 2, k, Word) by {
      forall t | i + 2 <= t < k ensures In(Word, s[t]) {
        assert s[t] == s[i + 1..k][t - i - 1];
      }
    }
    RunEndIsLongest(s, i + 2, k, Word);
  }

  /** A line that begins with `String ` takes that keyword as group 1: no keyword
      listed before it starts with a capital S. */
  lemma StringKeywordFirst(s: string, m: LexMatch)
    requires 7 <= |s| && s[..6] == "String" && s[6] == ' '
    requires MatchFrom(ExpectIdentifier, s, 6) == Some(m)
    ensures Match(s) == Some(m.(dataType := Some("String")))
  {
    assert s[0] == s[..6][0];
    assert SkipSpaces(s, 0) == 0;
    StringKeywordTry(s);
  }

  /** Among the keyword alternatives, "String" at the start of such a line is the one
      that succeeds. */
  lemma StringKeywordTry(s: string)
    requires 7 <= |s| && s[..6] == "String" && s[6] == ' '
    requires MatchFrom(ExpectIdentifier, s, 6).Some?
    ensures KeywordTry(s, 0, Keywords)
            == Some(MatchFrom(ExpectIdentifier, s, 6).value.(dataType := Some("String")))
  {
    StringKeywordAlone(s);
    KeywordTryFirst(s, 0, Keywords, 8);
  }

  /** At the start of such a line "String" is the only keyword. */
  lemma StringKeywordAlone(s: string)
    requires 7 <= |s| && s[..6] == "String" && s[6] == ' '
    ensures Keywords[8] == "String" && KeywordAt(s, 0, Keywords[8])
    ensures forall m :: 0 <= m < 8 ==> !KeywordAt(s, 0, Keywords[m])
  {
    assert s[0] == s[..6][0] && s[5] == s[..6][5];
    FirstKeywordsLower();
    forall m | 0 <= m < 8 ensures !KeywordAt(s, 0, Keywords[m]) {
      var w := Keywords[m];
      if |w| <= |s| {
        assert s[0..|w|][0] == s[0] == 'S' != w[0];
      }
    }
  }

  /** The keywords before "String" start with a lower-case letter. */
  lemma FirstKeywordsLower()
    ensures |Keywords| == 9 && Keywords[8] == "String"
    ensures forall m :: 0 <= m < 8 ==> |Keywords[m]| >= 1 && Keywords[m][0] != 'S'
  {
  }

  /** The alternatives succeed with the first keyword at j that the rest of the pattern
      can follow, when none before it is at j. */
  lemma {:induction false} KeywordTryFirst(s: string, j: nat, ws: seq<string>, n: nat)
    requires j <= |s| && n < |ws| && KeywordAt(s, j, ws[n])
    requires MatchFrom(ExpectIdentifier, s, j + |ws[n]|).Some?
    requires forall m :: 0 <= m < n ==> !KeywordAt(s, j, ws[m])
    ensures KeywordTry(s, j, ws)
            == Some(MatchFrom(ExpectIdentifier, s, j + |ws[n]|).value.(dataType := Some(ws[n])))
    decreases n
  {
    if n == 0 {
      KeywordTryHead(s, j, ws);
    } else {
      KeywordTryTail(s, j, ws);
      var rest := ws[1..];
      forall m | 0 <= m < n - 1 ensures !KeywordAt(s, j, rest[m]) {
        assert rest[m] == ws[m + 1];
      }
      assert rest[n - 1] == ws[n];
      KeywordTryFirst(s, j, rest, n - 1);
    }
  }

  /** `String n = "body";` with an identifier n and no quote inside the body matches,
      with every group in its place. */
  lemma StringDeclarationMatches(n: string, body: string)
    requires IsIdentifier(n) && forall k :: 0 <= k < |body| ==> body[k] != '"'
    ensures Match(Declaration("String", n, "\"" + body + "\""))
            == Some(LexMatch(Some("String"), Some(n), true, Some("\"" + body + "\""), None, true))
  {
    var v := "\"" + body + "\"";
    var s := Declaration("String", n, v);
    var k := 7 + |n|;
    StringDeclarationPieces(n, body);
    AssignQuotedLast(s, k);
    var m := LexMatch(None, None, true, Some(v), None, true);
    IdentifierThen(s, 6, k, m);
    StringKeywordFirst(s, m.(identifier := Some(n)));
  }

  /** Where the pieces of `String n = "body";` are. */
  lemma StringDeclarationPieces(n: string, body: string)
    requires IsIdentifier(n) && forall k :: 0 <= k < |body| ==> body[k] != '"'
    ensures var v := "\"" + body + "\""; var s := Declaration("String", n, v); var k := 7 + |n|;
            && k + 6 <= |s| && s[..6] == "String" && s[6] == ' ' && s[7..k] == n
            && IsIdentifier(s[7..k]) && !IsWordChar(s[k])
            && s[k] == ' ' && s[k + 1] == '=' && s[k + 2] == ' ' && s[k + 3] == '"'
            && s[|s| - 2] == '"' && s[|s| - 1] == ';' && s[k + 3..|s| - 1] == v
            && forall t :: k + 3 < t < |s| - 2 ==> s[t] != '"'
  {
    var v := "\"" + body + "\"";
    var s := Declaration("String", n, v);
    DeclarationLayout("String", n, v);
    var k := 7 + |n|;
    assert s[k + 3] == s[k + 3..k + 3 + |v|][0] == '"';
    assert s[|s| - 2] == s[k + 3..k + 3 + |v|][|v| - 1] == '"';
    forall t | k + 3 < t < |s| - 2 ensures s[t] != '"' {
      assert s[t] == s[k + 3..k + 3 + |v|][t - k - 3] == body[t - k - 4];
    }
  }

  // ---------------------------------------------------------------- two numeric declarations

  /** Digits s[j..d] right before the final `;` are an integer literal, no fraction. */
  lemma IntegerLast(s: string, j: nat, d: nat)
    requires j < d && d + 1 == |s| && s[d] == ';' && AllIn(s, j, d, Digit)
    ensures NumberAlt(s, j) == Some(NoGroups.(delimiter := true, value := Some(s[j..d])))
  {
    RunEndIsLongest(s, j, d, Digit);
    DelimiterLast(s, d);
  }

  /** Digits, a point and digits s[j..f] right before the final `;` are a decimal
      literal, whose `\.\d+` part s[d..f] is group 6. */
  lemma DecimalLast(s: string, j: nat, d: nat, f: nat)
    requires j < d && d + 1 < f && f + 1 == |s| && s[d] == '.' && s[f] == ';'
    requires AllIn(s, j, d, Digit) && AllIn(s, d + 1, f, Digit)
    ensures NumberAlt(s, j)
            == Some(NoGroups.(delimiter := true, value := Some(s[j..f]), fraction := Some(s[d..f])))
  {
    RunEndIsLongest(s, j, d, Digit);
    RunEndIsLongest(s, d + 1, f, Digit);
    DelimiterLast(s, f);
  }

  /** ` = ` followed by a number: the assignment group is present, the value is the number. */
  lemma AssignNumber(s: string, i: nat, m: LexMatch)
    requires i + 3 < |s| && s[i] == ' ' && s[i + 1] == '=' && s[i + 2] == ' ' && IsDigit(s[i + 3])
    requires NumberAlt(s, i + 3) == Some(m)
    ensures MatchFrom(ExpectAssign, s, i) == Some(m.(assignment := true))
  {
    assert RunEnd(s, i + 1, Space) == i + 1;
    assert SkipSpaces(s, i) == i + 1;
    assert RunEnd(s, i + 3, Space) == i + 3;
    assert SkipSpaces(s, i + 2) == i + 3;
    assert QuotedAlt(s, i + 3, '"') == None && QuotedAlt(s, i + 3, '\'') == None;
    assert MatchFrom(ExpectValue, s, i + 2) == Some(m);
  }

  /** A line that begins with keyword n and a space takes that keyword as group 1: no
      keyword listed before it stands at the start of such a line. */
  lemma KeywordLeads(s: string, n: nat, m: LexMatch)
    requires n < |Keywords| && |Keywords[n]| < |s|
    requires s[..|Keywords[n]|] == Keywords[n] && s[|Keywords[n]|] == ' '
    requires MatchFrom(ExpectIdentifier, s, |Keywords[n]|) == Some(m)
    ensures Match(s) == Some(m.(dataType := Some(Keywords[n])))
  {
    KeywordLetters(Keywords[n]);
    KeywordsNonEmpty();
    EarlierKeywordsAbsent(s, n);
    KeywordTryLeads(s, Keywords, n, m);
    TypeStepKeyword(s, Some(m.(dataType := Some(Keywords[n]))));
  }

  /** The alternation over ws at the start of a line that begins with the word ws[n]
      and a space yields ws[n] as group 1 when no word listed before it stands there. */
  lemma KeywordTryLeads(s: string, ws: seq<string>, n: nat, m: LexMatch)
    requires n < |ws| && ws[n] != [] && |ws[n]| < |s|
    requires forall c :: 0 <= c < |ws[n]| ==> IsIdentStart(ws[n][c])
    requires s[..|ws[n]|] == ws[n] && s[|ws[n]|] == ' '
    requires forall k :: 0 <= k < n ==> !KeywordAt(s, 0, ws[k])
    requires MatchFrom(ExpectIdentifier, s, |ws[n]|) == Some(m)
    ensures SkipSpaces(s, 0) == 0 && KeywordTry(s, 0, ws) == Some(m.(dataType := Some(ws[n])))
  {
    KeywordFirstAt(s, ws, n);
    KeywordTryFirst(s, 0, ws, n);
  }

  /** When the keyword alternation succeeds at the start, its match is the line's. */
  lemma TypeStepKeyword(s: string, r: Option<LexMatch>)
    requires SkipSpaces(s, 0) == 0 && r.Some? && KeywordTry(s, 0, Keywords) == r
    ensures Match(s) == r
  {
  }

  /** No type keyword is empty. */
  lemma KeywordsNonEmpty()
    ensures forall k :: 0 <= k < |Keywords| ==> Keywords[k] != []
  {
  }

  /** At the start of a line that begins with the word ws[n] and a space, that word
      stands as a whole word. */
  lemma KeywordFirstAt(s: string, ws: seq<string>, n: nat)
    requires n < |ws| && ws[n] != [] && |ws[n]| < |s|
    requires forall c :: 0 <= c < |ws[n]| ==> IsIdentStart(ws[n][c])
    requires s[..|ws[n]|] == ws[n] && s[|ws[n]|] == ' '
    ensures KeywordAt(s, 0, ws[n])
    ensures SkipSpaces(s, 0) == 0
  {
    var w := ws[n];
    assert s[0] == s[..|w|][0] && s[|w| - 1] == s[..|w|][|w| - 1];
    assert s[0..|w|] == s[..|w|];
  }

  /** Two keywords differ in some position both of them have: `byte` and `boolean` in
      the second letter, every other pair in the first. */
  lemma KeywordsDiffer(k: nat, w: nat) returns (d: nat)
    requires k < w < |Keywords|
    ensures d < |Keywords[k]| && d < |Keywords[w]| && Keywords[k][d] != Keywords[w][d]
  {
    KeywordsListed();
    if k == 0 && w == 6 {
      d := 1;
    } else {
      d := 0;
    }
  }

  /** At the start of a line that begins with keyword w, no keyword listed before it
      stands, so the alternation passes over all of them. */
  lemma EarlierKeywordsAbsent(s: string, w: nat)
    requires w < |Keywords| && |Keywords[w]| <= |s| && s[..|Keywords[w]|] == Keywords[w]
    ensures forall k :: 0 <= k < w ==> !KeywordAt(s, 0, Keywords[k])
  {
    forall k | 0 <= k < w ensures !KeywordAt(s, 0, Keywords[k]) {
      var d := KeywordsDiffer(k, w);
      var u := Keywords[k];
      assert s[d] == s[..|Keywords[w]|][d] == Keywords[w][d];
      if |u| <= |s| {
        assert s[0..|u|][d] == s[d] != u[d];
      }
    }
  }

  /** Keyword w, a space, the identifier up to k, ` = ` and a number: every group in
      its place. */
  lemma NumberDeclaration(s: string, w: nat, k: nat, m: LexMatch)
    requires w < |Keywords| && |Keywords[w]| + 1 < k && k + 3 < |s|
    requires s[..|Keywords[w]|] == Keywords[w] && s[|Keywords[w]|] == ' '
    requires IsIdentifier(s[|Keywords[w]| + 1..k])
    requires s[k] == ' ' && s[k + 1] == '=' && s[k + 2] == ' ' && IsDigit(s[k + 3])
    requires NumberAlt(s, k + 3) == Some(m)
    ensures Match(s) == Some(m.(assignment := true, identifier := Some(s[|Keywords[w]| + 1..k]),
                                dataType := Some(Keywords[w])))
  {
    AssignNumber(s, k, m);
    IdentifierThen(s, |Keywords[w]|, k, m.(assignment := true));
    KeywordLeads(s, w, m.(assignment := true, identifier := Some(s[|Keywords[w]| + 1..k])));
  }

  /** Keyword w, a space, the identifier up to k, ` = `, digits, a point and digits up to
      the final `;` at f: the decimal is group 4 and its fraction s[e..f] group 6. */
  lemma DecimalLine(s: string, w: nat, k: nat, e: nat, f: nat)
    requires w < |Keywords| && |Keywords[w]| + 1 < k && k + 3 < e && e + 1 < f && f + 1 == |s|
    requires s[..|Keywords[w]|] == Keywords[w] && s[|Keywords[w]|] == ' '
    requires IsIdentifier(s[|Keywords[w]| + 1..k]) && s[k] == ' ' && s[k + 1] == '=' && s[k + 2] == ' '
    requires AllIn(s, k + 3, e, Digit) && s[e] == '.' && AllIn(s, e + 1, f, Digit) && s[f] == ';'
    ensures Match(s) == Some(LexMatch(Some(Keywords[w]), Some(s[|Keywords[w]| + 1..k]), true,
                                      Some(s[k + 3..f]), Some(s[e..f]), true))
  {
    DecimalLast(s, k + 3, e, f);
    assert In(Digit, s[k + 3]);
    NumberDeclaration(s, w, k, NoGroups.(delimiter := true, value := Some(s[k + 3..f]), fraction := Some(s[e..f])));
  }

  /** The same with digits only up to the final `;` at e: group 4, and no group 6. */
  lemma IntegerLine(s: string, w: nat, k: nat, e: nat)
    requires w < |Keywords| && |Keywords[w]| + 1 < k && k + 3 < e && e + 1 == |s|
    requires s[..|Keywords[w]|] == Keywords[w] && s[|Keywords[w]|] == ' '
    requires IsIdentifier(s[|Keywords[w]| + 1..k]) && s[k] == ' ' && s[k + 1] == '=' && s[k + 2] == ' '
    requires AllIn(s, k + 3, e, Digit) && s[e] == ';'
    ensures Match(s) == Some(LexMatch(Some(Keywords[w]), Some(s[|Keywords[w]| + 1..k]), true,
                                      Some(s[k + 3..e]), None, true))
  {
    IntegerLast(s, k + 3, e);
    assert In(Digit, s[k + 3]);
    NumberDeclaration(s, w, k, NoGroups.(delimiter := true, value := Some(s[k + 3..e])));
  }

  /** Where the pieces of `t n = v;` are, with k the end of the name. */
  lemma NumberLayout(t: string, n: string, v: string)
    requires |v| >= 1 && (forall i :: 0 <= i < |v| ==> v[i] == '.' || IsDigit(v[i]))
    ensures var s := Declaration(t, n, v); var k := |t| + 1 + |n|;
            && k + 3 + |v| + 1 == |s| && s[..|t|] == t && s[|t|] == ' ' && s[|t| + 1..k] == n
            && s[k] == ' ' && s[k + 1] == '=' && s[k + 2] == ' '
            && s[k + 3..k + 3 + |v|] == v && s[k + 3 + |v|] == ';'
            && forall r :: k + 3 <= r < k + 3 + |v| ==> s[r] == v[r - k - 3]
  {
    var s := Declaration(t, n, v);
    DeclarationLayout(t, n, v);
    var k := |t| + 1 + |n|;
    forall r | k + 3 <= r < k + 3 + |v| ensures s[r] == v[r - k - 3] {
      assert s[r] == s[k + 3..k + 3 + |v|][r - k - 3];
    }
  }

  /** `t n = a.b;` for any of the nine type keywords t: the decimal is group 4 and its
      `.b` is group 6. */
  lemma DecimalDeclarationGroups(w: nat, n: string, a: string, b: string)
    requires w < |Keywords|
    requires IsIdentifier(n) && |a| >= 1 && AllDigits(a) && |b| >= 1 && AllDigits(b)
    ensures Match(Declaration(Keywords[w], n, a + "." + b))
            == Some(LexMatch(Some(Keywords[w]), Some(n), true, Some(a + "." + b), Some("." + b), true))
  {
    var t := Keywords[w];
    var v := a + "." + b;
    var s := Declaration(t, n, v);
    var k := |t| + 1 + |n|;
    var e := k + 3 + |a|;
    var f := e + 1 + |b|;
    KeywordLetters(t);
    NumberLayout(t, n, v);
    assert s[0] == s[..|t|][0];
    assert |v| == |a| + 1 + |b| && f == k + 3 + |v|;
    DecimalPieces(s, k + 3, a, b);
    assert s[|t| + 1..k] == n && s[k + 3..f] == v && s[e..f] == "." + b;
    DecimalLine(s, w, k, e, f);
  }

  /** The decimal a.b written from j on: its digits, its point and its fraction. */
  lemma DecimalPieces(s: string, j: nat, a: string, b: string)
    requires |a| >= 1 && AllDigits(a) && |b| >= 1 && AllDigits(b)
    requires j + |a| + 1 + |b| <= |s| && s[j..j + |a| + 1 + |b|] == a + "." + b
    ensures AllIn(s, j, j + |a|, Digit) && s[j + |a|] == '.'
    ensures AllIn(s, j + |a| + 1, j + |a| + 1 + |b|, Digit)
    ensures s[j + |a|..j + |a| + 1 + |b|] == "." + b
  {
    var v := a + "." + b;
    forall r | j <= r < j + |a| ensures In(Digit, s[r]) {
      assert s[r] == v[r - j] == a[r - j];
    }
    assert s[j + |a|] == v[|a|];
    forall r | j + |a| + 1 <= r < j + |v| ensures In(Digit, s[r]) {
      assert s[r] == v[r - j] == b[r - j - |a| - 1];
    }
    assert v[|a|..] == "." + b;
    assert s[j + |a|..j + |v|] == v[|a|..];
  }

  /** `t n = a;` with digits a, for any type keyword t: the integer is group 4, no group 6. */
  lemma IntegerDeclarationGroups(w: nat, n: string, a: string)
    requires w < |Keywords|
    requires IsIdentifier(n) && |a| >= 1 && AllDigits(a)
    ensures Match(Declaration(Keywords[w], n, a))
            == Some(LexMatch(Some(Keywords[w]), Some(n), true, Some(a), None, true))
  {
    var t := Keywords[w];
    var s := Declaration(t, n, a);
    var k := |t| + 1 + |n|;
    KeywordLetters(t);
    NumberLayout(t, n, a);
    assert s[0] == s[..|t|][0];
    assert AllIn(s, k + 3, k + 3 + |a|, Digit);
    IntegerLine(s, w, k, k + 3 + |a|);
  }

  /** The keywords in their order. */
  lemma KeywordsListed()
    ensures Keywords == ["byte", "short", "int", "long", "float", "double", "boolean", "char", "String"]
  {
  }

  /** `float f = 3.14;` matches with the decimal as group 4 and its `.14` as group 6. */
  lemma FloatDeclarationGroups()
    ensures Match(Declaration("float", "f", "3.14"))
            == Some(LexMatch(Some("float"), Some("f"), true, Some("3.14"), Some(".14"), true))
  {
    KeywordsListed();
    assert "3" + "." + "14" == "3.14" && "." + "14" == ".14";
    DecimalDeclarationGroups(4, "f", "3", "14");
  }

  /** `int x = 5;` matches with `5` as group 4 and no group 6. */
  lemma IntDeclarationGroups()
    ensures Match(Declaration("int", "x", "5")) == Some(LexMatch(Some("int"), Some("x"), true, Some("5"), None, true))
  {
    KeywordsListed();
    IntegerDeclarationGroups(2, "x", "5");
  }

  /** `boolean b = 1;` matches with `boolean` as group 1, although the alternation
      tries `byte`, which shares its first letter, before it. */
  lemma BooleanDeclarationGroups()
    ensures Match(Declaration("boolean", "b", "1"))
            == Some(LexMatch(Some("boolean"), Some("b"), true, Some("1"), None, true))
  {
    KeywordsListed();
    IntegerDeclarationGroups(6, "b", "1");
  }

  // ---------------------------------------------------------------- the report

  /** One labelled line of the report. */
  datatype Field = Field(name: string, text: string)

  /** The fields printed for a matched line: the captured groups 1, 2, 3, 4 and 6
      (the last named "Delimiter"), in that order; groups 4 and 6 only when not empty. */
  function Fields(m: LexMatch): (fs: seq<Field>)
    ensures |fs| <= 5
  {
    (if m.dataType.Some? then [Field("Data Type", m.dataType.value)] else [])
    + (if m.identifier.Some? then [Field("Identifier", m.identifier.value)] else [])
    + (if m.assignment then [Field("Assignment Operator", "=")] else [])
    + (if m.value.Some? && m.value.value != "" then [Field("Value", m.value.value)] else [])
    + (if m.fraction.Some? && m.fraction.value != "" then [Field("Delimiter", m.fraction.value)] else [])
  }

  /** `label: text` lines. */
  function Render(fs: seq<Field>): string {
    if fs == [] then "" else fs[0].name + ": " + fs[0].text + "\n" + Render(fs[1..])
  }

  /** The report entry of one trimmed line: its fields and a blank line, or the
      Unknown Token line. */
  function Entry(line: string): string {
    match Match(line)
    case Some(m) => Render(Fields(m)) + "\n"
    case None => "Unknown Token: " + line + "\n"
  }

  /** The entries of the trimmed lines, in order. */
  function Entries(lines: seq<string>): string {
    if lines == [] then "" else Entries(lines[..|lines| - 1]) + Entry(Trim(lines[|lines| - 1]))
  }

  /** Some line does not match once trimmed: the error flag. */
  predicate HasUnknown(lines: seq<string>) {
    exists k :: 0 <= k < |lines| && Match(Trim(lines[k])).None?
  }

  // The longer sentences are written in two parts, which keeps their characters
  // within the verifier's reach.
  const NoCode := "No code to analyze."
  const FailureSentence := "\nUnknown token(s) detected. " + "Lexical analysis failed.\n"
  const SuccessSentence := "Lexical Analysis " + "completed successfully.\n"

  /** What analyze() returns for `code`. */
  function Report(code: string): string {
    if code == [] then NoCode
    else
      var lines := SplitLines(code);
      Entries(lines) + (if HasUnknown(lines) then FailureSentence else SuccessSentence)
  }

  /** One more line: its entry is appended, and it raises the flag iff it is unknown. */
  lemma EntriesStep(lines: seq<string>, i: nat)
    requires i < |lines|
    ensures Entries(lines[..i + 1]) == Entries(lines[..i]) + Entry(Trim(lines[i]))
    ensures HasUnknown(lines[..i + 1]) <==> HasUnknown(lines[..i]) || Match(Trim(lines[i])).None?
  {
    assert lines[..i + 1][..i] == lines[..i];
    UnknownStep(lines, i);
  }

  /** One more line raises the error flag iff that line is unknown. */
  lemma UnknownStep(lines: seq<string>, i: nat)
    requires i < |lines|
    ensures HasUnknown(lines[..i + 1]) <==> HasUnknown(lines[..i]) || Match(Trim(lines[i])).None?
  {
    if HasUnknown(lines[..i + 1]) && !Match(Trim(lines[i])).None? {
      var k :| 0 <= k < i + 1 && Match(Trim(lines[..i + 1][k])).None?;
      assert lines[..i + 1][k] == lines[..i][k];
    }
    if HasUnknown(lines[..i]) {
      var k :| 0 <= k < i && Match(Trim(lines[..i][k])).None?;
      assert lines[..i + 1][k] == lines[..i][k];
    }
    if Match(Trim(lines[i])).None? {
      assert lines[..i + 1][i] == lines[i];
    }
  }

  /** analyze(): one pass over the lines, appending each entry and raising the error
      flag on an unknown line, then the closing sentence. */
  method Analyze(code: string) returns (result: string)
    ensures result == Report(code)
  {
    if code == [] {
      return NoCode;
    }
    var lines := SplitLines(code);
    result := "";
    var error := false;
    var i := 0;
    while i < |lines|
      invariant 0 <= i <= |lines|
      invariant result == Entries(lines[..i])
      invariant error <==> HasUnknown(lines[..i])
    {
      var line := Trim(lines[i]);
      var m := Match(line);
      if m.Some? {
        result := result + (Render(Fields(m.value)) + "\n");
      } else {
        result := result + ("Unknown Token: " + line + "\n");
        error := true;
      }
      EntriesStep(lines, i);
      i := i + 1;
    }
    assert lines[..i] == lines;
    if error {
      result := result + FailureSentence;
    } else {
      result := result + SuccessSentence;
    }
  }

  // ---------------------------------------------------------------- properties of the report

  /** Empty code gives the fixed answer; otherwise the report closes with the failure
      sentence exactly when some trimmed line is unknown, and with the success sentence
      exactly when none is. */
  lemma ReportVerdict(code: string)
    ensures code == [] ==> Report(code) == NoCode
    ensures code != [] ==>
              (HasUnknown(SplitLines(code)) <==> EndsWith(Report(code), FailureSentence))
    ensures code != [] ==>
              (!HasUnknown(SplitLines(code)) <==> EndsWith(Report(code), SuccessSentence))
  {
    if code != [] {
      var lines := SplitLines(code);
      SentenceVerdict(Entries(lines), HasUnknown(lines));
    }
  }

  /** The closing sentence chosen by the flag is the one the report ends with. */
  lemma SentenceVerdict(body: string, failed: bool)
    ensures failed <==>
              EndsWith(body + (if failed then FailureSentence else SuccessSentence), FailureSentence)
    ensures !failed <==>
              EndsWith(body + (if failed then FailureSentence else SuccessSentence), SuccessSentence)
  {
    var r := body + (if failed then FailureSentence else SuccessSentence);
    if failed {
      EndsWithAppended(body, FailureSentence);
      EndsWithExclusive(r, FailureSentence, SuccessSentence, 3);
    } else {
      EndsWithAppended(body, SuccessSentence);
      EndsWithExclusive(r, SuccessSentence, FailureSentence, 3);
    }
  }

  /** The failure sentence holds the text the orchestrator looks for. */
  lemma FailureSentenceMarks()
    ensures Contains(FailureSentence, "Lexical analysis failed")
  {
    assert "Lexical analysis failed" <= FailureSentence[28..];
  }

  /** Every line's entry is part of the entries, so later lines are reported after an
      unknown one. */
  lemma {:induction false} EntryInEntries(lines: seq<string>, k: nat)
    requires k < |lines|
    ensures Contains(Entries(lines), Entry(Trim(lines[k])))
    decreases |lines|
  {
    var last := |lines| - 1;
    var front := lines[..last];
    if k == last {
      ContainsSelf(Entry(Trim(lines[k])));
      ContainsAfter(Entries(front), Entry(Trim(lines[k])), Entry(Trim(lines[k])));
    } else {
      assert front[k] == lines[k];
      EntryInEntries(front, k);
      ContainsBefore(Entries(front), Entry(Trim(lines[last])), Entry(Trim(lines[k])));
    }
  }

  /** A line that does not match is reported as an Unknown Token, trimmed. */
  lemma UnknownLineReported(code: string, k: nat)
    requires code != [] && k < |SplitLines(code)| && Match(Trim(SplitLines(code)[k])).None?
    ensures Contains(Report(code), "Unknown Token: " + Trim(SplitLines(code)[k]) + "\n")
    ensures Contains(Report(code), "Lexical analysis failed")
  {
    var lines := SplitLines(code);
    EntryInEntries(lines, k);
    assert HasUnknown(lines);
    ContainsBefore(Entries(lines), FailureSentence, Entry(Trim(lines[k])));
    FailureSentenceMarks();
    ContainsAfter(Entries(lines), FailureSentence, "Lexical analysis failed");
  }

  /** The report of the one-line code `String n = "body";`: its four fields, a blank
      line and the success sentence, the body of the string shown as it is. */
  lemma StringDeclarationReported(n: string, body: string)
    requires IsIdentifier(n) && '\n' !in body && forall k :: 0 <= k < |body| ==> body[k] != '"'
    ensures !HasUnknown(SplitLines(Declaration("String", n, "\"" + body + "\"")))
    ensures Report(Declaration("String", n, "\"" + body + "\""))
            == "Data Type: String\n" + ("Identifier: " + n + "\n") + "Assignment Operator: =\n"
               + ("Value: \"" + body + "\"\n") + "\n" + SuccessSentence
  {
    var v := "\"" + body + "\"";
    var code := Declaration("String", n, v);
    DeclarationIsOneLine(n, v);
    StringDeclarationMatches(n, body);
    var m := LexMatch(Some("String"), Some(n), true, Some(v), None, true);
    assert Match(Trim(code)) == Some(m);
    assert !HasUnknown([code]);
    DeclarationRendered("String", n, v);
    assert "Data Type: " + "String" + "\n" == "Data Type: String\n";
    assert Entries([code]) == Entries([]) + Entry(code);
  }

  /** A `String` declaration without a newline is one line, which trim leaves alone. */
  lemma DeclarationIsOneLine(n: string, v: string)
    requires IsIdentifier(n) && '\n' !in v
    ensures SplitLines(Declaration("String", n, v)) == [Declaration("String", n, v)]
    ensures Trim(Declaration("String", n, v)) == Declaration("String", n, v)
  {
    assert '\n' !in n by {
      forall k | 0 <= k < |n| ensures n[k] != '\n' { assert k == 0 || IsWordChar(n[k]); }
    }
    DeclarationOneLine("String", n, v);
    DeclarationUntrimmed("String", n, v);
  }

  /** A declaration whose type word opens with a visible character has nothing to trim. */
  lemma DeclarationUntrimmed(t: string, n: string, v: string)
    requires t != [] && !IsTrimmable(t[0])
    ensures Trim(Declaration(t, n, v)) == Declaration(t, n, v)
  {
    var code := Declaration(t, n, v);
    DeclarationLayout(t, n, v);
    assert code[0] == code[..|t|][0];
    assert TrimStart(code, 0) == 0;
    assert TrimEnd(code, 0, |code|) == |code|;
  }

  /** Such a match has four fields: the type, the name, the operator and the value. */
  lemma DeclarationFields(t: string, n: string, v: string)
    requires v != ""
    ensures Fields(LexMatch(Some(t), Some(n), true, Some(v), None, true))
            == [Field("Data Type", t), Field("Identifier", n),
                Field("Assignment Operator", "="), Field("Value", v)]
  {
  }

  /** The fields of such a match, one labelled line each (`int x = 5;` and
      `String s = "hi";` among them). */
  lemma DeclarationRendered(t: string, n: string, v: string)
    requires v != ""
    ensures Render(Fields(LexMatch(Some(t), Some(n), true, Some(v), None, true)))
            == "Data Type: " + t + "\n" + ("Identifier: " + n + "\n") + "Assignment Operator: =\n"
               + ("Value: " + v + "\n")
  {
    var fs := Fields(LexMatch(Some(t), Some(n), true, Some(v), None, true));
    DeclarationFields(t, n, v);
    assert Render(fs[3..]) == "Value: " + v + "\n" + Render([]);
    assert Render(fs[2..]) == "Assignment Operator: =\n" + Render(fs[3..]);
    assert Render(fs[1..]) == "Identifier: " + n + "\n" + Render(fs[2..]);
    assert Render(fs) == "Data Type: " + t + "\n" + Render(fs[1..]);
  }

  /** Such a match has five fields, the fraction last. */
  lemma FractionFields(t: string, n: string, v: string, f: string)
    requires v != "" && f != ""
    ensures Fields(LexMatch(Some(t), Some(n), true, Some(v), Some(f), true))
            == [Field("Data Type", t), Field("Identifier", n), Field("Assignment Operator", "="),
                Field("Value", v), Field("Delimiter", f)]
  {
  }

  /** A declaration of a decimal prints five fields; the last, labelled "Delimiter",
      is the fraction. */
  lemma FractionRendered(t: string, n: string, v: string, f: string)
    requires v != "" && f != ""
    ensures Render(Fields(LexMatch(Some(t), Some(n), true, Some(v), Some(f), true)))
            == "Data Type: " + t + "\n" + ("Identifier: " + n + "\n") + "Assignment Operator: =\n"
               + ("Value: " + v + "\n") + ("Delimiter: " + f + "\n")
  {
    FractionFields(t, n, v, f);
    RenderFive(Field("Data Type", t), Field("Identifier", n), Field("Assignment Operator", "="),
               Field("Value", v), Field("Delimiter", f));
    assert "Data Type" + ": " == "Data Type: ";
    assert "Identifier" + ": " == "Identifier: ";
    assert "Assignment Operator" + ": " + "=" + "\n" == "Assignment Operator: =\n";
    assert "Value" + ": " == "Value: ";
    assert "Delimiter" + ": " == "Delimiter: ";
  }

  /** Five fields are five labelled lines. */
  lemma RenderFive(f1: Field, f2: Field, f3: Field, f4: Field, f5: Field)
    ensures Render([f1, f2, f3, f4, f5])
            == f1.name + ": " + f1.text + "\n" + (f2.name + ": " + f2.text + "\n")
               + (f3.name + ": " + f3.text + "\n") + (f4.name + ": " + f4.text + "\n")
               + (f5.name + ": " + f5.text + "\n")
  {
    assert [f1, f2, f3, f4, f5] == [f1] + [f2] + [f3] + [f4] + [f5];
    RenderAppend([f1] + [f2] + [f3] + [f4], [f5]);
    RenderAppend([f1] + [f2] + [f3], [f4]);
    RenderAppend([f1] + [f2], [f3]);
    RenderAppend([f1], [f2]);
    RenderOne(f1);
    RenderOne(f2);
    RenderOne(f3);
    RenderOne(f4);
    RenderOne(f5);
  }

  /** Rendering a list of fields renders each part in turn. */
  lemma {:induction false} RenderAppend(xs: seq<Field>, ys: seq<Field>)
    ensures Render(xs + ys) == Render(xs) + Render(ys)
    decreases |xs|
  {
    if xs == [] {
      assert xs + ys == ys;
    } else {
      assert (xs + ys)[0] == xs[0];
      assert (xs + ys)[1..] == xs[1..] + ys;
      RenderAppend(xs[1..], ys);
    }
  }

  /** One field is one labelled line. */
  lemma RenderOne(f: Field)
    ensures Render([f]) == f.name + ": " + f.text + "\n"
  {
    assert [f][1..] == [];
  }

  /** The entry printed for `t n = a.b;` (`float f = 3.14;` among them): the label
      "Delimiter" carries group 6, the `.b` of the decimal, and the line's `;` appears
      nowhere in the entry. */
  lemma DecimalDeclarationEntry(w: nat, n: string, a: string, b: string)
    requires w < |Keywords|
    requires IsIdentifier(n) && |a| >= 1 && AllDigits(a) && |b| >= 1 && AllDigits(b)
    ensures Entry(Declaration(Keywords[w], n, a + "." + b))
            == "Data Type: " + Keywords[w] + "\n" + ("Identifier: " + n + "\n") + "Assignment Operator: =\n"
               + ("Value: " + (a + "." + b) + "\n") + ("Delimiter: " + ("." + b) + "\n") + "\n"
  {
    DecimalDeclarationGroups(w, n, a, b);
    FractionRendered(Keywords[w], n, a + "." + b, "." + b);
  }

  /** The entry printed for `t n = a;` (`int x = 5;` among them): four fields and no
      Delimiter line, since an integer has no fraction. */
  lemma IntegerDeclarationEntry(w: nat, n: string, a: string)
    requires w < |Keywords|
    requires IsIdentifier(n) && |a| >= 1 && AllDigits(a)
    ensures Entry(Declaration(Keywords[w], n, a))
            == "Data Type: " + Keywords[w] + "\n" + ("Identifier: " + n + "\n") + "Assignment Operator: =\n"
               + ("Value: " + a + "\n") + "\n"
  {
    IntegerDeclarationGroups(w, n, a);
    DeclarationRendered(Keywords[w], n, a);
  }
}
