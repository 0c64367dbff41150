/** The semantic stage (src/actions/SemanticAnalyzer.java): every line of the code,
    untrimmed, is searched for the first occurrence of

      ([a-zA-Z_][a-zA-Z0-9_]*)\s*=\s*(".*"|'.*'|\S+);

    The type is the line's first white-space separated word, and the value found is
    checked against a fixed shape for that type. A thrown exception becomes an
    `Error:` line and raises the error flag; the loop goes on with the next line. */
module SemanticAnalyzer {
  import opened JavaText

  // ---------------------------------------------------------------- the find pattern

  /** Where a hit of the pattern starts, and its groups 1 (the variable) and 2 (the value). */
  datatype Hit = Hit(start: nat, name: string, value: string)

  /** `".*"` for q = '"' and `'.*'` for q = '\'': the quotes around anything without a
      line terminator, quotes included. */
  predicate IsQuotedRun(t: string, q: char) {
    |t| >= 2 && t[0] == q && t[|t| - 1] == q
    && forall k :: 0 < k < |t| - 1 ==> !IsLineTerminator(t[k])
  }

  /** `\S+` */
  ghost predicate IsSolid(t: string) {
    |t| >= 1 && forall k :: 0 <= k < |t| ==> !IsSpace(t[k])
  }

  /** Group 2: any of the three alternatives. */
  ghost predicate IsValueText(t: string) {
    IsQuotedRun(t, '"') || IsQuotedRun(t, '\'') || IsSolid(t)
  }

  /** The pattern matches s[p..e + 1]: group 1 is s[p..k], the `=` is at a, group 2 is
      s[j..e] and the `;` is at e. */
  ghost predicate HitSpans(s: string, p: nat, k: nat, a: nat, j: nat, e: nat) {
    && p < k && Gap(s, k, a) && a < |s| && s[a] == '=' && Gap(s, a + 1, j) && j < e < |s|
    && IsIdentifier(s[p..k]) && IsValueText(s[j..e]) && s[e] == ';'
  }

  /** Some match of the pattern starts at p. */
  ghost predicate MatchesAt(s: string, p: nat) {
    exists k, a, j, e :: HitSpans(s, p, k, a, j, e)
  }

  /** Group 2 can end at e: a `;` follows, after the closing quote `q` when there is one. */
  predicate ClosesAt(s: string, e: nat, q: Option<char>)
    requires e >= 1
  {
    e < |s| && s[e] == ';' && (q.Some? ==> s[e - 1] == q.value)
  }

  /** The largest e in [lo, hi] at which group 2 can end: a greedy `.*` or `\S+` giving
      back one character at a time until the rest of the pattern fits. */
  function LastClose(s: string, lo: nat, hi: nat, q: Option<char>): (r: Option<nat>)
    requires 1 <= lo
    ensures r.Some? ==> lo <= r.value <= hi && ClosesAt(s, r.value, q)
    ensures forall e :: lo <= e <= hi && ClosesAt(s, e, q) ==> r.Some? && e <= r.value
    decreases hi
  {
    if hi < lo then None
    else if ClosesAt(s, hi, q) then Some(hi)
    else LastClose(s, lo, hi - 1, q)
  }

  /** The alternative `".*"` (q = '"') or `'.*'` (q = '\'') followed by `;`, from j. */
  function QuotedClose(s: string, j: nat, q: char): Option<nat>
    requires j <= |s|
  {
    if j < |s| && s[j] == q then LastClose(s, j + 2, RunEnd(s, j + 1, AnyButTerminator) + 1, Some(q))
    else None
  }

  /** The alternative `\S+` followed by `;`, from j. */
  function SolidClose(s: string, j: nat): Option<nat>
    requires j <= |s|
  {
    if j < |s| then LastClose(s, j + 1, RunEnd(s, j, NonSpace), None) else None
  }

  /** Where group 2 ends when it starts at j: the alternatives from left to right. */
  function ValueClose(s: string, j: nat): Option<nat>
    requires j <= |s|
  {
    OrElse(QuotedClose(s, j, '"'), OrElse(QuotedClose(s, j, '\''), SolidClose(s, j)))
  }

  /** The match starting at p, if any. The identifier is taken whole and the white
      space around `=` in full: giving any of it back leaves a character the next piece
      cannot start with. */
  function HitAt(s: string, p: nat): (r: Option<Hit>)
    requires p <= |s|
    ensures r.Some? ==> r.value.start == p
  {
    if p < |s| && IsIdentStart(s[p]) then
      var k := RunEnd(s, p + 1, Word);
      var a := SkipSpaces(s, k);
      if a < |s| && s[a] == '=' then
        var j := SkipSpaces(s, a + 1);
        match ValueClose(s, j)
        case None => None
        case Some(e) => Some(Hit(p, s[p..k], s[j..e]))
      else None
    else None
  }

  /** `matcher.find()` from p: the match at the first start position that has one. */
  function Find(s: string, p: nat): Option<Hit>
    requires p <= |s|
    decreases |s| - p
  {
    match HitAt(s, p)
    case Some(h) => Some(h)
    case None => if p < |s| then Find(s, p + 1) else None
  }

  // ---------------------------------------------------------------- the search is the pattern

  lemma QuotedCloseSound(s: string, j: nat, q: char)
    requires j <= |s| && QuotedClose(s, j, q).Some?
    ensures j < QuotedClose(s, j, q).value < |s|
    ensures IsQuotedRun(s[j..QuotedClose(s, j, q).value], q)
    ensures s[QuotedClose(s, j, q).value] == ';'
  {
    var e := QuotedClose(s, j, q).value;
    var t := s[j..e];
    forall k | 0 < k < |t| - 1 ensures !IsLineTerminator(t[k]) {
      assert t[k] == s[j + k];
      assert In(AnyButTerminator, s[j + k]);
    }
  }

  lemma SolidCloseSound(s: string, j: nat)
    requires j <= |s| && SolidClose(s, j).Some?
    ensures j < SolidClose(s, j).value < |s|
    ensures IsSolid(s[j..SolidClose(s, j).value])
    ensures s[SolidClose(s, j).value] == ';'
  {
    var e := SolidClose(s, j).value;
    var t := s[j..e];
    forall k | 0 <= k < |t| ensures !IsSpace(t[k]) {
      assert t[k] == s[j + k];
      assert In(NonSpace, s[j + k]);
    }
  }

  /** What ValueClose finds is a group 2 followed by `;`. */
  lemma ValueCloseSound(s: string, j: nat)
    requires j <= |s| && ValueClose(s, j).Some?
    ensures j < ValueClose(s, j).value < |s|
    ensures IsValueText(s[j..ValueClose(s, j).value]) && s[ValueClose(s, j).value] == ';'
  {
    if QuotedClose(s, j, '"').Some? {
      QuotedCloseSound(s, j, '"');
    } else if QuotedClose(s, j, '\'').Some? {
      QuotedCloseSound(s, j, '\'');
    } else {
      SolidCloseSound(s, j);
    }
  }

  lemma QuotedCloseComplete(s: string, j: nat, e: nat, q: char)
    requires j < e < |s| && IsQuotedRun(s[j..e], q) && s[e] == ';'
    ensures QuotedClose(s, j, q).Some?
  {
    var t := s[j..e];
    assert s[j] == t[0] && s[e - 1] == t[|t| - 1];
    assert AllIn(s, j + 1, e - 1, AnyButTerminator) by {
      forall k | j + 1 <= k < e - 1 ensures In(AnyButTerminator, s[k]) {
        assert s[k] == t[k - j];
      }
    }
    RunEndIsLongest(s, j + 1, e - 1, AnyButTerminator);
    assert ClosesAt(s, e, Some(q));
  }

  lemma SolidCloseComplete(s: string, j: nat, e: nat)
    requires j < e < |s| && IsSolid(s[j..e]) && s[e] == ';'
    ensures SolidClose(s, j).Some?
  {
    var t := s[j..e];
    assert AllIn(s, j, e, NonSpace) by {
      forall k | j <= k < e ensures In(NonSpace, s[k]) {
        assert s[k] == t[k - j];
      }
    }
    RunEndIsLongest(s, j, e, NonSpace);
    assert ClosesAt(s, e, None);
  }

  /** Whenever some group 2 followed by `;` starts at j, ValueClose finds one. */
  lemma ValueCloseComplete(s: string, j: nat, e: nat)
    requires j < e < |s| && IsValueText(s[j..e]) && s[e] == ';'
    ensures ValueClose(s, j).Some?
  {
    if IsQuotedRun(s[j..e], '"') {
      QuotedCloseComplete(s, j, e, '"');
    } else if IsQuotedRun(s[j..e], '\'') {
      QuotedCloseComplete(s, j, e, '\'');
    } else {
      SolidCloseComplete(s, j, e);
    }
  }

  /** HitAt spelt out: where its identifier, its `=`, its value and its `;` are. */
  lemma HitAtParts(s: string, p: nat, k: nat, a: nat, j: nat, e: nat)
    requires p < |s| && IsIdentStart(s[p]) && k == RunEnd(s, p + 1, Word)
    requires a == SkipSpaces(s, k) && a < |s| && s[a] == '='
    requires j == SkipSpaces(s, a + 1) && ValueClose(s, j) == Some(e)
    ensures HitAt(s, p) == Some(Hit(p, s[p..k], s[j..e]))
  {
  }

  /** A hit found at p is a match of the pattern there, with the groups it reports. */
  lemma HitAtSound(s: string, p: nat) returns (k: nat, a: nat, j: nat, e: nat)
    requires p <= |s| && HitAt(s, p).Some?
    ensures HitSpans(s, p, k, a, j, e)
    ensures HitAt(s, p).value == Hit(p, s[p..k], s[j..e])
  {
    k := RunEnd(s, p + 1, Word);
    a := SkipSpaces(s, k);
    j := SkipSpaces(s, a + 1);
    e := ValueClose(s, j).value;
    HitAtParts(s, p, k, a, j, e);
    ValueCloseSound(s, j);
    RunIsIdentifier(s, p);
    assert Gap(s, k, a) && Gap(s, a + 1, j);
  }

  /** An identifier start and the run of word characters after it: the identifier. */
  lemma RunIsIdentifier(s: string, p: nat)
    requires p < |s| && IsIdentStart(s[p])
    ensures IsIdentifier(s[p..RunEnd(s, p + 1, Word)])
  {
    var t := s[p..RunEnd(s, p + 1, Word)];
    forall m | 1 <= m < |t| ensures IsWordChar(t[m]) {
      assert t[m] == s[p + m];
      assert In(Word, s[p + m]);
    }
  }

  /** A `\s*` that stops before a character that is not white space is the greedy one. */
  lemma GapIsSkip(s: string, i: nat, j: nat)
    requires Gap(s, i, j) && j < |s| && !IsSpace(s[j])
    ensures SkipSpaces(s, i) == j
  {
    RunEndIsLongest(s, i, j, Space);
  }

  /** The identifier of a match is the whole run of word characters from p. */
  lemma IdentifierIsRun(s: string, p: nat, k: nat, a: nat)
    requires p < k && Gap(s, k, a) && a < |s| && s[a] == '=' && IsIdentifier(s[p..k])
    ensures RunEnd(s, p + 1, Word) == k
  {
    var t := s[p..k];
    assert AllIn(s, p + 1, k, Word) by {
      forall m | p + 1 <= m < k ensures In(Word, s[m]) {
        assert s[m] == t[m - p];
      }
    }
    assert !IsWordChar(s[k]) by {
      if k < a {
        assert In(Space, s[k]);
      }
    }
    RunEndIsLongest(s, p + 1, k, Word);
  }

  /** A match of the pattern at p is found there. */
  lemma HitAtComplete(s: string, p: nat, k: nat, a: nat, j: nat, e: nat)
    requires HitSpans(s, p, k, a, j, e)
    ensures HitAt(s, p).Some?
  {
    assert s[p] == s[p..k][0];
    IdentifierIsRun(s, p, k, a);
    GapIsSkip(s, k, a);
    ValueTextStartsSolid(s[j..e]);
    assert s[j] == s[j..e][0];
    GapIsSkip(s, a + 1, j);
    ValueCloseComplete(s, j, e);
    HitAtParts(s, p, k, a, j, ValueClose(s, j).value);
  }

  /** Group 2 starts with a quote or with a character that is not white space. */
  lemma ValueTextStartsSolid(t: string)
    requires IsValueText(t)
    ensures |t| >= 1 && !IsSpace(t[0])
  {
  }

  /** HitAt decides the pattern at each start position. */
  lemma HitAtIffMatches(s: string, p: nat)
    requires p <= |s|
    ensures HitAt(s, p).Some? <==> MatchesAt(s, p)
  {
    if HitAt(s, p).Some? {
      var k, a, j, e := HitAtSound(s, p);
    }
    if MatchesAt(s, p) {
      var k, a, j, e :| HitSpans(s, p, k, a, j, e);
      HitAtComplete(s, p, k, a, j, e);
    }
  }

  /** find() from p stops at the first start position where HitAt succeeds. */
  lemma {:induction false} FindIsFirstHit(s: string, p: nat)
    requires p <= |s|
    ensures Find(s, p).Some? ==>
              p <= Find(s, p).value.start <= |s| && Find(s, p) == HitAt(s, Find(s, p).value.start)
              && forall q :: p <= q < Find(s, p).value.start ==> HitAt(s, q).None?
    decreases |s| - p
  {
    if HitAt(s, p).Some? {
      FindStopsAtHit(s, p);
    } else if p < |s| {
      FindPassesOver(s, p);
      FindIsFirstHit(s, p + 1);
      if Find(s, p + 1).Some? {
        var h := Find(s, p + 1).value;
        forall q | p <= q < h.start ensures HitAt(s, q).None? {
          if q > p {
            assert p + 1 <= q < h.start;
          }
        }
      }
    }
  }

  /** find() from p finds nothing only when HitAt fails at every position from p on. */
  lemma {:induction false} FindNoneIsNoHit(s: string, p: nat)
    requires p <= |s|
    ensures Find(s, p).None? ==> forall q :: p <= q <= |s| ==> HitAt(s, q).None?
    decreases |s| - p
  {
    if HitAt(s, p).None? && p < |s| {
      assert Find(s, p) == Find(s, p + 1);
      FindNoneIsNoHit(s, p + 1);
    }
  }

  /** find() from p reports the leftmost match at or after p, or none when there is none. */
  lemma FindIsLeftmost(s: string, p: nat)
    requires p <= |s|
    ensures Find(s, p).Some? ==>
              p <= Find(s, p).value.start <= |s| && MatchesAt(s, Find(s, p).value.start)
              && Find(s, p) == HitAt(s, Find(s, p).value.start)
              && forall q :: p <= q < Find(s, p).value.start ==> !MatchesAt(s, q)
    ensures Find(s, p).None? ==> forall q :: p <= q <= |s| ==> !MatchesAt(s, q)
  {
    FindIsFirstHit(s, p);
    FindNoneIsNoHit(s, p);
    forall q | p <= q <= |s| ensures HitAt(s, q).Some? <==> MatchesAt(s, q) {
      HitAtIffMatches(s, q);
    }
  }

  // ---------------------------------------------------------------- the declared type

  /** `input.split("\\s+")[0]`: the line up to its first white space, which is empty when
      the line starts with white space (a separator at the start leaves an empty first
      piece). */
  function DeclaredType(line: string): (t: string)
    ensures t <= line
    ensures forall k :: 0 <= k < |t| ==> !IsSpace(t[k])
    ensures |t| == |line| || IsSpace(line[|t|])
  {
    line[..RunEnd(line, 0, NonSpace)]
  }

  /** The three properties of DeclaredType single it out: it is the only prefix without
      white space that ends at white space or at the end of the line. */
  lemma DeclaredTypeUnique(line: string, t: string)
    requires t <= line && (forall k :: 0 <= k < |t| ==> !IsSpace(t[k]))
    requires |t| == |line| || IsSpace(line[|t|])
    ensures t == DeclaredType(line)
  {
    assert AllIn(line, 0, |t|, NonSpace) by {
      forall k | 0 <= k < |t| ensures In(NonSpace, line[k]) {
        assert line[k] == t[k];
      }
    }
    RunEndIsLongest(line, 0, |t|, NonSpace);
  }

  // ---------------------------------------------------------------- the type check

  /** The types performTypeCheck knows. */
  datatype JavaType = Byte | Short | Int | Float | Boolean | Char | Str

  /** The keyword of each type, as the switch spells it. */
  function TypeName(t: JavaType): string {
    match t
    case Byte => "byte"
    case Short => "short"
    case Int => "int"
    case Float => "float"
    case Boolean => "boolean"
    case Char => "char"
    case Str => "String"
  }

  /** The type a declared word names, if it is one of the switch's cases. */
  function TypeNamed(word: string): (r: Option<JavaType>)
    ensures r.Some? ==> TypeName(r.value) == word
  {
    if word == "byte" then Some(Byte)
    else if word == "short" then Some(Short)
    else if word == "int" then Some(Int)
    else if word == "float" then Some(Float)
    else if word == "boolean" then Some(Boolean)
    else if word == "char" then Some(Char)
    else if word == "String" then Some(Str)
    else None
  }

  /** Every type is found by its own name: TypeNamed and TypeName are inverse. */
  lemma TypeNameRoundTrip(t: JavaType)
    ensures TypeNamed(TypeName(t)) == Some(t)
  {
  }

  /** `-?`: what follows an optional leading minus. */
  function Magnitude(v: string): string {
    if |v| > 0 && v[0] == '-' then v[1..] else v
  }

  /** `-?\d{1,n}` */
  predicate IsSignedDigits(v: string, n: nat) {
    var m := Magnitude(v);
    1 <= |m| <= n && AllDigits(m)
  }

  /** `-?\d+` */
  predicate IsSignedInteger(v: string) {
    var m := Magnitude(v);
    1 <= |m| && AllDigits(m)
  }

  /** The shape a value must have for each type: digit counts and quoting only, never
      a numeric range. */
  predicate Fits(t: JavaType, v: string) {
    match t
    case Byte => IsSignedDigits(v, 3)
    case Short => IsSignedDigits(v, 5)
    case Int => IsSignedInteger(v)
    case Float => IsDecimal(Magnitude(v))
    case Boolean => v == "true" || v == "false"
    case Char => IsQuotedChar(v)
    case Str => IsQuotedRun(v, '"')
  }

  /** The result of analysing one line: the text of the returned message, or the
      message of the exception thrown. */
  datatype Outcome = Pass(text: string) | Fail(reason: string)

  // The longer messages are written in two parts, which keeps their characters
  // within the verifier's reach.
  const InvalidFormat := "Invalid code format: " + "Expected 'dataType variableName = value;'"
  const UnknownTypePrefix := "Unknown data type: "

  function MismatchMessage(value: string, dataType: string): string {
    "Type mismatch: '" + value + "' is not a valid " + dataType + "."
  }

  function PassMessage(name: string, value: string, dataType: string): string {
    "Semantic analysis passed for variable '" + name + "' with value '" + value
    + "' and type '" + dataType + "'."
  }

  /** One case of the switch: the value's shape decides between the message and the
      type-mismatch exception. */
  function Checked(ok: bool, name: string, value: string, dataType: string): Outcome {
    if ok then Pass(PassMessage(name, value, dataType)) else Fail(MismatchMessage(value, dataType))
  }

  /** performTypeCheck: a known type passes exactly when the value has its shape; an
      unknown one (long and double among them) always fails. */
  function TypeCheck(name: string, dataType: string, value: string): (r: Outcome)
    ensures TypeNamed(dataType).None? ==> r == Fail(UnknownTypePrefix + dataType)
    ensures TypeNamed(dataType).Some? ==>
              (r.Pass? <==> Fits(TypeNamed(dataType).value, value))
    ensures r.Pass? ==> r.text == PassMessage(name, value, dataType)
    ensures TypeNamed(dataType).Some? && r.Fail? ==> r.reason == MismatchMessage(value, dataType)
  {
    if dataType == "byte" then Checked(IsSignedDigits(value, 3), name, value, dataType)
    else if dataType == "short" then Checked(IsSignedDigits(value, 5), name, value, dataType)
    else if dataType == "int" then Checked(IsSignedInteger(value), name, value, dataType)
    else if dataType == "float" then Checked(IsDecimal(Magnitude(value)), name, value, dataType)
    else if dataType == "boolean" then Checked(value == "true" || value == "false", name, value, dataType)
    else if dataType == "char" then Checked(IsQuotedChar(value), name, value, dataType)
    else if dataType == "String" then Checked(IsQuotedRun(value, '"'), name, value, dataType)
    else Fail(UnknownTypePrefix + dataType)
  }

  /** The shapes check digits only: every one- to three-digit number is a byte, 999
      and -999 included, and every short or byte is an int. */
  lemma ShapeNotRange(v: string)
    ensures IsSignedDigits("999", 3) && IsSignedDigits("-999", 3) && !IsSignedDigits("1000", 3)
    ensures IsSignedDigits(v, 3) ==> IsSignedDigits(v, 5)
    ensures IsSignedDigits(v, 5) ==> IsSignedInteger(v)
  {
    assert Magnitude("-999") == "999";
  }

  // ---------------------------------------------------------------- one line

  /** semanticAnalyzer(input): the groups of the first match, checked against the line's
      first word; no match is the invalid-format exception. */
  function CheckLine(line: string): Outcome {
    match Find(line, 0)
    case None => Fail(InvalidFormat)
    case Some(h) => TypeCheck(h.name, DeclaredType(line), h.value)
  }

  /** The three exception messages are told apart by their first character. */
  lemma FailReasonsDiffer(word: string, value: string, dataType: string)
    ensures InvalidFormat != UnknownTypePrefix + word
    ensures InvalidFormat != MismatchMessage(value, dataType)
  {
    assert InvalidFormat[0] == 'I';
    assert (UnknownTypePrefix + word)[0] == 'U';
    assert MismatchMessage(value, dataType)[0] == 'T';
  }

  /** A line fails with the invalid-format message exactly when the pattern occurs
      nowhere in it. */
  lemma InvalidFormatIffNoMatch(line: string)
    ensures CheckLine(line) == Fail(InvalidFormat) <==> forall p :: 0 <= p <= |line| ==> !MatchesAt(line, p)
  {
    FindIsLeftmost(line, 0);
    if Find(line, 0).Some? {
      var h := Find(line, 0).value;
      FailReasonsDiffer(DeclaredType(line), h.value, DeclaredType(line));
    }
  }

  /** A line that starts with white space has the empty word as its type and never
      passes: either the pattern is missing or the type is unknown. */
  lemma LeadingSpaceFails(line: string)
    requires |line| > 0 && IsSpace(line[0])
    ensures DeclaredType(line) == ""
    ensures CheckLine(line) == Fail(InvalidFormat) || CheckLine(line) == Fail(UnknownTypePrefix)
  {
    assert UnknownTypePrefix + "" == UnknownTypePrefix;
  }

  // ---------------------------------------------------------------- a declaration line

  /** No match starts at r. */
  predicate NoHitAt(s: string, r: nat)
    requires r <= |s|
  {
    HitAt(s, r).None?
  }

  /** Start positions without a match are passed over. */
  lemma {:induction false} FindSkips(s: string, p: nat, q: nat)
    requires p <= q <= |s| && forall r :: p <= r < q ==> NoHitAt(s, r)
    ensures Find(s, p) == Find(s, q)
    decreases q - p
  {
    if p < q {
      FindSkipStep(s, p, q);
      FindSkips(s, p + 1, q);
    }
  }

  /** One start position without a match, and the rest of the range after it. */
  lemma FindSkipStep(s: string, p: nat, q: nat)
    requires p < q <= |s| && forall r :: p <= r < q ==> NoHitAt(s, r)
    ensures Find(s, p) == Find(s, p + 1) && forall r :: p + 1 <= r < q ==> NoHitAt(s, r)
  {
    assert NoHitAt(s, p);
    FindPassesOver(s, p);
  }

  /** A start position with a match is where find() stops. */
  lemma FindStopsAtHit(s: string, p: nat)
    requires p <= |s| && HitAt(s, p).Some?
    ensures Find(s, p) == HitAt(s, p)
  {
  }

  /** One start position without a match is passed over. */
  lemma FindPassesOver(s: string, p: nat)
    requires p < |s| && HitAt(s, p).None?
    ensures Find(s, p) == Find(s, p + 1)
  {
  }

  /** No match starts inside the type word of `t n = v;` or at the space after it: the
      pattern's identifier would be the rest of the type word, and what follows it is
      the name, not `=`. */
  lemma TypeWordNoHit(t: string, n: string, v: string, p: nat)
    requires forall k :: 0 <= k < |t| ==> IsWordChar(t[k])
    requires IsIdentifier(n) && p <= |t|
    ensures HitAt(Declaration(t, n, v), p).None?
  {
    var s := Declaration(t, n, v);
    DeclarationLayout(t, n, v);
    if p < |t| && IsIdentStart(s[p]) {
      assert AllIn(s, p + 1, |t|, Word) by {
        forall r | p + 1 <= r < |t| ensures In(Word, s[r]) {
          assert s[r] == s[..|t|][r];
        }
      }
      RunEndIsLongest(s, p + 1, |t|, Word);
      assert s[|t| + 1] == s[|t| + 1..|t| + 1 + |n|][0] == n[0];
      assert RunEnd(s, |t| + 1, Space) == |t| + 1;
      assert SkipSpaces(s, |t|) == |t| + 1;
    }
  }

  /** A value that group 2 takes whole when the line ends right after it with `;`: a
      double- or single-quoted run, or a run without white space that opens with
      neither quote. */
  ghost predicate IsWholeValue(v: string) {
    IsQuotedRun(v, '"') || IsQuotedRun(v, '\'') || (IsSolid(v) && v[0] != '"' && v[0] != '\'')
  }

  /** In `t n = v;` the match starts at the name, and its value is v. */
  lemma DeclarationHit(t: string, n: string, v: string)
    requires IsIdentifier(n) && IsWholeValue(v)
    ensures HitAt(Declaration(t, n, v), |t| + 1) == Some(Hit(|t| + 1, n, v))
  {
    DeclarationTail(t, n, v);
    HitBeforeValue(Declaration(t, n, v), |t| + 1, |t| + 1 + |n|, n, v);
  }

  /** The name n from p to k, then ` = ` and a whole value up to the final `;`: the
      match at p. */
  lemma HitBeforeValue(s: string, p: nat, k: nat, n: string, v: string)
    requires p < k && k + 3 + |v| + 1 == |s| && s[p..k] == n && IsIdentifier(n) && IsWholeValue(v)
    requires s[k] == ' ' && s[k + 1] == '=' && s[k + 2] == ' '
    requires s[k + 3..k + 3 + |v|] == v && s[k + 3 + |v|] == ';' && s[k + 3..|s| - 1] == v
    ensures HitAt(s, p) == Some(Hit(p, n, v))
  {
    WholeValueCloses(s, k + 3, v);
    HitFromPieces(s, p, k, |s| - 1, n, v);
  }

  /** The layout of `t n = v;` from the end of the name k on. */
  lemma DeclarationTail(t: string, n: string, v: string)
    ensures var s := Declaration(t, n, v); var k := |t| + 1 + |n|;
            && k + 3 + |v| + 1 == |s| && s[|t| + 1..k] == n
            && s[k] == ' ' && s[k + 1] == '=' && s[k + 2] == ' '
            && s[k + 3..k + 3 + |v|] == v && s[k + 3 + |v|] == ';' && s[k + 3..|s| - 1] == v
  {
    DeclarationLayout(t, n, v);
  }

  /** A whole value at j, followed by the line's final `;`, closes at that `;`. */
  lemma WholeValueCloses(s: string, j: nat, v: string)
    requires j + |v| + 1 == |s| && s[j..j + |v|] == v && s[j + |v|] == ';' && IsWholeValue(v)
    ensures ValueClose(s, j) == Some(|s| - 1)
  {
    assert s[j] == v[0];
    if IsQuotedRun(v, '"') || IsQuotedRun(v, '\'') {
      var q := if IsQuotedRun(v, '"') then '"' else '\'';
      assert IsQuotedRun(v, q);
      assert s[|s| - 2] == v[|v| - 1];
      forall r | j < r < |s| ensures !IsLineTerminator(s[r]) {
        if r < |s| - 2 {
          assert s[r] == v[r - j];
        }
      }
      QuotedToLast(s, j, q);
    } else {
      forall r | j <= r < |s| ensures !IsSpace(s[r]) {
        if r < |s| - 1 {
          assert s[r] == v[r - j];
        }
      }
      SolidToLast(s, j);
    }
  }

  /** An identifier at p followed by ` = ` and a value that closes at e: the match at p. */
  lemma HitFromPieces(s: string, p: nat, k: nat, e: nat, n: string, v: string)
    requires p < k && k + 3 <= |s| && s[p..k] == n && IsIdentifier(n)
    requires s[k] == ' ' && s[k + 1] == '=' && s[k + 2] == ' ' && ValueClose(s, k + 3) == Some(e)
    requires e <= |s| && s[k + 3..e] == v
    ensures HitAt(s, p) == Some(Hit(p, n, v))
  {
    assert s[p] == n[0];
    assert Gap(s, k, k + 1);
    IdentifierIsRun(s, p, k, k + 1);
    GapIsSkip(s, k, k + 1);
    ValueStartsSolid(s, k + 3);
    assert Gap(s, k + 2, k + 3);
    GapIsSkip(s, k + 2, k + 3);
  }

  /** Group 2 never starts with white space. */
  lemma ValueStartsSolid(s: string, j: nat)
    requires j <= |s| && ValueClose(s, j).Some?
    ensures j < |s| && !IsSpace(s[j])
  {
    if QuotedClose(s, j, '"').None? && QuotedClose(s, j, '\'').None? {
      assert RunEnd(s, j, NonSpace) > j;
      assert In(NonSpace, s[j]);
    }
  }

  /** A value that opens with the quote q and, with no line terminator after it, ends
      in q and `;` closes at that last `;`. */
  lemma QuotedToLast(s: string, j: nat, q: char)
    requires q == '"' || q == '\''
    requires j + 3 <= |s| && s[j] == q && s[|s| - 2] == q && s[|s| - 1] == ';'
    requires forall r :: j < r < |s| ==> !IsLineTerminator(s[r])
    ensures ValueClose(s, j) == Some(|s| - 1)
  {
    assert AllIn(s, j + 1, |s|, AnyButTerminator);
    RunEndIsLongest(s, j + 1, |s|, AnyButTerminator);
    assert ClosesAt(s, |s| - 1, Some(q));
    assert LastClose(s, j + 2, |s| - 1, Some(q)) == Some(|s| - 1);
    assert LastClose(s, j + 2, |s|, Some(q)) == Some(|s| - 1);
    assert LastClose(s, j + 2, |s| + 1, Some(q)) == Some(|s| - 1);
    assert QuotedClose(s, j, q) == Some(|s| - 1);
  }

  /** A value that opens with neither quote and runs without white space to the line's
      final `;` closes at that `;`. */
  lemma SolidToLast(s: string, j: nat)
    requires j + 1 < |s| && s[j] != '"' && s[j] != '\'' && s[|s| - 1] == ';'
    requires forall r :: j <= r < |s| ==> !IsSpace(s[r])
    ensures ValueClose(s, j) == Some(|s| - 1)
  {
    assert AllIn(s, j, |s|, NonSpace);
    RunEndIsLongest(s, j, |s|, NonSpace);
    assert LastClose(s, j + 1, |s|, None) == Some(|s| - 1);
  }

  /** A line written `t n = v;`, with t a word, n an identifier and v a whole value, is
      checked as the declaration of n with type t and value v. */
  lemma DeclarationChecked(t: string, n: string, v: string)
    requires |t| >= 1 && forall k :: 0 <= k < |t| ==> IsWordChar(t[k])
    requires IsIdentifier(n) && IsWholeValue(v)
    ensures CheckLine(Declaration(t, n, v)) == TypeCheck(n, t, v)
  {
    DeclarationFound(t, n, v);
    DeclarationType(t, n, v);
  }

  lemma DeclarationFound(t: string, n: string, v: string)
    requires forall k :: 0 <= k < |t| ==> IsWordChar(t[k])
    requires IsIdentifier(n) && IsWholeValue(v)
    ensures Find(Declaration(t, n, v), 0) == Some(Hit(|t| + 1, n, v))
  {
    var s := Declaration(t, n, v);
    DeclarationLayout(t, n, v);
    forall r | 0 <= r < |t| + 1 ensures NoHitAt(s, r) {
      TypeWordNoHit(t, n, v, r);
    }
    FindSkips(s, 0, |t| + 1);
    DeclarationHit(t, n, v);
  }

  /** The type word of `t n = v;` is t. */
  lemma DeclarationType(t: string, n: string, v: string)
    requires forall k :: 0 <= k < |t| ==> IsWordChar(t[k])
    ensures DeclaredType(Declaration(t, n, v)) == t
  {
    var s := Declaration(t, n, v);
    DeclarationLayout(t, n, v);
    forall k | 0 <= k < |t| ensures !IsSpace(t[k]) {
      assert IsWordChar(t[k]);
    }
    DeclaredTypeUnique(s, t);
  }

  // ---------------------------------------------------------------- the report

  /** The text a line's outcome adds before its newline. */
  function OutcomeText(o: Outcome): string {
    match o
    case Pass(text) => text
    case Fail(reason) => "Error: " + reason
  }

  /** The outcome of every line, in order. */
  function Outcomes(lines: seq<string>): (os: seq<Outcome>)
    ensures |os| == |lines|
  {
    MapSeq(CheckLine, lines)
  }

  /** Each line has its own outcome, whatever the lines around it. */
  lemma OutcomeOfLine(lines: seq<string>, k: nat)
    requires k < |lines|
    ensures Outcomes(lines)[k] == CheckLine(lines[k])
  {
    MapSeqAt(CheckLine, lines, k);
  }

  /** The output lines for the outcomes, each followed by a newline. */
  function Texts(os: seq<Outcome>): string {
    if os == [] then "" else Texts(os[..|os| - 1]) + (OutcomeText(os[|os| - 1]) + "\n")
  }

  /** Some outcome is a failure: the error flag. */
  predicate AnyFail(os: seq<Outcome>) {
    exists k :: 0 <= k < |os| && os[k].Fail?
  }

  const NoCode := "No code to analyze."
  const FailureSentence := "\nError(s) detected. " + "Semantic analysis failed."
  const SuccessSentence := "\nSemantic Analysis " + "completed successfully."

  /** What analyze() returns for `code`. */
  function Report(code: string): string {
    if code == [] then NoCode
    else
      var os := Outcomes(SplitLines(code));
      Texts(os) + (if AnyFail(os) then FailureSentence else SuccessSentence)
  }

  lemma TextsStep(os: seq<Outcome>, i: nat)
    requires i < |os|
    ensures Texts(os[..i + 1]) == Texts(os[..i]) + (OutcomeText(os[i]) + "\n")
    ensures AnyFail(os[..i + 1]) <==> AnyFail(os[..i]) || os[i].Fail?
  {
    var front := os[..i + 1];
    assert front[..i] == os[..i];
    if AnyFail(front) && !os[i].Fail? {
      var k :| 0 <= k < |front| && front[k].Fail?;
      assert os[..i][k] == front[k];
    }
    if AnyFail(os[..i]) {
      var k :| 0 <= k < i && os[..i][k].Fail?;
      assert front[k] == os[..i][k];
    }
  }

  /** analyze(): one pass over the lines, each analysed on its own so that a failing
      line never stops the later ones, then the closing sentence. */
  method Analyze(code: string) returns (result: string)
    ensures result == Report(code)
  {
    if code == [] {
      return NoCode;
    }
    var lines := SplitLines(code);
    ghost var os := Outcomes(lines);
    result := "";
    var error := false;
    var i := 0;
    while i < |lines|
      invariant 0 <= i <= |lines|
      invariant result == Texts(os[..i])
      invariant error <==> AnyFail(os[..i])
    {
      var outcome := CheckLine(lines[i]);
      OutcomeOfLine(lines, i);
      match outcome {
        case Pass(text) =>
          result := result + (text + "\n");
        case Fail(reason) =>
          error := true;
          result := result + ("Error: " + reason + "\n");
      }
      TextsStep(os, i);
      i := i + 1;
    }
    assert os[..i] == os;
    if error {
      result := result + FailureSentence;
    } else {
      result := result + SuccessSentence;
    }
  }

  // ---------------------------------------------------------------- properties of the report

  /** Empty code gives the fixed answer; otherwise the report closes with the failure
      sentence exactly when some line failed, and with the success sentence exactly
      when none did. */
  lemma ReportVerdict(code: string)
    ensures code == [] ==> Report(code) == NoCode
    ensures code != [] ==>
              (AnyFail(Outcomes(SplitLines(code))) <==> EndsWith(Report(code), FailureSentence))
    ensures code != [] ==>
              (!AnyFail(Outcomes(SplitLines(code))) <==> EndsWith(Report(code), SuccessSentence))
  {
    if code != [] {
      var os := Outcomes(SplitLines(code));
      var r := Report(code);
      if AnyFail(os) {
        EndsWithAppended(Texts(os), FailureSentence);
        EndsWithExclusive(r, FailureSentence, SuccessSentence, 2);
      } else {
        EndsWithAppended(Texts(os), SuccessSentence);
        EndsWithExclusive(r, SuccessSentence, FailureSentence, 2);
      }
    }
  }

  /** The failure sentence holds the text the orchestrator looks for. */
  lemma FailureSentenceMarks()
    ensures Contains(FailureSentence, "Error(s) detected")
  {
    assert "Error(s) detected" <= FailureSentence[1..];
  }

  /** Every outcome's line is part of the output lines. */
  lemma {:induction false} TextInTexts(os: seq<Outcome>, k: nat)
    requires k < |os|
    ensures Contains(Texts(os), OutcomeText(os[k]) + "\n")
    decreases |os|
  {
    var last := |os| - 1;
    var front := os[..last];
    if k == last {
      ContainsSelf(OutcomeText(os[k]) + "\n");
      ContainsAfter(Texts(front), OutcomeText(os[k]) + "\n", OutcomeText(os[k]) + "\n");
    } else {
      assert front[k] == os[k];
      TextInTexts(front, k);
      ContainsBefore(Texts(front), OutcomeText(os[last]) + "\n", OutcomeText(os[k]) + "\n");
    }
  }

  /** Each line's result is in the report, whatever the other lines do; a failing
      line shows as its Error line and brings in the failure sentence. */
  lemma LineReported(code: string, k: nat)
    requires code != [] && k < |SplitLines(code)|
    ensures Contains(Report(code), OutcomeText(CheckLine(SplitLines(code)[k])) + "\n")
    ensures CheckLine(SplitLines(code)[k]).Fail? ==>
              Contains(Report(code), "Error: " + CheckLine(SplitLines(code)[k]).reason + "\n")
              && Contains(Report(code), "Error(s) detected")
  {
    var os := Outcomes(SplitLines(code));
    OutcomeOfLine(SplitLines(code), k);
    TextInTexts(os, k);
    if os[k].Fail? {
      assert AnyFail(os);
      ContainsBefore(Texts(os), FailureSentence, OutcomeText(os[k]) + "\n");
      FailureSentenceMarks();
      ContainsAfter(Texts(os), FailureSentence, "Error(s) detected");
    } else {
      ContainsBefore(Texts(os), if AnyFail(os) then FailureSentence else SuccessSentence,
                     OutcomeText(os[k]) + "\n");
    }
  }

  /** The one-line code `String n = "body";` passes, and its report is the pass message,
      which repeats the value, and the success sentence. */
  lemma StringDeclarationPasses(n: string, body: string)
    requires IsIdentifier(n) && forall k :: 0 <= k < |body| ==> !IsLineTerminator(body[k])
    ensures !AnyFail(Outcomes(SplitLines(Declaration("String", n, "\"" + body + "\""))))
    ensures Report(Declaration("String", n, "\"" + body + "\""))
            == PassMessage(n, "\"" + body + "\"", "String") + "\n" + SuccessSentence
  {
    var v := "\"" + body + "\"";
    var o := Pass(PassMessage(n, v, "String"));
    assert IsQuotedRun(v, '"') by {
      forall k | 0 < k < |v| - 1 ensures !IsLineTerminator(v[k]) {
        assert v[k] == body[k - 1];
      }
    }
    assert TypeCheck(n, "String", v) == o;
    assert forall k :: 0 <= k < |"String"| ==> IsWordChar("String"[k]);
    DeclarationOutcomes("String", n, v);
    assert !AnyFail([o]);
    OneLineReport(Declaration("String", n, v), o);
  }

  lemma NoNewlineInDeclaration(n: string, body: string)
    requires IsIdentifier(n) && forall k :: 0 <= k < |body| ==> !IsLineTerminator(body[k])
    ensures '\n' !in n && '\n' !in "\"" + body + "\""
  {
    var v := "\"" + body + "\"";
    forall k | 0 <= k < |v| ensures v[k] != '\n' {
      if 0 < k < |v| - 1 { assert v[k] == body[k - 1] && !IsLineTerminator(body[k - 1]); }
    }
  }

  lemma StringDeclarationOutcome(n: string, body: string)
    requires IsIdentifier(n) && forall k :: 0 <= k < |body| ==> !IsLineTerminator(body[k])
    ensures CheckLine(Declaration("String", n, "\"" + body + "\""))
            == Pass(PassMessage(n, "\"" + body + "\"", "String"))
  {
    var v := "\"" + body + "\"";
    assert IsQuotedRun(v, '"') by {
      forall k | 0 < k < |v| - 1 ensures !IsLineTerminator(v[k]) {
        assert v[k] == body[k - 1];
      }
    }
    DeclarationChecked("String", n, v);
  }

  /** The groups of a match are pieces of the line, so a line without a newline gives
      groups without one. */
  lemma HitOneLine(s: string, p: nat)
    requires p <= |s| && HitAt(s, p).Some? && '\n' !in s
    ensures '\n' !in HitAt(s, p).value.name && '\n' !in HitAt(s, p).value.value
  {
    var k, a, j, e := HitAtSound(s, p);
    forall r | 0 <= r < k - p ensures s[p..k][r] != '\n' {
      assert s[p..k][r] == s[p + r];
    }
    forall r | 0 <= r < e - j ensures s[j..e][r] != '\n' {
      assert s[j..e][r] == s[j + r];
    }
  }

  lemma {:induction false} FindOneLine(s: string, p: nat)
    requires p <= |s| && Find(s, p).Some? && '\n' !in s
    ensures '\n' !in Find(s, p).value.name && '\n' !in Find(s, p).value.value
    decreases |s| - p
  {
    if HitAt(s, p).Some? {
      HitOneLine(s, p);
    } else {
      FindOneLine(s, p + 1);
    }
  }

  /** What a line adds to the report is a single line: no message holds a newline
      unless the line does. */
  lemma OutcomeOneLine(line: string)
    requires '\n' !in line
    ensures '\n' !in OutcomeText(CheckLine(line))
  {
    match Find(line, 0)
    case None =>
      InvalidFormatOneLine();
    case Some(h) =>
      FindOneLine(line, 0);
      var t := DeclaredType(line);
      assert '\n' !in t by {
        forall k | 0 <= k < |t| ensures t[k] != '\n' { assert t[k] == line[k]; }
      }
      TypeCheckOneLine(h.name, t, h.value);
  }

  lemma TypeCheckOneLine(name: string, dataType: string, value: string)
    requires '\n' !in name && '\n' !in dataType && '\n' !in value
    ensures '\n' !in OutcomeText(TypeCheck(name, dataType, value))
  {
    var o := TypeCheck(name, dataType, value);
    if TypeNamed(dataType).None? {
      UnknownTypeOneLine(dataType);
    } else if o.Pass? {
      PassMessageOneLine(name, value, dataType);
    } else {
      MismatchOneLine(value, dataType);
    }
  }

  lemma InvalidFormatOneLine()
    ensures '\n' !in "Error: " + InvalidFormat
  {
    assert '\n' !in "Invalid code format: " && '\n' !in "Expected 'dataType variableName = value;'";
  }

  lemma UnknownTypeOneLine(dataType: string)
    requires '\n' !in dataType
    ensures '\n' !in "Error: " + (UnknownTypePrefix + dataType)
  {
    assert '\n' !in "Error: " && '\n' !in UnknownTypePrefix;
  }

  lemma PassMessageOneLine(name: string, value: string, dataType: string)
    requires '\n' !in name && '\n' !in dataType && '\n' !in value
    ensures '\n' !in PassMessage(name, value, dataType)
  {
    assert '\n' !in "Semantic analysis passed for variable '";
    assert '\n' !in "' with value '" && '\n' !in "' and type '" && '\n' !in "'.";
  }

  lemma MismatchOneLine(value: string, dataType: string)
    requires '\n' !in dataType && '\n' !in value
    ensures '\n' !in "Error: " + MismatchMessage(value, dataType)
  {
    assert '\n' !in "Error: " && '\n' !in "Type mismatch: '";
    assert '\n' !in "' is not a valid " && '\n' !in ".";
  }

  /** One output line per outcome: split at its newlines, the text of the outcomes is
      their texts in order, then the empty piece after the last newline. */
  lemma {:induction false} TextsLines(os: seq<Outcome>)
    requires forall k :: 0 <= k < |os| ==> '\n' !in OutcomeText(os[k])
    ensures SplitAll(Texts(os)) == MapSeq(OutcomeText, os) + [[]]
    decreases |os|
  {
    if os != [] {
      var front := os[..|os| - 1];
      forall k | 0 <= k < |front| ensures '\n' !in OutcomeText(front[k]) {
        assert front[k] == os[k];
      }
      TextsLines(front);
      SplitAllLine(Texts(front), OutcomeText(os[|os| - 1]), MapSeq(OutcomeText, front));
    }
  }

  /** The report has one line per line of the code, each that line's outcome, before
      the closing sentence. */
  lemma ReportLines(code: string)
    requires code != []
    ensures var os := Outcomes(SplitLines(code));
            SplitAll(Texts(os)) == MapSeq(OutcomeText, os) + [[]]
            && |MapSeq(OutcomeText, os)| == |SplitLines(code)|
  {
    var lines := SplitLines(code);
    var os := Outcomes(lines);
    forall k | 0 <= k < |os| ensures '\n' !in OutcomeText(os[k]) {
      OutcomeOfLine(lines, k);
      OutcomeOneLine(lines[k]);
    }
    TextsLines(os);
  }

  /** A whole value is on one line. */
  lemma WholeValueOneLine(v: string)
    requires IsWholeValue(v)
    ensures '\n' !in v
  {
    forall k | 0 <= k < |v| ensures v[k] != '\n' {
      if !IsSolid(v) && 0 < k < |v| - 1 {
        assert !IsLineTerminator(v[k]);
      }
    }
  }

  /** The one-line code `t n = v;` is reported as the outcome of its type check, then
      the failure sentence when that is a failure and the success sentence otherwise. */
  lemma DeclarationReport(t: string, n: string, v: string)
    requires |t| >= 1 && forall k :: 0 <= k < |t| ==> IsWordChar(t[k])
    requires IsIdentifier(n) && IsWholeValue(v)
    ensures var o := TypeCheck(n, t, v);
            Report(Declaration(t, n, v))
            == OutcomeText(o) + "\n" + (if o.Fail? then FailureSentence else SuccessSentence)
  {
    DeclarationOutcomes(t, n, v);
    OneLineReport(Declaration(t, n, v), TypeCheck(n, t, v));
  }

  /** The one-line code `t n = v;` has the one outcome of its type check. */
  lemma DeclarationOutcomes(t: string, n: string, v: string)
    requires |t| >= 1 && forall k :: 0 <= k < |t| ==> IsWordChar(t[k])
    requires IsIdentifier(n) && IsWholeValue(v)
    ensures Declaration(t, n, v) != []
    ensures Outcomes(SplitLines(Declaration(t, n, v))) == [TypeCheck(n, t, v)]
  {
    var code := Declaration(t, n, v);
    assert '\n' !in t by {
      forall k | 0 <= k < |t| ensures t[k] != '\n' { assert IsWordChar(t[k]); }
    }
    assert '\n' !in n by {
      forall k | 0 <= k < |n| ensures n[k] != '\n' { assert k == 0 || IsWordChar(n[k]); }
    }
    WholeValueOneLine(v);
    DeclarationOneLine(t, n, v);
    DeclarationChecked(t, n, v);
    MapSeqOne(CheckLine, code);
  }

  /** The report of code whose lines have the one outcome `o`. */
  lemma OneLineReport(code: string, o: Outcome)
    requires code != [] && Outcomes(SplitLines(code)) == [o]
    ensures Report(code) == OutcomeText(o) + "\n" + (if o.Fail? then FailureSentence else SuccessSentence)
  {
    var os := Outcomes(SplitLines(code));
    assert os == [o];
    assert AnyFail(os) <==> o.Fail? by {
      if o.Fail? { assert os[0].Fail?; }
    }
    assert Texts(os) == OutcomeText(o) + "\n" by {
      assert os[..0] == [];
      assert Texts(os) == Texts([]) + (OutcomeText(o) + "\n");
    }
  }

  /** The shapes check digits only: `byte b = 999;` passes although 999 is no byte. */
  lemma ByteOutOfRangePasses()
    ensures Report(Declaration("byte", "b", "999"))
            == PassMessage("b", "999", "byte") + "\n" + SuccessSentence
  {
    assert IsSolid("999");
    ShapeNotRange("999");
    DeclarationReport("byte", "b", "999");
  }

  /** A String value without its quotes, such as `hi` in `String s = hi;`, fails with
      the type-mismatch message. */
  lemma UnquotedStringFails(n: string, v: string)
    requires IsIdentifier(n) && IsSolid(v) && v[0] != '"' && v[0] != '\''
    ensures Report(Declaration("String", n, v))
            == "Error: " + MismatchMessage(v, "String") + "\n" + FailureSentence
  {
    assert !IsQuotedRun(v, '"');
    assert TypeCheck(n, "String", v) == Fail(MismatchMessage(v, "String"));
    assert forall k :: 0 <= k < |"String"| ==> IsWordChar("String"[k]);
    DeclarationReport("String", n, v);
  }}
