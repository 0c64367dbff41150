# Mini Java compiler: the analysis pipeline in Dafny

This project models the analysis pipeline of a small teaching "compiler" for one-line
Java variable declarations (`int x = 5;`, `String s = "hi";`). It has three parts.

- **Lexical stage** (`src/actions/LexicalAnalyzer.java`, module `LexicalAnalyzer`).
  - The code is split on newlines and each line is trimmed.
  - Each trimmed line must match, as a whole, one anchored pattern of five optional groups: a type keyword, an identifier, `=`, a literal and `;`.
  - A matching line prints its captured groups as labelled fields. A non-matching line prints an `Unknown Token:` line and raises an error flag.
  - The report ends with a success sentence or a failure sentence.
  - The pattern is modelled twice:
    - as a language predicate (`Accepts`): the line splits into the optional pieces, in order, with white space between them;
    - as a deterministic backtracking search (`Match`) that tries the choices in the order java.util.regex does, so it returns the same capture groups.
  - `MatchIffAccepts` proves the two agree.
- **Semantic stage** (`src/actions/SemanticAnalyzer.java`, module `SemanticAnalyzer`).
  - Each raw line is checked by `CheckLine`, the model of `semanticAnalyzer(String)`: an unanchored search (`Find`, modelling `Matcher.find`) looks for `identifier \s*=\s* (".*"|'.*'|\S+);`.
  - The declared type is the line's first white-space-separated piece.
  - Each type has a shape grammar for its values (`TypeCheck`).
  - A thrown exception is a `Fail(reason)` outcome. The loop of `analyze()` turns outcomes into `Error:` lines and keeps going.
- **Orchestrator** (`src/minicompiler/actions/CodeRunner.java`, module `CodeRunner`).
  - `execute()` runs the lexical, syntax and semantic stages in order.
  - It appends each stage's report, then searches that report for a failure text. A hit returns early with an abort notice.
  - Along each path it sets the enabled flags of the editor page's three analysis buttons (class `EditorPage`).
  - The syntax analyzer's source is not available, so it is the parameter `syntax: string -> string`.

Module `JavaText` holds the Java library behaviour the pipeline relies on:
- `String.trim`;
- `String.split("\n")`, which drops trailing empty pieces;
- `String.contains`;
- the `\s`, `\d` and word-character classes of java.util.regex.

The state-changing code is modelled imperatively, and each method is proved against a specification function:
- `LexicalAnalyzer.Analyze` and `SemanticAnalyzer.Analyze` are loops over the lines, with the error flag and the growing report as variables. Each is proved equal to `Report`.
- `CodeRunner.Runner.Execute` updates the fields of an `EditorPage` and is proved equal to the function `Run`.
- The two matchers and the type check are pure functions, as in the source.

The field labelled "Delimiter" prints capture group 6 (src/actions/LexicalAnalyzer.java:48). Group 6 is the `(\.\d+)` fraction of a decimal literal, not the `;` (group 7). So `float f = 3.14;` prints `Delimiter: .14` and no `;` is ever printed. `LexicalAnalyzer.DecimalDeclarationEntry` proves the printed entry for every declaration `t n = a.b;` with any of the nine type keywords t, `float f = 3.14;` among them. `LexicalAnalyzer.IntDeclarationGroups` shows that `int x = 5;` has no group 6, so no Delimiter line.

## Model

| member | source | states |
|---|---|---|
| JavaText.TrimIsStrip | src/actions/LexicalAnalyzer.java:31 | trim keeps a middle slice of the line that neither starts nor ends with a character up to U+0020, and removes only such characters on either side |
| JavaText.SplitAllRoundTrip | src/actions/LexicalAnalyzer.java:27 | splitting on newlines loses nothing: joining the pieces with newlines gives the code back |
| JavaText.SplitLinesArePieces | src/actions/LexicalAnalyzer.java:27 | the lines of `split("\n")` are a prefix of the newline-separated pieces, and only empty trailing pieces are dropped; code without a newline is one line |
| JavaText.SplitAllSnoc | src/actions/SemanticAnalyzer.java:20 | appending a newline to the code opens a new, empty piece; appending any other character extends the last piece |
| JavaText.SplitAllExtend | src/actions/SemanticAnalyzer.java:20 | appending text without a newline extends only the last piece by that text |
| JavaText.SplitAllLine | src/actions/SemanticAnalyzer.java:20-26 | appending a line and its newline after text that ends in a newline adds exactly that line as a piece |
| LexicalAnalyzer.MatchIffAccepts | src/actions/LexicalAnalyzer.java:19-35 | a trimmed line matches exactly when it is, in order, an optional type keyword, identifier, `=`, literal and `;`, with optional white space around and between the pieces |
| LexicalAnalyzer.TypeStageCorrect | src/actions/LexicalAnalyzer.java:19-20 | the search from the type group succeeds exactly when the rest of the line is in the language from that group on |
| LexicalAnalyzer.KeywordTrySound | src/actions/LexicalAnalyzer.java:20 | a successful keyword alternation has one of the listed keywords at the position, with `\b` on both sides and a match of the rest after it, and reports that keyword as group 1 |
| LexicalAnalyzer.KeywordTryComplete | src/actions/LexicalAnalyzer.java:20 | any listed keyword at the position that the rest of the pattern can follow makes the alternation succeed |
| LexicalAnalyzer.IdentStageCorrect | src/actions/LexicalAnalyzer.java:21 | the identifier group, the longest identifier first and then shorter ones, succeeds exactly when the language from that group on holds |
| LexicalAnalyzer.IdentTryCorrect | src/actions/LexicalAnalyzer.java:21 | backing off the greedy `[a-zA-Z0-9_]*` one character at a time finds a match exactly when some identifier of at most that length is followed by a match of the rest |
| LexicalAnalyzer.AssignStageCorrect | src/actions/LexicalAnalyzer.java:22 | the `(=)?` group succeeds exactly when the language from that group on holds |
| LexicalAnalyzer.ValueStageCorrect | src/actions/LexicalAnalyzer.java:23 | the literal group succeeds exactly when the language from that group on holds |
| LexicalAnalyzer.AlternativesSound | src/actions/LexicalAnalyzer.java:23 | whichever literal alternative succeeds, it ends a literal that the rest of the pattern follows |
| LexicalAnalyzer.AlternativesComplete | src/actions/LexicalAnalyzer.java:23 | any literal followed by a match of the rest is found by one of the seven alternatives |
| LexicalAnalyzer.SemiStageCorrect | src/actions/LexicalAnalyzer.java:24 | `\s*(;)?\s*$` succeeds exactly when only white space, with at most one `;` inside it, is left |
| LexicalAnalyzer.TypeIsKeyword | src/actions/LexicalAnalyzer.java:20 | group 1, when present, is one of the nine type keywords |
| LexicalAnalyzer.MatchGroups | src/actions/LexicalAnalyzer.java:20-24 | a match's identifier is an identifier; group 6 is present exactly when the value is a decimal literal, and then holds its `.digits` tail |
| LexicalAnalyzer.MatchSpells | src/actions/LexicalAnalyzer.java:19-35 | a matching line consists of exactly the groups the match reports, in the pattern's order, with only white space before, between and after them |
| LexicalAnalyzer.DecimalDeclarationGroups | src/actions/LexicalAnalyzer.java:19-35 | `t n = a.b;` with any of the nine type keywords t (`boolean` too, which the alternation reaches after `byte` fails), an identifier n and digits a and b matches with groups t, n, `=`, the decimal `a.b`, its fraction `.b` as group 6, and `;` |
| LexicalAnalyzer.IntegerDeclarationGroups | src/actions/LexicalAnalyzer.java:19-35 | `t n = a;` with any of the nine type keywords t, an identifier n and digits a matches with groups t, n, `=`, a and `;`, and no group 6 |
| LexicalAnalyzer.FloatDeclarationGroups | src/actions/LexicalAnalyzer.java:19-35 | `float f = 3.14;` matches with `3.14` as group 4 and `.14` as group 6 |
| LexicalAnalyzer.IntDeclarationGroups | src/actions/LexicalAnalyzer.java:19-35 | `int x = 5;` matches with `5` as group 4 and no group 6 |
| LexicalAnalyzer.BooleanDeclarationGroups | src/actions/LexicalAnalyzer.java:19-35 | `boolean b = 1;` matches with `boolean` as group 1, although `byte`, tried first, shares its first letter |
| LexicalAnalyzer.ForeignCharacterUnknown | src/actions/LexicalAnalyzer.java:19-24 | a line without quotes that holds a character outside the pattern's alphabet (such as the `+` of `x += 5;`) does not match |
| LexicalAnalyzer.EmptyLineMatches | src/actions/LexicalAnalyzer.java:35-51 | the empty line matches with no group and adds only a blank line to the report |
| LexicalAnalyzer.StringDeclarationMatches | src/actions/LexicalAnalyzer.java:19-35 | `String n = "body";`, with an identifier n and no `"` in the body, matches with groups String, n, `=`, the quoted body and `;`, and no group 6 |
| LexicalAnalyzer.DeclarationRendered | src/actions/LexicalAnalyzer.java:36-50 | a match with groups 1, 2, 3 and 4 and no group 6, for any type word, prints exactly four labelled lines in the order Data Type, Identifier, Assignment Operator, Value |
| LexicalAnalyzer.FractionRendered | src/actions/LexicalAnalyzer.java:36-51 | a match with all of groups 1, 2, 3, 4 and 6 prints five fields in order, the last labelled Delimiter and carrying group 6 |
| LexicalAnalyzer.IntegerDeclarationEntry | src/actions/LexicalAnalyzer.java:35-51 | the entry of `t n = a;`, for any type keyword t, is its Data Type, Identifier, Assignment Operator and Value lines and a blank line, with no Delimiter line |
| LexicalAnalyzer.DecimalDeclarationEntry | src/actions/LexicalAnalyzer.java:35-51 | the entry of `t n = a.b;`, for any type keyword t, is its Data Type, Identifier, Assignment Operator and Value lines, then `Delimiter: .b` and a blank line; the `;` is printed nowhere |
| LexicalAnalyzer.EntriesStep | src/actions/LexicalAnalyzer.java:30-56 | one more line appends exactly its own entry, and raises the error flag exactly when it is unknown |
| LexicalAnalyzer.Analyze | src/actions/LexicalAnalyzer.java:14-64 | the loop over the lines returns the report `Report(code)`: "No code to analyze." for empty code, otherwise the entries of the trimmed lines in order, then the closing sentence |
| LexicalAnalyzer.ReportVerdict | src/actions/LexicalAnalyzer.java:14-62 | empty code gives exactly "No code to analyze."; otherwise the report ends with the failure sentence exactly when some trimmed line is unknown, and with the success sentence exactly when none is |
| LexicalAnalyzer.FailureSentenceMarks | src/actions/LexicalAnalyzer.java:59 | the failure sentence holds "Lexical analysis failed" |
| LexicalAnalyzer.EntryInEntries | src/actions/LexicalAnalyzer.java:30-56 | every line's entry is in the report, so the lines after an unknown one are still reported |
| LexicalAnalyzer.UnknownLineReported | src/actions/LexicalAnalyzer.java:52-59 | a line that does not match shows as `Unknown Token: ` plus the trimmed line, and the report then holds "Lexical analysis failed" |
| LexicalAnalyzer.StringDeclarationReported | src/actions/LexicalAnalyzer.java:27-61 | the whole report of the one-line code `String n = "body";`, for an identifier n and a body with no `"` and no newline: its four fields, a blank line and the success sentence |
| LexicalAnalyzer.DeclarationIsOneLine | src/actions/LexicalAnalyzer.java:27-31 | a `String` declaration without a newline is a single line, which trim leaves unchanged |
| SemanticAnalyzer.LastClose | src/actions/SemanticAnalyzer.java:44 | a greedy `.*` or `\S+` that gives back one character at a time ends group 2 at the largest end that the pattern's `;` can follow |
| SemanticAnalyzer.ValueCloseSound | src/actions/SemanticAnalyzer.java:44 | where group 2 is found to end, it is a quoted run or a run without white space, and a `;` follows |
| SemanticAnalyzer.ValueCloseComplete | src/actions/SemanticAnalyzer.java:44 | whenever some group 2 followed by `;` starts at a position, one is found there |
| SemanticAnalyzer.HitAtSound | src/actions/SemanticAnalyzer.java:44-49 | a match found at p is the pattern at p: identifier, white space, `=`, white space, value, `;`; groups 1 and 2 are the identifier and the value it spans |
| SemanticAnalyzer.HitAtComplete | src/actions/SemanticAnalyzer.java:44 | any occurrence of the pattern starting at p is found at p |
| SemanticAnalyzer.HitAtIffMatches | src/actions/SemanticAnalyzer.java:44 | the match at p succeeds exactly when the pattern occurs at p |
| SemanticAnalyzer.FindIsFirstHit | src/actions/SemanticAnalyzer.java:47 | find() stops at the first start position that has a match |
| SemanticAnalyzer.FindNoneIsNoHit | src/actions/SemanticAnalyzer.java:47 | find() fails only when no start position has a match |
| SemanticAnalyzer.FindIsLeftmost | src/actions/SemanticAnalyzer.java:47-49 | find() reports the leftmost occurrence of the pattern with its groups, or nothing when there is none |
| SemanticAnalyzer.DeclaredType | src/actions/SemanticAnalyzer.java:50 | the declared type is a prefix of the raw line without white space, ending at white space or at the end of the line |
| SemanticAnalyzer.DeclaredTypeUnique | src/actions/SemanticAnalyzer.java:50 | those properties single the declared type out |
| SemanticAnalyzer.TypeNamed | src/actions/SemanticAnalyzer.java:59-96 | a word names a type only if it is that type's keyword as the switch spells it |
| SemanticAnalyzer.TypeNameRoundTrip | src/actions/SemanticAnalyzer.java:59-96 | every case of the switch is reached by its own keyword |
| SemanticAnalyzer.TypeCheck | src/actions/SemanticAnalyzer.java:58-99 | an unknown type, long and double included, fails with "Unknown data type: " plus the word; a known type passes exactly when the value has its shape, with the pass message, and otherwise fails with its type-mismatch message |
| SemanticAnalyzer.ShapeNotRange | src/actions/SemanticAnalyzer.java:60-74 | shapes count digits and never check range: 999 and -999 are bytes, 1000 is not; every byte is a short and every short is an int |
| SemanticAnalyzer.FailReasonsDiffer | src/actions/SemanticAnalyzer.java:54-96 | the invalid-format message differs from every unknown-type and type-mismatch message |
| SemanticAnalyzer.InvalidFormatIffNoMatch | src/actions/SemanticAnalyzer.java:44-54 | a line fails with the invalid-format message exactly when the pattern occurs nowhere in it |
| SemanticAnalyzer.LeadingSpaceFails | src/actions/SemanticAnalyzer.java:50-96 | a line starting with white space has the empty word as its type, and fails with either the invalid-format or the unknown-type message |
| SemanticAnalyzer.TypeWordNoHit | src/actions/SemanticAnalyzer.java:44-47 | in `t n = v;`, no match starts inside the type word or at the space after it |
| SemanticAnalyzer.DeclarationHit | src/actions/SemanticAnalyzer.java:44 | in `t n = v;`, with an identifier n and a value v that group 2 takes whole (a quoted run, or a run without white space or leading quote), the match at the name has groups n and v |
| SemanticAnalyzer.DeclarationFound | src/actions/SemanticAnalyzer.java:47-49 | in `t n = v;`, with t a word and such n and v, find() matches at the name, with v as the value |
| SemanticAnalyzer.DeclarationType | src/actions/SemanticAnalyzer.java:50 | the declared type of `t n = v;` is t |
| SemanticAnalyzer.DeclarationChecked | src/actions/SemanticAnalyzer.java:43-52 | `t n = v;`, with t a word and such n and v, is type-checked as the declaration of n with type t and value v |
| SemanticAnalyzer.StringDeclarationOutcome | src/actions/SemanticAnalyzer.java:43-99 | `String n = "body";`, with an identifier n and no line terminator in the body, passes, with the pass message naming n, the quoted body and String |
| SemanticAnalyzer.OutcomeOfLine | src/actions/SemanticAnalyzer.java:23-31 | each line's outcome is its own check, whatever the lines around it |
| SemanticAnalyzer.TextsStep | src/actions/SemanticAnalyzer.java:23-31 | one more line appends exactly its own result line |
| SemanticAnalyzer.Analyze | src/actions/SemanticAnalyzer.java:14-40 | the loop with its try/catch returns `Report(code)`: "No code to analyze." for empty code, otherwise one result line per line in order, then the closing sentence |
| SemanticAnalyzer.ReportVerdict | src/actions/SemanticAnalyzer.java:14-38 | empty code gives exactly "No code to analyze."; otherwise the report ends with the failure sentence exactly when some line failed, and with the success sentence exactly when none did |
| SemanticAnalyzer.FailureSentenceMarks | src/actions/SemanticAnalyzer.java:35 | the failure sentence holds "Error(s) detected" |
| SemanticAnalyzer.TextInTexts | src/actions/SemanticAnalyzer.java:23-31 | every outcome's line is in the output |
| SemanticAnalyzer.LineReported | src/actions/SemanticAnalyzer.java:23-38 | every line's result is in the report whatever the other lines do; a failing line shows as `Error: ` plus its reason, and the report then holds "Error(s) detected" |
| SemanticAnalyzer.OutcomeOneLine | src/actions/SemanticAnalyzer.java:43-99 | the result text of a line without a newline has no newline: every pass and failure message stays on one line |
| SemanticAnalyzer.TextsLines | src/actions/SemanticAnalyzer.java:23-31 | when no result text has a newline, the appended texts split at newlines into exactly those texts in order, then the empty piece after the last newline |
| SemanticAnalyzer.ReportLines | src/actions/SemanticAnalyzer.java:20-31 | before the closing sentence the report has one output line per line of the code, each that line's result, in order |
| SemanticAnalyzer.OneLineReport | src/actions/SemanticAnalyzer.java:23-40 | code whose single line has outcome o is reported as o's text, then the failure sentence exactly when o failed and the success sentence otherwise |
| SemanticAnalyzer.DeclarationReport | src/actions/SemanticAnalyzer.java:14-99 | the one-line code `t n = v;` is reported as the outcome of checking n, t and v, then the closing sentence that outcome calls for |
| SemanticAnalyzer.ByteOutOfRangePasses | src/actions/SemanticAnalyzer.java:60-99 | `byte b = 999;` passes with its pass message and the success sentence, although 999 is out of a byte's range |
| SemanticAnalyzer.UnquotedStringFails | src/actions/SemanticAnalyzer.java:90-94 | `String n = v;` with v a word without white space that opens with no quote (`String s = hi;` among them) fails with the type-mismatch message for v and String, then the failure sentence |
| SemanticAnalyzer.StringDeclarationPasses | src/actions/SemanticAnalyzer.java:14-40 | the report of the one-line code `String n = "body";`, with an identifier n and no line terminator in the body, is its pass message, which repeats the value, then the success sentence |
| CodeRunner.EditorPage.constructor | src/ui/EditorPage.java:36-38 | a new editor page has all three analysis buttons disabled |
| CodeRunner.Runner.constructor | src/minicompiler/actions/CodeRunner.java:9-12 | the runner keeps the code and the editor page it is given |
| CodeRunner.Runner.Execute | src/minicompiler/actions/CodeRunner.java:14-72 | execute() returns the output of `Run` and leaves the buttons as `Run` says, starting from the buttons as they were |
| CodeRunner.StagesEnding | src/minicompiler/actions/CodeRunner.java:19-70 | a run of non-blank code starts with the running notice; it ends with the lexical abort notice exactly when the lexical test fires, with the syntax abort notice exactly when only the syntax test fires first, with the semantic abort notice exactly when only the semantic test fires, and with the completion notice exactly when no test fires |
| CodeRunner.StagesShown | src/minicompiler/actions/CodeRunner.java:22-60 | the output begins with the running notice and the reports, under their headings, of the stages that run, in the order lexical, syntax, semantic |
| CodeRunner.BlankIffRefused | src/minicompiler/actions/CodeRunner.java:15-17 | null or blank code is exactly what gives "No code to run.", and it leaves the buttons unchanged; any other code gets the running notice first |
| CodeRunner.ReportsShown | src/minicompiler/actions/CodeRunner.java:19-60 | the output begins with the running notice and the lexical report; the syntax report follows it when the lexical test passes, and the semantic report follows both when the syntax test passes too |
| CodeRunner.LexicalAbortStops | src/minicompiler/actions/CodeRunner.java:27-33 | once the lexical report holds "Lexical analysis failed", the output does not depend on the syntax analyzer, ends with the lexical abort notice, and the buttons are lexical on, syntax off, semantic off |
| CodeRunner.UnknownTokenAborts | src/minicompiler/actions/CodeRunner.java:22-33 | a line the lexical pattern rejects shows in the output as an Unknown Token, and the run aborts for lexical errors with that button state |
| CodeRunner.SyntaxAbortStops | src/minicompiler/actions/CodeRunner.java:46-52 | a syntax report holding "Syntax error(s)" or "Failed" ends the run with the syntax abort notice, with the buttons lexical on, syntax on, semantic off |
| CodeRunner.SemanticErrorAborts | src/minicompiler/actions/CodeRunner.java:58-67 | once the earlier stages pass, a line failing its semantic check shows as its Error line and the run ends with the semantic abort notice, all buttons on |
| CodeRunner.ButtonsAfterRun | src/minicompiler/actions/CodeRunner.java:30-67 | after a run of non-blank code, lexical analysis is enabled; syntax analysis is enabled exactly when the lexical test passed; semantic analysis is enabled exactly when both earlier tests passed |
| CodeRunner.CompletedIffAllPass | src/minicompiler/actions/CodeRunner.java:68-70 | the output ends with the completion notice exactly when the code is not blank and none of the three tests fires |
| CodeRunner.LexicalReportClean | src/actions/LexicalAnalyzer.java:36-61 | the lexical report of `String n = "body";`, for an identifier n and a body with no `"` and no newline, lacks "Lexical analysis failed" when neither n nor the body holds a capital L |
| CodeRunner.SemanticReportRepeats | src/actions/SemanticAnalyzer.java:99 | the semantic report of `String n = "body";`, with an identifier n and no line terminator in the body, contains the body |
| CodeRunner.StringDeclarationRun | src/minicompiler/actions/CodeRunner.java:58-67 | `String n = "body";`, when neither n nor the body holds a capital L and the body has no `"` and no line terminator, passes the lexical test as written and every semantic check; once the syntax stage passes, it aborts for semantic errors exactly when its report holds "Error(s) detected" |
| CodeRunner.LexicalGateFalseAlarm | src/minicompiler/actions/CodeRunner.java:27 | the code `String s = "Lexical analysis failed";` has no unknown token, yet the run aborts for lexical errors and leaves syntax analysis disabled |
| CodeRunner.SemanticGateFalseAlarm | src/minicompiler/actions/CodeRunner.java:62 | the code `String s = "Error(s) detected";` passes every semantic check, yet, once the syntax stage passes, the run aborts for semantic errors |
| CodeRunner.IntendedRunAborts | src/minicompiler/actions/CodeRunner.java:27-67 | with the failure tests reading the closing sentence, a run aborts for lexical errors exactly when some line is an Unknown Token; once the syntax stage passes, it aborts for semantic errors exactly when some line fails its check |
| CodeRunner.IntendedGatesNoFalseAlarm | src/minicompiler/actions/CodeRunner.java:27-70 | with those tests, both codes above run past their stage, and the second runs to completion once the syntax stage passes |
| CodeRunner.StringDeclarationIntendedRun | src/minicompiler/actions/CodeRunner.java:62-70 | with those tests, `String n = "body";`, for an identifier n and a body with no `"` and no line terminator, runs to completion once the syntax stage passes, whatever text such a body holds |

## Left out

- The syntax analyzer is not part of this model. It is the parameter `syntax`, an arbitrary function from the code to its report, so every property holds for any syntax analyzer.
- The orchestrator in package `minicompiler.actions` runs that package's own analyzers, which are not part of this model. The analyzers of package `actions` stand in for them.
- The orchestrator imports `minicompiler.ui.EditorPage`, which is not part of this model. Its button flags are modelled after `ui.EditorPage` (src/ui/EditorPage.java), which stands in for it in the same way.
- The editor page is reduced to the enabled flags of its three analysis buttons, in a constructor and the flags execute() sets. Left out are:
  - the Swing frame, menus, undo/redo, zoom and dialogs;
  - the per-stage button handlers and the button reset, which are UI code.
- Execute sets all three buttons on before the syntax stage, as the code does. No contract speaks of this intermediate state, because the syntax analyzer, a pure function here, cannot observe it; only the final buttons are stated.
- File loading and the two `main` bootstraps are I/O and start-up code.
- Only the two patterns of the analyzers are modelled, as hand-written matchers. The character classes are java.util.regex's ASCII defaults. Full regex semantics are out of scope.
- In the lexical matcher, backtracking choices that can never reach the end of the line are not enumerated. These are a shorter `\s*`, a shorter `[^"]*` or `[^']*`, and a shorter digit run. `MatchIffAccepts` proves the search still finds a match exactly when one exists.
- Characters are Dafny `char`s. Java's UTF-16 surrogate pairs are not modelled separately, which only matters for characters outside the Basic Multilingual Plane.
- The analyzers' constructors only store the code, so `Analyze` takes the code as a parameter. A null code reaching execute() is modelled with `Option`. The analyzers are only ever called with non-null code.
- Exceptions of the semantic stage are the `Fail` outcome. `StringBuilder` is a string variable. Compiling the pattern again for each line has no observable effect and is left out.
- Escape sequences inside literals are not interpreted, by the source or by the model. The literal `"[^"]*"` stops at the quote of an escaped `\"`, so a line such as `String s = "a\"b";` is an Unknown Token. The String-declaration lemmas therefore state their facts only for bodies with no `"`.
- LexicalAnalyzer.Fields: its contract states only that at most five fields are printed. The order and content of the fields are stated by DeclarationRendered, IntegerDeclarationEntry and StringDeclarationReported for declarations without a fraction, by FractionRendered and DecimalDeclarationEntry for decimal declarations, and by MatchGroups and MatchSpells for the groups.

## Findings

| source | as written | input that shows it | evidently intended | confidence | as-written member | corrected member |
|---|---|---|---|---|---|---|
| src/minicompiler/actions/CodeRunner.java:27 | the lexical test searches the whole lexical report for "Lexical analysis failed", and the report repeats every value of the code | `String s = "Lexical analysis failed";` — every line matches, yet the run aborts for lexical errors and syntax analysis stays disabled | abort only when the report closes with the failure sentence, that is when some line is an Unknown Token | medium, not executed | CodeRunner.LexicalGateFalseAlarm | CodeRunner.IntendedRunAborts |
| src/minicompiler/actions/CodeRunner.java:62 | the semantic test searches the whole semantic report for "Error(s) detected", and each pass message repeats the value | `String s = "Error(s) detected";` — the line passes every semantic check, yet the run aborts for semantic errors | abort only when the report closes with the failure sentence, that is when some line failed its check | medium, not executed | CodeRunner.SemanticGateFalseAlarm | CodeRunner.IntendedGatesNoFalseAlarm |

The corrected tests are the predicates `IntendedLexicalGate` and `IntendedSemanticGate`, used by the function `IntendedRun`. Execute and `Run` keep the tests as written, because they model the code.
