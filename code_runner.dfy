/** The orchestrator (src/minicompiler/actions/CodeRunner.java): the lexical, syntax and
    semantic stages run one after the other on the whole code. Each stage's report is
    appended to the output and then searched for a failure text; a failure ends the run
    with an abort notice. Along the way the three analysis buttons of the editor page
    are switched on or off.

    The syntax analyzer is not part of this model: it is the parameter `syntax`, an
    arbitrary function from the code to its report. The lexical and semantic stages are
    the analyzers of LexicalAnalyzer and SemanticAnalyzer. */
module CodeRunner {
  import opened JavaText
  import LexicalAnalyzer
  import SemanticAnalyzer

  /** Whether each analysis button is enabled. */
  datatype Buttons = Buttons(lexical: bool, syntax: bool, semantic: bool)

  /** The editor page, reduced to the enabled flags of its three analysis buttons. */
  class EditorPage {
    var lexicalEnabled: bool
    var syntaxEnabled: bool
    var semanticEnabled: bool

    /** A new page starts with every analysis button disabled. */
    constructor ()
      ensures State() == Buttons(false, false, false)
    {
      lexicalEnabled := false;
      syntaxEnabled := false;
      semanticEnabled := false;
    }

    function State(): Buttons
      reads this
    {
      Buttons(lexicalEnabled, syntaxEnabled, semanticEnabled)
    }
  }

  const NoCodeToRun := "No code to run."
  const Running := "Running the code...\n\n"
  const LexicalHeader := "Lexical Analysis Result:\n"
  const LexicalMarker := "Lexical analysis failed"
  const LexicalAbort := "\nAborting execution " + "due to lexical errors.\n"
  const SyntaxHeader := "Syntax Analysis Result:\n"
  const SyntaxMarker := "Syntax error(s)"
  const FailedMarker := "Failed"
  const SyntaxAbort := "\nAborting execution " + "due to syntax errors.\n"
  const SemanticHeader := "Semantic Analysis Result:\n"
  const SemanticMarker := "Error(s) detected"
  const SemanticAbort := "\nAborting execution " + "due to semantic errors.\n"
  const Completed := "\nCode execution simulated. " + "All analyses are complete."

  /** `code == null || code.trim().isEmpty()` */
  predicate IsBlank(code: Option<string>) {
    code.None? || Trim(code.value) == []
  }

  /** The failure tests applied to each stage's report. */
  predicate LexicalGate(report: string) { Contains(report, LexicalMarker) }

  predicate SyntaxGate(report: string) { Contains(report, SyntaxMarker) || Contains(report, FailedMarker) }

  predicate SemanticGate(report: string) { Contains(report, SemanticMarker) }

  /** The output of a run and the buttons it leaves behind. */
  datatype RunResult = RunResult(output: string, buttons: Buttons)

  /** The output up to and including the lexical report `lex`. */
  function LexicalPart(lex: string): string {
    Running + (LexicalHeader + lex + "\n")
  }

  /** The output up to and including the syntax report `syn`. */
  function SyntaxPart(lex: string, syn: string): string {
    LexicalPart(lex) + (SyntaxHeader + syn + "\n")
  }

  /** The output up to and including the semantic report `sem`. */
  function SemanticPart(lex: string, syn: string, sem: string): string {
    SyntaxPart(lex, syn) + (SemanticHeader + sem + "\n")
  }

  /** A run of non-blank code whose stages report lex, syn and sem, when the failure
      tests on those reports come out as lexFailed, synFailed and semFailed. */
  function Stages(lex: string, syn: string, sem: string, lexFailed: bool, synFailed: bool,
                  semFailed: bool): RunResult {
    if lexFailed then RunResult(LexicalPart(lex) + LexicalAbort, Buttons(true, false, false))
    else if synFailed then RunResult(SyntaxPart(lex, syn) + SyntaxAbort, Buttons(true, true, false))
    else if semFailed then RunResult(SemanticPart(lex, syn, sem) + SemanticAbort, Buttons(true, true, true))
    else RunResult(SemanticPart(lex, syn, sem) + Completed, Buttons(true, true, true))
  }

  /** What execute() returns, and the buttons afterwards, when the buttons were `before`. */
  function Run(code: Option<string>, syntax: string -> string, before: Buttons): RunResult {
    if IsBlank(code) then RunResult(NoCodeToRun, before)
    else
      var c := code.value;
      var lex := LexicalAnalyzer.Report(c);
      var sem := SemanticAnalyzer.Report(c);
      Stages(lex, syntax(c), sem, LexicalGate(lex), SyntaxGate(syntax(c)), SemanticGate(sem))
  }

  /** A CodeRunner: the code to run and the page whose buttons it updates. */
  class Runner {
    const code: Option<string>
    const editorPage: EditorPage

    constructor (code: Option<string>, editorPage: EditorPage)
      ensures this.code == code && this.editorPage == editorPage
    {
      this.code := code;
      this.editorPage := editorPage;
    }

    /** execute(): the stages in order, each report appended before it is checked, an
        early return at the first failure. */
    method Execute(syntax: string -> string) returns (result: string)
      modifies editorPage
      ensures RunResult(result, editorPage.State()) == Run(code, syntax, old(editorPage.State()))
    {
      if code.None? || Trim(code.value) == [] {
        return NoCodeToRun;
      }
      var c := code.value;
      result := Running;

      var lexicalResult := LexicalAnalyzer.Analyze(c);
      result := result + (LexicalHeader + lexicalResult + "\n");
      if Contains(lexicalResult, LexicalMarker) {
        result := result + LexicalAbort;
        editorPage.lexicalEnabled := true;
        editorPage.syntaxEnabled := false;
        editorPage.semanticEnabled := false;
        return;
      } else {
        editorPage.lexicalEnabled := true;
        editorPage.syntaxEnabled := true;
        editorPage.semanticEnabled := true;
      }

      var syntaxResult := syntax(c);
      result := result + (SyntaxHeader + syntaxResult + "\n");
      if Contains(syntaxResult, SyntaxMarker) || Contains(syntaxResult, FailedMarker) {
        result := result + SyntaxAbort;
        editorPage.lexicalEnabled := true;
        editorPage.syntaxEnabled := true;
        editorPage.semanticEnabled := false;
        return;
      } else {
        editorPage.semanticEnabled := true;
      }

      var semanticResult := SemanticAnalyzer.Analyze(c);
      result := result + (SemanticHeader + semanticResult + "\n");
      if Contains(semanticResult, SemanticMarker) {
        result := result + SemanticAbort;
        editorPage.lexicalEnabled := true;
        editorPage.syntaxEnabled := true;
        editorPage.semanticEnabled := true;
      } else {
        result := result + Completed;
      }
    }
  }

  // ---------------------------------------------------------------- how the stages end

  /** The closing notices differ near their ends, so an output ends with at most one. */
  lemma NoticesDiffer()
    ensures SyntaxAbort[|SyntaxAbort| - 10] != LexicalAbort[|LexicalAbort| - 10]
    ensures SemanticAbort[|SemanticAbort| - 10] != LexicalAbort[|LexicalAbort| - 10]
    ensures SemanticAbort[|SemanticAbort| - 10] != SyntaxAbort[|SyntaxAbort| - 10]
    ensures Completed[|Completed| - 2] != LexicalAbort[|LexicalAbort| - 2]
    ensures Completed[|Completed| - 2] != SyntaxAbort[|SyntaxAbort| - 2]
    ensures Completed[|Completed| - 2] != SemanticAbort[|SemanticAbort| - 2]
  {
    assert LexicalAbort[|LexicalAbort| - 10] == "due to lexical errors.\n"[13];
    assert SyntaxAbort[|SyntaxAbort| - 10] == "due to syntax errors.\n"[12];
    assert SemanticAbort[|SemanticAbort| - 10] == "due to semantic errors.\n"[14];
    assert LexicalAbort[|LexicalAbort| - 2] == "due to lexical errors.\n"[21];
    assert SyntaxAbort[|SyntaxAbort| - 2] == "due to syntax errors.\n"[20];
    assert SemanticAbort[|SemanticAbort| - 2] == "due to semantic errors.\n"[22];
  }

  /** Text followed by one of the four closing notices ends with that notice only. */
  lemma EndsWithLexicalAbort(pre: string)
    ensures var out := pre + LexicalAbort;
            EndsWith(out, LexicalAbort) && !EndsWith(out, SyntaxAbort)
            && !EndsWith(out, SemanticAbort) && !EndsWith(out, Completed)
  {
    var out := pre + LexicalAbort;
    NoticesDiffer();
    EndsWithAppended(pre, LexicalAbort);
    EndsWithExclusive(out, LexicalAbort, SyntaxAbort, 10);
    EndsWithExclusive(out, LexicalAbort, SemanticAbort, 10);
    EndsWithExclusive(out, LexicalAbort, Completed, 2);
  }

  lemma EndsWithSyntaxAbort(pre: string)
    ensures var out := pre + SyntaxAbort;
            !EndsWith(out, LexicalAbort) && EndsWith(out, SyntaxAbort)
            && !EndsWith(out, SemanticAbort) && !EndsWith(out, Completed)
  {
    var out := pre + SyntaxAbort;
    NoticesDiffer();
    EndsWithAppended(pre, SyntaxAbort);
    EndsWithExclusive(out, SyntaxAbort, LexicalAbort, 10);
    EndsWithExclusive(out, SyntaxAbort, SemanticAbort, 10);
    EndsWithExclusive(out, SyntaxAbort, Completed, 2);
  }

  lemma EndsWithSemanticAbort(pre: string)
    ensures var out := pre + SemanticAbort;
            !EndsWith(out, LexicalAbort) && !EndsWith(out, SyntaxAbort)
            && EndsWith(out, SemanticAbort) && !EndsWith(out, Completed)
  {
    var out := pre + SemanticAbort;
    NoticesDiffer();
    EndsWithAppended(pre, SemanticAbort);
    EndsWithExclusive(out, SemanticAbort, LexicalAbort, 10);
    EndsWithExclusive(out, SemanticAbort, SyntaxAbort, 10);
    EndsWithExclusive(out, SemanticAbort, Completed, 2);
  }

  lemma EndsWithCompleted(pre: string)
    ensures var out := pre + Completed;
            !EndsWith(out, LexicalAbort) && !EndsWith(out, SyntaxAbort)
            && !EndsWith(out, SemanticAbort) && EndsWith(out, Completed)
  {
    var out := pre + Completed;
    NoticesDiffer();
    EndsWithAppended(pre, Completed);
    EndsWithExclusive(out, Completed, LexicalAbort, 2);
    EndsWithExclusive(out, Completed, SyntaxAbort, 2);
    EndsWithExclusive(out, Completed, SemanticAbort, 2);
  }

  /** A run of non-blank code starts with the running notice and ends with the abort
      notice of the first stage whose test failed, or with the completion notice when
      none did; it ends with no other notice. */
  lemma StagesEnding(lex: string, syn: string, sem: string, lf: bool, sf: bool, ef: bool)
    ensures Running <= Stages(lex, syn, sem, lf, sf, ef).output
    ensures EndsWith(Stages(lex, syn, sem, lf, sf, ef).output, LexicalAbort) <==> lf
    ensures EndsWith(Stages(lex, syn, sem, lf, sf, ef).output, SyntaxAbort) <==> !lf && sf
    ensures EndsWith(Stages(lex, syn, sem, lf, sf, ef).output, SemanticAbort) <==> !lf && !sf && ef
    ensures EndsWith(Stages(lex, syn, sem, lf, sf, ef).output, Completed) <==> !lf && !sf && !ef
  {
    assert Running <= LexicalPart(lex) <= SyntaxPart(lex, syn) <= SemanticPart(lex, syn, sem);
    if lf {
      EndsWithLexicalAbort(LexicalPart(lex));
    } else if sf {
      EndsWithSyntaxAbort(SyntaxPart(lex, syn));
    } else if ef {
      EndsWithSemanticAbort(SemanticPart(lex, syn, sem));
    } else {
      EndsWithCompleted(SemanticPart(lex, syn, sem));
    }
  }

  /** Every stage that runs has its report, under its heading, in the output, and the
      output begins with the reports in the order the stages ran. */
  lemma StagesShown(lex: string, syn: string, sem: string, lf: bool, sf: bool, ef: bool)
    ensures LexicalPart(lex) <= Stages(lex, syn, sem, lf, sf, ef).output
    ensures !lf ==> SyntaxPart(lex, syn) <= Stages(lex, syn, sem, lf, sf, ef).output
    ensures !lf && !sf ==> SemanticPart(lex, syn, sem) <= Stages(lex, syn, sem, lf, sf, ef).output
    ensures Contains(Stages(lex, syn, sem, lf, sf, ef).output, LexicalHeader + lex + "\n")
    ensures !lf ==> Contains(Stages(lex, syn, sem, lf, sf, ef).output, SyntaxHeader + syn + "\n")
    ensures !lf && !sf ==> Contains(Stages(lex, syn, sem, lf, sf, ef).output, SemanticHeader + sem + "\n")
  {
    var lexText := LexicalHeader + lex + "\n";
    var synText := SyntaxHeader + syn + "\n";
    var semText := SemanticHeader + sem + "\n";
    ContainsSelf(lexText);
    ContainsAfter(Running, lexText, lexText);
    ContainsSelf(synText);
    ContainsAfter(LexicalPart(lex), synText, synText);
    ContainsBefore(LexicalPart(lex), synText, lexText);
    ContainsSelf(semText);
    ContainsAfter(SyntaxPart(lex, syn), semText, semText);
    ContainsBefore(SyntaxPart(lex, syn), semText, lexText);
    ContainsBefore(SyntaxPart(lex, syn), semText, synText);
    if lf {
      ContainsBefore(LexicalPart(lex), LexicalAbort, lexText);
    } else if sf {
      ContainsBefore(SyntaxPart(lex, syn), SyntaxAbort, lexText);
      ContainsBefore(SyntaxPart(lex, syn), SyntaxAbort, synText);
    } else {
      var last := if ef then SemanticAbort else Completed;
      ContainsBefore(SemanticPart(lex, syn, sem), last, lexText);
      ContainsBefore(SemanticPart(lex, syn, sem), last, synText);
      ContainsBefore(SemanticPart(lex, syn, sem), last, semText);
    }
  }

  // ---------------------------------------------------------------- properties of a run

  /** Blank code is refused with the fixed message and leaves the buttons as they were;
      any other code starts with the running notice, so the two never meet. */
  lemma BlankIffRefused(code: Option<string>, syntax: string -> string, before: Buttons)
    ensures IsBlank(code) <==> Run(code, syntax, before).output == NoCodeToRun
    ensures IsBlank(code) ==> Run(code, syntax, before).buttons == before
    ensures !IsBlank(code) ==> Running <= Run(code, syntax, before).output
  {
    if !IsBlank(code) {
      var c := code.value;
      var lex := LexicalAnalyzer.Report(c);
      var sem := SemanticAnalyzer.Report(c);
      StagesEnding(lex, syntax(c), sem, LexicalGate(lex), SyntaxGate(syntax(c)), SemanticGate(sem));
      var out := Run(code, syntax, before).output;
      assert out[0] == 'R' != NoCodeToRun[0];
    }
  }

  /** Every stage that runs has its report, under its heading, in the output, and the
      output begins with the running notice and those reports in the stages' order:
      lexical, syntax, semantic. */
  lemma ReportsShown(code: string, syntax: string -> string, before: Buttons)
    requires !IsBlank(Some(code))
    ensures LexicalPart(LexicalAnalyzer.Report(code)) <= Run(Some(code), syntax, before).output
    ensures !LexicalGate(LexicalAnalyzer.Report(code)) ==>
              SyntaxPart(LexicalAnalyzer.Report(code), syntax(code)) <= Run(Some(code), syntax, before).output
    ensures !LexicalGate(LexicalAnalyzer.Report(code)) && !SyntaxGate(syntax(code)) ==>
              SemanticPart(LexicalAnalyzer.Report(code), syntax(code), SemanticAnalyzer.Report(code))
              <= Run(Some(code), syntax, before).output
    ensures Contains(Run(Some(code), syntax, before).output,
                     LexicalHeader + LexicalAnalyzer.Report(code) + "\n")
    ensures !LexicalGate(LexicalAnalyzer.Report(code)) ==>
              Contains(Run(Some(code), syntax, before).output, SyntaxHeader + syntax(code) + "\n")
    ensures !LexicalGate(LexicalAnalyzer.Report(code)) && !SyntaxGate(syntax(code)) ==>
              Contains(Run(Some(code), syntax, before).output,
                       SemanticHeader + SemanticAnalyzer.Report(code) + "\n")
  {
    var lex := LexicalAnalyzer.Report(code);
    var sem := SemanticAnalyzer.Report(code);
    StagesShown(lex, syntax(code), sem, LexicalGate(lex), SyntaxGate(syntax(code)), SemanticGate(sem));
  }

  /** Once the lexical report shows its failure text, the run stops there: the syntax
      analyzer is never consulted, the output ends with the lexical abort notice and
      only the lexical button stays enabled. */
  lemma LexicalAbortStops(code: string, syntax: string -> string, other: string -> string,
                          before: Buttons)
    requires !IsBlank(Some(code)) && LexicalGate(LexicalAnalyzer.Report(code))
    ensures Run(Some(code), syntax, before) == Run(Some(code), other, before)
    ensures EndsWith(Run(Some(code), syntax, before).output, LexicalAbort)
    ensures Run(Some(code), syntax, before).buttons == Buttons(true, false, false)
  {
    EndsWithAppended(LexicalPart(LexicalAnalyzer.Report(code)), LexicalAbort);
  }

  /** A line the lexical pattern rejects aborts the run: it is shown as an Unknown Token
      and the output ends with the lexical abort notice. */
  lemma UnknownTokenAborts(code: string, k: nat, syntax: string -> string, before: Buttons)
    requires !IsBlank(Some(code)) && k < |SplitLines(code)|
    requires LexicalAnalyzer.Match(Trim(SplitLines(code)[k])).None?
    ensures Contains(Run(Some(code), syntax, before).output,
                     "Unknown Token: " + Trim(SplitLines(code)[k]) + "\n")
    ensures EndsWith(Run(Some(code), syntax, before).output, LexicalAbort)
    ensures Run(Some(code), syntax, before).buttons == Buttons(true, false, false)
  {
    assert code != [];
    LexicalAnalyzer.UnknownLineReported(code, k);
    var token := "Unknown Token: " + Trim(SplitLines(code)[k]) + "\n";
    var report := LexicalAnalyzer.Report(code);
    ContainsAfter(LexicalHeader, report, token);
    ContainsBefore(LexicalHeader + report, "\n", token);
    ContainsAfter(Running, LexicalHeader + report + "\n", token);
    ContainsBefore(LexicalPart(report), LexicalAbort, token);
    LexicalAbortStops(code, syntax, syntax, before);
  }

  /** A syntax report with a failure text stops the run after it: the output ends with
      the syntax abort notice and the semantic button is disabled. */
  lemma SyntaxAbortStops(code: string, syntax: string -> string, before: Buttons)
    requires !IsBlank(Some(code)) && !LexicalGate(LexicalAnalyzer.Report(code))
    requires SyntaxGate(syntax(code))
    ensures EndsWith(Run(Some(code), syntax, before).output, SyntaxAbort)
    ensures Run(Some(code), syntax, before).buttons == Buttons(true, true, false)
  {
    EndsWithAppended(SyntaxPart(LexicalAnalyzer.Report(code), syntax(code)), SyntaxAbort);
  }

  /** A line that fails the semantic check, once the earlier stages pass, is shown as
      its Error line and the output ends with the semantic abort notice, every button
      enabled. */
  lemma SemanticErrorAborts(code: string, k: nat, syntax: string -> string, before: Buttons)
    requires !IsBlank(Some(code)) && !LexicalGate(LexicalAnalyzer.Report(code))
    requires !SyntaxGate(syntax(code)) && k < |SplitLines(code)|
    requires SemanticAnalyzer.CheckLine(SplitLines(code)[k]).Fail?
    ensures Contains(Run(Some(code), syntax, before).output,
                     "Error: " + SemanticAnalyzer.CheckLine(SplitLines(code)[k]).reason + "\n")
    ensures EndsWith(Run(Some(code), syntax, before).output, SemanticAbort)
    ensures Run(Some(code), syntax, before).buttons == Buttons(true, true, true)
  {
    assert code != [];
    SemanticAnalyzer.LineReported(code, k);
    var error := "Error: " + SemanticAnalyzer.CheckLine(SplitLines(code)[k]).reason + "\n";
    var lex := LexicalAnalyzer.Report(code);
    var report := SemanticAnalyzer.Report(code);
    assert SemanticGate(report);
    ContainsAfter(SemanticHeader, report, error);
    ContainsBefore(SemanticHeader + report, "\n", error);
    ContainsAfter(SyntaxPart(lex, syntax(code)), SemanticHeader + report + "\n", error);
    ContainsBefore(SemanticPart(lex, syntax(code), report), SemanticAbort, error);
    EndsWithAppended(SemanticPart(lex, syntax(code), report), SemanticAbort);
  }

  /** The buttons after a run of non-blank code: lexical analysis is always enabled,
      syntax analysis exactly when the lexical stage passed, semantic analysis exactly
      when the lexical and the syntax stages passed. */
  lemma ButtonsAfterRun(code: string, syntax: string -> string, before: Buttons)
    requires !IsBlank(Some(code))
    ensures Run(Some(code), syntax, before).buttons.lexical
    ensures Run(Some(code), syntax, before).buttons.syntax <==> !LexicalGate(LexicalAnalyzer.Report(code))
    ensures Run(Some(code), syntax, before).buttons.semantic <==>
              !LexicalGate(LexicalAnalyzer.Report(code)) && !SyntaxGate(syntax(code))
  {
  }

  /** The run ends with the completion notice exactly when the code is not blank and
      none of the three reports shows its failure text. */
  lemma CompletedIffAllPass(code: Option<string>, syntax: string -> string, before: Buttons)
    ensures EndsWith(Run(code, syntax, before).output, Completed) <==>
              !IsBlank(code) && !LexicalGate(LexicalAnalyzer.Report(code.value))
              && !SyntaxGate(syntax(code.value)) && !SemanticGate(SemanticAnalyzer.Report(code.value))
  {
    if IsBlank(code) {
      EndsWithExclusive(Run(code, syntax, before).output, NoCodeToRun, Completed, 2);
    } else {
      var c := code.value;
      var lex := LexicalAnalyzer.Report(c);
      var sem := SemanticAnalyzer.Report(c);
      StagesEnding(lex, syntax(c), sem, LexicalGate(lex), SyntaxGate(syntax(c)), SemanticGate(sem));
    }
  }

  // ---------------------------------------------------------------- the failure tests, as written and as intended

  /** `String s = "Lexical analysis failed";` */
  const LexicalMarkerCode := Declaration("String", "s", "\"" + LexicalMarker + "\"")

  /** `String s = "Error(s) detected";` */
  const SemanticMarkerCode := Declaration("String", "s", "\"" + SemanticMarker + "\"")

  /** The two failure texts can stand as the body of a string literal: no newline, no
      other line terminator and no double quote, and the semantic one has no capital L. */
  lemma MarkersArePlain()
    ensures IsIdentifier("s")
    ensures '\n' !in LexicalMarker && (forall k :: 0 <= k < |LexicalMarker| ==> LexicalMarker[k] != '"')
    ensures '\n' !in SemanticMarker && (forall k :: 0 <= k < |SemanticMarker| ==> SemanticMarker[k] != '"')
    ensures forall k :: 0 <= k < |SemanticMarker| ==> !IsLineTerminator(SemanticMarker[k])
    ensures 'L' !in SemanticMarker && 'L' !in "s"
  {
  }

  /** As written, the lexical test searches the whole report, and the report repeats the
      values of the code: this one-line code has no unknown token, yet the run aborts
      for lexical errors and leaves syntax analysis disabled. */
  lemma LexicalGateFalseAlarm(syntax: string -> string, before: Buttons)
    ensures !LexicalAnalyzer.HasUnknown(SplitLines(LexicalMarkerCode))
    ensures EndsWith(Run(Some(LexicalMarkerCode), syntax, before).output, LexicalAbort)
    ensures !Run(Some(LexicalMarkerCode), syntax, before).buttons.syntax
  {
    var body := LexicalMarker;
    var v := "\"" + body + "\"";
    MarkersArePlain();
    LexicalAnalyzer.StringDeclarationReported("s", body);
    ContainsSelf(body);
    ContainsMiddle("Value: \"", body, "\"\n", body);
    var front := "Data Type: String\n" + ("Identifier: " + "s" + "\n") + "Assignment Operator: =\n";
    ContainsMiddle(front, "Value: \"" + body + "\"\n", "\n", body);
    ContainsBefore(front + ("Value: \"" + body + "\"\n") + "\n", LexicalAnalyzer.SuccessSentence, body);
    assert LexicalGate(LexicalAnalyzer.Report(LexicalMarkerCode));
    LexicalAnalyzer.DeclarationIsOneLine("s", v);
    LexicalAbortStops(LexicalMarkerCode, syntax, syntax, before);
    ButtonsAfterRun(LexicalMarkerCode, syntax, before);
  }

  /** As written, the semantic test searches the whole report too, and a passing line's
      message repeats its value: this one-line code passes every semantic check and the
      lexical stage, yet, whenever the syntax stage passes as well, the run aborts for
      semantic errors. */
  lemma SemanticGateFalseAlarm(syntax: string -> string, before: Buttons)
    ensures !SemanticAnalyzer.AnyFail(SemanticAnalyzer.Outcomes(SplitLines(SemanticMarkerCode)))
    ensures !LexicalGate(LexicalAnalyzer.Report(SemanticMarkerCode))
    ensures !SyntaxGate(syntax(SemanticMarkerCode)) ==>
              EndsWith(Run(Some(SemanticMarkerCode), syntax, before).output, SemanticAbort)
  {
    MarkersArePlain();
    StringDeclarationRun("s", SemanticMarker, syntax, before);
  }

  /** `String n = "body";`, with no capital L in n or the body, passes the lexical test
      as written and every semantic check, and its semantic report shows the body; once
      the syntax stage passes, the run ends with the semantic abort notice exactly when
      that report shows the semantic failure text. */
  lemma StringDeclarationRun(n: string, body: string, syntax: string -> string, before: Buttons)
    requires IsIdentifier(n) && '\n' !in body && (forall k :: 0 <= k < |body| ==> body[k] != '"')
    requires forall k :: 0 <= k < |body| ==> !IsLineTerminator(body[k])
    requires 'L' !in n && 'L' !in body
    ensures var code := Declaration("String", n, "\"" + body + "\"");
            && !SemanticAnalyzer.AnyFail(SemanticAnalyzer.Outcomes(SplitLines(code)))
            && !LexicalGate(LexicalAnalyzer.Report(code))
            && Contains(SemanticAnalyzer.Report(code), body)
            && (!SyntaxGate(syntax(code)) ==>
                  (EndsWith(Run(Some(code), syntax, before).output, SemanticAbort)
                   <==> SemanticGate(SemanticAnalyzer.Report(code))))
  {
    var code := Declaration("String", n, "\"" + body + "\"");
    SemanticAnalyzer.StringDeclarationPasses(n, body);
    SemanticReportRepeats(n, body);
    LexicalReportClean(n, body);
    SemanticAnalyzer.NoNewlineInDeclaration(n, body);
    LexicalAnalyzer.DeclarationIsOneLine(n, "\"" + body + "\"");
    var lex := LexicalAnalyzer.Report(code);
    var sem := SemanticAnalyzer.Report(code);
    StagesEnding(lex, syntax(code), sem, LexicalGate(lex), SyntaxGate(syntax(code)), SemanticGate(sem));
  }

  /** The semantic report of `String n = "body";` shows the body of the string. */
  lemma SemanticReportRepeats(n: string, body: string)
    requires IsIdentifier(n) && forall k :: 0 <= k < |body| ==> !IsLineTerminator(body[k])
    ensures Contains(SemanticAnalyzer.Report(Declaration("String", n, "\"" + body + "\"")), body)
  {
    SemanticAnalyzer.StringDeclarationPasses(n, body);
    PassMessageRepeats(n, body);
  }

  lemma PassMessageRepeats(n: string, body: string)
    ensures Contains(SemanticAnalyzer.PassMessage(n, "\"" + body + "\"", "String") + "\n"
                     + SemanticAnalyzer.SuccessSentence, body)
  {
    var v := "\"" + body + "\"";
    ContainsSelf(body);
    ContainsMiddle("\"", body, "\"", body);
    var upToValue := "Semantic analysis passed for variable '" + n + "' with value '" + v;
    ContainsAfter("Semantic analysis passed for variable '" + n + "' with value '", v, body);
    ContainsBefore(upToValue, "' and type '", body);
    ContainsBefore(upToValue + "' and type '", "String", body);
    ContainsBefore(upToValue + "' and type '" + "String", "'.", body);
    var message := SemanticAnalyzer.PassMessage(n, v, "String");
    assert message == upToValue + "' and type '" + "String" + "'.";
    ContainsBefore(message, "\n", body);
    ContainsBefore(message + "\n", SemanticAnalyzer.SuccessSentence, body);
  }

  /** The lexical report of `String n = "body";` does not show the lexical failure text
      when neither n nor the body holds a capital L: the only L of the report starts its
      success sentence, whose "Analysis" is capitalised. */
  lemma LexicalReportClean(n: string, body: string)
    requires IsIdentifier(n) && '\n' !in body && (forall k :: 0 <= k < |body| ==> body[k] != '"')
    requires 'L' !in n && 'L' !in body
    ensures !LexicalGate(LexicalAnalyzer.Report(Declaration("String", n, "\"" + body + "\"")))
  {
    LexicalAnalyzer.StringDeclarationReported(n, body);
    var front := "Data Type: String\n" + ("Identifier: " + n + "\n") + "Assignment Operator: =\n"
                 + ("Value: \"" + body + "\"\n") + "\n";
    FieldsLackCapitalL(n, body);
    MarkerOnlyAfter(front);
  }

  lemma FieldsLackCapitalL(n: string, body: string)
    requires 'L' !in n && 'L' !in body
    ensures 'L' !in "Data Type: String\n" + ("Identifier: " + n + "\n") + "Assignment Operator: =\n"
                    + ("Value: \"" + body + "\"\n") + "\n"
  {
  }

  /** Text without a capital L, followed by the lexical success sentence, does not hold
      the lexical failure text. */
  lemma MarkerOnlyAfter(front: string)
    requires 'L' !in front
    ensures !Contains(front + LexicalAnalyzer.SuccessSentence, LexicalMarker)
  {
    var closing := LexicalAnalyzer.SuccessSentence;
    var r := front + closing;
    var m := LexicalMarker;
    forall k | 0 <= k <= |r| ensures !(m <= r[k..]) {
      if k + |m| <= |r| {
        assert r[k..][..|m|] == r[k..k + |m|];
        if k < |front| {
          assert r[k..k + |m|][0] == front[k] != m[0];
        } else {
          assert r[k..k + |m|] == closing[k - |front|..k - |front| + |m|];
          SuccessSentenceLacksMarker(k - |front|);
        }
      }
    }
  }

  /** The lexical success sentence does not hold the lexical failure text. */
  lemma SuccessSentenceLacksMarker(i: nat)
    requires i + |LexicalMarker| <= |LexicalAnalyzer.SuccessSentence|
    ensures LexicalAnalyzer.SuccessSentence[i..i + |LexicalMarker|] != LexicalMarker
  {
    var closing := LexicalAnalyzer.SuccessSentence;
    var m := LexicalMarker;
    var a := "Lexical Analysis ";
    var b := "completed successfully.\n";
    assert closing == a + b;
    if i == 0 {
      assert closing[0..|m|][8] == closing[8] != m[8];
    } else {
      assert closing[i..i + |m|][0] == closing[i];
      if i < |a| {
        assert 'L' !in a[1..];
        assert closing[i] == a[1..][i - 1];
      } else {
        assert 'L' !in b[..2];
        assert closing[i] == b[..2][i - |a|];
      }
    }
  }

  /** The tests execute() evidently means: the report ends with the stage's own failure
      sentence, which no value in the code can imitate. */
  predicate IntendedLexicalGate(report: string) { EndsWith(report, LexicalAnalyzer.FailureSentence) }

  predicate IntendedSemanticGate(report: string) { EndsWith(report, SemanticAnalyzer.FailureSentence) }

  /** Run with the intended lexical and semantic tests; everything else as written. */
  function IntendedRun(code: Option<string>, syntax: string -> string, before: Buttons): RunResult {
    if IsBlank(code) then RunResult(NoCodeToRun, before)
    else
      var c := code.value;
      var lex := LexicalAnalyzer.Report(c);
      var sem := SemanticAnalyzer.Report(c);
      Stages(lex, syntax(c), sem, IntendedLexicalGate(lex), SyntaxGate(syntax(c)), IntendedSemanticGate(sem))
  }

  /** With the intended tests a run aborts for lexical errors exactly when some line has
      an unknown token, and, once the lexical and syntax stages pass, aborts for semantic
      errors exactly when some line fails its check. */
  lemma IntendedRunAborts(code: string, syntax: string -> string, before: Buttons)
    requires !IsBlank(Some(code))
    ensures EndsWith(IntendedRun(Some(code), syntax, before).output, LexicalAbort)
            <==> LexicalAnalyzer.HasUnknown(SplitLines(code))
    ensures !IntendedRun(Some(code), syntax, before).buttons.syntax
            <==> LexicalAnalyzer.HasUnknown(SplitLines(code))
    ensures !LexicalAnalyzer.HasUnknown(SplitLines(code)) && !SyntaxGate(syntax(code)) ==>
              (EndsWith(IntendedRun(Some(code), syntax, before).output, SemanticAbort)
               <==> SemanticAnalyzer.AnyFail(SemanticAnalyzer.Outcomes(SplitLines(code))))
  {
    assert code != [];
    LexicalAnalyzer.ReportVerdict(code);
    SemanticAnalyzer.ReportVerdict(code);
    var lex := LexicalAnalyzer.Report(code);
    var sem := SemanticAnalyzer.Report(code);
    StagesEnding(lex, syntax(code), sem, IntendedLexicalGate(lex), SyntaxGate(syntax(code)),
                 IntendedSemanticGate(sem));
  }

  /** The codes that set off the tests as written pass them as intended. */
  lemma IntendedGatesNoFalseAlarm(syntax: string -> string, before: Buttons)
    ensures !EndsWith(IntendedRun(Some(LexicalMarkerCode), syntax, before).output, LexicalAbort)
    ensures !SyntaxGate(syntax(SemanticMarkerCode)) ==>
              EndsWith(IntendedRun(Some(SemanticMarkerCode), syntax, before).output, Completed)
  {
    MarkersArePlain();
    LexicalGateFalseAlarm(syntax, before);
    IntendedRunAborts(LexicalMarkerCode, syntax, before);
    SemanticMarkerPassesAsIntended(syntax, before);
  }

  lemma SemanticMarkerPassesAsIntended(syntax: string -> string, before: Buttons)
    ensures !SyntaxGate(syntax(SemanticMarkerCode)) ==>
              EndsWith(IntendedRun(Some(SemanticMarkerCode), syntax, before).output, Completed)
  {
    MarkersArePlain();
    StringDeclarationIntendedRun("s", SemanticMarker, syntax, before);
  }

  /** With the intended tests `String n = "body";`, for an identifier n and a body with no
      `"` and no line terminator, runs to completion whenever the syntax stage passes,
      whatever text such a body holds. */
  lemma StringDeclarationIntendedRun(n: string, body: string, syntax: string -> string, before: Buttons)
    requires IsIdentifier(n) && '\n' !in body && (forall k :: 0 <= k < |body| ==> body[k] != '"')
    requires forall k :: 0 <= k < |body| ==> !IsLineTerminator(body[k])
    ensures var code := Declaration("String", n, "\"" + body + "\"");
            !SyntaxGate(syntax(code)) ==> EndsWith(IntendedRun(Some(code), syntax, before).output, Completed)
  {
    var v := "\"" + body + "\"";
    var code := Declaration("String", n, v);
    LexicalAnalyzer.StringDeclarationReported(n, body);
    SemanticAnalyzer.StringDeclarationPasses(n, body);
    SemanticAnalyzer.NoNewlineInDeclaration(n, body);
    LexicalAnalyzer.DeclarationIsOneLine(n, v);
    LexicalAnalyzer.ReportVerdict(code);
    SemanticAnalyzer.ReportVerdict(code);
    var lex := LexicalAnalyzer.Report(code);
    var sem := SemanticAnalyzer.Report(code);
    StagesEnding(lex, syntax(code), sem, IntendedLexicalGate(lex), SyntaxGate(syntax(code)),
                 IntendedSemanticGate(sem));
  }
}
