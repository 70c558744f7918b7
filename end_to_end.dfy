/** The two halves wired together: the handler posts each normalised file
    to the analysis service and reads `result.errors` out of the service's
    JSON answer.  Only the `{ Errors }` shape of the analysis carries that
    field, and the naming-convention violations sit beside `result`, so the
    handler never reads them. */
module EndToEnd {
  import opened AnalyzeController
  import opened PullRequestHandler

  /** How the handler reads the service's answer: a 400 makes the POST
      reject, an answer whose `result` has no `errors` makes reading
      `errors.length` throw, and the `{ Errors }` shape gives its list. */
  function Reply(response: Response): (r: AnalyzerReply)
    ensures r.PostFailed? <==> response.BadRequest?
    ensures r.ErrorList? <==> response.Ok? && response.result.Errors?
    ensures r.ErrorList? ==> r.errors == response.result.errors
  {
    match response
    case BadRequest(_) => PostFailed
    case Ok(result, _) =>
      match result
      case Errors(errors) => ErrorList(errors)
      case _ => NoErrorsArray
  }

  /** The service as the handler sees it, for a given script engine, C#
      parser and upper-case test. */
  function Service(engine: string -> ScriptRun, classesOf: string -> seq<string>,
                   isUpper: char -> bool): string -> AnalyzerReply
  {
    code => Reply(AnalyzeCode(code, engine, classesOf, isUpper))
  }

  /** The answer the handler reads does not depend on the upper-case test:
      naming violations never reach it. */
  lemma ServiceIgnoresNaming(code: string, engine: string -> ScriptRun, classesOf: string -> seq<string>,
                             isUpper: char -> bool, isUpper': char -> bool)
    ensures Service(engine, classesOf, isUpper)(code) == Service(engine, classesOf, isUpper')(code)
  {
    var r := AnalyzeCode(code, engine, classesOf, isUpper);
    var r' := AnalyzeCode(code, engine, classesOf, isUpper');
    assert r.BadRequest? == r'.BadRequest?;
    if r.Ok? {
      assert r.result == r'.result;
    }
  }

  /** The review depends on the service only through its answers. */
  lemma {:induction false} ReviewCongruent(files: seq<ChangedFile>, download: string -> Download,
                                           analyze: string -> AnalyzerReply, analyze': string -> AnalyzerReply)
    requires forall code :: analyze(code) == analyze'(code)
    ensures Blocks(files, download, analyze) == Blocks(files, download, analyze')
    ensures AnyErrors(files, download, analyze) == AnyErrors(files, download, analyze')
    ensures Review(files, download, analyze) == Review(files, download, analyze')
  {
    if files != [] {
      var n := |files| - 1;
      ReviewCongruent(files[..n], download, analyze, analyze');
      ExtendByOne(files, n, download, analyze);
      ExtendByOne(files, n, download, analyze');
      assert files[..n + 1] == files;
      assert ReportedErrors(files[n], download, analyze) == ReportedErrors(files[n], download, analyze');
      assert Block(files[n], download, analyze) == Block(files[n], download, analyze');
      assert Contributes(files[n], download, analyze) == Contributes(files[n], download, analyze');
    }
  }

  /** The message and the flag come out the same whatever the naming check
      would report: a class name that breaks the convention is never shown
      on the pull request. */
  lemma NamingViolationsNeverReported(files: seq<ChangedFile>, download: string -> Download,
                                      engine: string -> ScriptRun, classesOf: string -> seq<string>,
                                      isUpper: char -> bool, isUpper': char -> bool)
    ensures Review(files, download, Service(engine, classesOf, isUpper))
         == Review(files, download, Service(engine, classesOf, isUpper'))
  {
    forall code {
      ServiceIgnoresNaming(code, engine, classesOf, isUpper, isUpper');
    }
    ReviewCongruent(files, download, Service(engine, classesOf, isUpper), Service(engine, classesOf, isUpper'));
  }

  /** What the handler reads for one posted text: the POST fails exactly
      when the parser finds a class without a name, and otherwise an error
      list comes back exactly when the analysis answered `{ Errors }`, and
      it is that list. */
  lemma ServiceReply(code: string, engine: string -> ScriptRun,
                     classesOf: string -> seq<string>, isUpper: char -> bool)
    ensures var reply := Service(engine, classesOf, isUpper)(code);
      var result := Analyze(code, engine);
      && (reply.PostFailed? <==> [] in classesOf(code))
      && (reply.ErrorList? <==> [] !in classesOf(code) && result.Errors?)
      && (reply.ErrorList? ==> reply.errors == result.errors)
  {
    var response := AnalyzeCode(code, engine, classesOf, isUpper);
    assert Service(engine, classesOf, isUpper)(code) == Reply(response);
    assert response.BadRequest? <==> [] in classesOf(code) by {
      var names := classesOf(code);
      if [] in names {
        var k :| 0 <= k < |names| && names[k] == [];
      }
    }
  }

  /** The errors a file contributes are exactly the error list that the
      analysis of its normalised download answered with, so each is the text
      of a compiler diagnostic other than CS0234 and CS0246. */
  lemma ReportedErrorsAreAnalysisErrors(file: ChangedFile, download: string -> Download,
                                        engine: string -> ScriptRun, classesOf: string -> seq<string>,
                                        isUpper: char -> bool)
    requires Contributes(file, download, Service(engine, classesOf, isUpper))
    ensures IsSourceFile(file) && download(file.rawUrl).Downloaded?
    ensures var result := Analyze(Normalize(download(file.rawUrl).content), engine);
      result.Errors? && ReportedErrors(file, download, Service(engine, classesOf, isUpper)) == result.errors
  {
    var service := Service(engine, classesOf, isUpper);
    var code := Normalize(download(file.rawUrl).content);
    assert service(code).ErrorList? && ReportedErrors(file, download, service) == service(code).errors;
    ServiceReply(code, engine, classesOf, isUpper);
  }

  /** A file in which the parser finds a class without a name makes the
      service answer 400, so that file adds nothing to the message. */
  lemma NamelessClassSilencesFile(file: ChangedFile, download: string -> Download,
                                  engine: string -> ScriptRun, classesOf: string -> seq<string>,
                                  isUpper: char -> bool)
    requires IsSourceFile(file) && download(file.rawUrl).Downloaded?
    requires [] in classesOf(Normalize(download(file.rawUrl).content))
    ensures !Contributes(file, download, Service(engine, classesOf, isUpper))
  {
    ServiceReply(Normalize(download(file.rawUrl).content), engine, classesOf, isUpper);
  }

  /** A file whose script compiles and runs contributes nothing, whatever
      names its classes carry: a lower-case class name alone never sets
      `hasErrors` nor reaches the comment. */
  lemma CleanRunNotReported(file: ChangedFile, download: string -> Download,
                            engine: string -> ScriptRun, classesOf: string -> seq<string>,
                            isUpper: char -> bool)
    requires IsSourceFile(file) && download(file.rawUrl).Downloaded?
    requires engine(RemoveNamespaceDeclaration(Normalize(download(file.rawUrl).content))).Ran?
    ensures !Contributes(file, download, Service(engine, classesOf, isUpper))
    ensures Block(file, download, Service(engine, classesOf, isUpper)) == []
  {
    ServiceReply(Normalize(download(file.rawUrl).content), engine, classesOf, isUpper);
  }
}
