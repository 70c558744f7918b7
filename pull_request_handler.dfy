/** The webhook handler for `pull_request.synchronize`: it lists the changed
    files, downloads and normalises every C# file, posts it to the analysis
    service, collects the error lists into one message, and publishes a
    check run and a comment.  Every network call is an outcome supplied as
    input; what the handler produces is the sequence of requests it issues,
    which carries the message and the check-run fields. */
module PullRequestHandler {
  import opened JsStrings

  // ---------------------------------------------------------------------
  // Inputs and outputs

  /** The parts of the webhook payload the handler reads. */
  datatype PullRequest = PullRequest(owner: string, repo: string, number: nat, headSha: string)

  /** One entry of the changed-files listing. */
  datatype ChangedFile = ChangedFile(filename: string, rawUrl: string)

  /** The outcome of listing the pull request's changed files. */
  datatype Listing = ListingFailed | Listed(files: seq<ChangedFile>)

  /** The outcome of downloading a file's raw text; a body that is not text
      makes the normalisation throw into the same handler, so it counts as a
      failure too. */
  datatype Download = DownloadFailed | Downloaded(content: string)

  /** What the handler reads back from the analysis service: the POST fails,
      or `result.errors` is missing (reading its length throws), or it is a
      list of messages. */
  datatype AnalyzerReply = PostFailed | NoErrorsArray | ErrorList(errors: seq<string>)

  datatype CheckRunOutput = CheckRunOutput(title: string, summary: string, text: string)

  /** The requests the handler issues, in the order it issues them. */
  datatype Request =
    | ListFiles(owner: string, repo: string, pullNumber: nat)
    | GetRaw(url: string)
    | PostAnalyze(code: string)
    | CreateCheckRun(owner: string, repo: string, name: string, headSha: string,
                     status: string, conclusion: string, output: CheckRunOutput)
    | CreateComment(owner: string, repo: string, issueNumber: nat, body: string)

  const Greeting: string := "Thanks for opening a new PR! \n"
  const CheckRunName: string := "Code Analysis"
  const FoundErrors: string := "Code analysis found errors."
  const Passed: string := "Code analysis passed successfully."

  // ---------------------------------------------------------------------
  // The per-file text handling

  /** `content.replace(/\\n/g, "\n").replace(/\t/g, "").trim()` */
  function Normalize(content: string): (r: string)
    ensures '\t' !in r
    ensures r == [] || (!IsWhiteSpace(r[0]) && !IsWhiteSpace(r[|r| - 1]))
    ensures |r| <= |content|
  {
    Trim(RemoveTabs(UnescapeNewlines(content)))
  }

  /** Normalising a normalised text changes it exactly when that text still
      holds a backslash followed by `n`, which the tab removal can create
      (backslash, tab, `n`); so normalisation is not idempotent in general. */
  lemma NormalizeIdempotentIff(content: string)
    ensures Normalize(Normalize(content)) == Normalize(content) <==> !HasEscapedNewline(Normalize(content))
  {
    var n := Normalize(content);
    UnescapeChangesIff(n);
    if !HasEscapedNewline(n) {
      RemoveTabsNoTab(n);
      TrimIdempotent(RemoveTabs(UnescapeNewlines(content)));
    } else {
      var t := RemoveTabs(UnescapeNewlines(n));
      assert |Trim(t)| <= |t|;
    }
  }

  /** Backslash, tab, `n` normalises to backslash-`n`, which normalises again to the empty text. */
  lemma NormalizeNotIdempotent()
    ensures var s := ['\\', '\t', 'n'];
      Normalize(s) == ['\\', 'n'] && Normalize(Normalize(s)) == []
  {
    var s := ['\\', '\t', 'n'];
    assert !EscapedNewlineAt(s, 0);
    assert UnescapeNewlines(s) == s;
    assert RemoveTabs(s) == ['\\', 'n'];
    assert SkipWhiteSpace(['\\', 'n'], 0) == 0;
    assert SkipWhiteSpaceBack(['\\', 'n'], 2) == 2;
    assert EscapedNewlineAt(['\\', 'n'], 0);
    assert UnescapeNewlines(['\\', 'n']) == ['\n'];
    assert RemoveTabs(['\n']) == ['\n'];
    assert SkipWhiteSpace(['\n'], 0) == 1;
  }

  /** `messageForNewPRs`: the file name, a colon and newline, then the errors
      joined by newlines, ending with the last error. */
  function MessageForNewPRs(filename: string, errors: seq<string>): (m: string)
    ensures |filename| + 2 <= |m| && m[..|filename| + 2] == filename + ":\n"
    ensures errors == [] ==> m == filename + ":\n"
    ensures errors != [] ==> EndsWith(m, errors[|errors| - 1])
  {
    filename + ":\n" + Join(errors, "\n")
  }

  /** The block can be taken apart again: the header gives the file name and
      splitting the rest at newlines gives back the errors, as long as no
      error spans lines; the block ends with the last error. */
  lemma MessageForNewPRsParts(filename: string, errors: seq<string>)
    requires errors != []
    requires forall k :: 0 <= k < |errors| ==> '\n' !in errors[k]
    ensures var m := MessageForNewPRs(filename, errors);
      && |filename| + 2 <= |m|
      && m[..|filename| + 2] == filename + ":\n"
      && Split(m[|filename| + 2..], '\n') == errors
      && EndsWith(m, errors[|errors| - 1])
  {
    var m := MessageForNewPRs(filename, errors);
    assert m[|filename| + 2..] == Join(errors, "\n");
    SplitJoin(errors, '\n');
    var last := errors[|errors| - 1];
    assert m[|m| - |last|..] == Join(errors, "\n")[|Join(errors, "\n")| - |last|..];
  }

  // ---------------------------------------------------------------------
  // What one changed file contributes

  /** `file.filename.endsWith(".cs")` */
  predicate IsSourceFile(file: ChangedFile) {
    EndsWith(file.filename, ".cs")
  }

  /** The requests one file causes: none for a file that is not C#, the
      download, and the POST of its normalised text when the download worked. */
  function FileRequests(file: ChangedFile, download: string -> Download): seq<Request> {
    if !IsSourceFile(file) then []
    else match download(file.rawUrl)
      case DownloadFailed => [GetRaw(file.rawUrl)]
      case Downloaded(content) => [GetRaw(file.rawUrl), PostAnalyze(Normalize(content))]
  }

  /** The error list the handler reads for one file; empty when it reads none. */
  function ReportedErrors(file: ChangedFile, download: string -> Download,
                          analyze: string -> AnalyzerReply): seq<string>
  {
    if !IsSourceFile(file) then []
    else match download(file.rawUrl)
      case DownloadFailed => []
      case Downloaded(content) =>
        match analyze(Normalize(content))
        case ErrorList(errors) => errors
        case _ => []
  }

  predicate Contributes(file: ChangedFile, download: string -> Download, analyze: string -> AnalyzerReply) {
    |ReportedErrors(file, download, analyze)| > 0
  }

  /** What one file appends to the message. */
  function Block(file: ChangedFile, download: string -> Download, analyze: string -> AnalyzerReply): string {
    if Contributes(file, download, analyze)
    then MessageForNewPRs(file.filename, ReportedErrors(file, download, analyze)) + "\n"
    else []
  }

  // ---------------------------------------------------------------------
  // The whole listing, file by file in listing order

  /** The per-file results joined in listing order. */
  function FlatMap<T, U>(xs: seq<T>, f: T -> seq<U>): seq<U> {
    if xs == [] then [] else FlatMap(xs[..|xs| - 1], f) + f(xs[|xs| - 1])
  }

  /** Some element satisfies `p`, checked in order. */
  predicate Any<T>(xs: seq<T>, p: T -> bool) {
    if xs == [] then false else Any(xs[..|xs| - 1], p) || p(xs[|xs| - 1])
  }

  lemma {:induction false} FlatMapAppend<T, U>(a: seq<T>, b: seq<T>, f: T -> seq<U>)
    ensures FlatMap(a + b, f) == FlatMap(a, f) + FlatMap(b, f)
  {
    if b == [] {
      assert a + b == a;
    } else {
      var b' := b[..|b| - 1];
      assert (a + b)[..|a + b| - 1] == a + b';
      assert (a + b)[|a + b| - 1] == b[|b| - 1];
      FlatMapAppend(a, b', f);
    }
  }

  lemma {:induction false} AnyAppend<T>(a: seq<T>, b: seq<T>, p: T -> bool)
    ensures Any(a + b, p) == (Any(a, p) || Any(b, p))
  {
    if b == [] {
      assert a + b == a;
    } else {
      var b' := b[..|b| - 1];
      assert (a + b)[..|a + b| - 1] == a + b';
      assert (a + b)[|a + b| - 1] == b[|b| - 1];
      AnyAppend(a, b', p);
    }
  }

  lemma {:induction false} AnyIff<T>(xs: seq<T>, p: T -> bool)
    ensures Any(xs, p) <==> exists i :: 0 <= i < |xs| && p(xs[i])
  {
    if xs != [] {
      var front := xs[..|xs| - 1];
      AnyIff(front, p);
      if Any(front, p) {
        var i :| 0 <= i < |front| && p(front[i]);
        assert xs[i] == front[i];
      }
      if exists i :: 0 <= i < |xs| && p(xs[i]) {
        var i :| 0 <= i < |xs| && p(xs[i]);
        if i < |front| {
          assert front[i] == xs[i];
        }
      }
    }
  }

  /** An element that yields nothing can be dropped from the list. */
  lemma FlatMapSkip<T, U>(xs: seq<T>, i: nat, f: T -> seq<U>)
    requires i < |xs| && f(xs[i]) == []
    ensures FlatMap(xs, f) == FlatMap(xs[..i] + xs[i + 1..], f)
  {
    var rest := xs[i + 1..];
    assert xs == xs[..i + 1] + rest;
    assert xs[..i + 1][..i] == xs[..i];
    FlatMapAppend(xs[..i + 1], rest, f);
    FlatMapAppend(xs[..i], rest, f);
  }

  /** An element that does not satisfy `p` can be dropped from the list. */
  lemma AnySkip<T>(xs: seq<T>, i: nat, p: T -> bool)
    requires i < |xs| && !p(xs[i])
    ensures Any(xs, p) == Any(xs[..i] + xs[i + 1..], p)
  {
    var rest := xs[i + 1..];
    assert xs == xs[..i + 1] + rest;
    assert xs[..i + 1][..i] == xs[..i];
    AnyAppend(xs[..i + 1], rest, p);
    AnyAppend(xs[..i], rest, p);
  }

  /** The elements satisfying `p`, in order. */
  function Filter<T>(xs: seq<T>, p: T -> bool): (r: seq<T>)
    ensures forall k :: 0 <= k < |r| ==> p(r[k])
    ensures forall k :: 0 <= k < |r| ==> r[k] in xs
    ensures forall k :: 0 <= k < |xs| && p(xs[k]) ==> xs[k] in r
    ensures |r| <= |xs|
  {
    if xs == [] then [] else Filter(xs[..|xs| - 1], p) + (if p(xs[|xs| - 1]) then [xs[|xs| - 1]] else [])
  }

  /** Filtering works piecewise, so the kept elements keep their order. */
  lemma {:induction false} FilterAppend<T>(a: seq<T>, b: seq<T>, p: T -> bool)
    ensures Filter(a + b, p) == Filter(a, p) + Filter(b, p)
  {
    if b == [] {
      assert a + b == a;
    } else {
      var b' := b[..|b| - 1];
      assert (a + b)[..|a + b| - 1] == a + b';
      assert (a + b)[|a + b| - 1] == b[|b| - 1];
      FilterAppend(a, b', p);
    }
  }

  /** Dropping the elements that yield nothing changes nothing. */
  lemma {:induction false} FilterKeepsResult<T, U>(xs: seq<T>, keep: T -> bool, f: T -> seq<U>, p: T -> bool)
    requires forall x :: !keep(x) ==> f(x) == [] && !p(x)
    ensures FlatMap(Filter(xs, keep), f) == FlatMap(xs, f)
    ensures Any(Filter(xs, keep), p) == Any(xs, p)
  {
    if xs != [] {
      var front := xs[..|xs| - 1];
      var last := xs[|xs| - 1];
      FilterKeepsResult(front, keep, f, p);
      if keep(last) {
        FlatMapAppend(Filter(front, keep), [last], f);
        AnyAppend(Filter(front, keep), [last], p);
        assert [last][..0] == [];
      } else {
        assert Filter(xs, keep) == Filter(front, keep);
      }
    }
  }

  function Blocks(files: seq<ChangedFile>, download: string -> Download, analyze: string -> AnalyzerReply): string {
    FlatMap(files, f => Block(f, download, analyze))
  }

  predicate AnyErrors(files: seq<ChangedFile>, download: string -> Download, analyze: string -> AnalyzerReply) {
    Any(files, f => Contributes(f, download, analyze))
  }

  function Traffic(files: seq<ChangedFile>, download: string -> Download): seq<Request> {
    FlatMap(files, f => FileRequests(f, download))
  }

  /** The message and the flag after the loop. */
  datatype ReviewSummary = ReviewSummary(prMessage: string, hasErrors: bool)

  function Review(files: seq<ChangedFile>, download: string -> Download, analyze: string -> AnalyzerReply): ReviewSummary {
    ReviewSummary(Greeting + Blocks(files, download, analyze), AnyErrors(files, download, analyze))
  }

  /** Files are handled one after another: the result for two lists run back
      to back is the two results joined. */
  lemma ReviewAppend(a: seq<ChangedFile>, b: seq<ChangedFile>,
                     download: string -> Download, analyze: string -> AnalyzerReply)
    ensures Blocks(a + b, download, analyze) == Blocks(a, download, analyze) + Blocks(b, download, analyze)
    ensures AnyErrors(a + b, download, analyze) == (AnyErrors(a, download, analyze) || AnyErrors(b, download, analyze))
    ensures Traffic(a + b, download) == Traffic(a, download) + Traffic(b, download)
  {
    FlatMapAppend(a, b, f => Block(f, download, analyze));
    AnyAppend(a, b, f => Contributes(f, download, analyze));
    FlatMapAppend(a, b, f => FileRequests(f, download));
  }

  /** The folds grow by one file at a time. */
  lemma ExtendByOne(files: seq<ChangedFile>, i: nat, download: string -> Download, analyze: string -> AnalyzerReply)
    requires i < |files|
    ensures Blocks(files[..i + 1], download, analyze) == Blocks(files[..i], download, analyze) + Block(files[i], download, analyze)
    ensures AnyErrors(files[..i + 1], download, analyze) == (AnyErrors(files[..i], download, analyze) || Contributes(files[i], download, analyze))
    ensures Traffic(files[..i + 1], download) == Traffic(files[..i], download) + FileRequests(files[i], download)
  {
    assert files[..i + 1][..i] == files[..i];
  }

  /** `hasErrors` is set exactly when some file returned a non-empty error list. */
  lemma AnyErrorsIff(files: seq<ChangedFile>, download: string -> Download, analyze: string -> AnalyzerReply)
    ensures AnyErrors(files, download, analyze) <==>
              exists i :: 0 <= i < |files| && Contributes(files[i], download, analyze)
  {
    AnyIff(files, f => Contributes(f, download, analyze));
  }

  /** A file that contributes nothing (not C#, download failed, POST failed,
      no `errors` array, or an empty one) leaves the result of the others as
      if it were not in the listing: the loop carries on with the next file. */
  lemma SkippedFileIgnored(files: seq<ChangedFile>, i: nat, download: string -> Download, analyze: string -> AnalyzerReply)
    requires i < |files|
    requires !Contributes(files[i], download, analyze)
    ensures Review(files, download, analyze) == Review(files[..i] + files[i + 1..], download, analyze)
  {
    FlatMapSkip(files, i, f => Block(f, download, analyze));
    AnySkip(files, i, f => Contributes(f, download, analyze));
  }

  /** A C# file whose download fails, whose POST fails, or whose answer has no
      `errors` array adds nothing to the message and does not set the flag. */
  lemma FailedFileContributesNothing(file: ChangedFile, download: string -> Download, analyze: string -> AnalyzerReply)
    requires IsSourceFile(file)
    requires || download(file.rawUrl).DownloadFailed?
             || analyze(Normalize(download(file.rawUrl).content)).PostFailed?
             || analyze(Normalize(download(file.rawUrl).content)).NoErrorsArray?
    ensures !Contributes(file, download, analyze) && Block(file, download, analyze) == []
  {
  }

  /** The C# files among those listed. */
  function SourceFiles(files: seq<ChangedFile>): (r: seq<ChangedFile>)
    ensures forall k :: 0 <= k < |r| ==> IsSourceFile(r[k])
    ensures forall f :: f in r <==> f in files && IsSourceFile(f)
  {
    Filter(files, IsSourceFile)
  }

  /** The C# files are kept in listing order: the selection works file by
      file, keeping a file exactly when its name ends in ".cs". */
  lemma SourceFilesInOrder(a: seq<ChangedFile>, b: seq<ChangedFile>, file: ChangedFile)
    ensures SourceFiles(a + b) == SourceFiles(a) + SourceFiles(b)
    ensures SourceFiles([file]) == if IsSourceFile(file) then [file] else []
  {
    FilterAppend(a, b, IsSourceFile);
    assert [file][..0] == [];
  }

  /** A changed file that is not C# is never downloaded or analysed and
      changes nothing: dropping all of them leaves requests and result alike. */
  lemma OnlySourceFilesMatter(files: seq<ChangedFile>, download: string -> Download,
                              analyze: string -> AnalyzerReply)
    ensures Traffic(SourceFiles(files), download) == Traffic(files, download)
    ensures Review(SourceFiles(files), download, analyze) == Review(files, download, analyze)
  {
    var block := f => Block(f, download, analyze);
    var contributes := f => Contributes(f, download, analyze);
    var requestsOf := f => FileRequests(f, download);
    FilterKeepsResult(files, IsSourceFile, block, contributes);
    FilterKeepsResult(files, IsSourceFile, requestsOf, contributes);
  }

  /** A listing with no C# file is reviewed as clean: no download, no POST,
      the greeting alone, and no errors. */
  lemma NoSourceFilesGreetingOnly(files: seq<ChangedFile>, download: string -> Download, analyze: string -> AnalyzerReply)
    requires forall k :: 0 <= k < |files| ==> !IsSourceFile(files[k])
    ensures Traffic(files, download) == []
    ensures Review(files, download, analyze) == ReviewSummary(Greeting, false)
  {
    OnlySourceFilesMatter(files, download, analyze);
    var kept := SourceFiles(files);
    assert kept == [] by {
      AnyIff(files, IsSourceFile);
      FilterKeepsResult(files, IsSourceFile, (f: ChangedFile) => if IsSourceFile(f) then [f] else [], IsSourceFile);
    }
  }

  // ---------------------------------------------------------------------
  // Publication

  /** The check-run request: terminal and failed when there are errors,
      left in progress with success otherwise; the text is the message. */
  function CheckRun(pr: PullRequest, hasErrors: bool, prMessage: string): (r: Request)
    ensures r.CreateCheckRun? && r.owner == pr.owner && r.repo == pr.repo && r.headSha == pr.headSha
    ensures r.name == CheckRunName && r.output.title == CheckRunName && r.output.text == prMessage
    ensures hasErrors ==> r.status == "completed" && r.conclusion == "failure" && r.output.summary == FoundErrors
    ensures !hasErrors ==> r.status == "in_progress" && r.conclusion == "success" && r.output.summary == Passed
  {
    CreateCheckRun(pr.owner, pr.repo, CheckRunName, pr.headSha,
                   if hasErrors then "completed" else "in_progress",
                   if hasErrors then "failure" else "success",
                   CheckRunOutput(CheckRunName, if hasErrors then FoundErrors else Passed, prMessage))
  }

  /** The check run, then the comment, which is issued only once the check
      run was created: both sit in one try block. */
  function Publication(pr: PullRequest, summary: ReviewSummary, checkRunCreated: bool): (p: seq<Request>)
    ensures |p| == (if checkRunCreated then 2 else 1)
    ensures p[0] == CheckRun(pr, summary.hasErrors, summary.prMessage)
    ensures checkRunCreated ==> p[1] == CreateComment(pr.owner, pr.repo, pr.number, summary.prMessage)
  {
    [CheckRun(pr, summary.hasErrors, summary.prMessage)]
      + if checkRunCreated then [CreateComment(pr.owner, pr.repo, pr.number, summary.prMessage)] else []
  }

  /** What gets published: status, conclusion and summary follow the flag
      alone, the text and the comment body are the message, and the comment
      comes last and only after a successful check run. */
  lemma PublicationFacts(pr: PullRequest, summary: ReviewSummary, checkRunCreated: bool)
    ensures var p := Publication(pr, summary, checkRunCreated);
      && |p| == (if checkRunCreated then 2 else 1)
      && p[0].CreateCheckRun? && p[0].owner == pr.owner && p[0].repo == pr.repo && p[0].headSha == pr.headSha
      && p[0].name == CheckRunName && p[0].output.title == CheckRunName
      && p[0].status == (if summary.hasErrors then "completed" else "in_progress")
      && p[0].conclusion == (if summary.hasErrors then "failure" else "success")
      && p[0].output.summary == (if summary.hasErrors then FoundErrors else Passed)
      && p[0].output.text == summary.prMessage
      && (checkRunCreated ==> p[1].CreateComment?)
      && (forall k :: 0 <= k < |p| && p[k].CreateComment? ==>
            && k == 1 && checkRunCreated && p[k].owner == pr.owner && p[k].repo == pr.repo
            && p[k].issueNumber == pr.number && p[k].body == summary.prMessage)
  {
  }

  // ---------------------------------------------------------------------
  // The handler

  lemma AppendAssoc<T>(a: seq<T>, b: seq<T>, c: seq<T>)
    ensures (a + b) + c == a + (b + c)
  {
  }

  /** One pass of the handler's loop: the requests the file causes, and
      the block and flag it adds when the analysis reported errors. */
  method HandleFile(file: ChangedFile, download: string -> Download, analyze: string -> AnalyzerReply)
    returns (sent: seq<Request>, found: bool, block: string)
    ensures sent == FileRequests(file, download)
    ensures found == Contributes(file, download, analyze)
    ensures block == Block(file, download, analyze)
  {
    sent, found, block := [], false, [];
    if IsSourceFile(file) {
      sent := sent + [GetRaw(file.rawUrl)];
      match download(file.rawUrl) {
        case Downloaded(content) =>
          var convertedString := Normalize(content);
          sent := sent + [PostAnalyze(convertedString)];
          match analyze(convertedString) {
            case ErrorList(errors) =>
              if |errors| > 0 {
                found := true;
                block := MessageForNewPRs(file.filename, errors) + "\n";
              }
            case NoErrorsArray =>  // reading `errors.length` throws; the inner catch logs it
            case PostFailed =>     // the inner catch logs it
          }
        case DownloadFailed =>     // the outer catch logs it
      }
    }
  }

  /** The handler's loop over the listed files, starting from the message
      `start`: the requests issued, the message grown file by file, and
      whether any file reported errors. */
  method ReviewFiles(files: seq<ChangedFile>, download: string -> Download,
                     analyze: string -> AnalyzerReply, start: string)
    returns (sent: seq<Request>, prMessage: string, hasErrors: bool)
    ensures sent == Traffic(files, download)
    ensures prMessage == start + Blocks(files, download, analyze)
    ensures hasErrors == AnyErrors(files, download, analyze)
  {
    sent, prMessage, hasErrors := [], start, false;
    for i := 0 to |files|
      invariant sent == Traffic(files[..i], download)
      invariant prMessage == start + Blocks(files[..i], download, analyze)
      invariant hasErrors == AnyErrors(files[..i], download, analyze)
    {
      ExtendByOne(files, i, download, analyze);
      var requests, found, block := HandleFile(files[i], download, analyze);
      sent := sent + requests;
      if found {
        hasErrors := true;
        AppendAssoc(start, Blocks(files[..i], download, analyze), block);
        prMessage := prMessage + block;
      }
    }
    assert files[..|files|] == files;
  }

  /** `handlePullRequestSynchronize`: the requests issued, given how each
      network call turns out.  When the listing fails nothing else is sent;
      otherwise every file's requests in listing order, then the check run,
      then, if the check run was created, the comment. */
  method HandlePullRequestSynchronize(pr: PullRequest, listing: Listing, download: string -> Download,
                                      analyze: string -> AnalyzerReply, checkRunCreated: bool)
    returns (requests: seq<Request>)
    ensures listing.ListingFailed? ==> requests == [ListFiles(pr.owner, pr.repo, pr.number)]
    ensures listing.Listed? ==>
      requests == [ListFiles(pr.owner, pr.repo, pr.number)]
                  + Traffic(listing.files, download)
                  + Publication(pr, Review(listing.files, download, analyze), checkRunCreated)
  {
    requests := [ListFiles(pr.owner, pr.repo, pr.number)];
    if listing.ListingFailed? {
      return;
    }
    var sent, prMessage, hasErrors := ReviewFiles(listing.files, download, analyze, Greeting);
    requests := requests + sent;
    requests := requests + [CheckRun(pr, hasErrors, prMessage)];
    if checkRunCreated {
      requests := requests + [CreateComment(pr.owner, pr.repo, pr.number, prMessage)];
    }
  }
}
