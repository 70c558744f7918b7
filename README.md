# code-review-bot: a verified model of the review pipeline

The bot reviews pull requests. When a pull request is updated, the webhook
handler lists the changed files and keeps the C# ones. For each of those it:

- downloads the file;
- normalises the text: escaped newlines become newlines, tabs are dropped and the ends are trimmed;
- posts the text to a local analysis service;
- collects the error lists it gets back into one message, with a flag for "some file had errors".

It then publishes a check run whose state follows the flag, and a comment that
carries the message.

The analysis service does three things:

- It strips a namespace wrapper off the posted text: the header up to the first `{`, then the last `}`.
- It runs the rest as a C# script and reports the compiler's diagnostics, minus CS0234 and CS0246.
- Separately, it lists the classes whose names do not start with an upper-case letter.

The model has five modules:

- `JsStrings` (`js_strings.dfy`): the JavaScript string operations the handler uses. These are `endsWith`, `join`, the two global regular-expression replacements and `trim`. Beside them are their partners: `Split` as the inverse of `Join`, and `EscapeNewlines` as the encoding that the newline replacement undoes.
- `DotNetStrings` (`dotnet_strings.dfy`): the .NET `IndexOf`, `LastIndexOf` and `Remove` used by the namespace stripping. Each search returns -1 when nothing is found.
- `AnalyzeController` (`analyze_controller.dfy`): `RemoveNamespaceDeclaration`, the diagnostic filter, `Analyze`, the naming check and the `AnalyzeCode` endpoint.
- `PullRequestHandler` (`pull_request_handler.dfy`): the normalisation, `messageForNewPRs`, and the handler itself.
  - The handler is an imperative method. It returns the sequence of requests it issues: the listing, each download and POST, the check run and the comment.
  - It is proved against fold functions over the file list.
  - Every network call is an input: a listing outcome, a download outcome per URL, an analysis answer per posted text, and whether the check run was created.
- `EndToEnd` (`end_to_end.dfy`): the service's HTTP answer wired to what the handler reads (`result.errors`). It proves that naming violations never reach the pull request.

Three behaviours of the code differ from what a reader might expect, and the model follows the code:

- Normalisation is not idempotent. Backslash, tab, `n` normalises to backslash-`n`, and that normalises again to the empty text (`NormalizeNotIdempotent`). `NormalizeIdempotentIff` says exactly when a second pass changes the text.
- A class named in lower case does not by itself make the check run fail. The handler reads only `result.errors`, which is absent when the script runs. The violations list sits beside `result` and is never read (`NamingViolationsNeverReported`, `CleanRunNotReported`).
- The comment is posted whether or not there are errors. The code's own comment at app.js:110 says "only if there are errors", but the call at app.js:111-119 is unconditional. The model follows the call.

## Model

| member | source | states |
|---|---|---|
| JsStrings.Join | app.js:33 | `errors.join(sep)`: empty for no parts, begins with the first part and ends with the last part |
| JsStrings.JoinSnoc | app.js:33 | joining one more part appends the separator and that part, whatever the parts contain, which fixes the joined text on every list |
| JsStrings.SplitJoin | app.js:33 | splitting at the separator gives back the joined parts when none contains it (join is injective there) |
| JsStrings.UnescapeNewlines | app.js:67 | the global backslash-`n` replacement never lengthens the text, and its result holds no backslash-`n` (a left-to-right scan that does not revisit output) |
| JsStrings.EscapeUnescape | app.js:67 | on every text, a real newline included, the replacement keeps the escaped form: each backslash-`n` becomes a newline and every other character is kept |
| JsStrings.UnescapeUnique | app.js:67 | the replacement's result is the only text that holds no backslash-`n` and escapes to what the input escapes to, so the result is fixed on every input |
| JsStrings.UnescapeChangesIff | app.js:67 | the replacement is the identity exactly on texts without backslash-`n`, and strictly shortens the others |
| JsStrings.UnescapeEscape | app.js:67 | unescaping inverts escaping every newline as backslash-`n`, for texts without a literal backslash-`n` |
| JsStrings.RemoveTabs | app.js:68 | the result has no tab, is no longer than the input, and keeps the count of every other character |
| JsStrings.RemoveTabsAppend | app.js:68 | tab removal distributes over concatenation, so the other characters keep their order |
| JsStrings.RemoveTabsNoTab | app.js:68 | text without tabs is unchanged |
| JsStrings.SkipWhiteSpace | app.js:69 | the first non-white-space position at or after `from`; everything skipped is white space |
| JsStrings.SkipWhiteSpaceBack | app.js:69 | the end of the text before its trailing white space; everything dropped is white space |
| JsStrings.Trim | app.js:69 | `trim()`: the result is a slice of the input with only white space around it, and it neither starts nor ends with white space |
| JsStrings.TrimIdempotent | app.js:69 | trimming twice is trimming once |
| DotNetStrings.IndexOf | CodeAnalyzer/CodeAnalyzer/Controllers/AnalyzeController.cs:76 | `IndexOf(string)`: the first occurrence, and -1 exactly when there is none |
| DotNetStrings.IndexOfChar | CodeAnalyzer/CodeAnalyzer/Controllers/AnalyzeController.cs:80 | `IndexOf(char, start)`: the first match at or after `start`, and -1 exactly when there is none |
| DotNetStrings.LastIndexOfChar | CodeAnalyzer/CodeAnalyzer/Controllers/AnalyzeController.cs:87 | `LastIndexOf(char)`: the last match, and -1 exactly when there is none |
| AnalyzeController.RemoveHeader | CodeAnalyzer/CodeAnalyzer/Controllers/AnalyzeController.cs:76-86 | with a header, exactly the characters from the first "namespace " through the first `{` after it are removed, and the text before is kept; otherwise the text is unchanged |
| AnalyzeController.RemoveLastBrace | CodeAnalyzer/CodeAnalyzer/Controllers/AnalyzeController.cs:87-92 | exactly the last `}` is removed, and text without `}` is unchanged |
| AnalyzeController.RemoveNamespaceDeclaration | CodeAnalyzer/CodeAnalyzer/Controllers/AnalyzeController.cs:73-94 | never longer than the input; the header (if any) is removed and then the last remaining `}`, whether or not a header was found |
| AnalyzeController.HeaderFound | CodeAnalyzer/CodeAnalyzer/Controllers/AnalyzeController.cs:76-82 | the two searches find exactly the header when there is one, and report -1 otherwise |
| AnalyzeController.LastBraceFound | CodeAnalyzer/CodeAnalyzer/Controllers/AnalyzeController.cs:87-89 | `LastIndexOf('}')` finds exactly the last `}` |
| AnalyzeController.NamespaceHeaderCases | CodeAnalyzer/CodeAnalyzer/Controllers/AnalyzeController.cs:76-86 | every text either has no header or exactly one, so the two cases are exhaustive |
| AnalyzeController.NoNamespaceOnlyLastBrace | CodeAnalyzer/CodeAnalyzer/Controllers/AnalyzeController.cs:73-94 | without "namespace ": a text without `}` comes back unchanged, and one with `}` loses only its last `}` |
| AnalyzeController.SurfacedDiagnostics | CodeAnalyzer/CodeAnalyzer/Controllers/AnalyzeController.cs:60 | no CS0234 or CS0246 survives, and every other diagnostic is kept as often as it occurs |
| AnalyzeController.SurfacedDiagnosticsAppend | CodeAnalyzer/CodeAnalyzer/Controllers/AnalyzeController.cs:60 | the filter distributes over concatenation, so kept diagnostics keep their order |
| AnalyzeController.NoneSurfaced | CodeAnalyzer/CodeAnalyzer/Controllers/AnalyzeController.cs:60 | diagnostics that are all CS0234 or CS0246 leave nothing |
| AnalyzeController.Analyze | CodeAnalyzer/CodeAnalyzer/Controllers/AnalyzeController.cs:39-71 | the engine runs the namespace-stripped text; the answer is `{ Result }`, `{ Errors }` or `{ Error }` exactly as the run succeeded, failed to compile or threw; the return value and the exception message are passed on as they are, and the error list is the texts of all diagnostics other than CS0234 and CS0246, in order |
| AnalyzeController.OnlySuppressedGivesNoErrors | CodeAnalyzer/CodeAnalyzer/Controllers/AnalyzeController.cs:58-61 | a compile failure whose diagnostics are all CS0234 or CS0246 answers with an empty error list |
| AnalyzeController.ViolationMessageNamesClass | CodeAnalyzer/CodeAnalyzer/Controllers/AnalyzeController.cs:107 | the class name can be read back out of its violation message, so different classes get different messages |
| AnalyzeController.CheckNamingConventions | CodeAnalyzer/CodeAnalyzer/Controllers/AnalyzeController.cs:95-111 | no message exactly when every name starts upper-case; each message is the violation message of a name that does not; every such name gets its message |
| AnalyzeController.CheckNamingConventionsAppend | CodeAnalyzer/CodeAnalyzer/Controllers/AnalyzeController.cs:102-109 | the check goes class by class, so messages come in declaration order |
| AnalyzeController.AnalyzeCode | CodeAnalyzer/CodeAnalyzer/Controllers/AnalyzeController.cs:20-38 | 400 with the index-out-of-range message exactly when a class name is empty; otherwise 200 with the analysis of the text and the naming check of its classes |
| PullRequestHandler.Normalize | app.js:66-69 | the normalised text holds no tab, neither starts nor ends with white space, and is no longer than the download |
| PullRequestHandler.NormalizeIdempotentIff | app.js:66-69 | normalising again leaves the text unchanged exactly when it holds no backslash-`n` |
| PullRequestHandler.NormalizeNotIdempotent | app.js:66-69 | backslash, tab, `n` normalises to backslash-`n`, which normalises to the empty text |
| PullRequestHandler.MessageForNewPRs | app.js:32-34 | the block starts with the file name and ":\n"; with no errors that is all, otherwise it ends with the last error |
| PullRequestHandler.MessageForNewPRsParts | app.js:32-34 | the block is the file name, then ":\n", then the errors, which splitting at newlines gives back when none spans lines; it ends with the last error |
| PullRequestHandler.ReviewAppend | app.js:60-86 | files are handled one after another: message blocks, flag and requests of two lists run back to back are the two results joined |
| PullRequestHandler.ExtendByOne | app.js:60-86 | the message, flag and requests grow by one file's contribution per pass |
| PullRequestHandler.AnyErrorsIff | app.js:58 | `hasErrors` holds exactly when some file returned a non-empty error list |
| PullRequestHandler.SkippedFileIgnored | app.js:60-86 | a file that contributes nothing can be dropped from the listing without changing message or flag: the loop carries on |
| PullRequestHandler.FailedFileContributesNothing | app.js:63-84 | a C# file whose download fails, whose POST fails, or whose answer has no `errors` array adds no block and does not set the flag |
| PullRequestHandler.OnlySourceFilesMatter | app.js:62 | dropping every file not ending in ".cs" changes neither the requests issued nor the message and flag |
| PullRequestHandler.NoSourceFilesGreetingOnly | app.js:57-62 | with no C# file nothing is downloaded or posted, the message is the greeting alone and the flag is false |
| PullRequestHandler.SourceFiles | app.js:62 | a listed file is kept exactly when its name ends in ".cs" |
| PullRequestHandler.SourceFilesInOrder | app.js:60-62 | the selection goes file by file, keeping each C# file and dropping each other one, so kept files stay in listing order |
| PullRequestHandler.PublicationFacts | app.js:90-119 | the check run goes to the pull request's repository and head commit under the name and title "Code Analysis"; with errors it is completed, failed and "Code analysis found errors.", without them in progress, successful and "Code analysis passed successfully."; its text and the comment body are the message; the comment, to the same repository and issue number, comes second and only after the check run was created |
| PullRequestHandler.CheckRun | app.js:90-105 | the check-run request: repository, head commit, name and title, the text as the message, and status, conclusion and summary chosen by the flag alone |
| PullRequestHandler.Publication | app.js:90-119 | the check run first, then, only if it was created, the comment carrying the message |
| PullRequestHandler.HandleFile | app.js:62-84 | one loop pass: the requests for the file, its block and whether it reported errors, as the per-file functions say |
| PullRequestHandler.ReviewFiles | app.js:57-86 | the loop: the requests of every file in listing order, the message grown by each file's block in order, and the flag set exactly by some file's errors |
| PullRequestHandler.HandlePullRequestSynchronize | app.js:41-126 | a failed listing issues nothing else; otherwise the listing, every file's requests, then the check run built from the message and flag, then the comment if the check run was created |
| EndToEnd.ServiceReply | app.js:73-74 | for one posted text: the POST fails exactly when a class has no name, and otherwise an error list comes back exactly when `Analyze` answered `{ Errors }`, and it is that list |
| EndToEnd.ServiceIgnoresNaming | app.js:74 | the answer the handler reads does not depend on the upper-case test |
| EndToEnd.ReviewCongruent | app.js:73-77 | message and flag depend on the service only through its answers |
| EndToEnd.NamingViolationsNeverReported | app.js:74 | message and flag are the same whatever the naming check would report |
| EndToEnd.ReportedErrorsAreAnalysisErrors | app.js:74-77 | the errors a file contributes are exactly the error list that `Analyze` gave for its normalised download |
| EndToEnd.NamelessClassSilencesFile | CodeAnalyzer/CodeAnalyzer/Controllers/AnalyzeController.cs:34-37 | a class without a name makes the service answer 400, and that file contributes nothing |
| EndToEnd.CleanRunNotReported | app.js:74-78 | a file whose script compiles and runs contributes nothing, whatever its class names |

## Left out

- Process setup is not modelled: the environment file, the private key, the Octokit `App`, disabled TLS checking, and the HTTP listener and middleware (app.js:1-30, 130-154).
- The network is not modelled. Each call's outcome is an input:
  - a listing outcome;
  - a download outcome per raw URL;
  - an analysis answer per posted text;
  - a flag for whether the check run was created.

  Outcomes are therefore deterministic per URL or text. Two listed files with the same raw URL get the same outcome.
- A failed comment POST is only logged and comes after everything else, so it is not an input.
- Logging (`console.log`, `console.error`) is not modelled.
- Only the first page of the file listing is read, as in the code; the listing outcome stands for that page.
- A download whose body is not text makes `replace` throw into the same catch as a failed download. The model folds that case into `DownloadFailed`.
- JSON serialisation is taken as faithful. The service's camel-cased envelope `{ result, namingConventionViolations }` is read through `EndToEnd.Reply`, which mirrors the handler's read of `result.errors`.
- The C# script engine is a function parameter from the stripped text to a run outcome.
- The Roslyn parse is a function parameter from the posted text to the class names, in declaration order.
- `char.IsUpper` is a parameter predicate on characters, because its Unicode category table is not modelled.
- DotNetStrings.IndexOf: modelled as ordinal. .NET's `IndexOf(string)` compares culture-sensitively by default, which can differ from ordinal for ignorable characters; the model does not capture that.
- JsStrings.IsWhiteSpace: written out for the Unicode 15 space separators. A later Unicode version that adds space separators is not captured.
- A `null` code in the request, which makes `RemoveNamespaceDeclaration` throw into the 400 path, is not modelled. The handler always posts a string.
- Concurrent webhook deliveries are not modelled. Each run is independent and shares no state.
- Calls that never return are not modelled. axios sets no time-out, and a submitted script may never finish; the handler then never publishes anything. Every outcome input is taken to arrive.
