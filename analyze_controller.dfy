/** The analysis service's controller: it strips an outer namespace wrapper,
    hands the rest to the C# script engine, filters the compiler's
    diagnostics, and separately checks class names against the
    upper-case-initial convention.  The script engine and the C# parser are
    foreign; they enter as function parameters. */
module AnalyzeController {
  import opened DotNetStrings

  // ---------------------------------------------------------------------
  // RemoveNamespaceDeclaration

  const NamespaceKeyword: string := "namespace "

  /** The wrapper header: `i` is the first "namespace " and `j` the first
      `{` at or after it. */
  predicate NamespaceHeader(code: string, i: int, j: int) {
    FirstOccurrence(code, NamespaceKeyword, i) && FirstCharFrom(code, '{', i, j)
  }

  /** No header to remove: "namespace " is absent, or no `{` follows its
      first occurrence. */
  ghost predicate NoNamespaceHeader(code: string) {
    forall i :: FirstOccurrence(code, NamespaceKeyword, i) ==> '{' !in code[i..]
  }

  /** `result` is `t` without its last `}`, or `t` itself when it has none. */
  ghost predicate LastBraceRemoved(t: string, result: string) {
    && ('}' !in t ==> result == t)
    && forall k :: LastChar(t, '}', k) ==> result == t[..k] + t[k + 1..]
  }

  /** The first stage: the header, from the first "namespace " through the
      first `{` after it, is cut out when there is one. */
  function RemoveHeader(code: string): (result: string)
    ensures forall i, j :: NamespaceHeader(code, i, j) ==> result == code[..i] + code[j + 1..]
    ensures NoNamespaceHeader(code) ==> result == code
  {
    HeaderFound(code);
    var startIndex := IndexOf(code, NamespaceKeyword);
    if startIndex != -1 then
      var openingBraceIndex := IndexOfChar(code, '{', startIndex);
      if openingBraceIndex != -1 then Remove(code, startIndex, openingBraceIndex - startIndex + 1)
      else code
    else code
  }

  /** The second stage: the last `}` is cut out when there is one. */
  function RemoveLastBrace(code: string): (result: string)
    ensures LastBraceRemoved(code, result)
  {
    LastBraceFound(code);
    var lastClosingBraceIndex := LastIndexOfChar(code, '}');
    if lastClosingBraceIndex != -1 then Remove(code, lastClosingBraceIndex, 1) else code
  }

  /** Removes the header of the first namespace declaration, from "namespace "
      through the first `{` after it, and then the last `}` of what is left;
      the second step runs whether or not a header was found. */
  function RemoveNamespaceDeclaration(code: string): (result: string)
    ensures |result| <= |code|
    ensures forall i, j :: NamespaceHeader(code, i, j) ==>
              LastBraceRemoved(code[..i] + code[j + 1..], result)
    ensures NoNamespaceHeader(code) ==> LastBraceRemoved(code, result)
  {
    NamespaceHeaderCases(code);
    RemoveLastBrace(RemoveHeader(code))
  }

  /** The searches of RemoveNamespaceDeclaration find exactly the header. */
  lemma HeaderFound(code: string)
    ensures forall i, j :: NamespaceHeader(code, i, j) ==>
              IndexOf(code, NamespaceKeyword) == i && IndexOfChar(code, '{', i) == j
    ensures NoNamespaceHeader(code) ==>
              IndexOf(code, NamespaceKeyword) == -1 || IndexOfChar(code, '{', IndexOf(code, NamespaceKeyword)) == -1
  {
    forall i, j | NamespaceHeader(code, i, j)
      ensures IndexOf(code, NamespaceKeyword) == i && IndexOfChar(code, '{', i) == j
    {
      var s := IndexOf(code, NamespaceKeyword);
      assert s != -1;
      assert !(s < i) && !(i < s);
      var b := IndexOfChar(code, '{', i);
      assert b != -1 by { assert code[i..][j - i] == '{'; }
      assert !(b < j) && !(j < b);
    }
  }

  /** LastIndexOf finds exactly the last `}`. */
  lemma LastBraceFound(t: string)
    ensures forall k :: LastChar(t, '}', k) ==> LastIndexOfChar(t, '}') == k
  {
    forall k | LastChar(t, '}', k) ensures LastIndexOfChar(t, '}') == k {
      var r := LastIndexOfChar(t, '}');
      assert r != -1;
      assert !(r < k) && !(k < r);
    }
  }

  /** Every text falls under one of the two cases above, and a header, when
      there is one, is unique. */
  lemma NamespaceHeaderCases(code: string)
    ensures NoNamespaceHeader(code) || exists i, j :: NamespaceHeader(code, i, j)
    ensures forall i, j, i', j' :: NamespaceHeader(code, i, j) && NamespaceHeader(code, i', j') ==>
              i == i' && j == j'
  {
    if !NoNamespaceHeader(code) {
      var i :| FirstOccurrence(code, NamespaceKeyword, i) && '{' in code[i..];
      var j := IndexOfChar(code, '{', i);
      assert NamespaceHeader(code, i, j);
    }
  }

  /** A text without "namespace " and without `}` comes back unchanged; one
      with a `}` but no namespace loses its last `}` all the same. */
  lemma NoNamespaceOnlyLastBrace(code: string)
    requires forall i :: !OccursAt(code, NamespaceKeyword, i)
    ensures '}' !in code ==> RemoveNamespaceDeclaration(code) == code
    ensures forall k :: LastChar(code, '}', k) ==>
              RemoveNamespaceDeclaration(code) == code[..k] + code[k + 1..]
  {
    assert NoNamespaceHeader(code);
  }

  // ---------------------------------------------------------------------
  // The diagnostic filter of Analyze

  /** A compiler diagnostic: its id (such as "CS1002") and the text that its
      `ToString()` renders. */
  datatype Diagnostic = Diagnostic(id: string, text: string)

  /** The two ids dropped: CS0234 (a namespace member that does not exist)
      and CS0246 (a type or namespace that cannot be found). */
  predicate Suppressed(d: Diagnostic) {
    d.id == "CS0234" || d.id == "CS0246"
  }

  /** `Diagnostics.Where(d => d.Id != "CS0234" && d.Id != "CS0246")` */
  function SurfacedDiagnostics(ds: seq<Diagnostic>): (r: seq<Diagnostic>)
    ensures forall k :: 0 <= k < |r| ==> !Suppressed(r[k])
    ensures forall d :: !Suppressed(d) ==> multiset(r)[d] == multiset(ds)[d]
  {
    if ds == [] then []
    else
      assert ds == [ds[0]] + ds[1..];
      (if Suppressed(ds[0]) then [] else [ds[0]]) + SurfacedDiagnostics(ds[1..])
  }

  /** The filter works piecewise, so the kept diagnostics keep their order. */
  lemma {:induction false} SurfacedDiagnosticsAppend(a: seq<Diagnostic>, b: seq<Diagnostic>)
    ensures SurfacedDiagnostics(a + b) == SurfacedDiagnostics(a) + SurfacedDiagnostics(b)
  {
    if a != [] {
      assert (a + b)[1..] == a[1..] + b;
      SurfacedDiagnosticsAppend(a[1..], b);
      assert SurfacedDiagnostics(a + b)
          == (if Suppressed(a[0]) then [] else [a[0]]) + SurfacedDiagnostics(a[1..] + b);
    } else {
      assert a + b == b;
    }
  }

  /** Diagnostics that are all suppressed leave nothing. */
  lemma {:induction false} NoneSurfaced(ds: seq<Diagnostic>)
    requires forall d :: d in ds ==> Suppressed(d)
    ensures SurfacedDiagnostics(ds) == []
  {
    if ds != [] {
      assert forall d :: d in ds[1..] ==> d in ds;
      NoneSurfaced(ds[1..]);
    }
  }

  /** `.Select(d => d.ToString())` */
  function Texts(ds: seq<Diagnostic>): (r: seq<string>)
    ensures |r| == |ds| && forall k :: 0 <= k < |ds| ==> r[k] == ds[k].text
  {
    seq(|ds|, k requires 0 <= k < |ds| => ds[k].text)
  }

  // ---------------------------------------------------------------------
  // Analyze

  /** The script's return value, `null` when the script ends in a declaration. */
  datatype ScriptValue = NoValue | Value(shown: string)

  /** What the script engine does with a submitted text: it runs to a value,
      fails to compile with diagnostics, or throws at run time. */
  datatype ScriptRun =
    | Ran(returnValue: ScriptValue)
    | CompilationFailed(diagnostics: seq<Diagnostic>)
    | Threw(message: string)

  /** The three shapes Analyze answers with: `{ Result }`, `{ Errors }`, `{ Error }`. */
  datatype AnalysisResult =
    | Result(value: ScriptValue)
    | Errors(errors: seq<string>)
    | Error(message: string)

  /** The engine runs the namespace-stripped text; every outcome becomes an
      answer, and a compile failure surfaces only the texts of the
      diagnostics other than CS0234 and CS0246. */
  function Analyze(code: string, engine: string -> ScriptRun): (r: AnalysisResult)
    ensures var run := engine(RemoveNamespaceDeclaration(code));
      && (r.Result? <==> run.Ran?)
      && (r.Errors? <==> run.CompilationFailed?)
      && (r.Error? <==> run.Threw?)
    ensures var run := engine(RemoveNamespaceDeclaration(code));
      && (r.Result? ==> r.value == run.returnValue)
      && (r.Errors? ==> r.errors == Texts(SurfacedDiagnostics(run.diagnostics)))
      && (r.Error? ==> r.message == run.message)
    ensures var run := engine(RemoveNamespaceDeclaration(code));
      r.Errors? ==> forall k :: 0 <= k < |r.errors| ==>
        exists d :: d in run.diagnostics && !Suppressed(d) && d.text == r.errors[k]
  {
    match engine(RemoveNamespaceDeclaration(code))
    case Ran(v) => Result(v)
    case CompilationFailed(ds) =>
      var kept := SurfacedDiagnostics(ds);
      assert forall k :: 0 <= k < |kept| ==> multiset(ds)[kept[k]] > 0;
      Errors(Texts(kept))
    case Threw(m) => Error(m)
  }

  /** A compile failure whose diagnostics are all CS0234 or CS0246 reaches the
      caller as an empty error list. */
  lemma OnlySuppressedGivesNoErrors(code: string, engine: string -> ScriptRun)
    requires engine(RemoveNamespaceDeclaration(code)).CompilationFailed?
    requires forall d :: d in engine(RemoveNamespaceDeclaration(code)).diagnostics ==> Suppressed(d)
    ensures Analyze(code, engine) == Errors([])
  {
    NoneSurfaced(engine(RemoveNamespaceDeclaration(code)).diagnostics);
  }

  // ---------------------------------------------------------------------
  // CheckNamingConventions

  const ViolationPrefix: string := "Class '"
  const ViolationSuffix: string := "' does not follow naming convention. It should start with an uppercase letter."

  function ViolationMessage(className: string): string {
    ViolationPrefix + className + ViolationSuffix
  }

  /** Reads the class name back out of a violation message. */
  function ViolatingClass(message: string): string
    requires |ViolationPrefix| + |ViolationSuffix| <= |message|
  {
    message[|ViolationPrefix|..|message| - |ViolationSuffix|]
  }

  /** The message names its class: the name can be read back out, so
      different classes get different messages. */
  lemma ViolationMessageNamesClass(className: string)
    ensures |ViolationPrefix| + |ViolationSuffix| <= |ViolationMessage(className)|
    ensures ViolatingClass(ViolationMessage(className)) == className
    ensures forall other :: ViolationMessage(other) == ViolationMessage(className) ==> other == className
  {
    forall other | ViolationMessage(other) == ViolationMessage(className)
      ensures other == className
    {
      assert ViolatingClass(ViolationMessage(other)) == other;
    }
  }

  /** One message per class whose name does not start with an upper-case
      letter, in declaration order.  `isUpper` stands for `char.IsUpper`;
      the class names come from the foreign C# parser. */
  function CheckNamingConventions(classNames: seq<string>, isUpper: char -> bool): (r: seq<string>)
    requires forall k :: 0 <= k < |classNames| ==> classNames[k] != []
    ensures |r| <= |classNames|
    ensures r == [] <==> forall k :: 0 <= k < |classNames| ==> isUpper(classNames[k][0])
    ensures forall m :: m in r ==>
              (exists k :: 0 <= k < |classNames| && !isUpper(classNames[k][0]) && m == ViolationMessage(classNames[k]))
    ensures forall k :: 0 <= k < |classNames| && !isUpper(classNames[k][0]) ==> ViolationMessage(classNames[k]) in r
  {
    if classNames == [] then []
    else
      var rest := CheckNamingConventions(classNames[1..], isUpper);
      assert forall m :: m in rest ==>
               (exists k :: 0 < k < |classNames| && !isUpper(classNames[k][0]) && m == ViolationMessage(classNames[k]));
      if isUpper(classNames[0][0]) then rest
      else [ViolationMessage(classNames[0])] + rest
  }

  /** The check works class by class, so messages come in declaration order. */
  lemma {:induction false} CheckNamingConventionsAppend(a: seq<string>, b: seq<string>, isUpper: char -> bool)
    requires forall k :: 0 <= k < |a| ==> a[k] != []
    requires forall k :: 0 <= k < |b| ==> b[k] != []
    ensures CheckNamingConventions(a + b, isUpper)
         == CheckNamingConventions(a, isUpper) + CheckNamingConventions(b, isUpper)
  {
    if a != [] {
      assert (a + b)[1..] == a[1..] + b;
      CheckNamingConventionsAppend(a[1..], b, isUpper);
    } else {
      assert a + b == b;
    }
  }

  // ---------------------------------------------------------------------
  // AnalyzeCode

  /** The HTTP answer: 200 with the analysis result and the naming violations,
      or 400 with an exception message. */
  datatype Response =
    | Ok(result: AnalysisResult, namingConventionViolations: seq<string>)
    | BadRequest(error: string)

  /** The message of the `IndexOutOfRangeException` that `className[0]`
      throws on an empty identifier. */
  const IndexOutOfRangeMessage: string := "Index was outside the bounds of the array."

  /** Analyze runs on the stripped text, the naming check on the text as
      received; an empty class name, which the parser produces for a
      declaration missing its identifier, makes the naming check throw and
      the whole answer a 400. */
  function AnalyzeCode(code: string, engine: string -> ScriptRun,
                       classesOf: string -> seq<string>, isUpper: char -> bool): (r: Response)
    ensures r.BadRequest? <==> exists k :: 0 <= k < |classesOf(code)| && classesOf(code)[k] == []
    ensures r.BadRequest? ==> r.error == IndexOutOfRangeMessage
    ensures r.Ok? ==> r.result == Analyze(code, engine)
    ensures r.Ok? ==> r.namingConventionViolations == CheckNamingConventions(classesOf(code), isUpper)
  {
    var result := Analyze(code, engine);
    var classNames := classesOf(code);
    if exists k :: 0 <= k < |classNames| && classNames[k] == [] then BadRequest(IndexOutOfRangeMessage)
    else Ok(result, CheckNamingConventions(classNames, isUpper))
  }
}
