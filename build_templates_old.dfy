/**
 * buildTemplatesOld.js: compile every `.mjml` file listed in `src/templates`
 * (no subfolders, no include resolution of its own, no placeholders) and
 * write each error-free result next to its source.
 *
 * `writeOk(path, html)` says whether `writeFileSync` succeeds; like a failing
 * read, a failing write is not caught and ends the whole script.
 */
module BuildTemplatesOld {
  import opened Wrappers
  import opened Text
  import opened Host
  import opened FileNames

  /** The writes made, in order, and whether a failing read or write ended the script. */
  datatype BuildResult = BuildResult(writes: seq<Action>, crashed: bool)

  /** What the `forEach` callback does with one listed name. */
  datatype FileOutcome =
    | Ignored                // not a `.mjml` name
    | Unreadable             // `readFileSync` throws: nothing catches it
    | Invalid                // compiled with errors: `return` to the next entry
    | Unwritable             // compiled, but `writeFileSync` throws: nothing catches it
    | Compiled(path: string, html: string)

  /** The outcomes that end the script. */
  predicate Fatal(o: FileOutcome) {
    o.Unreadable? || o.Unwritable?
  }

  function FileOutcomeOf(env: Env, writeOk: (string, string) -> bool, templatesDir: string, file: string): FileOutcome {
    if !EndsWith(file, ".mjml") then Ignored
    else
      var filePath := env.join(templatesDir, file);
      if filePath !in env.contents then Unreadable
      else
        var out := env.compile(env.contents[filePath]);
        if |out.errors| > 0 then Invalid
        else if !writeOk(HtmlOutputPath(filePath), out.html) then Unwritable
        else Compiled(filePath, out.html)
  }

  /** The `forEach` over `readdirSync(templatesDir)`, in listing order. */
  function BuildAll(env: Env, writeOk: (string, string) -> bool, templatesDir: string, listing: seq<string>): BuildResult
    decreases |listing|
  {
    if listing == [] then BuildResult([], false)
    else
      match FileOutcomeOf(env, writeOk, templatesDir, listing[0])
      case Unreadable => BuildResult([], true)
      case Unwritable => BuildResult([], true)
      case Compiled(path, html) =>
        var rest := BuildAll(env, writeOk, templatesDir, listing[1..]);
        BuildResult([Write(HtmlOutputPath(path), html)] + rest.writes, rest.crashed)
      case _ => BuildAll(env, writeOk, templatesDir, listing[1..])
  }

  method BuildTemplates(env: Env, writeOk: (string, string) -> bool, templatesDir: string, listing: seq<string>)
    returns (writes: seq<Action>, crashed: bool)
    ensures BuildResult(writes, crashed) == BuildAll(env, writeOk, templatesDir, listing)
  {
    writes, crashed := [], false;
    var i := 0;
    while i < |listing|
      invariant 0 <= i <= |listing|
      invariant BuildAll(env, writeOk, templatesDir, listing) ==
                BuildResult(writes + BuildAll(env, writeOk, templatesDir, listing[i..]).writes,
                            BuildAll(env, writeOk, templatesDir, listing[i..]).crashed)
    {
      assert listing[i..][0] == listing[i] && listing[i..][1..] == listing[i + 1..];
      var file := listing[i];
      if EndsWith(file, ".mjml") {
        var filePath := env.join(templatesDir, file);
        if filePath !in env.contents {
          crashed := true;
          return;
        }
        var out := env.compile(env.contents[filePath]);
        if |out.errors| == 0 {
          var outputFilePath := HtmlOutputPath(filePath);
          if !writeOk(outputFilePath, out.html) {
            crashed := true;
            return;
          }
          var w := Write(outputFilePath, out.html);
          ghost var rest := BuildAll(env, writeOk, templatesDir, listing[i + 1..]).writes;
          assert writes + ([w] + rest) == (writes + [w]) + rest;
          writes := writes + [w];
        }
      }
      i := i + 1;
    }
    assert listing[i..] == [];
  }

  /** The number of listed names before the first unreadable or unwritable `.mjml` file, or the length. */
  function FirstFailure(env: Env, writeOk: (string, string) -> bool, templatesDir: string, listing: seq<string>): (k: nat)
    ensures k <= |listing|
    ensures forall j :: 0 <= j < k ==> !Fatal(FileOutcomeOf(env, writeOk, templatesDir, listing[j]))
    ensures k < |listing| ==> Fatal(FileOutcomeOf(env, writeOk, templatesDir, listing[k]))
    decreases |listing|
  {
    if listing == [] then 0
    else if Fatal(FileOutcomeOf(env, writeOk, templatesDir, listing[0])) then 0
    else 1 + FirstFailure(env, writeOk, templatesDir, listing[1..])
  }

  /** The names that are `.mjml` files compiled without errors and written, in listing order. */
  function Successes(env: Env, writeOk: (string, string) -> bool, templatesDir: string, listing: seq<string>): (r: seq<string>)
    ensures forall f :: f in r ==> f in listing && FileOutcomeOf(env, writeOk, templatesDir, f).Compiled?
    ensures forall f :: f in listing && FileOutcomeOf(env, writeOk, templatesDir, f).Compiled? ==> f in r
    decreases |listing|
  {
    if listing == [] then []
    else
      (if FileOutcomeOf(env, writeOk, templatesDir, listing[0]).Compiled? then [listing[0]] else [])
      + Successes(env, writeOk, templatesDir, listing[1..])
  }

  /** The write for a name that compiled. */
  function WriteFor(env: Env, writeOk: (string, string) -> bool, templatesDir: string, file: string): Action
    requires FileOutcomeOf(env, writeOk, templatesDir, file).Compiled?
  {
    var o := FileOutcomeOf(env, writeOk, templatesDir, file);
    Write(HtmlOutputPath(o.path), o.html)
  }

  /** The writes for the names that compiled, in listing order. */
  function Outputs(env: Env, writeOk: (string, string) -> bool, templatesDir: string, listing: seq<string>): seq<Action>
    decreases |listing|
  {
    if listing == [] then []
    else
      (if FileOutcomeOf(env, writeOk, templatesDir, listing[0]).Compiled? then [WriteFor(env, writeOk, templatesDir, listing[0])] else [])
      + Outputs(env, writeOk, templatesDir, listing[1..])
  }

  /**
   * The script writes the outputs of the names before the first unreadable
   * or unwritable `.mjml` file, and crashes exactly when there is one.
   */
  lemma {:induction false} BuildAllUntilCrash(env: Env, writeOk: (string, string) -> bool, templatesDir: string, listing: seq<string>)
    ensures BuildAll(env, writeOk, templatesDir, listing).crashed <==> FirstFailure(env, writeOk, templatesDir, listing) < |listing|
    ensures BuildAll(env, writeOk, templatesDir, listing).writes ==
            Outputs(env, writeOk, templatesDir, listing[..FirstFailure(env, writeOk, templatesDir, listing)])
    decreases |listing|
  {
    if listing != [] {
      var k := FirstFailure(env, writeOk, templatesDir, listing);
      if Fatal(FileOutcomeOf(env, writeOk, templatesDir, listing[0])) {
        assert listing[..k] == [];
      } else {
        BuildAllUntilCrash(env, writeOk, templatesDir, listing[1..]);
        assert listing[..k][0] == listing[0] && listing[..k][1..] == listing[1..][..k - 1];
      }
    }
  }

  /** Exactly one output per success: the i-th output is that of the i-th name that compiled. */
  lemma {:induction false} OneOutputPerSuccess(env: Env, writeOk: (string, string) -> bool, templatesDir: string, listing: seq<string>)
    ensures var ok := Successes(env, writeOk, templatesDir, listing);
            |Outputs(env, writeOk, templatesDir, listing)| == |ok| &&
            forall i :: 0 <= i < |ok| ==> Outputs(env, writeOk, templatesDir, listing)[i] == WriteFor(env, writeOk, templatesDir, ok[i])
    decreases |listing|
  {
    if listing != [] {
      OneOutputPerSuccess(env, writeOk, templatesDir, listing[1..]);
    }
  }

  /**
   * Without an unreadable or unwritable `.mjml` file the script writes one
   * output per success and does not crash.
   */
  lemma NoCrashWithoutFailure(env: Env, writeOk: (string, string) -> bool, templatesDir: string, listing: seq<string>)
    requires forall j :: 0 <= j < |listing| ==> !Fatal(FileOutcomeOf(env, writeOk, templatesDir, listing[j]))
    ensures !BuildAll(env, writeOk, templatesDir, listing).crashed
    ensures BuildAll(env, writeOk, templatesDir, listing).writes == Outputs(env, writeOk, templatesDir, listing)
  {
    BuildAllUntilCrash(env, writeOk, templatesDir, listing);
    assert listing[..|listing|] == listing;
  }

  /** A name that does not end in `.mjml` contributes nothing, whatever the folder holds. */
  lemma NonMjmlIgnored(env: Env, writeOk: (string, string) -> bool, templatesDir: string, file: string, rest: seq<string>)
    requires !EndsWith(file, ".mjml")
    ensures BuildAll(env, writeOk, templatesDir, [file] + rest) == BuildAll(env, writeOk, templatesDir, rest)
  {
    assert ([file] + rest)[1..] == rest;
  }
}
