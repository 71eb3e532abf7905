/**
 * The single-template pipeline shared by BuildTemplateWithArgs.js,
 * sendTestEmailUsingSendgrid.js, sendEmail.js and
 * updateOBMessageTemplateBody.js: locate the template, read it, resolve its
 * includes against its own directory, substitute the placeholders, compile.
 */
module Pipeline {
  import opened Wrappers
  import opened Text
  import opened Host
  import opened Locator
  import opened Includes
  import opened Placeholders

  datatype Outcome =
    | TemplateNotFound
    | ReadFailed(path: string)
    | CompileFailed(path: string, errors: seq<string>)
    | Converted(path: string, input: string, html: string)

  /** The includes of the template at `path` resolve against `path.dirname(path)`. */
  function IncludeEnvOf(env: Env, path: string): IncludeEnv {
    IncludeEnv(env.dirname(path), env.contents, env.resolve)
  }

  /** The text handed to the compiler: includes resolved first, placeholders substituted after. */
  function CompilerInput(env: Env, path: string, slashOptional: bool, placeholders: Store): string
    requires path in env.contents && NonEmptyKeys(placeholders)
  {
    Substitute(Expand(env.contents[path], IncludeEnvOf(env, path), slashOptional), placeholders)
  }

  /**
   * One run. The template is not found exactly when the locator returns
   * null; a compiled result exists only when the compiler reported no error,
   * and then it is the compilation of CompilerInput.
   */
  function RunTemplate(env: Env, rootDir: string, tree: seq<Entry>, fileName: string, mjmlOnly: bool,
                       slashOptional: bool, placeholders: Store): (r: Outcome)
    requires NonEmptyKeys(placeholders)
    ensures r.TemplateNotFound? <==> Locate(tree, fileName, mjmlOnly).None?
    ensures !r.TemplateNotFound? ==> r.path == FullPath(rootDir, Locate(tree, fileName, mjmlOnly).value, env.join)
    ensures r.ReadFailed? <==> !r.TemplateNotFound? && r.path !in env.contents
    ensures r.CompileFailed? ==>
              (r.path in env.contents &&
               r.errors == env.compile(CompilerInput(env, r.path, slashOptional, placeholders)).errors != [])
    ensures r.Converted? ==>
              (r.path in env.contents && r.input == CompilerInput(env, r.path, slashOptional, placeholders) &&
               env.compile(r.input) == MjmlResult(r.html, []))
  {
    match Locate(tree, fileName, mjmlOnly)
    case None => TemplateNotFound
    case Some(p) =>
      var path := FullPath(rootDir, p, env.join);
      if path !in env.contents then ReadFailed(path)
      else
        var input := CompilerInput(env, path, slashOptional, placeholders);
        var out := env.compile(input);
        if |out.errors| > 0 then CompileFailed(path, out.errors) else Converted(path, input, out.html)
  }

  /**
   * The steps a script takes for one template: `findTemplateFile`, the read,
   * `resolveIncludes`, the placeholder loop and the compiler call; the
   * result is the outcome RunTemplate specifies.
   */
  method ProcessTemplate(env: Env, rootDir: string, tree: seq<Entry>, fileName: string, mjmlOnly: bool,
                         slashOptional: bool, placeholders: Store)
    returns (r: Outcome)
    requires NonEmptyKeys(placeholders)
    ensures r == RunTemplate(env, rootDir, tree, fileName, mjmlOnly, slashOptional, placeholders)
  {
    var found := FindTemplateFile(rootDir, tree, fileName, mjmlOnly, env.join);
    if found.None? {
      return TemplateNotFound;
    }
    var path := found.value;
    if path !in env.contents {
      return ReadFailed(path);
    }
    var resolved := Expand(env.contents[path], IncludeEnvOf(env, path), slashOptional);
    var input := ApplyPlaceholders(resolved, placeholders);
    var out := env.compile(input);
    if |out.errors| > 0 {
      return CompileFailed(path, out.errors);
    }
    return Converted(path, input, out.html);
  }

  /**
   * Includes are spliced in before placeholders are substituted: for a
   * template made of one directive followed by plain text, the compiler
   * receives the substitution applied to the included file's content
   * followed by that text, so a `{{key}}` inside an included file is
   * substituted too.
   */
  lemma IncludeThenSubstitute(env: Env, path: string, x: string, rest: string, slashOptional: bool, st: Store)
    requires NonEmptyKeys(st)
    requires path in env.contents && env.contents[path] == DirectiveText(x, "", true) + rest
    requires '"' !in x && forall i :: 0 <= i < |x| ==> !IsLineTerminator(x[i])
    requires '<' !in rest
    ensures env.resolve(env.dirname(path), x) in env.contents ==>
              CompilerInput(env, path, slashOptional, st) ==
              Substitute(env.contents[env.resolve(env.dirname(path), x)] + rest, st)
    ensures env.resolve(env.dirname(path), x) !in env.contents ==>
              CompilerInput(env, path, slashOptional, st) == Substitute(MissingMarker(env.resolve(env.dirname(path), x)) + rest, st)
  {
    DirectiveThenPlainText(x, rest, IncludeEnvOf(env, path), slashOptional);
  }
}
