/**
 * BuildTemplateWithArgs.js: read `--template` and the placeholder options,
 * locate the template under `src/streams`, resolve its includes (the slash
 * of `/>` optional), substitute the placeholders, compile, and write the
 * HTML next to the template.
 */
module BuildTemplateWithArgs {
  import opened Wrappers
  import opened Host
  import opened Locator
  import opened Placeholders
  import opened CliArgs
  import opened FileNames
  import opened Pipeline

  /** The outcome of one run over `streamsDir`, whose entries are `tree`. */
  function Run(env: Env, streamsDir: string, tree: seq<Entry>, args: seq<string>): Outcome {
    PlaceholderKeysValid(args, |args|);
    RunTemplate(env, streamsDir, tree, TemplateNameScan(args, |args|, true), false, true, PlaceholderScan(args, |args|))
  }

  /**
   * The whole script. A file is written exactly when the template was
   * found, read and compiled without errors; it is the template's path with
   * its first `.mjml` turned into `.html`, and it holds the compiled text of
   * the resolved and substituted template.
   */
  method BuildTemplate(env: Env, streamsDir: string, tree: seq<Entry>, args: seq<string>)
    returns (written: Option<Action>)
    ensures written.Some? <==> Run(env, streamsDir, tree, args).Converted?
    ensures written.Some? ==>
              (NonEmptyKeys(PlaceholderScan(args, |args|)) &&
               var path := Run(env, streamsDir, tree, args).path;
               path in env.contents &&
               written.value == Write(HtmlOutputPath(path),
                                      env.compile(CompilerInput(env, path, true, PlaceholderScan(args, |args|))).html))
  {
    var templateName, placeholders := ParseTemplateArgs(args, true);
    PlaceholderKeysValid(args, |args|);
    var outcome := ProcessTemplate(env, streamsDir, tree, templateName, false, true, placeholders);
    if outcome.Converted? {
      written := Some(Write(HtmlOutputPath(outcome.path), outcome.html));
    } else {
      written := None;
    }
  }
}
