/**
 * sendTestEmailUsingSendgrid.js and sendEmail.js: the pipeline of
 * BuildTemplateWithArgs.js with the slash of `/>` required, ending in an
 * email instead of a file. The SendGrid script trims the `--template`
 * value; sendEmail.js keeps it as given.
 */
module SendEmail {
  import opened Wrappers
  import opened Text
  import opened Host
  import opened Locator
  import opened Placeholders
  import opened CliArgs
  import opened Pipeline

  /** The outcome of one run; `trimTemplate` tells the two scripts apart. */
  function Run(env: Env, streamsDir: string, tree: seq<Entry>, args: seq<string>, trimTemplate: bool): Outcome {
    PlaceholderKeysValid(args, |args|);
    RunTemplate(env, streamsDir, tree, TemplateNameScan(args, |args|, trimTemplate), false, false,
                PlaceholderScan(args, |args|))
  }

  /** The steps both scripts share, up to the point where the message is handed to the mail service. */
  method CompileForSending(env: Env, streamsDir: string, tree: seq<Entry>, args: seq<string>, trimTemplate: bool)
    returns (html: Option<string>)
    ensures html.Some? <==> Run(env, streamsDir, tree, args, trimTemplate).Converted?
    ensures html.Some? ==>
              (NonEmptyKeys(PlaceholderScan(args, |args|)) &&
               var path := Run(env, streamsDir, tree, args, trimTemplate).path;
               path in env.contents &&
               env.compile(CompilerInput(env, path, false, PlaceholderScan(args, |args|))) == MjmlResult(html.value, []))
  {
    var templateName, placeholders := ParseTemplateArgs(args, trimTemplate);
    PlaceholderKeysValid(args, |args|);
    var outcome := ProcessTemplate(env, streamsDir, tree, templateName, false, false, placeholders);
    html := if outcome.Converted? then Some(outcome.html) else None;
  }

  /**
   * sendTestEmailUsingSendgrid.js: a message is sent exactly when the
   * template compiled without errors, and its HTML part is the compiled
   * text.
   */
  method SendTestEmail(env: Env, streamsDir: string, tree: seq<Entry>, args: seq<string>)
    returns (sent: Option<Action>)
    ensures sent.Some? <==> Run(env, streamsDir, tree, args, true).Converted?
    ensures sent.Some? ==> sent.value == Send(Run(env, streamsDir, tree, args, true).html)
  {
    var html := CompileForSending(env, streamsDir, tree, args, true);
    sent := if html.Some? then Some(Send(html.value)) else None;
  }

  /**
   * sendEmail.js as written: after a successful compilation the Mailjet
   * client is built from `config`, a name the file never declares, so that
   * call throws a `ReferenceError` before any request is made. The script
   * reaches that call exactly when the template compiled cleanly, and no
   * run sends anything.
   */
  method SendEmailAsWritten(env: Env, streamsDir: string, tree: seq<Entry>, args: seq<string>)
    returns (sent: Option<Action>, threw: bool)
    ensures threw <==> Run(env, streamsDir, tree, args, false).Converted?
    ensures sent.None?
  {
    var html := CompileForSending(env, streamsDir, tree, args, false);
    threw := html.Some?;
    sent := None;
  }

  /**
   * sendEmail.js as intended: the rule of the SendGrid script, with the
   * `--template` value untrimmed.
   */
  method SendEmailCorrected(env: Env, streamsDir: string, tree: seq<Entry>, args: seq<string>)
    returns (sent: Option<Action>)
    ensures sent.Some? <==> Run(env, streamsDir, tree, args, false).Converted?
    ensures sent.Some? ==> sent.value == Send(Run(env, streamsDir, tree, args, false).html)
  {
    var html := CompileForSending(env, streamsDir, tree, args, false);
    sent := if html.Some? then Some(Send(html.value)) else None;
  }

  /** The two scripts differ only in trimming: for a name without surrounding whitespace they agree. */
  lemma {:induction false} TrimmingIrrelevantForCleanNames(args: seq<string>, n: nat)
    requires n <= |args|
    requires forall j :: 0 <= j < n && SetsTemplate(args, j) ==> Trim(args[j + 1]) == args[j + 1]
    ensures TemplateNameScan(args, n, true) == TemplateNameScan(args, n, false)
  {
    if n > 0 {
      TrimmingIrrelevantForCleanNames(args, n - 1);
    }
  }
}
