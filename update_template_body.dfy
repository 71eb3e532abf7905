/**
 * updateOBMessageTemplateBody.js: take the template name from the last
 * argument starting with `--template`, locate `<name>.mjml` under
 * `src/streams` (only `.mjml` files match), resolve its includes with the
 * slash of `/>` required, compile it without placeholders, and store the
 * HTML as the body of the database row whose `TemplateName` is `name`.
 */
module UpdateTemplateBody {
  import opened Wrappers
  import opened Host
  import opened Locator
  import opened CliArgs
  import opened Pipeline

  datatype Status =
    | Rejected                                        // no usable template name: exit before any file access
    | Ran(outcome: Outcome, update: Option<Action>)   // the pipeline ran; `update` is the statement issued, if any

  /**
   * The whole script; `lookupId(name)` is the id of the first row named
   * `name`, or null when there is none or the query fails. The run is
   * rejected exactly when the name is missing or empty. Otherwise the
   * file searched is `name + ".mjml"`, and an update is issued exactly when
   * the template compiled without errors and a row was found: the body
   * stored is the compiled HTML, and the row is the one found for `name`.
   */
  method UpdateTemplate(env: Env, streamsDir: string, tree: seq<Entry>, args: seq<string>,
                        lookupId: string -> Option<int>)
    returns (status: Status)
    ensures status.Rejected? <==> !Provided(PrefixScan(args, |args|))
    ensures status.Ran? ==>
              status.outcome == RunTemplate(env, streamsDir, tree, PrefixScan(args, |args|).value + ".mjml",
                                            true, false, [])
    ensures status.Ran? ==>
              (status.update.Some? <==> status.outcome.Converted? && lookupId(PrefixScan(args, |args|).value).Some?)
    ensures status.Ran? && status.update.Some? ==>
              status.update.value == UpdateBody(lookupId(PrefixScan(args, |args|).value).value, status.outcome.html)
  {
    var templateName := ParseTemplateOption(args);
    if templateName.None? || templateName.value == [] {
      return Rejected;
    }
    var name := templateName.value;
    var outcome := ProcessTemplate(env, streamsDir, tree, name + ".mjml", true, false, []);
    if outcome.Converted? {
      var id := lookupId(name);
      if id.Some? {
        return Ran(outcome, Some(UpdateBody(id.value, outcome.html)));
      }
    }
    return Ran(outcome, None);
  }
}
