/**
 * updateOBMessageTeamplateBody.js: store the `--htmlBody` value as the body
 * of the database row named by `--template`, without any file or compiler.
 */
module UpdateBodyDirect {
  import opened Wrappers
  import opened Host
  import opened CliArgs

  datatype Status =
    | Rejected                 // a missing or empty name or body: exit before connecting
    | NoMatch                  // no row with that name, or the connection or query threw
    | Updated(update: Action)

  /**
   * The whole script; `lookupId(name)` is the id of the first row named
   * `name`. The run is rejected exactly when the trimmed name or the body is
   * missing or empty; otherwise the update is issued exactly when a row is
   * found, and it stores the body untrimmed in that row.
   */
  method UpdateBodyByName(args: seq<string>, lookupId: string -> Option<int>) returns (status: Status)
    ensures status.Rejected? <==>
              !Provided(BodyScan(args, |args|).templateName) || !Provided(BodyScan(args, |args|).htmlBody)
    ensures !status.Rejected? ==>
              (status.Updated? <==> lookupId(BodyScan(args, |args|).templateName.value).Some?)
    ensures status.Updated? ==>
              status.update == Action.UpdateBody(lookupId(BodyScan(args, |args|).templateName.value).value,
                                                 BodyScan(args, |args|).htmlBody.value)
  {
    var templateName, htmlBody := ParseBodyArgs(args);
    if !Provided(templateName) || !Provided(htmlBody) {
      return Rejected;
    }
    var id := lookupId(templateName.value);
    if id.None? {
      return NoMatch;
    }
    return Updated(Action.UpdateBody(id.value, htmlBody.value));
  }
}
