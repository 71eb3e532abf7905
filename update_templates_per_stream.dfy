/**
 * updateOBMessageTemplatesPerStream.js: read `--stream` and
 * `--streamNumber`, look the stream up, fetch its active email templates,
 * and for each row compile `<TemplateName>.mjml` from the stream's folder
 * (no recursion into subfolders, the slash of `/>` required) and store the
 * HTML as that row's body.
 */
module UpdateTemplatesPerStream {
  import opened Wrappers
  import opened Host
  import opened Locator
  import opened Includes
  import opened CliArgs
  import opened Pipeline

  /** A row of `SELECT id, TemplateName FROM OBMessageTemplate ...`. */
  datatype TemplateRow = TemplateRow(id: int, templateName: string)

  /** The updates issued, in order, and whether an exception ended the loop early. */
  datatype BatchResult = BatchResult(updates: seq<Action>, aborted: bool)

  /** What the loop body does with one row. */
  datatype RowOutcome =
    | Missing             // no `<name>.mjml` in the folder: skipped
    | Unreadable          // reported present but cannot be read: the read throws
    | Invalid             // compiled with errors: skipped
    | Compiled(html: string)

  /** The non-recursive `findTemplateFile(streamsDir, TemplateName + '.mjml')`. */
  function TemplatePath(env: Env, streamDir: string, row: TemplateRow): Option<string> {
    FindInDirectory(streamDir, row.templateName + ".mjml", env.existing, env.join)
  }

  function RowOutcomeOf(env: Env, streamDir: string, row: TemplateRow): RowOutcome {
    match TemplatePath(env, streamDir, row)
    case None => Missing
    case Some(path) =>
      if path !in env.contents then Unreadable
      else
        var out := env.compile(Expand(env.contents[path], IncludeEnvOf(env, path), false));
        if |out.errors| > 0 then Invalid else Compiled(out.html)
  }

  /**
   * The `for (const template of recordset)` loop: a missing or invalid
   * template is skipped with `continue`; an unreadable one throws out of the
   * loop, so no later row is processed. A failing update is caught inside
   * the update function and does not stop the loop.
   */
  function ProcessRows(env: Env, streamDir: string, rows: seq<TemplateRow>): BatchResult
    decreases |rows|
  {
    if rows == [] then BatchResult([], false)
    else
      match RowOutcomeOf(env, streamDir, rows[0])
      case Unreadable => BatchResult([], true)
      case Compiled(html) =>
        var rest := ProcessRows(env, streamDir, rows[1..]);
        BatchResult([UpdateBody(rows[0].id, html)] + rest.updates, rest.aborted)
      case _ => ProcessRows(env, streamDir, rows[1..])
  }

  method ProcessTemplates(env: Env, streamDir: string, rows: seq<TemplateRow>)
    returns (updates: seq<Action>, aborted: bool)
    ensures BatchResult(updates, aborted) == ProcessRows(env, streamDir, rows)
  {
    updates, aborted := [], false;
    var i := 0;
    while i < |rows|
      invariant 0 <= i <= |rows|
      invariant ProcessRows(env, streamDir, rows) ==
                BatchResult(updates + ProcessRows(env, streamDir, rows[i..]).updates,
                            ProcessRows(env, streamDir, rows[i..]).aborted)
    {
      assert rows[i..][0] == rows[i] && rows[i..][1..] == rows[i + 1..];
      var row := rows[i];
      var path := FindInDirectory(streamDir, row.templateName + ".mjml", env.existing, env.join);
      if path.None? {
        i := i + 1;
        continue;
      }
      if path.value !in env.contents {
        aborted := true;
        return;
      }
      var processed := Expand(env.contents[path.value], IncludeEnvOf(env, path.value), false);
      var out := env.compile(processed);
      if |out.errors| > 0 {
        i := i + 1;
        continue;
      }
      ghost var rest := ProcessRows(env, streamDir, rows[i + 1..]).updates;
      assert updates + ([UpdateBody(row.id, out.html)] + rest) == (updates + [UpdateBody(row.id, out.html)]) + rest;
      updates := updates + [UpdateBody(row.id, out.html)];
      i := i + 1;
    }
    assert rows[i..] == [];
  }

  /** The position of the first row whose template cannot be read, or the length. */
  function FirstUnreadable(env: Env, streamDir: string, rows: seq<TemplateRow>): (k: nat)
    ensures k <= |rows|
    ensures forall j :: 0 <= j < k ==> !RowOutcomeOf(env, streamDir, rows[j]).Unreadable?
    ensures k < |rows| ==> RowOutcomeOf(env, streamDir, rows[k]).Unreadable?
    decreases |rows|
  {
    if rows == [] then 0
    else if RowOutcomeOf(env, streamDir, rows[0]).Unreadable? then 0
    else 1 + FirstUnreadable(env, streamDir, rows[1..])
  }

  /** The updates for the rows that compiled, in order: one per such row, none for the others. */
  function EligibleUpdates(env: Env, streamDir: string, rows: seq<TemplateRow>): seq<Action>
    decreases |rows|
  {
    if rows == [] then []
    else
      (match RowOutcomeOf(env, streamDir, rows[0])
       case Compiled(html) => [UpdateBody(rows[0].id, html)]
       case _ => [])
      + EligibleUpdates(env, streamDir, rows[1..])
  }

  /**
   * The loop issues exactly the updates of the compiled rows before the
   * first unreadable one, and it is aborted exactly when there is an
   * unreadable one.
   */
  lemma {:induction false} ProcessRowsIsEligibleUntilAbort(env: Env, streamDir: string, rows: seq<TemplateRow>)
    ensures ProcessRows(env, streamDir, rows).aborted <==> FirstUnreadable(env, streamDir, rows) < |rows|
    ensures ProcessRows(env, streamDir, rows).updates ==
            EligibleUpdates(env, streamDir, rows[..FirstUnreadable(env, streamDir, rows)])
    decreases |rows|
  {
    if rows != [] {
      var k := FirstUnreadable(env, streamDir, rows);
      if RowOutcomeOf(env, streamDir, rows[0]).Unreadable? {
        assert rows[..k] == [];
      } else {
        ProcessRowsIsEligibleUntilAbort(env, streamDir, rows[1..]);
        assert rows[..k][0] == rows[0] && rows[..k][1..] == rows[1..][..k - 1];
      }
    }
  }

  /**
   * An update `(id, html)` is among the eligible ones exactly when some row
   * with that id compiled to that HTML.
   */
  lemma {:induction false} EligibleUpdatesMembers(env: Env, streamDir: string, rows: seq<TemplateRow>, id: int, html: string)
    ensures UpdateBody(id, html) in EligibleUpdates(env, streamDir, rows) <==>
            exists j :: 0 <= j < |rows| && rows[j].id == id && RowOutcomeOf(env, streamDir, rows[j]) == Compiled(html)
    decreases |rows|
  {
    if rows != [] {
      EligibleUpdatesMembers(env, streamDir, rows[1..], id, html);
      if exists j :: 1 <= j < |rows| && rows[j].id == id && RowOutcomeOf(env, streamDir, rows[j]) == Compiled(html) {
        var j :| 1 <= j < |rows| && rows[j].id == id && RowOutcomeOf(env, streamDir, rows[j]) == Compiled(html);
        assert rows[1..][j - 1] == rows[j];
      }
      if exists j :: 0 <= j < |rows| - 1 && rows[1..][j].id == id && RowOutcomeOf(env, streamDir, rows[1..][j]) == Compiled(html) {
        var j :| 0 <= j < |rows| - 1 && rows[1..][j].id == id && RowOutcomeOf(env, streamDir, rows[1..][j]) == Compiled(html);
        assert rows[j + 1] == rows[1..][j];
      }
    }
  }

  /** With no unreadable template every row is processed and every compiled row is updated. */
  lemma NoAbortWithoutUnreadable(env: Env, streamDir: string, rows: seq<TemplateRow>)
    requires forall j :: 0 <= j < |rows| ==> !RowOutcomeOf(env, streamDir, rows[j]).Unreadable?
    ensures !ProcessRows(env, streamDir, rows).aborted
    ensures ProcessRows(env, streamDir, rows).updates == EligibleUpdates(env, streamDir, rows)
  {
    ProcessRowsIsEligibleUntilAbort(env, streamDir, rows);
    assert rows[..|rows|] == rows;
  }

  /* ---- the script around the loop ---- */

  datatype Status =
    | ArgsRejected          // exit before any database access
    | DbFailed              // a connection or query threw: caught, nothing updated
    | StreamNotFound
    | NoTemplates
    | Processed(batch: BatchResult)

  /** `if (!streamName || !streamNumber)` rejects: a missing name, and a number that is null, NaN or 0. */
  predicate Accepts(m: map<string, string>, parseInt: string -> Option<int>) {
    StreamName(m).Some? && StreamNumber(m, parseInt).Number? && StreamNumber(m, parseInt).value != 0
  }

  /** `path.resolve(__dirname, './src/streams/' + streamName)`. */
  function StreamDir(env: Env, scriptDir: string, streamName: string): string {
    env.resolve(scriptDir, "./src/streams/" + streamName)
  }

  /**
   * `processTemplate()`. `streamQuery(name, number)` is the recordset of
   * stream ids, `templateQuery(id)` that of the stream's template rows, each
   * null when the connection or the query throws.
   */
  function Run(env: Env, scriptDir: string, args: seq<string>, parseInt: string -> Option<int>,
               streamQuery: (string, int) -> Option<seq<int>>,
               templateQuery: int -> Option<seq<TemplateRow>>): Status
  {
    var m := ArgMapScan(args, |args|);
    if !Accepts(m, parseInt) then ArgsRejected
    else
      var name := StreamName(m).value;
      match streamQuery(name, StreamNumber(m, parseInt).value)
      case None => DbFailed
      case Some(ids) =>
        if ids == [] then StreamNotFound
        else
          match templateQuery(ids[0])
          case None => DbFailed
          case Some(rows) =>
            if rows == [] then NoTemplates
            else Processed(ProcessRows(env, StreamDir(env, scriptDir, name), rows))
  }

  /** The updates a run issues. */
  function Updates(s: Status): seq<Action> {
    if s.Processed? then s.batch.updates else []
  }

  method UpdateStreamTemplates(env: Env, scriptDir: string, args: seq<string>, parseInt: string -> Option<int>,
                               streamQuery: (string, int) -> Option<seq<int>>,
                               templateQuery: int -> Option<seq<TemplateRow>>)
    returns (status: Status)
    ensures status == Run(env, scriptDir, args, parseInt, streamQuery, templateQuery)
  {
    var argMap := ParseArgMap(args);
    if !Accepts(argMap, parseInt) {
      return ArgsRejected;
    }
    var streamName := StreamName(argMap).value;
    var streamNumber := StreamNumber(argMap, parseInt).value;
    var streamResult := streamQuery(streamName, streamNumber);
    if streamResult.None? {
      return DbFailed;
    }
    if streamResult.value == [] {
      return StreamNotFound;
    }
    var templateResult := templateQuery(streamResult.value[0]);
    if templateResult.None? {
      return DbFailed;
    }
    if templateResult.value == [] {
      return NoTemplates;
    }
    var updates, aborted := ProcessTemplates(env, StreamDir(env, scriptDir, streamName), templateResult.value);
    return Processed(BatchResult(updates, aborted));
  }

  /**
   * A run updates something only when the arguments were accepted, the
   * stream was found and it has template rows; every update is then that of
   * a row of the first stream id whose template, found in the stream's own
   * folder, compiled without errors.
   */
  lemma RunUpdates(env: Env, scriptDir: string, args: seq<string>, parseInt: string -> Option<int>,
                   streamQuery: (string, int) -> Option<seq<int>>,
                   templateQuery: int -> Option<seq<TemplateRow>>, id: int, html: string)
    requires UpdateBody(id, html) in Updates(Run(env, scriptDir, args, parseInt, streamQuery, templateQuery))
    ensures var m := ArgMapScan(args, |args|);
            Accepts(m, parseInt) &&
            var ids := streamQuery(StreamName(m).value, StreamNumber(m, parseInt).value);
            ids.Some? && ids.value != [] &&
            var rows := templateQuery(ids.value[0]);
            rows.Some? &&
            exists j :: 0 <= j < |rows.value| && rows.value[j].id == id &&
              RowOutcomeOf(env, StreamDir(env, scriptDir, StreamName(m).value), rows.value[j]) == Compiled(html)
  {
    var m := ArgMapScan(args, |args|);
    var ids := streamQuery(StreamName(m).value, StreamNumber(m, parseInt).value);
    var rows := templateQuery(ids.value[0]).value;
    var dir := StreamDir(env, scriptDir, StreamName(m).value);
    ProcessRowsIsEligibleUntilAbort(env, dir, rows);
    var k := FirstUnreadable(env, dir, rows);
    EligibleUpdatesMembers(env, dir, rows[..k], id, html);
    var j :| 0 <= j < |rows[..k]| && rows[..k][j].id == id && RowOutcomeOf(env, dir, rows[..k][j]) == Compiled(html);
    assert rows[..k][j] == rows[j];
  }
}
