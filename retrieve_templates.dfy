/**
 * retreiveMultipleTemplatesHTML.js, which saves every email template body of
 * a stream under `C:/temp/<stream>/`, and retrieveTemplateHtml.js, which
 * saves one template body as `C:/temp/<name>.html`.
 */
module RetrieveTemplates {
  import opened Wrappers
  import opened Text
  import opened Locator
  import opened CliArgs
  import opened FileNames

  /** A row of `SELECT TemplateName, Body FROM OBMessageTemplate ...`. */
  datatype TemplateBody = TemplateBody(templateName: string, body: string)

  /** One `fs.writeFileSync(path, body)` and whether it succeeded. */
  datatype WriteAttempt = WriteAttempt(path: string, body: string, ok: bool)

  const BaseDir: string := "C:/temp"

  /**
   * The file a template of the stream is saved to: the stream's folder under
   * `C:/temp` and the template's name with `.html`, both sanitized; that is
   * `path.join('C:/temp', sanitize(stream), sanitize(name) + '.html')`.
   */
  function OutputFile(streamName: string, templateName: string, join: (string, string) -> string): (r: string)
    ensures r == FullPath(BaseDir, [Sanitize(streamName), Sanitize(templateName) + ".html"], join)
  {
    var outputDir := join(BaseDir, Sanitize(streamName));
    FullPathOfTwo(BaseDir, Sanitize(streamName), Sanitize(templateName) + ".html", join);
    join(outputDir, Sanitize(templateName) + ".html")
  }

  /**
   * Neither component joined under `C:/temp` holds a reserved character, so
   * neither can add a directory level, and the file name ends in `.html`.
   */
  lemma OutputFileComponents(streamName: string, templateName: string)
    ensures forall i :: 0 <= i < |Sanitize(streamName)| ==> !IsReserved(Sanitize(streamName)[i])
    ensures var f := Sanitize(templateName) + ".html";
            EndsWith(f, ".html") && forall i :: 0 <= i < |f| ==> !IsReserved(f[i])
  {
    SanitizeResult(streamName);
    SanitizeResult(templateName);
    var f := Sanitize(templateName) + ".html";
    assert f[|f| - 5..] == ".html";
  }

  /**
   * Two template names give the same sanitized name exactly when they agree
   * at every position except where both characters turn into `_`; such names
   * share a file, and the later body overwrites the earlier.
   */
  lemma OutputFileCollision(streamName: string, a: string, b: string, join: (string, string) -> string)
    ensures Sanitize(a) == Sanitize(b) <==> SameOnceSanitized(a, b)
    ensures SameOnceSanitized(a, b) ==> OutputFile(streamName, a, join) == OutputFile(streamName, b, join)
  {
    if Sanitize(a) == Sanitize(b) {
      forall i | 0 <= i < |a|
        ensures a[i] == b[i] || (BecomesUnderscore(a[i]) && BecomesUnderscore(b[i]))
      {
        assert Sanitize(a)[i] == Sanitize(b)[i];
      }
    }
    if SameOnceSanitized(a, b) {
      assert forall i :: 0 <= i < |a| ==> Sanitize(a)[i] == Sanitize(b)[i];
    }
  }

  /**
   * `saveTemplatesToFile(templates)`: every template is written, in order,
   * to its own file; a failing write is reported and the loop goes on.
   * `writeOk(path, body)` says whether the write succeeds.
   */
  method SaveTemplatesToFile(streamName: string, templates: seq<TemplateBody>, join: (string, string) -> string,
                             writeOk: (string, string) -> bool)
    returns (log: seq<WriteAttempt>)
    ensures |log| == |templates|
    ensures forall i :: 0 <= i < |templates| ==>
              log[i].path == OutputFile(streamName, templates[i].templateName, join) &&
              log[i].body == templates[i].body && log[i].ok == writeOk(log[i].path, log[i].body)
  {
    log := [];
    for i := 0 to |templates|
      invariant |log| == i
      invariant forall j :: 0 <= j < i ==>
                  log[j].path == OutputFile(streamName, templates[j].templateName, join) &&
                  log[j].body == templates[j].body && log[j].ok == writeOk(log[j].path, log[j].body)
    {
      var filePath := OutputFile(streamName, templates[i].templateName, join);
      var ok := writeOk(filePath, templates[i].body);
      log := log + [WriteAttempt(filePath, templates[i].body, ok)];
    }
  }

  /**
   * The validation as written, `!streamName || isNaN(streamNumber)`:
   * `isNaN(null)` is false, so a missing `--streamNumber` is let through.
   */
  predicate AcceptsAsWritten(m: map<string, string>, parseInt: string -> Option<int>) {
    StreamName(m).Some? && !StreamNumber(m, parseInt).NaN?
  }

  /** `--stream A` alone passes the check although no stream number was given. */
  lemma MissingStreamNumberAccepted(parseInt: string -> Option<int>)
    ensures var m := ArgMapScan(["--stream", "A"], 2);
            AcceptsAsWritten(m, parseInt) && StreamNumber(m, parseInt).Null?
  {
    var args := ["--stream", "A"];
    assert args[0][..2] == "--" && args[0][2..] == "stream";
    assert !StartsWith(args[1], "--");
    TrimStrips("A");
    assert ArgMapScan(args, 1) == map["stream" := "A"];
    assert ArgMapScan(args, 2) == map["stream" := "A"];
  }

  /** The validation the message asks for: a stream name and a numeric stream number. */
  predicate Accepts(m: map<string, string>, parseInt: string -> Option<int>) {
    StreamName(m).Some? && StreamNumber(m, parseInt).Number?
  }

  /** The corrected check rejects exactly what the written one rejects, plus a missing number. */
  lemma AcceptsIsAsWrittenWithNumber(m: map<string, string>, parseInt: string -> Option<int>)
    ensures Accepts(m, parseInt) <==> AcceptsAsWritten(m, parseInt) && !StreamNumber(m, parseInt).Null?
  {
  }

  datatype Status =
    | ArgsRejected
    | StreamNotFound      // `!streamId`: no row, a failed query, or id 0
    | NoTemplates
    | Saved(log: seq<WriteAttempt>)

  /**
   * `processTemplates()`, with the validation as written.
   * `fetchStreamId(name, number)` is the first stream id, null when there is
   * none or the query throws; `fetchTemplates(id)` the rows with a non-empty
   * body, empty when the query throws. With a missing number the query
   * compares `StreamNumber = NULL`, which is never true in SQL, so no row
   * comes back and the script stops at "stream not found".
   */
  method RetrieveStreamTemplates(args: seq<string>, parseInt: string -> Option<int>,
                                 fetchStreamId: (string, int) -> Option<int>,
                                 fetchTemplates: int -> seq<TemplateBody>,
                                 join: (string, string) -> string, writeOk: (string, string) -> bool)
    returns (status: Status)
    ensures var m := ArgMapScan(args, |args|);
            status.ArgsRejected? <==> !AcceptsAsWritten(m, parseInt)
    ensures var m := ArgMapScan(args, |args|);
            AcceptsAsWritten(m, parseInt) && StreamNumber(m, parseInt).Null? ==> status.StreamNotFound?
    ensures var m := ArgMapScan(args, |args|);
            Accepts(m, parseInt) ==>
              var id := fetchStreamId(StreamName(m).value, StreamNumber(m, parseInt).value);
              (status.StreamNotFound? <==> id.None? || id.value == 0) &&
              (status.NoTemplates? <==> id.Some? && id.value != 0 && fetchTemplates(id.value) == []) &&
              (status.Saved? ==>
                 id.Some? && var templates := fetchTemplates(id.value);
                 |status.log| == |templates| &&
                 forall i :: 0 <= i < |templates| ==>
                   status.log[i].path == OutputFile(StreamName(m).value, templates[i].templateName, join) &&
                   status.log[i].body == templates[i].body &&
                   status.log[i].ok == writeOk(status.log[i].path, status.log[i].body))
  {
    var argMap := ParseArgMap(args);
    if !AcceptsAsWritten(argMap, parseInt) {
      return ArgsRejected;
    }
    var streamName := StreamName(argMap).value;
    var streamNumber := StreamNumber(argMap, parseInt);
    var streamId := if streamNumber.Number? then fetchStreamId(streamName, streamNumber.value) else None;
    if streamId.None? || streamId.value == 0 {
      return StreamNotFound;
    }
    var templates := fetchTemplates(streamId.value);
    if |templates| == 0 {
      return NoTemplates;
    }
    var log := SaveTemplatesToFile(streamName, templates, join, writeOk);
    return Saved(log);
  }

  /* ---- retrieveTemplateHtml.js ---- */

  /** `path.join('C:', 'temp', templateName + '.html')`: the name is used as given, unsanitized. */
  function SaveTarget(templateName: string, join: (string, string) -> string): (r: string)
    ensures r == FullPath("C:", ["temp", templateName + ".html"], join)
  {
    FullPathOfTwo("C:", "temp", templateName + ".html", join);
    join(join("C:", "temp"), templateName + ".html")
  }

  datatype SingleStatus =
    | Rejected
    | NothingSaved                              // no row, a failed query, or an empty body
    | SaveAttempted(path: string, body: string)

  /**
   * The whole script; `fetchBody(name)` is the body of the first row named
   * `name`, null when there is none or the query throws. A missing or empty
   * name rejects the run; otherwise the body is saved exactly when it is
   * non-empty, to `C:/temp/<name>.html`.
   */
  method RetrieveTemplate(args: seq<string>, fetchBody: string -> Option<string>, join: (string, string) -> string)
    returns (status: SingleStatus)
    ensures status.Rejected? <==> !Provided(PrefixScan(args, |args|))
    ensures status.SaveAttempted? <==>
              Provided(PrefixScan(args, |args|)) && Provided(fetchBody(PrefixScan(args, |args|).value))
    ensures status.SaveAttempted? ==>
              status.path == SaveTarget(PrefixScan(args, |args|).value, join) &&
              status.body == fetchBody(PrefixScan(args, |args|).value).value
  {
    var templateName := ParseTemplateOption(args);
    if !Provided(templateName) {
      return Rejected;
    }
    var htmlBody := fetchBody(templateName.value);
    if Provided(htmlBody) {
      return SaveAttempted(SaveTarget(templateName.value, join), htmlBody.value);
    }
    return NothingSaved;
  }
}
