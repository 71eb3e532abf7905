/**
 * The command-line scans of the scripts: each is an `args.forEach((arg,
 * index) => ...)` that reads `args[index + 1]` and updates a few variables.
 * Each scan is specified by a step function folded over the argument
 * positions, and implemented by a loop.
 */
module CliArgs {
  import opened Wrappers
  import opened Text
  import opened Placeholders

  /** `args[index + 1]`: undefined past the end. */
  function Next(args: seq<string>, i: nat): Option<string> {
    if i + 1 < |args| then Some(args[i + 1]) else None
  }

  /** `value` is truthy: defined and non-empty. */
  predicate HasValue(args: seq<string>, i: nat) {
    i + 1 < |args| && args[i + 1] != []
  }

  /** `value && !value.startsWith('--')`. */
  predicate IsOptionValue(args: seq<string>, i: nat) {
    HasValue(args, i) && !StartsWith(args[i + 1], "--")
  }

  /** `x?.trim()`. */
  function TrimOpt(v: Option<string>): Option<string> {
    match v
    case None => None
    case Some(s) => Some(Trim(s))
  }

  /** A JavaScript value that is a non-empty string, i.e. truthy. */
  predicate Provided(v: Option<string>) {
    v.Some? && v.value != []
  }

  /** `arg.startsWith('--')` with `arg.slice(2) === key` says `arg` is `--key`. */
  lemma OptionSpelling(arg: string, key: string)
    ensures (StartsWith(arg, "--") && arg[2..] == key) <==> arg == "--" + key
  {
    if arg == "--" + key {
      assert arg[..2] == "--";
    }
    if StartsWith(arg, "--") {
      assert arg == arg[..2] + arg[2..];
    }
  }

  /* ---- BuildTemplateWithArgs.js, sendTestEmailUsingSendgrid.js, sendEmail.js ---- */

  const DefaultTemplate: string := "defaultTemplate.mjml"

  /**
   * The name after the first `n` positions: `--template V` with `V` truthy
   * sets it, trimmed (untrimmed in sendEmail.js), even when `V` starts with
   * `--`; it starts as `defaultTemplate.mjml`.
   */
  function TemplateNameScan(args: seq<string>, n: nat, trimTemplate: bool): string
    requires n <= |args|
  {
    if n == 0 then DefaultTemplate
    else if SetsTemplate(args, n - 1) then (if trimTemplate then Trim(args[n]) else args[n])
    else TemplateNameScan(args, n - 1, trimTemplate)
  }

  /**
   * The placeholders after the first `n` positions: any other `--key V`
   * with `V` truthy and not starting with `--` stores `{{key}}` -> `V`.
   */
  function PlaceholderScan(args: seq<string>, n: nat): Store
    requires n <= |args|
  {
    if n == 0 then []
    else
      var st := PlaceholderScan(args, n - 1);
      var arg := args[n - 1];
      if StartsWith(arg, "--") && !SetsTemplate(args, n - 1) && IsOptionValue(args, n - 1) then
        Put(st, Token(arg[2..]), args[n])
      else st
  }

  /** A position that sets the template name: `--template` followed by a truthy value. */
  predicate SetsTemplate(args: seq<string>, j: nat)
    requires j < |args|
  {
    StartsWith(args[j], "--") && args[j][2..] == "template" && HasValue(args, j)
  }

  method ParseTemplateArgs(args: seq<string>, trimTemplate: bool)
    returns (templateName: string, placeholders: Store)
    ensures templateName == TemplateNameScan(args, |args|, trimTemplate)
    ensures placeholders == PlaceholderScan(args, |args|)
  {
    templateName := DefaultTemplate;
    placeholders := [];
    for index := 0 to |args|
      invariant templateName == TemplateNameScan(args, index, trimTemplate)
      invariant placeholders == PlaceholderScan(args, index)
    {
      var arg := args[index];
      if StartsWith(arg, "--") {
        var key := arg[2..];
        var value := Next(args, index);
        if key == "template" && value.Some? && value.value != [] {
          templateName := if trimTemplate then Trim(value.value) else value.value;
        } else if value.Some? && value.value != [] && !StartsWith(value.value, "--") {
          placeholders := Put(placeholders, Token(key), value.value);
        }
      }
    }
  }

  /** A position that stores the placeholder `{{key}}`. */
  predicate SetsPlaceholder(args: seq<string>, j: nat, key: string)
    requires j < |args|
  {
    key != "template" && args[j] == "--" + key && IsOptionValue(args, j)
  }

  lemma PlaceholderStep(args: seq<string>, n: nat, key: string)
    requires 0 < n <= |args|
    ensures Get(PlaceholderScan(args, n), Token(key)) ==
            if SetsPlaceholder(args, n - 1, key) then Some(args[n])
            else Get(PlaceholderScan(args, n - 1), Token(key))
  {
    var j := n - 1;
    OptionSpelling(args[j], key);
    OptionSpelling(args[j], "template");
    if StartsWith(args[j], "--") {
      TokenInjective(args[j][2..], key);
    }
  }

  /** The last `--template V` with `V` truthy decides the name, trimmed or not. */
  lemma {:induction false} TemplateNameLastWins(args: seq<string>, trimTemplate: bool, i: nat, n: nat)
    requires i < n <= |args| && args[i] == "--template" && HasValue(args, i)
    requires forall j :: i < j < n ==> !SetsTemplate(args, j)
    ensures TemplateNameScan(args, n, trimTemplate) == if trimTemplate then Trim(args[i + 1]) else args[i + 1]
  {
    if n - 1 > i {
      TemplateNameLastWins(args, trimTemplate, i, n - 1);
    } else {
      OptionSpelling(args[i], "template");
    }
  }

  /** Without such an argument the name stays `defaultTemplate.mjml`. */
  lemma {:induction false} TemplateNameDefault(args: seq<string>, trimTemplate: bool, n: nat)
    requires n <= |args|
    requires forall j :: 0 <= j < n ==> !SetsTemplate(args, j)
    ensures TemplateNameScan(args, n, trimTemplate) == DefaultTemplate
  {
    if n > 0 {
      TemplateNameDefault(args, trimTemplate, n - 1);
    }
  }

  /** The last `--key V` with `V` truthy and not an option decides `{{key}}`'s value, untrimmed. */
  lemma {:induction false} PlaceholderLastWins(args: seq<string>, key: string, i: nat, n: nat)
    requires i < n <= |args| && SetsPlaceholder(args, i, key)
    requires forall j :: i < j < n ==> !SetsPlaceholder(args, j, key)
    ensures Get(PlaceholderScan(args, n), Token(key)) == Some(args[i + 1])
  {
    PlaceholderStep(args, n, key);
    if n - 1 > i {
      PlaceholderLastWins(args, key, i, n - 1);
    }
  }

  /**
   * `{{key}}` is absent when no position stores it: an empty or missing
   * value, a value starting with `--`, and the key `template` store nothing.
   */
  lemma {:induction false} PlaceholderAbsent(args: seq<string>, key: string, n: nat)
    requires n <= |args|
    requires forall j :: 0 <= j < n ==> !SetsPlaceholder(args, j, key)
    ensures Get(PlaceholderScan(args, n), Token(key)) == None
  {
    if n > 0 {
      PlaceholderStep(args, n, key);
      PlaceholderAbsent(args, key, n - 1);
    }
  }

  /** Every stored token is non-empty and distinct, so the store can drive the substitution loop. */
  lemma {:induction false} PlaceholderKeysValid(args: seq<string>, n: nat)
    requires n <= |args|
    ensures DistinctKeys(PlaceholderScan(args, n))
    ensures NonEmptyKeys(PlaceholderScan(args, n))
  {
    if n > 0 {
      PlaceholderKeysValid(args, n - 1);
      if StartsWith(args[n - 1], "--") && IsOptionValue(args, n - 1) {
        PutKeepsKeysValid(PlaceholderScan(args, n - 1), Token(args[n - 1][2..]), args[n]);
      }
    }
  }

  /* ---- updateOBMessageTemplatesPerStream.js, retreiveMultipleTemplatesHTML.js ---- */

  /** One position of the `argMap` scan: `--key V` stores `trim(V)` when `V` is truthy and not an option. */
  function ArgMapStep(args: seq<string>, i: nat, m: map<string, string>): map<string, string>
    requires i < |args|
  {
    if StartsWith(args[i], "--") && IsOptionValue(args, i) then m[args[i][2..] := Trim(args[i + 1])]
    else m
  }

  function ArgMapScan(args: seq<string>, n: nat): map<string, string>
    requires n <= |args|
  {
    if n == 0 then map[] else ArgMapStep(args, n - 1, ArgMapScan(args, n - 1))
  }

  method ParseArgMap(args: seq<string>) returns (argMap: map<string, string>)
    ensures argMap == ArgMapScan(args, |args|)
  {
    argMap := map[];
    for index := 0 to |args|
      invariant argMap == ArgMapScan(args, index)
    {
      var arg := args[index];
      if StartsWith(arg, "--") {
        var key := arg[2..];
        var value := Next(args, index);
        if value.Some? && value.value != [] && !StartsWith(value.value, "--") {
          argMap := argMap[key := Trim(value.value)];
        }
      }
    }
  }

  predicate SetsArg(args: seq<string>, j: nat, key: string)
    requires j < |args|
  {
    args[j] == "--" + key && IsOptionValue(args, j)
  }

  lemma ArgMapStepAt(args: seq<string>, n: nat, key: string)
    requires 0 < n <= |args|
    ensures key in ArgMapScan(args, n) <==> SetsArg(args, n - 1, key) || key in ArgMapScan(args, n - 1)
    ensures SetsArg(args, n - 1, key) ==> ArgMapScan(args, n)[key] == Trim(args[n])
    ensures !SetsArg(args, n - 1, key) && key in ArgMapScan(args, n - 1) ==>
            ArgMapScan(args, n)[key] == ArgMapScan(args, n - 1)[key]
  {
    OptionSpelling(args[n - 1], key);
  }

  /** The last `--key V` with `V` truthy and not an option decides `argMap[key]`, trimmed. */
  lemma {:induction false} ArgMapLastWins(args: seq<string>, key: string, i: nat, n: nat)
    requires i < n <= |args| && SetsArg(args, i, key)
    requires forall j :: i < j < n ==> !SetsArg(args, j, key)
    ensures key in ArgMapScan(args, n) && ArgMapScan(args, n)[key] == Trim(args[i + 1])
  {
    ArgMapStepAt(args, n, key);
    if n - 1 > i {
      assert !SetsArg(args, n - 1, key);
      ArgMapLastWins(args, key, i, n - 1);
    }
  }

  /** A key no position sets is absent. */
  lemma {:induction false} ArgMapAbsent(args: seq<string>, key: string, n: nat)
    requires n <= |args|
    requires forall j :: 0 <= j < n ==> !SetsArg(args, j, key)
    ensures key !in ArgMapScan(args, n)
  {
    if n > 0 {
      ArgMapStepAt(args, n, key);
      ArgMapAbsent(args, key, n - 1);
    }
  }

  /** The stream number as the scripts hold it: `null`, `NaN` or an integer. */
  datatype NumberValue = Null | NaN | Number(value: int)

  /** `argMap['stream'] || null`: a stored empty string counts as absent. */
  function StreamName(m: map<string, string>): (r: Option<string>)
    ensures r.Some? <==> "stream" in m && m["stream"] != []
    ensures r.Some? ==> r.value == m["stream"]
  {
    if "stream" in m && m["stream"] != [] then Some(m["stream"]) else None
  }

  /**
   * `argMap['streamNumber'] ? parseInt(argMap['streamNumber'], 10) : null`;
   * `parseInt` is given by its decimal reading, null when that is `NaN`.
   */
  function StreamNumber(m: map<string, string>, parseInt: string -> Option<int>): (r: NumberValue)
    ensures r.Null? <==> "streamNumber" !in m || m["streamNumber"] == []
    ensures r.NaN? <==> "streamNumber" in m && m["streamNumber"] != [] && parseInt(m["streamNumber"]).None?
    ensures r.Number? ==> parseInt(m["streamNumber"]) == Some(r.value)
  {
    if "streamNumber" in m && m["streamNumber"] != [] then
      match parseInt(m["streamNumber"])
      case None => NaN
      case Some(n) => Number(n)
    else Null
  }

  /* ---- updateOBMessageTemplateBody.js, retrieveTemplateHtml.js ---- */

  /**
   * One position: an argument that merely starts with `--template` sets the
   * name to the next argument trimmed, or to undefined when there is none.
   */
  function PrefixStep(args: seq<string>, i: nat, name: Option<string>): Option<string>
    requires i < |args|
  {
    if StartsWith(args[i], "--template") then TrimOpt(Next(args, i)) else name
  }

  function PrefixScan(args: seq<string>, n: nat): Option<string>
    requires n <= |args|
  {
    if n == 0 then None else PrefixStep(args, n - 1, PrefixScan(args, n - 1))
  }

  method ParseTemplateOption(args: seq<string>) returns (templateName: Option<string>)
    ensures templateName == PrefixScan(args, |args|)
  {
    templateName := None;
    for index := 0 to |args|
      invariant templateName == PrefixScan(args, index)
    {
      if StartsWith(args[index], "--template") {
        templateName := TrimOpt(Next(args, index));
      }
    }
  }

  /** The last argument starting with `--template` decides the name: the next argument, trimmed. */
  lemma {:induction false} PrefixLastWins(args: seq<string>, i: nat, n: nat)
    requires i < n <= |args| && StartsWith(args[i], "--template")
    requires forall j :: i < j < n ==> !StartsWith(args[j], "--template")
    ensures PrefixScan(args, n) == TrimOpt(Next(args, i))
  {
    if n - 1 > i {
      PrefixLastWins(args, i, n - 1);
    }
  }

  /** No such argument leaves the name null. */
  lemma {:induction false} PrefixAbsent(args: seq<string>, n: nat)
    requires n <= |args|
    requires forall j :: 0 <= j < n ==> !StartsWith(args[j], "--template")
    ensures PrefixScan(args, n) == None
  {
    if n > 0 {
      PrefixAbsent(args, n - 1);
    }
  }

  /** A `--template` in last position leaves the name undefined, so the run is rejected. */
  lemma TrailingTemplateOption(args: seq<string>)
    requires args != [] && StartsWith(args[|args| - 1], "--template")
    ensures !Provided(PrefixScan(args, |args|))
  {
  }

  /* ---- updateOBMessageTeamplateBody.js ---- */

  datatype BodyArgs = BodyArgs(templateName: Option<string>, htmlBody: Option<string>)

  /** `--template...` sets the name, trimmed; otherwise `--htmlBody...` sets the body, untrimmed. */
  function BodyStep(args: seq<string>, i: nat, st: BodyArgs): BodyArgs
    requires i < |args|
  {
    if StartsWith(args[i], "--template") then st.(templateName := TrimOpt(Next(args, i)))
    else if StartsWith(args[i], "--htmlBody") then st.(htmlBody := Next(args, i))
    else st
  }

  function BodyScan(args: seq<string>, n: nat): BodyArgs
    requires n <= |args|
  {
    if n == 0 then BodyArgs(None, None) else BodyStep(args, n - 1, BodyScan(args, n - 1))
  }

  method ParseBodyArgs(args: seq<string>) returns (templateName: Option<string>, htmlBody: Option<string>)
    ensures BodyArgs(templateName, htmlBody) == BodyScan(args, |args|)
  {
    templateName, htmlBody := None, None;
    for index := 0 to |args|
      invariant BodyArgs(templateName, htmlBody) == BodyScan(args, index)
    {
      if StartsWith(args[index], "--template") {
        templateName := TrimOpt(Next(args, index));
      } else if StartsWith(args[index], "--htmlBody") {
        htmlBody := Next(args, index);
      }
    }
  }

  /** The template name of this scan is that of the prefix scan. */
  lemma {:induction false} BodyScanTemplate(args: seq<string>, n: nat)
    requires n <= |args|
    ensures BodyScan(args, n).templateName == PrefixScan(args, n)
  {
    if n > 0 {
      BodyScanTemplate(args, n - 1);
    }
  }

  /** The last argument starting with `--htmlBody` decides the body, untrimmed; undefined in last position. */
  lemma {:induction false} HtmlBodyLastWins(args: seq<string>, i: nat, n: nat)
    requires i < n <= |args| && StartsWith(args[i], "--htmlBody")
    requires forall j :: i < j < n ==> !StartsWith(args[j], "--htmlBody")
    ensures BodyScan(args, n).htmlBody == Next(args, i)
    decreases n
  {
    if n - 1 > i {
      HtmlBodyLastWins(args, i, n - 1);
      BodyStepKeepsHtmlBody(args, n - 1, BodyScan(args, n - 1));
    } else {
      BodyStepSetsHtmlBody(args, i, BodyScan(args, i));
    }
  }

  /** Helper: an argument starting with `--htmlBody` sets the body. */
  lemma BodyStepSetsHtmlBody(args: seq<string>, i: nat, st: BodyArgs)
    requires i < |args| && StartsWith(args[i], "--htmlBody")
    ensures BodyStep(args, i, st).htmlBody == Next(args, i)
  {
    assert args[i][2] == 'h';
  }

  /** Helper: any other argument leaves the body as it is. */
  lemma BodyStepKeepsHtmlBody(args: seq<string>, j: nat, st: BodyArgs)
    requires j < |args| && !StartsWith(args[j], "--htmlBody")
    ensures BodyStep(args, j, st).htmlBody == st.htmlBody
  {
  }
}
