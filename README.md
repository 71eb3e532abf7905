# MJML email template scripts: a Dafny model

The repository is a set of Node command-line scripts. Each one reads its
arguments and locates an MJML template in a folder tree. It splices the
files named by `<mj-include path="...">` directives into the template and
substitutes `{{key}}` placeholders. Then it hands the text to the `mjml`
compiler. The resulting HTML is written to a file, sent by email, or stored
as the `Body` of an `OBMessageTemplate` row. Two further scripts copy stored
bodies from the database into files under `C:/temp`.

This project models the logic those scripts share. It states what each
script does with its arguments, its folder tree and its files.

Shared modules:

- `Text`: the JavaScript string operations used, over `seq<char>`.
  - `trim` follows the ECMAScript white-space set.
  - `startsWith` and `indexOf` are modelled directly.
  - `replace` comes in two forms: a string pattern replaces the first occurrence only; a global literal pattern replaces every non-overlapping occurrence.
- `Locator` (`findTemplateFile`): a folder is the sequence of its entries in `readdirSync` order, and a path is a fold of `path.join`. There are three variants:
  - recursive with exact names;
  - recursive and restricted to `.mjml` files;
  - a single existence check with no recursion.
- `Includes` (`resolveIncludes`): the global regular-expression replace, with the closing slash required or optional.
  - The lazy `(.*?)` and greedy `\s*` are modelled as scans.
  - The regex is tried at each index of the text, left to right. A match is replaced by the callback's text, and the scan resumes after the match.
  - Replacements are never scanned again.
- `Placeholders`: the `placeholders` object is an insertion-ordered list of (token, value) pairs with distinct tokens. Alongside it is the loop that applies each key in turn to the text built so far.
- `CliArgs`: the four argument scans. Each is specified by a step function folded over the argument positions, and implemented by a loop.
  - `--template` and `--key` placeholders;
  - the `argMap` scan;
  - the `--template` prefix scan;
  - the `--template`/`--htmlBody` scan.
- `FileNames`: `sanitizeFileName` and the first-occurrence `.mjml` to `.html` rewrite.
- `Pipeline`: the common one-template flow. It locates the template, reads it, resolves includes against the template's own folder, substitutes placeholders and compiles.
- `Host`: the file system, path functions and compiler are values of the `Env` datatype. Each property holds for every choice of them.

One module per script:

- `BuildTemplateWithArgs`
- `SendEmail`: sendTestEmailUsingSendgrid.js and sendEmail.js.
- `UpdateTemplateBody`: updateOBMessageTemplateBody.js.
- `UpdateTemplatesPerStream`
- `UpdateBodyDirect`: updateOBMessageTeamplateBody.js.
- `RetrieveTemplates`: retreiveMultipleTemplatesHTML.js and retrieveTemplateHtml.js.
- `BuildTemplatesOld`

Variants of one piece of logic are modelled once, with a parameter:

| Parameter | Meaning |
|---|---|
| `slashOptional` | in `Includes`, whether the slash in the closing is optional |
| `mjmlOnly` | in `Locator`, whether only `.mjml` files match |
| `trimTemplate` | in `CliArgs`, whether the `--template` value is trimmed |

Some behaviour of the code is worth stating because a reader might expect otherwise. The model follows the code:

- **Include expansion is single level.** A fully recursive expansion with a guard against include cycles would be the natural reading of `<mj-include>`. Every copy of `resolveIncludes` makes one pass, and spliced text is never rescanned (`Includes.IncludedDirectivesStayUnexpanded`).
- **A read failure in the batch script ends the loop.** In updateOBMessageTemplatesPerStream.js, a template that exists but cannot be read throws out of the loop. No later template of the stream is processed, although only the failing item would need to be abandoned.
- **A failing read or write ends buildTemplatesOld.js.** Neither `readFileSync` nor `writeFileSync` is caught there, so the first such failure ends the run (`BuildTemplatesOld.BuildAllUntilCrash`).
- **Directory listing order.** The model uses whatever order the listing gives, not a sorted order.
- **Unreadable directories.** `fs.readdirSync` throws on a directory that cannot be read, and nothing in `findTemplateFile` catches it. This is not the same as "not found" (null): it crashes BuildTemplateWithArgs.js and the send scripts and rejects the promise of `processTemplate` in updateOBMessageTemplateBody.js. The case does not arise in updateOBMessageTemplatesPerStream.js, whose `findTemplateFile` only calls `existsSync` on one joined path. The model's folder trees contain no unreadable directory (see "Left out").

## Model

| member | source | states |
|---|---|---|
| Text.TrimStartStrips | BuildTemplateWithArgs.js:38 | the start of `trim` removes exactly the leading run of white space: the result is a suffix, everything before it is white space, and it does not start with white space |
| Text.TrimEndStrips | BuildTemplateWithArgs.js:38 | the end of `trim` removes exactly the trailing run of white space: the result is a prefix, everything after it is white space, and it does not end with white space |
| Text.TrimStrips | BuildTemplateWithArgs.js:38 | a trimmed value neither starts nor ends with white space; a value that neither starts nor ends with white space is unchanged |
| Text.TrimIdempotent | updateOBMessageTemplatesPerStream.js:46 | trimming twice is trimming once |
| Text.IndexFrom | BuildTemplateWithArgs.js:112 | `indexOf` from a position returns an occurrence at or after it with none in between, or none when there is no occurrence |
| Text.IndexOf | BuildTemplateWithArgs.js:112 | `indexOf` returns the first occurrence, or none exactly when the pattern occurs nowhere |
| Text.ReplaceAllAbsent | BuildTemplateWithArgs.js:98 | a global replace of a key that does not occur leaves the text unchanged |
| Text.ReplaceAllFirst | BuildTemplateWithArgs.js:98 | a global replace copies the text before the first occurrence, puts the value there and resumes after the occurrence |
| Text.ReplaceAllAfterPlainText | BuildTemplateWithArgs.js:98 | the same, when the text before the key lacks the key's first character |
| Text.ReplaceAllSelf | BuildTemplateWithArgs.js:98 | replacing a key by itself changes nothing |
| FileNames.Sanitize | retreiveMultipleTemplatesHTML.js:96-98 | each of the nine characters Windows reserves in file names (angle brackets, colon, double quote, slash, backslash, vertical bar, question mark, asterisk) becomes `_`, every other character is kept, and the length is unchanged |
| FileNames.SanitizeResult | retreiveMultipleTemplatesHTML.js:97 | no reserved character survives, and sanitizing is idempotent |
| FileNames.HtmlOutputPath | BuildTemplateWithArgs.js:112 | only the first `.mjml` becomes `.html`; the text around it and the length are unchanged; a path without `.mjml` is returned as it is |
| FileNames.HtmlOutputPathOfExtension | buildTemplatesOld.js:25 | a path whose only `.mjml` is its extension gets the extension `.html` |
| FileNames.HtmlOutputPathFirstOnly | BuildTemplateWithArgs.js:112 | an example of the first-occurrence rewrite: in `a.mjml/b.mjml` only the earlier `.mjml` is rewritten |
| Locator.FindTemplateFile | BuildTemplateWithArgs.js:48-60 | the loop with early return and recursion returns the joined path of the entry that `Locate` specifies, or null exactly when `Locate` finds nothing |
| Locator.FirstMatch | BuildTemplateWithArgs.js:50-59 | the reference search returns a listed path whose last name matches, with no matching path listed before it, and returns none exactly when no listed path matches |
| Locator.LocateIsFirstInDepthFirstOrder | BuildTemplateWithArgs.js:48-60 | the locator returns the first matching file in depth-first entry order: an earlier directory's whole subtree comes before later siblings |
| Locator.LocateNoneIff | BuildTemplateWithArgs.js:59 | null is returned exactly when no file anywhere in the tree matches |
| Locator.LocateSound | BuildTemplateWithArgs.js:52-56 | a returned path leads through directories to a non-directory entry whose name matches exactly; a directory with the searched name is searched, never returned |
| Locator.MjmlOnlyVariant | updateOBMessageTemplateBody.js:68-80 | the `.mjml`-only search finds what the exact-name search finds when the name ends in `.mjml`, and nothing otherwise |
| Locator.SearchedNameEndsWithMjml | updateOBMessageTemplateBody.js:145 | the searched name `templateName + '.mjml'` ends in `.mjml`, so the filter never rejects a file with that name |
| Locator.FindInDirectory | updateOBMessageTemplatesPerStream.js:63-70 | the non-recursive locator returns `join(dir, name)` exactly when that path exists, and null otherwise |
| Includes.WhitespaceEndIsLongestRun | BuildTemplateWithArgs.js:74 | greedy `\s*` takes the longest run of white space from a position |
| Includes.CloseEnd | BuildTemplateWithArgs.js:74 | a match of the closing ends with `>`; unless the slash is optional, it ends with `/>` |
| Includes.LazyEndFound | BuildTemplateWithArgs.js:74 | the lazy scan stops at a quote that the closing follows, and the match ends where the closing does |
| Includes.LazyEndIsFirst | BuildTemplateWithArgs.js:74 | before the quote it stops at, no character is a line terminator and no quote is followed by the closing: the shortest capture wins |
| Includes.LazyEndNone | BuildTemplateWithArgs.js:74 | when nothing is found, every quote followed by the closing lies beyond a line terminator |
| Includes.MatchAtShape | updateOBMessageTemplateBody.js:84 | a match starts with `<mj-include path="` and ends with `>`, after a `/` when the slash is required |
| Includes.ExpandCopiesStretch | BuildTemplateWithArgs.js:74 | a stretch where no directive starts is copied unchanged and in order, and expansion resumes after it |
| Includes.ExpandPlain | BuildTemplateWithArgs.js:74 | a text in which no directive matches is returned unchanged |
| Includes.NoMatchWithoutOpeningBracket | BuildTemplateWithArgs.js:74 | no match starts at an index that does not hold `<` |
| Includes.ExpandFromWithoutOpeningBracket | BuildTemplateWithArgs.js:74 | from an index after which no `<` occurs, the rest of the text is copied unchanged |
| Includes.ExpandWithoutOpeningBracket | BuildTemplateWithArgs.js:74 | a text without `<` is returned unchanged |
| Includes.DirectiveMatches | BuildTemplateWithArgs.js:74 | a directive whose path holds no quote or line terminator, followed by any white space and `/>`, matches and captures that path; `>` alone matches only when the slash is optional |
| Includes.DirectiveAt | BuildTemplateWithArgs.js:74-83 | such a directive is replaced by the callback's text for its path, and expansion continues after the directive |
| Includes.DirectiveThenPlainText | updateOBMessageTemplateBody.js:84-93 | a directive followed by text without `<` becomes the included file's text verbatim, or the marker `<!-- Failed to include: P -->` with the resolved path P, followed by the text itself |
| Includes.MatchNeedsSlashClose | updateOBMessageTemplateBody.js:84 | with the slash required, a match puts a `/>` into the text |
| Includes.ExpandWithoutSlashClose | updateOBMessageTemplateBody.js:84 | with the slash required, a text with no `/>` is left as it is |
| Includes.BareDirective | BuildTemplateWithArgs.js:74 | `<mj-include path="x">` without a slash is left verbatim when the slash is required and replaced when it is optional |
| Includes.IncludedDirectivesStayUnexpanded | updateOBMessageTemplatesPerStream.js:180-191 | a directive inside an included file reaches the output unexpanded: expansion is single level |
| Placeholders.Token | BuildTemplateWithArgs.js:40 | the token of `key` is `{{key}}` and gives the key back |
| Placeholders.TokenInjective | BuildTemplateWithArgs.js:40 | distinct keys have distinct tokens |
| Placeholders.Keys | BuildTemplateWithArgs.js:97 | `Object.keys` lists the stored keys in order |
| Placeholders.Get | BuildTemplateWithArgs.js:98 | a lookup is undefined exactly when the key is not stored, and otherwise gives the stored value |
| Placeholders.Put | BuildTemplateWithArgs.js:40 | after an assignment the key has the new value and every other key keeps its value |
| Placeholders.PutKeys | BuildTemplateWithArgs.js:40 | assigning to an existing key keeps the key order; a new key goes last |
| Placeholders.PutKeepsKeysValid | BuildTemplateWithArgs.js:40 | assignments keep keys distinct and non-empty |
| Placeholders.SubstituteAppend | BuildTemplateWithArgs.js:97-99 | keys are applied in insertion order: all earlier pairs before all later ones |
| Placeholders.SubstituteAbsent | BuildTemplateWithArgs.js:97-99 | a text in which no key occurs is left unchanged |
| Placeholders.LaterKeyRewritesEarlierValue | BuildTemplateWithArgs.js:97-99 | for any two non-empty keys where the second does not occur in the first: if the first key's value is the second key, a later second key rewrites it again to its own value; if the second key comes first, the value is left as the second key |
| Placeholders.ApplyPlaceholders | BuildTemplateWithArgs.js:97-99 | the loop's result is the keys applied one after the other in insertion order, each replacing every occurrence |
| CliArgs.OptionSpelling | BuildTemplateWithArgs.js:34-37 | `startsWith('--')` with `slice(2) === key` holds exactly for `--key` |
| CliArgs.ParseTemplateArgs | BuildTemplateWithArgs.js:33-43 | the loop yields the template name and placeholders of the specifying scan |
| CliArgs.PlaceholderStep | BuildTemplateWithArgs.js:39-40 | one position stores `{{key}}` exactly when it is `--key` with key not `template` and a value that is truthy and does not start with `--` |
| CliArgs.TemplateNameLastWins | BuildTemplateWithArgs.js:37-38 | the last `--template V` with V non-empty decides the name, trimmed, even when V starts with `--` |
| CliArgs.TemplateNameDefault | BuildTemplateWithArgs.js:29 | without such an argument the name stays `defaultTemplate.mjml` |
| CliArgs.PlaceholderLastWins | BuildTemplateWithArgs.js:39-40 | the last position that stores `{{key}}` decides its value, untrimmed |
| CliArgs.PlaceholderAbsent | BuildTemplateWithArgs.js:39-40 | a key that no position stores is absent: an empty or missing value and a value starting with `--` store nothing |
| CliArgs.PlaceholderKeysValid | BuildTemplateWithArgs.js:40 | the stored tokens are distinct and non-empty |
| CliArgs.ParseArgMap | updateOBMessageTemplatesPerStream.js:39-49 | the loop yields the map of the specifying scan |
| CliArgs.ArgMapStepAt | updateOBMessageTemplatesPerStream.js:40-47 | one position stores `key` exactly when it is `--key` with a truthy value not starting with `--`, and stores the value trimmed |
| CliArgs.ArgMapLastWins | updateOBMessageTemplatesPerStream.js:45-46 | the last such position decides `argMap[key]`, trimmed |
| CliArgs.ArgMapAbsent | updateOBMessageTemplatesPerStream.js:39-49 | a key no position sets is absent |
| CliArgs.StreamName | updateOBMessageTemplatesPerStream.js:52 | the stream name is defined exactly when a non-empty `stream` value was stored |
| CliArgs.StreamNumber | updateOBMessageTemplatesPerStream.js:53 | the stream number is null without a non-empty value, NaN when the value does not parse, and the parsed integer otherwise |
| CliArgs.ParseTemplateOption | updateOBMessageTemplateBody.js:54-58 | the loop yields the name of the specifying prefix scan |
| CliArgs.PrefixLastWins | updateOBMessageTemplateBody.js:54-58 | the last argument merely starting with `--template` (`--templateX` too) decides the name: the next argument, trimmed |
| CliArgs.PrefixAbsent | updateOBMessageTemplateBody.js:52-58 | with no such argument the name stays null |
| CliArgs.TrailingTemplateOption | updateOBMessageTemplateBody.js:56-65 | a `--template` in last position leaves the name undefined, so the run is rejected |
| CliArgs.ParseBodyArgs | updateOBMessageTeamplateBody.js:32-38 | the loop yields the name and body of the specifying scan |
| CliArgs.BodyScanTemplate | updateOBMessageTeamplateBody.js:33-34 | the name is decided as in the prefix scan |
| CliArgs.HtmlBodyLastWins | updateOBMessageTeamplateBody.js:35-36 | the last argument starting with `--htmlBody` decides the body from the next argument, untrimmed, and undefined when it is last |
| Pipeline.RunTemplate | BuildTemplateWithArgs.js:62-107 | the template is missing exactly when the locator returns null; otherwise the read fails exactly when the located path cannot be read; a compiled result exists only without compiler errors and is the compilation of the substituted, resolved template |
| Pipeline.ProcessTemplate | BuildTemplateWithArgs.js:62-107 | locate, read, resolve, substitute and compile give the outcome `RunTemplate` specifies |
| Pipeline.IncludeThenSubstitute | sendTestEmailUsingSendgrid.js:99-104 | includes are spliced before placeholders are substituted, so tokens inside included files are substituted too |
| BuildTemplateWithArgs.BuildTemplate | BuildTemplateWithArgs.js:102-113 | a file is written exactly when the template compiled without errors; its path is the template's path with the first `.mjml` turned into `.html`, and it holds the compiled text |
| SendEmail.CompileForSending | sendTestEmailUsingSendgrid.js:92-112 | the HTML reaches the sending step exactly when the template compiled without errors |
| SendEmail.SendTestEmail | sendTestEmailUsingSendgrid.js:107-131 | a message is sent exactly when the template compiled without errors, with the compiled HTML |
| SendEmail.SendEmailAsWritten | sendEmail.js:62-90 | as written, the script reaches the Mailjet call exactly when the template compiled without errors, and that call throws, so no email is ever sent |
| SendEmail.SendEmailCorrected | sendEmail.js:62-104 | as intended, a message is sent exactly when the template, named by the untrimmed `--template` value, compiled without errors |
| SendEmail.TrimmingIrrelevantForCleanNames | sendEmail.js:17-18 | the trimmed and untrimmed scans agree when no template value has surrounding white space |
| UpdateTemplateBody.UpdateTemplate | updateOBMessageTemplateBody.js:143-180 | the run is rejected exactly when the name is missing or empty; an update is issued exactly when `name.mjml` compiled without errors and a row was found, and it stores the compiled HTML in that row |
| UpdateTemplatesPerStream.ProcessTemplates | updateOBMessageTemplatesPerStream.js:138-173 | the loop's updates and its early end are those of the specifying function over the rows |
| UpdateTemplatesPerStream.FirstUnreadable | updateOBMessageTemplatesPerStream.js:154 | the position of the first row whose template cannot be read, or the length |
| UpdateTemplatesPerStream.ProcessRowsIsEligibleUntilAbort | updateOBMessageTemplatesPerStream.js:138-177 | the batch issues exactly the updates of the compiled rows before the first unreadable one, in order, and it aborts exactly when there is an unreadable one |
| UpdateTemplatesPerStream.EligibleUpdatesMembers | updateOBMessageTemplatesPerStream.js:160-172 | an update is issued for an id and HTML exactly when a row with that id compiled to that HTML; missing and erroneous templates get none |
| UpdateTemplatesPerStream.NoAbortWithoutUnreadable | updateOBMessageTemplatesPerStream.js:145-172 | without an unreadable template every row is processed and every compiled one is updated |
| UpdateTemplatesPerStream.UpdateStreamTemplates | updateOBMessageTemplatesPerStream.js:101-135 | the script's status is that of the specifying function: rejected arguments, a failed query, no stream, no templates, or the batch |
| UpdateTemplatesPerStream.RunUpdates | updateOBMessageTemplatesPerStream.js:101-178 | an update happens only when the arguments were accepted, the stream was found and it has rows, and it is that of a row whose template compiled |
| RetrieveTemplates.OutputFile | retreiveMultipleTemplatesHTML.js:101-111 | each file goes to `join('C:/temp', sanitize(stream), sanitize(name) + '.html')` |
| RetrieveTemplates.OutputFileComponents | retreiveMultipleTemplatesHTML.js:102-111 | neither joined component holds a reserved character, and the file name ends in `.html` |
| RetrieveTemplates.OutputFileCollision | retreiveMultipleTemplatesHTML.js:110-111 | two template names sanitize to the same name exactly when they agree at every position except where both characters become `_` (a reserved character or `_` itself); such names share one output file |
| RetrieveTemplates.SaveTemplatesToFile | retreiveMultipleTemplatesHTML.js:109-118 | every template is attempted, in order, at its own path with its own body; a failed write does not stop the rest |
| RetrieveTemplates.MissingStreamNumberAccepted | retreiveMultipleTemplatesHTML.js:43-52 | `--stream A` alone passes the validation as written, with the stream number null |
| RetrieveTemplates.AcceptsIsAsWrittenWithNumber | retreiveMultipleTemplatesHTML.js:48 | the corrected validation rejects exactly what the written one rejects, plus a missing number |
| RetrieveTemplates.RetrieveStreamTemplates | retreiveMultipleTemplatesHTML.js:41-134 | the arguments are rejected exactly when the validation as written fails; a missing stream number passes and ends at "stream not found"; with a number, an absent or zero stream id, no templates, or one write attempt per template at its sanitized path, each recording whether that write succeeded |
| RetrieveTemplates.SaveTarget | retrieveTemplateHtml.js:92 | the single output is `join('C:', 'temp', name + '.html')`, the name unsanitized |
| RetrieveTemplates.RetrieveTemplate | retrieveTemplateHtml.js:105-111 | a missing or empty name rejects the run; otherwise the body is saved exactly when it is non-empty, to `C:/temp/<name>.html` |
| UpdateBodyDirect.UpdateBodyByName | updateOBMessageTeamplateBody.js:41-86 | the run is rejected exactly when the name or body is missing or empty; otherwise the update is issued exactly when a row is found, with the body untrimmed |
| BuildTemplatesOld.BuildTemplates | buildTemplatesOld.js:10-29 | the loop's writes and its crash are those of the specifying function over the listing, in which an unreadable file or a failing write ends the run |
| BuildTemplatesOld.FirstFailure | buildTemplatesOld.js:13-26 | the position of the first `.mjml` entry that cannot be read or whose output cannot be written, or the length |
| BuildTemplatesOld.Successes | buildTemplatesOld.js:16-27 | the entries that are `.mjml` files compiling without errors and written, and only those |
| BuildTemplatesOld.BuildAllUntilCrash | buildTemplatesOld.js:10-29 | the script writes the outputs of the entries before the first unreadable or unwritable one, and crashes exactly when there is one |
| BuildTemplatesOld.OneOutputPerSuccess | buildTemplatesOld.js:16-27 | exactly one output is written per error-free `.mjml` file, in listing order, at its path with `.mjml` rewritten |
| BuildTemplatesOld.NoCrashWithoutFailure | buildTemplatesOld.js:10-29 | without an unreadable or unwritable `.mjml` entry, every success is written and the script does not crash |
| BuildTemplatesOld.NonMjmlIgnored | buildTemplatesOld.js:11 | an entry not ending in `.mjml` contributes nothing |

## Findings

| source | as written | input that shows it | evidently intended | confidence | as-written member | corrected member |
|---|---|---|---|---|---|---|
| sendEmail.js:87-90 | the Mailjet client is built from `config`, a name the file never declares | any run whose template compiles without errors | send the compiled HTML with configured credentials | not executed | SendEmail.SendEmailAsWritten | SendEmail.SendEmailCorrected |
| retreiveMultipleTemplatesHTML.js:48 | the test rejects a missing name or an `isNaN(streamNumber)`, but `isNaN(null)` is false | `--stream A` with no `--streamNumber` | reject a missing stream number too, as the error message says | not executed | RetrieveTemplates.AcceptsAsWritten, RetrieveTemplates.MissingStreamNumberAccepted | RetrieveTemplates.Accepts, RetrieveTemplates.AcceptsIsAsWrittenWithNumber |

In the first finding, nothing can be sent: calling the Node API with an undeclared name throws a `ReferenceError` before any request is made. `SendEmailCorrected` models the intended behaviour.

In the second finding, the validation lets a missing stream number through, and the database is then queried with a null stream number. `RetrieveStreamTemplates` follows the code: such a run passes validation and ends at "stream not found", because `StreamNumber = NULL` matches no row. Its contract splits on the corrected `Accepts`: the runs it accepts are exactly those that reach the stream lookup with a number.

## Left out

**Side effects and external services**

- Logging (`logToFile`, `logMessage`, console output, timestamps): every log write is assumed to succeed, and logging then has no effect on results.
  - BuildTemplateWithArgs.js (lines 10-11) and sendTestEmailUsingSendgrid.js (lines 15-16) create `./logs` first.
  - updateOBMessageTemplateBody.js, updateOBMessageTemplatesPerStream.js, retreiveMultipleTemplatesHTML.js and retrieveTemplateHtml.js never create `./logs`. When it is missing, the first `fs.appendFileSync` throws and ends the script.
  - In updateOBMessageTemplatesPerStream.js that throw is caught at line 174, and the catch block logs again, which throws again, so no update is issued. In updateOBMessageTemplateBody.js the log call at line 153 throws outside the `try`, and nothing is updated.
  - The model's runs of those scripts behave as if `./logs` exists.
- The SQL Server client. Connections, queries and pool closing are function parameters that return the rows, an id, or nothing.
  - A query that throws is modelled the same as no row where the script catches it and goes on the same way.
  - A failed update is absorbed inside the update function and issues nothing further.
- The `mjml` compiler: a function from text to `(html, errors)`. These are also left out:
  - its `filePath` option (BuildTemplateWithArgs.js:102, buildTemplatesOld.js:16);
  - `mj-include` processing inside the compiler.
- SendGrid and Mailjet network calls and their responses. The model stops at the message handed to the service.

**File system and paths**

- The real behaviour of `fs` and `path`: normalisation, symlinks, permissions and error kinds of `readdirSync`.
  - `path.join`, `path.resolve` and `path.dirname` are function parameters.
  - A readable file is a key of the content map.
  - The existence checks of the includes are the same map. `fs.existsSync` also reports directories; that case is not modelled.
- The `mkdirSync` of the output folder (retreiveMultipleTemplatesHTML.js:105-107); it is assumed to succeed.

**Strings and arguments**

- Placeholder keys and values are read literally. `new RegExp(key, 'g')` would treat metacharacters in a key as a pattern, and `$` sequences in a value as replacement patterns.
- `parseInt` is a function parameter returning an integer, or nothing for `NaN`.
- Object keys such as `__proto__` are not modelled: an argument `--__proto__` behaves as an ordinary key here.
- Strings are sequences of Unicode scalar values, not UTF-16 code units.

**Control flow**

- `process.exit`, callbacks and promises: each script is one sequential run, and an exit is a status value.
- sendEmail.js prints the compiled HTML before it fails (line 84). Only the absence of a sent email is modelled.
- A row whose `TemplateName` is null: names are strings here.

**Modelling choices in specific members**

- Includes.Replacement: the `existsSync` check and the later `readFileSync` read the same map, so a file that exists but cannot be read is not modelled.
- Folder trees: every directory in a tree can be listed. A `readdirSync` that throws (an unreadable directory) is not modelled; in the code it is an uncaught exception, not a "not found" result.
- Pipeline.RunTemplate: a located template that cannot be read gives `ReadFailed`. In updateOBMessageTemplateBody.js that async read error is caught and logged; the result is the same, with nothing updated.
