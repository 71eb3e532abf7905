/**
 * What the scripts obtain from Node, the `mjml` library and the database,
 * as values and functions. Nothing here is computed by the model: these are
 * the inputs against which its properties hold for every choice.
 */
module Host {
  /** What `mjml(text)` returns: `{ html, errors }`. */
  datatype MjmlResult = MjmlResult(html: string, errors: seq<string>)

  /** The file system and the path and compiler functions a script uses. */
  datatype Env = Env(
    join: (string, string) -> string,     // path.join with two arguments
    resolve: (string, string) -> string,  // path.resolve(base, relative)
    dirname: string -> string,            // path.dirname
    existing: set<string>,                // the paths fs.existsSync reports
    contents: map<string, string>,        // the files fs.readFileSync can read, and their text
    compile: string -> MjmlResult)        // mjml(text)

  /** A side effect that reaches the outside: a file written, an email sent, a row updated. */
  datatype Action =
    | Write(path: string, body: string)
    | Send(html: string)
    | UpdateBody(templateId: int, body: string)
}
