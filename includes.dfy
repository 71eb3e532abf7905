/**
 * `resolveIncludes(content, basePath)`: one call of `String.prototype.replace`
 * with the global pattern `<mj-include path="(.*?)"\s*\/>` (or, in
 * BuildTemplateWithArgs.js, `\/?>` with an optional slash) and a callback
 * that returns the referenced file's text or a marker naming the missing
 * path. A global replace tries each position from left to right, keeps the
 * first match and resumes after it; the replacements are never rescanned.
 */
module Includes {
  import opened Wrappers
  import opened Text

  /** The literal start of a directive. */
  const Opening: string := "<mj-include path=\""

  /** Where the files come from and how an include path is resolved. */
  datatype IncludeEnv = IncludeEnv(
    basePath: string,                     // path.dirname of the template
    files: map<string, string>,           // the files existsSync/readFileSync see
    resolve: (string, string) -> string)  // path.resolve(basePath, includePath)

  /** The marker that replaces a directive whose file does not exist. */
  function MissingMarker(path: string): string {
    "<!-- Failed to include: " + path + " -->"
  }

  /** The callback: the file's text verbatim, or the marker with the resolved path. */
  function Replacement(env: IncludeEnv, includePath: string): string {
    var p := env.resolve(env.basePath, includePath);
    if p in env.files then env.files[p] else MissingMarker(p)
  }

  /** The end of the run of `\s` starting at `j` that greedy `\s*` takes. */
  function WhitespaceEnd(s: string, j: nat): (k: nat)
    requires j <= |s|
    ensures j <= k <= |s|
    decreases |s| - j
  {
    if j < |s| && IsWhitespace(s[j]) then WhitespaceEnd(s, j + 1) else j
  }

  /** The run WhitespaceEnd ends is all whitespace, and it is the longest one. */
  lemma {:induction false} WhitespaceEndIsLongestRun(s: string, j: nat)
    requires j <= |s|
    ensures forall i :: j <= i < WhitespaceEnd(s, j) ==> IsWhitespace(s[i])
    ensures WhitespaceEnd(s, j) < |s| ==> !IsWhitespace(s[WhitespaceEnd(s, j)])
    decreases |s| - j
  {
    if j < |s| && IsWhitespace(s[j]) {
      WhitespaceEndIsLongestRun(s, j + 1);
    }
  }

  /**
   * The end of a match of `\s*\/>` (or `\s*\/?>`) starting at `j`, if any.
   * Since `/` and `>` are not whitespace, the match, when there is one, is
   * the longest whitespace run followed by the closing.
   */
  function CloseEnd(s: string, j: nat, slashOptional: bool): (r: Option<nat>)
    requires j <= |s|
    ensures r.Some? ==> j < r.value <= |s| && s[r.value - 1] == '>'
    ensures r.Some? && !slashOptional ==> r.value >= j + 2 && s[r.value - 2] == '/'
  {
    var k := WhitespaceEnd(s, j);
    if k + 2 <= |s| && s[k] == '/' && s[k + 1] == '>' then Some(k + 2)
    else if slashOptional && k < |s| && s[k] == '>' then Some(k + 1)
    else None
  }

  /** At `q` a quote stands that the closing follows: where the lazy `(.*?)` may stop. */
  predicate QuoteCloses(s: string, q: nat, slashOptional: bool)
    requires q < |s|
  {
    s[q] == '"' && CloseEnd(s, q + 1, slashOptional).Some?
  }

  /**
   * The lazy `(.*?)"` followed by the closing, scanning from `i`: the quote's
   * index and the end of the match. LazyEndFound, LazyEndIsFirst and
   * LazyEndNone state which quote it is.
   */
  function LazyEnd(s: string, i: nat, slashOptional: bool): (r: Option<(nat, nat)>)
    requires i <= |s|
    ensures r.Some? ==> i <= r.value.0 < r.value.1 <= |s|
    decreases |s| - i
  {
    if i == |s| then None
    else if QuoteCloses(s, i, slashOptional) then Some((i, CloseEnd(s, i + 1, slashOptional).value))
    else if IsLineTerminator(s[i]) then None
    else LazyEnd(s, i + 1, slashOptional)
  }

  /** What the scan finds is a quote that the closing follows, and the match ends where the closing does. */
  lemma {:induction false} LazyEndFound(s: string, i: nat, slashOptional: bool)
    requires i <= |s| && LazyEnd(s, i, slashOptional).Some?
    ensures var (q, e) := LazyEnd(s, i, slashOptional).value;
            s[q] == '"' && CloseEnd(s, q + 1, slashOptional) == Some(e)
    decreases |s| - i
  {
    if !QuoteCloses(s, i, slashOptional) {
      LazyEndFound(s, i + 1, slashOptional);
    }
  }

  /**
   * The quote found is the first one from `i` that a closing follows, and
   * the text before it holds no line terminator (`.` does not match one).
   */
  lemma {:induction false} LazyEndIsFirst(s: string, i: nat, j: nat, slashOptional: bool)
    requires i <= |s| && LazyEnd(s, i, slashOptional).Some?
    requires i <= j < LazyEnd(s, i, slashOptional).value.0
    ensures !IsLineTerminator(s[j]) && !QuoteCloses(s, j, slashOptional)
    decreases j - i
  {
    if i < j {
      LazyEndIsFirst(s, i + 1, j, slashOptional);
    }
  }

  /** When nothing is found, every quote with a closing lies beyond a line terminator. */
  lemma {:induction false} LazyEndNone(s: string, i: nat, slashOptional: bool)
    requires i <= |s| && LazyEnd(s, i, slashOptional).None?
    ensures forall q :: i <= q < |s| && QuoteCloses(s, q, slashOptional) ==>
              exists j :: i <= j < q && IsLineTerminator(s[j])
    decreases |s| - i
  {
    if i < |s| && !IsLineTerminator(s[i]) {
      LazyEndNone(s, i + 1, slashOptional);
      forall q | i <= q < |s| && QuoteCloses(s, q, slashOptional)
        ensures exists j :: i <= j < q && IsLineTerminator(s[j])
      {
        var j :| i + 1 <= j < q && IsLineTerminator(s[j]);
      }
    }
  }

  /** A directive matched at some index: the captured path and the index just after the match. */
  datatype Directive = Directive(path: string, end: nat)

  /** The regular expression tried at index `p` of `s`. */
  function MatchAt(s: string, p: nat, slashOptional: bool): (r: Option<Directive>)
    requires p <= |s|
    ensures r.Some? ==> p + |Opening| < r.value.end <= |s|
  {
    if OccursAt(s, p, Opening) then
      match LazyEnd(s, p + |Opening|, slashOptional)
      case Some((q, e)) => Some(Directive(s[p + |Opening|..q], e))
      case None => None
    else None
  }

  /** A match starts with the opening and ends with `>`, after a `/` when the slash is required. */
  lemma MatchAtShape(s: string, p: nat, slashOptional: bool)
    requires p <= |s| && MatchAt(s, p, slashOptional).Some?
    ensures OccursAt(s, p, Opening)
    ensures s[MatchAt(s, p, slashOptional).value.end - 1] == '>'
    ensures !slashOptional ==> s[MatchAt(s, p, slashOptional).value.end - 2] == '/'
  {
    LazyEndFound(s, p + |Opening|, slashOptional);
  }

  /** What the pattern matches when tried at each index of `s`. */
  function Matches(s: string, slashOptional: bool): (t: seq<Option<Directive>>)
    ensures |t| == |s|
    ensures forall p :: 0 <= p < |s| ==> t[p] == MatchAt(s, p, slashOptional)
  {
    seq(|s|, p requires 0 <= p < |s| => MatchAt(s, p, slashOptional))
  }

  /** A table of matches for `s`: each match found at `p` ends after `p` and within `s`. */
  predicate ValidMatches(s: string, t: seq<Option<Directive>>) {
    |t| == |s| && forall p :: 0 <= p < |t| && t[p].Some? ==> p < t[p].value.end <= |s|
  }

  /** The callback as a function of the captured path. */
  function Callback(env: IncludeEnv): string -> string {
    includePath => Replacement(env, includePath)
  }

  /**
   * The global replace resuming at index `i`, given the match at each index
   * and the callback: a match there is replaced and the scan goes on after
   * it; otherwise the character is kept and the scan tries the next index.
   */
  function ExpandFrom(s: string, t: seq<Option<Directive>>, i: nat, callback: string -> string): string
    requires i <= |s| && ValidMatches(s, t)
    decreases |s| - i
  {
    if i == |s| then []
    else match t[i]
      case Some(d) => callback(d.path) + ExpandFrom(s, t, d.end, callback)
      case None => [s[i]] + ExpandFrom(s, t, i + 1, callback)
  }

  /** The text `resolveIncludes` returns. */
  function Expand(s: string, env: IncludeEnv, slashOptional: bool): string {
    ExpandFrom(s, Matches(s, slashOptional), 0, Callback(env))
  }

  /** ---- Properties ---- */

  /** Between `i` and `j` no directive starts: that stretch is copied and expansion resumes at `j`. */
  lemma {:induction false} ExpandCopiesStretch(s: string, t: seq<Option<Directive>>, i: nat, j: nat,
                                               callback: string -> string)
    requires i <= j <= |s| && ValidMatches(s, t)
    requires forall p :: i <= p < j ==> t[p].None?
    ensures ExpandFrom(s, t, i, callback) == s[i..j] + ExpandFrom(s, t, j, callback)
    decreases j - i
  {
    if i < j {
      var rest := ExpandFrom(s, t, j, callback);
      assert ExpandFrom(s, t, i, callback) == [s[i]] + ExpandFrom(s, t, i + 1, callback);
      ExpandCopiesStretch(s, t, i + 1, j, callback);
      assert s[i..j] == [s[i]] + s[i + 1..j];
      AppendAssociative([s[i]], s[i + 1..j], rest);
    }
  }

  /** A text in which no directive matches is returned unchanged. */
  lemma ExpandPlain(s: string, env: IncludeEnv, slashOptional: bool)
    requires forall p :: 0 <= p < |s| ==> MatchAt(s, p, slashOptional).None?
    ensures Expand(s, env, slashOptional) == s
  {
    ExpandCopiesStretch(s, Matches(s, slashOptional), 0, |s|, Callback(env));
    assert s[0..|s|] == s;
  }

  /** No directive starts at an index that does not hold `<`. */
  lemma NoMatchWithoutOpeningBracket(s: string, p: nat, slashOptional: bool)
    requires p < |s| && s[p] != '<'
    ensures MatchAt(s, p, slashOptional).None?
  {
    if p + |Opening| <= |s| {
      assert s[p..p + |Opening|][0] == s[p];
    }
  }

  /** From an index on which no `<` follows, the rest of the text is copied unchanged. */
  lemma ExpandFromWithoutOpeningBracket(s: string, j: nat, env: IncludeEnv, slashOptional: bool)
    requires j <= |s| && forall p :: j <= p < |s| ==> s[p] != '<'
    ensures ExpandFrom(s, Matches(s, slashOptional), j, Callback(env)) == s[j..]
  {
    forall p | j <= p < |s|
      ensures MatchAt(s, p, slashOptional).None?
    {
      NoMatchWithoutOpeningBracket(s, p, slashOptional);
    }
    ExpandCopiesStretch(s, Matches(s, slashOptional), j, |s|, Callback(env));
    assert s[j..|s|] == s[j..];
  }

  /** In particular a text without `<` is returned unchanged. */
  lemma ExpandWithoutOpeningBracket(s: string, env: IncludeEnv, slashOptional: bool)
    requires '<' !in s
    ensures Expand(s, env, slashOptional) == s
  {
    ExpandFromWithoutOpeningBracket(s, 0, env, slashOptional);
  }

  /** The end of a directive: `/>`, or `>` without the slash. */
  function Closing(slash: bool): string {
    if slash then "/>" else ">"
  }

  /** The directive text `<mj-include path="x"` + whitespace + `/>` (or `>`). */
  function DirectiveText(x: string, ws: string, slash: bool): string {
    Opening + x + "\"" + ws + Closing(slash)
  }

  /** Helper: where the parts of a directive text stand in `s`. */
  lemma DirectiveTextParts(s: string, p: nat, x: string, ws: string, slash: bool)
    requires OccursAt(s, p, DirectiveText(x, ws, slash))
    ensures OccursAt(s, p, Opening)
    ensures OccursAt(s, p + |Opening|, x)
    ensures s[p + |Opening| + |x|] == '"'
    ensures OccursAt(s, p + |Opening| + |x| + 1, ws)
    ensures OccursAt(s, p + |Opening| + |x| + 1 + |ws|, Closing(slash))
  {
    OccursAtConcat(s, p, Opening + x + "\"" + ws, Closing(slash));
    OccursAtConcat(s, p, Opening + x + "\"", ws);
    OccursAtConcat(s, p, Opening + x, "\"");
    OccursAtConcat(s, p, Opening, x);
    OccursAtChars(s, p + |Opening| + |x|, "\"");
  }

  /** Helper: a whitespace run and then the closing end the match of `\s*\/>` (or `\s*\/?>`). */
  lemma ClosingAt(s: string, j: nat, ws: string, slash: bool, slashOptional: bool)
    requires forall i :: 0 <= i < |ws| ==> IsWhitespace(ws[i])
    requires slash || slashOptional
    requires OccursAt(s, j, ws) && OccursAt(s, j + |ws|, Closing(slash))
    ensures CloseEnd(s, j, slashOptional) == Some(j + |ws| + |Closing(slash)|)
  {
    OccursAtChars(s, j, ws);
    forall i | j <= i < j + |ws|
      ensures IsWhitespace(s[i])
    {
      assert s[i] == ws[i - j];
    }
    OccursAtChars(s, j + |ws|, Closing(slash));
    assert s[j + |ws|] == Closing(slash)[0];
    WhitespaceRun(s, j, |ws|);
  }

  /**
   * A directive at index `p` whose path holds no quote and no line
   * terminator matches there, capturing that path and ending after the
   * closing. Without the slash this holds only in the optional-slash grammar.
   */
  lemma DirectiveMatches(s: string, p: nat, x: string, ws: string, slash: bool, slashOptional: bool)
    requires '"' !in x && forall i :: 0 <= i < |x| ==> !IsLineTerminator(x[i])
    requires forall i :: 0 <= i < |ws| ==> IsWhitespace(ws[i])
    requires slash || slashOptional
    requires OccursAt(s, p, DirectiveText(x, ws, slash))
    ensures MatchAt(s, p, slashOptional) == Some(Directive(x, p + |DirectiveText(x, ws, slash)|))
  {
    var q := p + |Opening| + |x|;
    DirectiveTextParts(s, p, x, ws, slash);
    ClosingAt(s, q + 1, ws, slash, slashOptional);
    assert |DirectiveText(x, ws, slash)| == |Opening| + |x| + 1 + |ws| + |Closing(slash)|;
    MatchFromParts(s, p, x, q + 1 + |ws| + |Closing(slash)|, slashOptional);
  }

  /** Helper: the opening, a path without quote or line terminator, a quote and a closing make a match. */
  lemma MatchFromParts(s: string, p: nat, x: string, e: nat, slashOptional: bool)
    requires '"' !in x && forall i :: 0 <= i < |x| ==> !IsLineTerminator(x[i])
    requires OccursAt(s, p, Opening) && OccursAt(s, p + |Opening|, x) && p + |Opening| + |x| < |s|
    requires s[p + |Opening| + |x|] == '"' && CloseEnd(s, p + |Opening| + |x| + 1, slashOptional) == Some(e)
    ensures MatchAt(s, p, slashOptional) == Some(Directive(x, e))
  {
    var n := p + |Opening|;
    var q := n + |x|;
    OccursAtChars(s, n, x);
    forall j | n <= j < q
      ensures s[j] != '"' && !IsLineTerminator(s[j])
    {
      assert s[j] == x[j - n];
    }
    LazyEndOverPlain(s, n, q, slashOptional);
    assert s[n..q] == x;
  }

  /**
   * Such a directive is replaced by the callback's text for its path, and
   * expansion continues after it: the replacement is not scanned again.
   */
  lemma DirectiveAt(s: string, p: nat, x: string, ws: string, slash: bool, callback: string -> string,
                    slashOptional: bool)
    requires '"' !in x && forall i :: 0 <= i < |x| ==> !IsLineTerminator(x[i])
    requires forall i :: 0 <= i < |ws| ==> IsWhitespace(ws[i])
    requires slash || slashOptional
    requires OccursAt(s, p, DirectiveText(x, ws, slash))
    ensures ExpandFrom(s, Matches(s, slashOptional), p, callback) ==
            callback(x) + ExpandFrom(s, Matches(s, slashOptional), p + |DirectiveText(x, ws, slash)|, callback)
  {
    DirectiveMatches(s, p, x, ws, slash, slashOptional);
  }

  /** A directive followed by text without `<`: the replacement, then the text itself. */
  lemma DirectiveThenPlainText(x: string, rest: string, env: IncludeEnv, slashOptional: bool)
    requires '"' !in x && forall i :: 0 <= i < |x| ==> !IsLineTerminator(x[i])
    requires '<' !in rest
    ensures Expand(DirectiveText(x, "", true) + rest, env, slashOptional) == Replacement(env, x) + rest
  {
    var d := DirectiveText(x, "", true);
    var s := d + rest;
    assert s[0..|d|] == d;
    DirectiveAt(s, 0, x, "", true, Callback(env), slashOptional);
    forall p | |d| <= p < |s| ensures s[p] != '<' {
      assert s[p] == rest[p - |d|];
    }
    ExpandFromWithoutOpeningBracket(s, |d|, env, slashOptional);
    assert s[|d|..] == rest;
  }

  /** Helper: a whitespace run of length `m` at `j`, followed by `/` or `>`. */
  lemma WhitespaceRun(s: string, j: nat, m: nat)
    requires j + m < |s|
    requires forall i :: j <= i < j + m ==> IsWhitespace(s[i])
    requires s[j + m] == '/' || s[j + m] == '>'
    ensures WhitespaceEnd(s, j) == j + m
    decreases m
  {
    if m > 0 {
      WhitespaceRun(s, j + 1, m - 1);
    } else {
      ClosingIsNotWhitespace();
    }
  }

  /** Helper: neither `/` nor `>` is whitespace, so `\s*` stops before the closing. */
  lemma ClosingIsNotWhitespace()
    ensures !IsWhitespace('/') && !IsWhitespace('>')
  {
  }

  /** Helper: the lazy scan passes over quote-free text up to the quote at `q`. */
  lemma LazyEndOverPlain(s: string, i: nat, q: nat, slashOptional: bool)
    requires i <= q < |s| && s[q] == '"' && CloseEnd(s, q + 1, slashOptional).Some?
    requires forall j :: i <= j < q ==> s[j] != '"' && !IsLineTerminator(s[j])
    ensures LazyEnd(s, i, slashOptional) == Some((q, CloseEnd(s, q + 1, slashOptional).value))
    decreases q - i
  {
    if i < q {
      LazyEndOverPlain(s, i + 1, q, slashOptional);
    }
  }

  /** `/>` occurs in `s`. */
  predicate HasSlashClose(s: string) {
    exists k :: 0 <= k < |s| - 1 && s[k] == '/' && s[k + 1] == '>'
  }

  /** With the slash required, any match puts a `/>` into the text. */
  lemma MatchNeedsSlashClose(s: string, p: nat)
    requires p <= |s|
    ensures MatchAt(s, p, false).Some? ==> HasSlashClose(s)
  {
    if MatchAt(s, p, false).Some? {
      MatchAtShape(s, p, false);
      var e := MatchAt(s, p, false).value.end;
      assert s[e - 2] == '/' && s[e - 1] == '>';
    }
  }

  /** With the slash required, a text without `/>` anywhere is left as it is. */
  lemma ExpandWithoutSlashClose(s: string, env: IncludeEnv)
    requires !HasSlashClose(s)
    ensures Expand(s, env, false) == s
  {
    forall p | 0 <= p < |s|
      ensures MatchAt(s, p, false).None?
    {
      MatchNeedsSlashClose(s, p);
    }
    ExpandPlain(s, env, false);
  }

  /**
   * `<mj-include path="x">` without the slash: left verbatim when the slash
   * is required (updateOBMessageTemplateBody.js and the others), replaced
   * when it is optional (BuildTemplateWithArgs.js).
   */
  lemma BareDirective(x: string, env: IncludeEnv)
    requires '"' !in x && '>' !in x && forall i :: 0 <= i < |x| ==> !IsLineTerminator(x[i])
    ensures Expand(DirectiveText(x, "", false), env, false) == DirectiveText(x, "", false)
    ensures Expand(DirectiveText(x, "", false), env, true) == Replacement(env, x)
  {
    var s := DirectiveText(x, "", false);
    var n := |Opening|;
    assert s == Opening + x + "\">";
    assert '>' !in Opening;
    forall k | 0 <= k < |s| - 1
      ensures !(s[k] == '/' && s[k + 1] == '>')
    {
      if k + 1 < n {
        assert s[k + 1] == Opening[k + 1];
      } else if k + 1 < n + |x| {
        assert s[k + 1] == x[k + 1 - n];
      } else if k + 1 == n + |x| {
        assert s[k + 1] == '"';
      } else {
        assert s[k] == '"';
      }
    }
    ExpandWithoutSlashClose(s, env);
    assert s[0..|s|] == s;
    DirectiveAt(s, 0, x, "", false, Callback(env), true);
    assert Replacement(env, x) + [] == Replacement(env, x);
  }

  /**
   * Expansion is single-level: a directive inside an included file reaches
   * the output unexpanded.
   */
  lemma IncludedDirectivesStayUnexpanded(x: string, y: string, env: IncludeEnv, slashOptional: bool)
    requires '"' !in x && forall i :: 0 <= i < |x| ==> !IsLineTerminator(x[i])
    requires env.resolve(env.basePath, x) in env.files
    requires env.files[env.resolve(env.basePath, x)] == DirectiveText(y, "", true)
    ensures Expand(DirectiveText(x, "", true), env, slashOptional) == DirectiveText(y, "", true)
  {
    var s := DirectiveText(x, "", true);
    assert s[0..|s|] == s;
    DirectiveAt(s, 0, x, "", true, Callback(env), slashOptional);
    assert DirectiveText(y, "", true) + [] == DirectiveText(y, "", true);
  }
}
