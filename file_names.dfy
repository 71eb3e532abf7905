/** The output-file names the scripts compute. */
module FileNames {
  import opened Wrappers
  import opened Text

  /** The characters `sanitizeFileName` replaces: `< > : " / \ | ? *`. */
  predicate IsReserved(c: char) {
    c == '<' || c == '>' || c == ':' || c == '"' || c == '/' || c == '\\' || c == '|' || c == '?' || c == '*'
  }

  /**
   * `name.replace(/[<>:"/\\|?*]/g, '_')`: each reserved character becomes
   * `_`, every other character is kept, and the length is unchanged.
   */
  function Sanitize(s: string): (r: string)
    ensures |r| == |s|
    ensures forall i :: 0 <= i < |s| ==> r[i] == if IsReserved(s[i]) then '_' else s[i]
  {
    if s == [] then [] else [if IsReserved(s[0]) then '_' else s[0]] + Sanitize(s[1..])
  }

  /** The characters that `Sanitize` maps to `_`. */
  predicate BecomesUnderscore(c: char) {
    IsReserved(c) || c == '_'
  }

  /** Same length, and at each position the same character or two that both become `_`. */
  predicate SameOnceSanitized(a: string, b: string) {
    |a| == |b| && forall i :: 0 <= i < |a| ==> a[i] == b[i] || (BecomesUnderscore(a[i]) && BecomesUnderscore(b[i]))
  }

  /** No reserved character survives, and sanitizing twice is sanitizing once. */
  lemma SanitizeResult(s: string)
    ensures forall i :: 0 <= i < |Sanitize(s)| ==> !IsReserved(Sanitize(s)[i])
    ensures Sanitize(Sanitize(s)) == Sanitize(s)
  {
  }

  /**
   * `path.replace('.mjml', '.html')`: only the first occurrence of `.mjml`
   * is rewritten, the length is unchanged, and a path without `.mjml` is
   * returned as it is (so the output would overwrite the input).
   */
  function HtmlOutputPath(p: string): (r: string)
    ensures |r| == |p|
    ensures IndexOf(p, ".mjml").None? ==> r == p
    ensures IndexOf(p, ".mjml").Some? ==>
              var i := IndexOf(p, ".mjml").value;
              r[..i] == p[..i] && r[i..i + 5] == ".html" && r[i + 5..] == p[i + 5..]
  {
    ReplaceFirst(p, ".mjml", ".html")
  }

  /** A path whose only `.mjml` is its extension gets the extension `.html`. */
  lemma HtmlOutputPathOfExtension(stem: string)
    requires forall i :: 0 <= i < |stem| ==> !OccursAt(stem + ".mjml", i, ".mjml")
    ensures HtmlOutputPath(stem + ".mjml") == stem + ".html"
  {
    var p := stem + ".mjml";
    assert OccursAt(p, |stem|, ".mjml");
    var j := IndexOf(p, ".mjml");
    assert j.Some?;
    assert !(j.value < |stem|);
    assert j.value == |stem|;
    var r := HtmlOutputPath(p);
    assert r == r[..|stem|] + r[|stem|..|stem| + 5] + r[|stem| + 5..];
    assert p[..|stem|] == stem;
  }

  /** An illustration of `HtmlOutputPath`: an earlier `.mjml` in the path is the one rewritten, not the extension. */
  lemma HtmlOutputPathFirstOnly()
    ensures HtmlOutputPath("a.mjml/b.mjml") == "a.html/b.mjml"
  {
    var p := "a.mjml/b.mjml";
    assert p[0..5][0] == 'a';
    assert !OccursAt(p, 0, ".mjml");
    assert OccursAt(p, 1, ".mjml");
    assert IndexOf(p, ".mjml") == Some(1);
    assert p[..1] + ".html" + p[6..] == "a.html/b.mjml";
  }
}
