/**
 * `findTemplateFile` in its three variants. A directory is modelled as the
 * sequence of its entries in `readdirSync` order; a located file is reported
 * as the names of the entries on the way to it, and the path string the
 * scripts print and pass on is those names folded with `path.join`.
 */
module Locator {
  import opened Wrappers
  import opened Text

  /** A directory entry as `readdirSync(dir, { withFileTypes: true })` reports it. */
  datatype Entry = File(name: string) | Dir(name: string, entries: seq<Entry>)

  /** `path.join(root, c1, ..., cn)`, as repeated two-argument joins. */
  function FullPath(root: string, comps: seq<string>, join: (string, string) -> string): string
    decreases |comps|
  {
    if comps == [] then root else FullPath(join(root, comps[0]), comps[1..], join)
  }

  /** `path.join(root, a, b)` is `path.join(path.join(root, a), b)`. */
  lemma FullPathOfTwo(root: string, a: string, b: string, join: (string, string) -> string)
    ensures FullPath(root, [a, b], join) == join(join(root, a), b)
  {
    assert [a, b][1..] == [b] && [b][1..] == [];
    assert FullPath(root, [a, b], join) == FullPath(join(root, a), [b], join);
    assert FullPath(join(root, a), [b], join) == FullPath(join(join(root, a), b), [], join);
  }

  /**
   * The name test of a non-directory entry: the exact name, and in the
   * `.mjml`-only variant also the `.mjml` extension.
   */
  predicate Matches(name: string, fileName: string, mjmlOnly: bool) {
    name == fileName && (!mjmlOnly || EndsWith(name, ".mjml"))
  }

  function Last(p: seq<string>): string
    requires p != []
  {
    p[|p| - 1]
  }

  /**
   * What the recursive locator returns: entries in order, a directory
   * searched (completely) before any name test of the entries after it, a
   * directory never returned itself, and the first matching file wins.
   */
  function Locate(entries: seq<Entry>, fileName: string, mjmlOnly: bool): Option<seq<string>>
    decreases entries
  {
    if entries == [] then None
    else match entries[0]
      case Dir(n, children) =>
        (match Locate(children, fileName, mjmlOnly)
         case Some(p) => Some([n] + p)
         case None => Locate(entries[1..], fileName, mjmlOnly))
      case File(n) =>
        if Matches(n, fileName, mjmlOnly) then Some([n]) else Locate(entries[1..], fileName, mjmlOnly)
  }

  /**
   * The recursive `findTemplateFile(baseDir, fileName)`: a loop over the
   * entries with an early return, recursing into each directory.
   */
  method FindTemplateFile(baseDir: string, entries: seq<Entry>, fileName: string, mjmlOnly: bool,
                          join: (string, string) -> string)
    returns (found: Option<string>)
    ensures found == match Locate(entries, fileName, mjmlOnly)
                     case None => None
                     case Some(p) => Some(FullPath(baseDir, p, join))
    decreases entries
  {
    var i := 0;
    while i < |entries|
      invariant 0 <= i <= |entries|
      invariant Locate(entries, fileName, mjmlOnly) == Locate(entries[i..], fileName, mjmlOnly)
    {
      var file := entries[i];
      assert entries[i..][0] == file && entries[i..][1..] == entries[i + 1..];
      var fullPath := join(baseDir, file.name);
      if file.Dir? {
        var sub := FindTemplateFile(fullPath, file.entries, fileName, mjmlOnly, join);
        if sub.Some? {
          return sub;
        }
      } else if Matches(file.name, fileName, mjmlOnly) {
        return Some(fullPath);
      }
      i := i + 1;
    }
    return None;
  }

  /** ---- Reference definition: the files of a tree in depth-first order ---- */

  function PrefixAll(n: string, ps: seq<seq<string>>): (r: seq<seq<string>>)
    ensures |r| == |ps| && forall i :: 0 <= i < |ps| ==> r[i] == [n] + ps[i]
  {
    if ps == [] then [] else [[n] + ps[0]] + PrefixAll(n, ps[1..])
  }

  /** Every non-directory entry of the tree, as its path, in depth-first entry order. */
  function AllFiles(entries: seq<Entry>): (r: seq<seq<string>>)
    ensures forall i :: 0 <= i < |r| ==> r[i] != []
    decreases entries
  {
    if entries == [] then []
    else
      (match entries[0]
       case File(n) => [[n]]
       case Dir(n, children) => PrefixAll(n, AllFiles(children)))
      + AllFiles(entries[1..])
  }

  /** No path before position `k` of the list matches. */
  predicate NoMatchBefore(ps: seq<seq<string>>, k: int, fileName: string, mjmlOnly: bool)
    requires k <= |ps|
  {
    forall j :: 0 <= j < k && ps[j] != [] ==> !Matches(Last(ps[j]), fileName, mjmlOnly)
  }

  /**
   * The first path in the list whose last name matches: it is listed at a
   * position before which no path matches.
   */
  function FirstMatch(ps: seq<seq<string>>, fileName: string, mjmlOnly: bool): (r: Option<seq<string>>)
    ensures r.Some? ==> r.value in ps && r.value != [] && Matches(Last(r.value), fileName, mjmlOnly)
    ensures r.Some? ==> exists k :: 0 <= k < |ps| && ps[k] == r.value && NoMatchBefore(ps, k, fileName, mjmlOnly)
    ensures r.None? <==> forall i :: 0 <= i < |ps| && ps[i] != [] ==> !Matches(Last(ps[i]), fileName, mjmlOnly)
  {
    if ps == [] then None
    else if ps[0] != [] && Matches(Last(ps[0]), fileName, mjmlOnly) then
      assert NoMatchBefore(ps, 0, fileName, mjmlOnly);
      Some(ps[0])
    else
      var r := FirstMatch(ps[1..], fileName, mjmlOnly);
      assert forall i :: 1 <= i < |ps| ==> ps[i] == ps[1..][i - 1];
      assert r.Some? ==> exists k :: 0 <= k < |ps| && ps[k] == r.value && NoMatchBefore(ps, k, fileName, mjmlOnly) by {
        if r.Some? {
          var k :| 0 <= k < |ps[1..]| && ps[1..][k] == r.value && NoMatchBefore(ps[1..], k, fileName, mjmlOnly);
          assert ps[k + 1] == r.value && NoMatchBefore(ps, k + 1, fileName, mjmlOnly);
        }
      }
      r
  }

  lemma {:induction false} FirstMatchAppend(a: seq<seq<string>>, b: seq<seq<string>>, fileName: string, mjmlOnly: bool)
    ensures FirstMatch(a + b, fileName, mjmlOnly) ==
            if FirstMatch(a, fileName, mjmlOnly).Some? then FirstMatch(a, fileName, mjmlOnly) else FirstMatch(b, fileName, mjmlOnly)
    decreases |a|
  {
    if a == [] {
      assert a + b == b;
    } else {
      assert (a + b)[0] == a[0] && (a + b)[1..] == a[1..] + b;
      FirstMatchAppend(a[1..], b, fileName, mjmlOnly);
    }
  }

  lemma {:induction false} FirstMatchPrefix(n: string, ps: seq<seq<string>>, fileName: string, mjmlOnly: bool)
    requires forall i :: 0 <= i < |ps| ==> ps[i] != []
    ensures FirstMatch(PrefixAll(n, ps), fileName, mjmlOnly) ==
            match FirstMatch(ps, fileName, mjmlOnly)
            case None => None
            case Some(p) => Some([n] + p)
    decreases |ps|
  {
    if ps != [] {
      var r := PrefixAll(n, ps);
      assert r[0] == [n] + ps[0] && Last(r[0]) == Last(ps[0]);
      assert r[1..] == PrefixAll(n, ps[1..]);
      FirstMatchPrefix(n, ps[1..], fileName, mjmlOnly);
    }
  }

  /**
   * The locator returns exactly the first matching file of the depth-first
   * listing: all of an earlier directory's subtree before later siblings.
   */
  lemma {:induction false} LocateIsFirstInDepthFirstOrder(entries: seq<Entry>, fileName: string, mjmlOnly: bool)
    ensures Locate(entries, fileName, mjmlOnly) == FirstMatch(AllFiles(entries), fileName, mjmlOnly)
    decreases entries
  {
    if entries != [] {
      var head := match entries[0]
        case File(n) => [[n]]
        case Dir(n, children) => PrefixAll(n, AllFiles(children));
      assert AllFiles(entries) == head + AllFiles(entries[1..]);
      FirstMatchAppend(head, AllFiles(entries[1..]), fileName, mjmlOnly);
      LocateIsFirstInDepthFirstOrder(entries[1..], fileName, mjmlOnly);
      match entries[0]
      case File(n) =>
        assert Last([n]) == n;
      case Dir(n, children) =>
        LocateIsFirstInDepthFirstOrder(children, fileName, mjmlOnly);
        FirstMatchPrefix(n, AllFiles(children), fileName, mjmlOnly);
    }
  }

  /** The locator returns null exactly when no file anywhere in the tree matches. */
  lemma LocateNoneIff(entries: seq<Entry>, fileName: string, mjmlOnly: bool)
    ensures Locate(entries, fileName, mjmlOnly).None? <==>
            forall p :: p in AllFiles(entries) ==> !Matches(Last(p), fileName, mjmlOnly)
  {
    LocateIsFirstInDepthFirstOrder(entries, fileName, mjmlOnly);
  }

  /** `p` leads through directories of `entries` to a non-directory entry. */
  ghost predicate IsFilePath(entries: seq<Entry>, p: seq<string>)
    decreases entries
  {
    p != [] &&
    exists j :: 0 <= j < |entries| && entries[j].name == p[0] &&
      (if |p| == 1 then entries[j].File?
       else entries[j].Dir? && IsFilePath(entries[j].entries, p[1..]))
  }

  /**
   * A returned path names a non-directory entry whose name passes the test:
   * a directory with the searched name is searched, never returned.
   */
  lemma {:induction false} LocateSound(entries: seq<Entry>, fileName: string, mjmlOnly: bool)
    requires Locate(entries, fileName, mjmlOnly).Some?
    ensures var p := Locate(entries, fileName, mjmlOnly).value;
            IsFilePath(entries, p) && Matches(Last(p), fileName, mjmlOnly)
    decreases entries
  {
    var p := Locate(entries, fileName, mjmlOnly).value;
    match entries[0]
    case File(n) =>
      if Matches(n, fileName, mjmlOnly) {
        assert entries[0].name == p[0];
      } else {
        LocateTail(entries, fileName, mjmlOnly);
      }
    case Dir(n, children) =>
      if Locate(children, fileName, mjmlOnly).Some? {
        LocateSound(children, fileName, mjmlOnly);
        var q := Locate(children, fileName, mjmlOnly).value;
        assert p == [n] + q && p[1..] == q;
        assert entries[0].name == p[0];
      } else {
        LocateTail(entries, fileName, mjmlOnly);
      }
  }

  /** Helper of LocateSound: the result came from the entries after the first. */
  lemma {:induction false} LocateTail(entries: seq<Entry>, fileName: string, mjmlOnly: bool)
    requires entries != [] && Locate(entries, fileName, mjmlOnly).Some?
    requires Locate(entries, fileName, mjmlOnly) == Locate(entries[1..], fileName, mjmlOnly)
    ensures var p := Locate(entries, fileName, mjmlOnly).value;
            IsFilePath(entries, p) && Matches(Last(p), fileName, mjmlOnly)
    decreases entries, 0
  {
    var p := Locate(entries, fileName, mjmlOnly).value;
    LocateSound(entries[1..], fileName, mjmlOnly);
    var j :| 0 <= j < |entries[1..]| && entries[1..][j].name == p[0] &&
      (if |p| == 1 then entries[1..][j].File?
       else entries[1..][j].Dir? && IsFilePath(entries[1..][j].entries, p[1..]));
    assert entries[j + 1] == entries[1..][j];
  }

  /**
   * The `.mjml`-only variant finds what the exact-name variant finds when the
   * searched name ends in `.mjml`, and nothing otherwise.
   */
  lemma {:induction false} MjmlOnlyVariant(entries: seq<Entry>, fileName: string)
    ensures Locate(entries, fileName, true) ==
            if EndsWith(fileName, ".mjml") then Locate(entries, fileName, false) else None
    decreases entries
  {
    if entries != [] {
      MjmlOnlyVariant(entries[1..], fileName);
      match entries[0]
      case File(n) =>
      case Dir(n, children) =>
        MjmlOnlyVariant(children, fileName);
    }
  }

  /**
   * updateOBMessageTemplateBody searches for `templateName + ".mjml"`, so its
   * extension filter never rejects a file with the searched name.
   */
  lemma SearchedNameEndsWithMjml(entries: seq<Entry>, templateName: string)
    ensures EndsWith(templateName + ".mjml", ".mjml")
    ensures Locate(entries, templateName + ".mjml", true) == Locate(entries, templateName + ".mjml", false)
  {
    var f := templateName + ".mjml";
    assert f[|f| - 5..] == ".mjml";
    MjmlOnlyVariant(entries, f);
  }

  /**
   * The non-recursive `findTemplateFile(dir, templateName)`: one existence
   * check of `join(dir, name)`, never looking into subdirectories.
   */
  function FindInDirectory(dir: string, name: string, existing: set<string>,
                           join: (string, string) -> string): (r: Option<string>)
    ensures r.Some? <==> join(dir, name) in existing
    ensures r.Some? ==> r.value == join(dir, name)
  {
    var filePath := join(dir, name);
    if filePath in existing then Some(filePath) else None
  }
}
