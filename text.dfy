/**
 * The JavaScript string operations the scripts rely on, over `seq<char>`:
 * `trim`, `startsWith`, `endsWith`, `indexOf`, `replace` with a string
 * pattern (first occurrence) and `replace` with a global literal pattern.
 */
module Text {
  import opened Wrappers

  /** ECMAScript LineTerminator: what `.` in a regular expression does not match. */
  predicate IsLineTerminator(c: char) {
    c == '\n' || c == '\r' || c == '\U{2028}' || c == '\U{2029}'
  }

  /**
   * ECMAScript WhiteSpace or LineTerminator: what `trim` strips and `\s`
   * matches (tab, line feed, vertical tab, form feed, carriage return,
   * space, no-break space, the byte order mark, the Unicode space
   * separators and the line and paragraph separators).
   */
  predicate IsWhitespace(c: char) {
    ('\t' <= c <= '\r') || c == ' ' || c == '\U{00A0}' || c == '\U{1680}'
    || ('\U{2000}' <= c <= '\U{200A}') || c == '\U{2028}' || c == '\U{2029}'
    || c == '\U{202F}' || c == '\U{205F}' || c == '\U{3000}' || c == '\U{FEFF}'
  }

  predicate StartsWith(s: string, p: string) {
    |p| <= |s| && s[..|p|] == p
  }

  predicate EndsWith(s: string, p: string) {
    |p| <= |s| && s[|s| - |p|..] == p
  }

  /** `k` occurs in `s` starting at index `i`. */
  predicate OccursAt(s: string, i: nat, k: string) {
    i + |k| <= |s| && s[i..i + |k|] == k
  }

  lemma StartsWithSuffix(s: string, i: nat, k: string)
    requires i <= |s|
    ensures StartsWith(s[i..], k) <==> OccursAt(s, i, k)
  {
    if i + |k| <= |s| {
      assert s[i..][..|k|] == s[i..i + |k|];
    }
  }

  /** Occurrences in the tail of a string are those of the string, shifted by one. */
  lemma OccursAtTail(s: string, i: nat, k: string)
    requires s != []
    ensures OccursAt(s[1..], i, k) <==> OccursAt(s, i + 1, k)
  {
    if i + 1 + |k| <= |s| {
      assert s[1..][i..i + |k|] == s[i + 1..i + 1 + |k|];
    }
  }

  /** An occurrence of `a + b` is an occurrence of `a` followed by one of `b`. */
  lemma OccursAtConcat(s: string, i: nat, a: string, b: string)
    requires OccursAt(s, i, a + b)
    ensures OccursAt(s, i, a) && OccursAt(s, i + |a|, b)
  {
    assert s[i..i + |a|] == s[i..i + |a + b|][..|a|];
    assert s[i + |a|..i + |a| + |b|] == s[i..i + |a + b|][|a|..];
  }

  /** The characters of an occurrence, one by one. */
  lemma OccursAtChars(s: string, i: nat, k: string)
    requires OccursAt(s, i, k)
    ensures forall j :: 0 <= j < |k| ==> s[i + j] == k[j]
  {
    forall j | 0 <= j < |k|
      ensures s[i + j] == k[j]
    {
      assert s[i..i + |k|][j] == s[i + j];
    }
  }

  lemma AppendAssociative<T>(a: seq<T>, b: seq<T>, c: seq<T>)
    ensures (a + b) + c == a + (b + c)
  {
  }

  /** `String.prototype.trimStart`. */
  function TrimStart(s: string): (r: string)
    ensures |r| <= |s|
  {
    if s != [] && IsWhitespace(s[0]) then TrimStart(s[1..]) else s
  }

  /** `trimStart` removes the leading run of whitespace, and only that. */
  lemma {:induction false} TrimStartStrips(s: string)
    ensures TrimStart(s) == s[|s| - |TrimStart(s)|..]
    ensures forall i :: 0 <= i < |s| - |TrimStart(s)| ==> IsWhitespace(s[i])
    ensures TrimStart(s) != [] ==> !IsWhitespace(TrimStart(s)[0])
    decreases |s|
  {
    if s != [] && IsWhitespace(s[0]) {
      var t := s[1..];
      TrimStartStrips(t);
      assert t[|t| - |TrimStart(t)|..] == s[|s| - |TrimStart(t)|..];
      forall i | 1 <= i < |s| - |TrimStart(t)|
        ensures IsWhitespace(s[i])
      {
        assert s[i] == t[i - 1];
      }
    }
  }

  /** `String.prototype.trimEnd`. */
  function TrimEnd(s: string): (r: string)
    ensures |r| <= |s|
  {
    if s != [] && IsWhitespace(s[|s| - 1]) then TrimEnd(s[..|s| - 1]) else s
  }

  /** `trimEnd` removes the trailing run of whitespace, and only that. */
  lemma {:induction false} TrimEndStrips(s: string)
    ensures TrimEnd(s) == s[..|TrimEnd(s)|]
    ensures forall i :: |TrimEnd(s)| <= i < |s| ==> IsWhitespace(s[i])
    ensures TrimEnd(s) != [] ==> !IsWhitespace(TrimEnd(s)[|TrimEnd(s)| - 1])
    decreases |s|
  {
    if s != [] && IsWhitespace(s[|s| - 1]) {
      var t := s[..|s| - 1];
      TrimEndStrips(t);
      assert t[..|TrimEnd(t)|] == s[..|TrimEnd(t)|];
      forall i | |TrimEnd(t)| <= i < |s| - 1
        ensures IsWhitespace(s[i])
      {
        assert s[i] == t[i];
      }
    }
  }

  /** `String.prototype.trim`: `trimStart` then `trimEnd`. */
  function Trim(s: string): (r: string)
    ensures |r| <= |s|
  {
    TrimEnd(TrimStart(s))
  }

  /**
   * The result of `trim` neither starts nor ends with whitespace, and a
   * string that does not start or end with whitespace is returned unchanged.
   */
  lemma TrimStrips(s: string)
    ensures Trim(s) != [] ==> !IsWhitespace(Trim(s)[0]) && !IsWhitespace(Trim(s)[|Trim(s)| - 1])
    ensures (s == [] || (!IsWhitespace(s[0]) && !IsWhitespace(s[|s| - 1]))) ==> Trim(s) == s
  {
    var t := TrimStart(s);
    TrimStartStrips(s);
    TrimEndStrips(t);
    if Trim(s) != [] {
      assert Trim(s)[0] == t[0];
    }
  }

  lemma TrimIdempotent(s: string)
    ensures Trim(Trim(s)) == Trim(s)
  {
    TrimStrips(s);
    TrimStrips(Trim(s));
  }

  /** `s.indexOf(k, i)`: the first occurrence of `k` at or after `i`. */
  function IndexFrom(s: string, k: string, i: nat): (r: Option<nat>)
    requires i <= |s|
    ensures r.Some? ==> i <= r.value && OccursAt(s, r.value, k)
    ensures r.Some? ==> forall j :: i <= j < r.value ==> !OccursAt(s, j, k)
    ensures r.None? ==> forall j :: i <= j <= |s| ==> !OccursAt(s, j, k)
    decreases |s| - i
  {
    if OccursAt(s, i, k) then Some(i)
    else if i == |s| then None
    else IndexFrom(s, k, i + 1)
  }

  /** `s.indexOf(k)`: the first occurrence of `k`, or none. */
  function IndexOf(s: string, k: string): (r: Option<nat>)
    ensures r.Some? ==> OccursAt(s, r.value, k) && forall j :: 0 <= j < r.value ==> !OccursAt(s, j, k)
    ensures r.None? ==> forall j :: 0 <= j <= |s| ==> !OccursAt(s, j, k)
  {
    IndexFrom(s, k, 0)
  }

  /**
   * `s.replace(p, r)` with a string pattern: only the first occurrence of
   * `p` is replaced (the replacement strings used here hold no `$`).
   */
  function ReplaceFirst(s: string, p: string, rep: string): string {
    match IndexOf(s, p)
    case None => s
    case Some(i) => s[..i] + rep + s[i + |p|..]
  }

  /**
   * `s.replace(new RegExp(k, 'g'), v)` for a key `k` read literally: a
   * left-to-right scan that replaces every non-overlapping occurrence.
   */
  function ReplaceAll(s: string, k: string, v: string): string
    requires k != []
    decreases |s|
  {
    if StartsWith(s, k) then v + ReplaceAll(s[|k|..], k, v)
    else if s == [] then []
    else [s[0]] + ReplaceAll(s[1..], k, v)
  }

  /** A key that does not occur leaves the text unchanged. */
  lemma {:induction false} ReplaceAllAbsent(s: string, k: string, v: string)
    requires k != []
    requires forall i :: 0 <= i < |s| ==> !OccursAt(s, i, k)
    ensures ReplaceAll(s, k, v) == s
    decreases |s|
  {
    if s != [] {
      StartsWithSuffix(s, 0, k);
      assert s[0..] == s;
      forall i | 0 <= i < |s[1..]|
        ensures !OccursAt(s[1..], i, k)
      {
        assert !OccursAt(s, i + 1, k);
        OccursAtTail(s, i, k);
      }
      ReplaceAllAbsent(s[1..], k, v);
    }
  }

  /**
   * The first occurrence is replaced and the text before it is copied
   * unchanged; scanning then resumes after the occurrence.
   */
  lemma {:induction false} ReplaceAllFirst(p: string, k: string, q: string, v: string)
    requires k != []
    requires forall i :: 0 <= i < |p| ==> !OccursAt(p + k + q, i, k)
    ensures ReplaceAll(p + k + q, k, v) == p + v + ReplaceAll(q, k, v)
    decreases |p|
  {
    var s := p + k + q;
    StartsWithSuffix(s, 0, k);
    assert s[0..] == s;
    if p == [] {
      assert s == k + q;
      assert s[..|k|] == k;
      assert s[|k|..] == q;
    } else {
      assert !StartsWith(s, k);
      assert s[1..] == p[1..] + k + q;
      forall i | 0 <= i < |p[1..]|
        ensures !OccursAt(p[1..] + k + q, i, k)
      {
        assert !OccursAt(s, i + 1, k);
        OccursAtTail(s, i, k);
      }
      ReplaceAllFirst(p[1..], k, q, v);
      assert [s[0]] + (p[1..] + v + ReplaceAll(q, k, v)) == p + v + ReplaceAll(q, k, v);
    }
  }

  /** A text that is exactly the key becomes exactly the value. */
  lemma ReplaceAllWhole(k: string, v: string)
    requires k != []
    ensures ReplaceAll(k, k, v) == v
  {
    ReplaceAllFirst([], k, [], v);
    assert [] + k + [] == k;
    assert ReplaceAll([], k, v) == [];
    assert [] + v + [] == v;
  }

  /** ReplaceAllFirst when the text before the key does not contain the key's first character. */
  lemma ReplaceAllAfterPlainText(p: string, k: string, q: string, v: string)
    requires k != [] && k[0] !in p
    ensures ReplaceAll(p + k + q, k, v) == p + v + ReplaceAll(q, k, v)
  {
    var s := p + k + q;
    forall i | 0 <= i < |p|
      ensures !OccursAt(s, i, k)
    {
      assert s[i] == p[i];
      assert s[i..i + |k|][0] == s[i];
    }
    ReplaceAllFirst(p, k, q, v);
  }

  /** Replacing a key by itself changes nothing. */
  lemma {:induction false} ReplaceAllSelf(s: string, k: string)
    requires k != []
    ensures ReplaceAll(s, k, k) == s
    decreases |s|
  {
    if StartsWith(s, k) {
      ReplaceAllSelf(s[|k|..], k);
      assert s == s[..|k|] + s[|k|..];
    } else if s != [] {
      ReplaceAllSelf(s[1..], k);
      assert s == [s[0]] + s[1..];
    }
  }
}
