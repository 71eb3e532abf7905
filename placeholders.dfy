/**
 * The `placeholders` object of the email scripts and the loop that applies
 * it. A JavaScript object whose keys are never integer-like (every key here
 * has the form `{{k}}`) enumerates its keys in insertion order, and
 * assigning to an existing key keeps its position; the object is therefore
 * a sequence of (token, value) pairs with distinct tokens.
 */
module Placeholders {
  import opened Wrappers
  import opened Text

  type Store = seq<(string, string)>

  /** `{{key}}`, the token a `--key` argument defines. */
  function Token(key: string): (t: string)
    ensures |t| == |key| + 4 && t[2..|t| - 2] == key
  {
    "{{" + key + "}}"
  }

  lemma TokenInjective(k1: string, k2: string)
    ensures Token(k1) == Token(k2) <==> k1 == k2
  {
    if Token(k1) == Token(k2) {
      assert k1 == Token(k1)[2..|Token(k1)| - 2];
    }
  }

  /** `Object.keys(placeholders)`. */
  function Keys(st: Store): (ks: seq<string>)
    ensures |ks| == |st| && forall i {:trigger ks[i]} :: 0 <= i < |st| ==> ks[i] == st[i].0
  {
    if st == [] then [] else [st[0].0] + Keys(st[1..])
  }

  predicate DistinctKeys(st: Store) {
    forall i, j :: 0 <= i < j < |st| ==> st[i].0 != st[j].0
  }

  /** Every key can serve as a pattern: none is empty. */
  predicate NonEmptyKeys(st: Store) {
    forall i :: 0 <= i < |st| ==> st[i].0 != []
  }

  /** `placeholders[k]`. */
  function Get(st: Store, k: string): (r: Option<string>)
    ensures r.None? <==> k !in Keys(st)
    ensures r.Some? ==> exists i :: 0 <= i < |st| && st[i] == (k, r.value)
  {
    if st == [] then None
    else if st[0].0 == k then Some(st[0].1)
    else Get(st[1..], k)
  }

  /**
   * `placeholders[k] = v`: afterwards `k` maps to `v` and every other key
   * keeps its value (the key order is the subject of PutKeys).
   */
  function Put(st: Store, k: string, v: string): (r: Store)
    ensures |st| <= |r| <= |st| + 1
    ensures Get(r, k) == Some(v)
    ensures forall k' :: k' != k ==> Get(r, k') == Get(st, k')
  {
    if st == [] then [(k, v)]
    else if st[0].0 == k then [(k, v)] + st[1..]
    else [st[0]] + Put(st[1..], k, v)
  }

  /** Assigning to an existing key keeps the key order; a new key goes last. */
  lemma {:induction false} PutKeys(st: Store, k: string, v: string)
    ensures Keys(Put(st, k, v)) == if k in Keys(st) then Keys(st) else Keys(st) + [k]
    decreases |st|
  {
    if st != [] {
      var head, tail := st[0].0, Keys(st[1..]);
      assert Keys(st) == [head] + tail;
      if head != k {
        PutKeys(st[1..], k, v);
        assert Keys(Put(st, k, v)) == [head] + Keys(Put(st[1..], k, v));
        assert k in Keys(st) <==> k in tail;
        if k !in tail {
          AppendAssociative([head], tail, [k]);
        }
      } else {
        assert Keys(Put(st, k, v)) == [k] + tail;
      }
    }
  }

  /** Helper: index by index, the keys after a `Put`. */
  lemma PutKeyAt(st: Store, k: string, v: string)
    ensures forall i :: 0 <= i < |st| ==> Put(st, k, v)[i].0 == st[i].0
    ensures k in Keys(st) ==> |Put(st, k, v)| == |st|
    ensures k !in Keys(st) ==> |Put(st, k, v)| == |st| + 1 && Put(st, k, v)[|st|].0 == k
  {
    var r := Put(st, k, v);
    PutKeys(st, k, v);
    forall i | 0 <= i < |st|
      ensures r[i].0 == st[i].0
    {
      assert r[i].0 == Keys(r)[i] == Keys(st)[i];
    }
    if k !in Keys(st) {
      assert r[|st|].0 == Keys(r)[|st|];
    }
  }

  /** Distinct keys stay distinct, and non-empty keys non-empty. */
  lemma PutKeepsKeysValid(st: Store, k: string, v: string)
    ensures DistinctKeys(st) ==> DistinctKeys(Put(st, k, v))
    ensures NonEmptyKeys(st) && k != [] ==> NonEmptyKeys(Put(st, k, v))
  {
    if DistinctKeys(st) {
      PutKeepsDistinct(st, k, v);
    }
    if NonEmptyKeys(st) && k != [] {
      PutKeepsNonEmpty(st, k, v);
    }
  }

  /** Helper: the distinct half of PutKeepsKeysValid. */
  lemma PutKeepsDistinct(st: Store, k: string, v: string)
    requires DistinctKeys(st)
    ensures DistinctKeys(Put(st, k, v))
  {
    var r := Put(st, k, v);
    PutKeyAt(st, k, v);
    forall i, j | 0 <= i < j < |r|
      ensures r[i].0 != r[j].0
    {
      if j == |st| {
        assert st[i].0 == Keys(st)[i];
      }
    }
  }

  /** Helper: the non-empty half of PutKeepsKeysValid. */
  lemma PutKeepsNonEmpty(st: Store, k: string, v: string)
    requires NonEmptyKeys(st) && k != []
    ensures NonEmptyKeys(Put(st, k, v))
  {
    var r := Put(st, k, v);
    PutKeyAt(st, k, v);
    forall i | 0 <= i < |r|
      ensures r[i].0 != []
    {
      if i < |st| {
        assert r[i].0 == st[i].0;
      } else {
        assert |r| != |st|;
        assert k !in Keys(st);
        assert i == |st|;
      }
    }
  }

  /**
   * The substitution loop: the keys in order, each replacing every
   * occurrence of its token in the text produced so far.
   */
  function Substitute(s: string, st: Store): string
    requires NonEmptyKeys(st)
    decreases |st|
  {
    if st == [] then s
    else Substitute(ReplaceAll(s, st[0].0, st[0].1), st[1..])
  }

  /** Keys are applied in insertion order: the pairs of `a` before those of `b`. */
  lemma {:induction false} SubstituteAppend(s: string, a: Store, b: Store)
    requires NonEmptyKeys(a) && NonEmptyKeys(b)
    ensures NonEmptyKeys(a + b)
    ensures Substitute(s, a + b) == Substitute(Substitute(s, a), b)
    decreases |a|
  {
    if a != [] {
      assert (a + b)[0] == a[0];
      assert (a + b)[1..] == a[1..] + b;
      SubstituteAppend(ReplaceAll(s, a[0].0, a[0].1), a[1..], b);
    } else {
      assert a + b == b;
    }
  }

  /** A text in which no key occurs is left unchanged. */
  lemma {:induction false} SubstituteAbsent(s: string, st: Store)
    requires NonEmptyKeys(st)
    requires forall j, i :: 0 <= j < |st| && 0 <= i < |s| ==> !OccursAt(s, i, st[j].0)
    ensures Substitute(s, st) == s
    decreases |st|
  {
    if st != [] {
      ReplaceAllAbsent(s, st[0].0, st[0].1);
      SubstituteAbsent(s, st[1..]);
    }
  }

  /**
   * A value that contains a later key's token is substituted again by that
   * later key, but not by an earlier one: the loop is one pass per key, not
   * a simultaneous substitution.
   */
  lemma LaterKeyRewritesEarlierValue(k1: string, k2: string, v: string)
    requires k1 != [] && k2 != []
    requires forall i :: 0 <= i < |k1| ==> !OccursAt(k1, i, k2)
    ensures Substitute(k1, [(k1, k2), (k2, v)]) == v
    ensures Substitute(k1, [(k2, v), (k1, k2)]) == k2
  {
    SubstituteTwo(k1, (k1, k2), (k2, v));
    SubstituteTwo(k1, (k2, v), (k1, k2));
    ReplaceAllWhole(k1, k2);
    ReplaceAllWhole(k2, v);
    ReplaceAllAbsent(k1, k2, v);
  }

  /** A store of two pairs applies the first pair's replacement, then the second's. */
  lemma SubstituteTwo(s: string, a: (string, string), b: (string, string))
    requires a.0 != [] && b.0 != []
    ensures NonEmptyKeys([a, b])
    ensures Substitute(s, [a, b]) == ReplaceAll(ReplaceAll(s, a.0, a.1), b.0, b.1)
  {
    var st := [a, b];
    assert st[1..] == [b] && st[1..][1..] == [];
    assert Substitute(s, st) == Substitute(ReplaceAll(s, a.0, a.1), [b]);
    var t := ReplaceAll(s, a.0, a.1);
    assert Substitute(t, [b]) == Substitute(ReplaceAll(t, b.0, b.1), []);
  }

  /** The loop `Object.keys(placeholders).forEach(key => text = text.replace(...))`. */
  method ApplyPlaceholders(text: string, st: Store) returns (out: string)
    requires NonEmptyKeys(st)
    ensures out == Substitute(text, st)
  {
    out := text;
    var i := 0;
    while i < |st|
      invariant 0 <= i <= |st|
      invariant Substitute(out, st[i..]) == Substitute(text, st)
    {
      assert st[i..][0] == st[i] && st[i..][1..] == st[i + 1..];
      out := ReplaceAll(out, st[i].0, st[i].1);
      i := i + 1;
    }
  }
}
