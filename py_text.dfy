/**
 * The pieces of Python's `str` that the history reader relies on:
 * `str.isspace` (the whitespace set used by argument-less `strip()` and
 * `split()`), `strip()`, `split()` and the substring test `sub in s`.
 *
 * The functions carry no contracts of their own, so that unfolding them is
 * cheap wherever the reader mentions them; what they mean is stated by the
 * lemmas beside them.
 */
module PyText {

  /** The characters Python's `str.isspace` accepts, hence the separators of `split()`. */
  const SpaceChars: set<char> := {
    ' ', '\t', '\n', '\U{b}', '\U{c}', '\r', '\U{1c}', '\U{1d}', '\U{1e}', '\U{1f}',
    '\U{85}', '\U{a0}', '\U{1680}', '\U{2000}', '\U{2001}', '\U{2002}', '\U{2003}',
    '\U{2004}', '\U{2005}', '\U{2006}', '\U{2007}', '\U{2008}', '\U{2009}', '\U{200a}',
    '\U{2028}', '\U{2029}', '\U{202f}', '\U{205f}', '\U{3000}'
  }

  predicate IsSpace(c: char)
  {
    if c <= ' ' then c == ' ' || '\t' <= c <= '\r' || '\U{1c}' <= c <= '\U{1f}'
    else if c < '\U{85}' then false
    else c in SpaceChars
  }

  ghost predicate AllSpace(s: string)
  {
    forall i :: 0 <= i < |s| ==> IsSpace(s[i])
  }

  ghost predicate NoSpace(s: string)
  {
    forall i :: 0 <= i < |s| ==> !IsSpace(s[i])
  }

  // ---------------------------------------------------------------------
  // strip()
  // ---------------------------------------------------------------------

  /** `s.lstrip()`. */
  function TrimLeft(s: string): string
  {
    if s == [] || !IsSpace(s[0]) then s else TrimLeft(s[1..])
  }

  /** `s.rstrip()`. */
  function TrimRight(s: string): string
  {
    if s == [] || !IsSpace(s[|s| - 1]) then s else TrimRight(s[..|s| - 1])
  }

  /** `s.strip()`. */
  function Strip(s: string): string
  {
    TrimRight(TrimLeft(s))
  }

  /** `lstrip()` drops exactly the leading whitespace: the rest is a suffix starting with a non-space. */
  lemma {:induction false} TrimLeftSpec(s: string)
    ensures var r := TrimLeft(s);
      && |r| <= |s| && r == s[|s| - |r|..]
      && AllSpace(s[..|s| - |r|])
      && (r == [] || !IsSpace(r[0]))
    decreases |s|
  {
    if s != [] && IsSpace(s[0]) {
      TrimLeftSpec(s[1..]);
      var r := TrimLeft(s);
      assert s[1..][..|s| - 1 - |r|] == s[1..|s| - |r|];
    }
  }

  /** `rstrip()` drops exactly the trailing whitespace: the rest is a prefix ending with a non-space. */
  lemma {:induction false} TrimRightSpec(s: string)
    ensures var r := TrimRight(s);
      && |r| <= |s| && r == s[..|r|]
      && AllSpace(s[|r|..])
      && (r == [] || !IsSpace(r[|r| - 1]))
    decreases |s|
  {
    if s != [] && IsSpace(s[|s| - 1]) {
      var t := s[..|s| - 1];
      TrimRightSpec(t);
      var r := TrimRight(t);
      assert TrimRight(s) == r;
      assert s[..|r|] == t[..|r|];
      assert s[|r|..] == t[|r|..] + [s[|s| - 1]];
    }
  }

  /**
   * `strip()` cuts the line into whitespace, the result and whitespace, and
   * the result neither starts nor ends with whitespace.
   */
  lemma StripSpec(s: string)
    ensures var r := Strip(s);
      exists p :: 0 <= p && p + |r| <= |s| && s[p..p + |r|] == r
        && AllSpace(s[..p]) && AllSpace(s[p + |r|..])
    ensures var r := Strip(s);
      r == [] || (!IsSpace(r[0]) && !IsSpace(r[|r| - 1]))
  {
    var l := TrimLeft(s);
    var r := Strip(s);
    TrimLeftSpec(s);
    TrimRightSpec(l);
    var p := |s| - |l|;
    assert s[p..p + |r|] == l[..|r|];
    assert s[p + |r|..] == l[|r|..];
    if r != [] {
      assert r[0] == l[0];
    }
  }

  /** Stripping leaves nothing exactly when the line is all whitespace. */
  lemma StripEmptyIffAllSpace(s: string)
    ensures Strip(s) == [] <==> AllSpace(s)
  {
    var l := TrimLeft(s);
    TrimLeftSpec(s);
    TrimRightSpec(l);
    if Strip(s) == [] {
      assert s[..|s| - |l|] == s;
    } else {
      var r := Strip(s);
      assert r[0] == l[0];
      assert l[0] == s[|s| - |l|];
    }
  }

  // ---------------------------------------------------------------------
  // split()
  // ---------------------------------------------------------------------

  /** Length of the leading run of non-whitespace characters. */
  function WordLen(s: string): (n: nat)
    ensures n <= |s|
  {
    if s == [] || IsSpace(s[0]) then 0 else 1 + WordLen(s[1..])
  }

  /** `s.split()`. */
  function Split(s: string): seq<string>
    decreases |s|
  {
    if s == [] then []
    else if IsSpace(s[0]) then Split(s[1..])
    else
      var n := WordLen(s);
      [s[..n]] + Split(s[n..])
  }

  /** `" ".join(ws)`. */
  function Join(ws: seq<string>): string
  {
    if ws == [] then []
    else if |ws| == 1 then ws[0]
    else ws[0] + " " + Join(ws[1..])
  }

  /** The leading word is the longest whitespace-free prefix. */
  lemma {:induction false} WordLenSpec(s: string)
    ensures NoSpace(s[..WordLen(s)])
    ensures WordLen(s) == |s| || IsSpace(s[WordLen(s)])
    decreases |s|
  {
    if s != [] && !IsSpace(s[0]) {
      WordLenSpec(s[1..]);
      assert forall i :: 1 <= i < WordLen(s) ==> s[..WordLen(s)][i] == s[1..][..WordLen(s[1..])][i - 1];
    }
  }

  /** Every token of `split()` is non-empty and free of whitespace. */
  lemma {:induction false} SplitTokens(s: string)
    ensures forall k :: 0 <= k < |Split(s)| ==> Split(s)[k] != [] && NoSpace(Split(s)[k])
    decreases |s|
  {
    if s != [] {
      if IsSpace(s[0]) {
        SplitTokens(s[1..]);
      } else {
        var n := WordLen(s);
        WordLenSpec(s);
        SplitTokens(s[n..]);
        assert Split(s) == [s[..n]] + Split(s[n..]);
      }
    }
  }

  lemma {:induction false} WordLenOfWord(w: string, rest: string)
    requires NoSpace(w)
    requires rest == [] || IsSpace(rest[0])
    ensures WordLen(w + rest) == |w|
    decreases |w|
  {
    if w != [] {
      assert (w + rest)[1..] == w[1..] + rest;
      WordLenOfWord(w[1..], rest);
    }
  }

  /** Splitting undoes joining with single spaces, for tokens `split()` could produce. */
  lemma {:induction false} SplitJoin(ws: seq<string>)
    requires forall k :: 0 <= k < |ws| ==> ws[k] != [] && NoSpace(ws[k])
    ensures Split(Join(ws)) == ws
    decreases |ws|
  {
    if ws == [] {
    } else if |ws| == 1 {
      WordLenOfWord(ws[0], []);
      assert ws[0] + [] == ws[0];
      assert ws[0][|ws[0]|..] == [];
    } else {
      var w := ws[0];
      var tail := Join(ws[1..]);
      var s := w + " " + tail;
      assert s == w + (" " + tail);
      WordLenOfWord(w, " " + tail);
      assert s[..|w|] == w;
      assert s[|w|..] == " " + tail;
      assert Split(" " + tail) == Split(tail) by {
        assert (" " + tail)[1..] == tail;
      }
      SplitJoin(ws[1..]);
      assert ws == [w] + ws[1..];
    }
  }

  lemma {:induction false} SplitAllSpace(w: string)
    requires AllSpace(w)
    ensures Split(w) == []
    decreases |w|
  {
    if w != [] {
      SplitAllSpace(w[1..]);
    }
  }

  lemma {:induction false} SplitEmptyAllSpace(s: string)
    requires Split(s) == []
    ensures AllSpace(s)
    decreases |s|
  {
    if s != [] {
      if IsSpace(s[0]) {
        SplitEmptyAllSpace(s[1..]);
        assert forall i :: 1 <= i < |s| ==> s[i] == s[1..][i - 1];
      }
    }
  }

  lemma {:induction false} WordLenAppendSpace(t: string, w: string)
    requires AllSpace(w)
    ensures WordLen(t + w) == WordLen(t)
    decreases |t|
  {
    if t == [] {
      assert t + w == w;
    } else if !IsSpace(t[0]) {
      assert (t + w)[1..] == t[1..] + w;
      WordLenAppendSpace(t[1..], w);
    }
  }

  /** Trailing whitespace never adds or changes tokens. */
  lemma {:induction false} SplitAppendSpace(t: string, w: string)
    requires AllSpace(w)
    ensures Split(t + w) == Split(t)
    decreases |t|
  {
    if t == [] {
      assert t + w == w;
      SplitAllSpace(w);
    } else if IsSpace(t[0]) {
      assert (t + w)[1..] == t[1..] + w;
      SplitAppendSpace(t[1..], w);
    } else {
      var n := WordLen(t);
      WordLenAppendSpace(t, w);
      assert (t + w)[..n] == t[..n];
      assert (t + w)[n..] == t[n..] + w;
      SplitAppendSpace(t[n..], w);
    }
  }

  /** Leading whitespace never adds or changes tokens. */
  lemma {:induction false} SplitPrependSpace(w: string, t: string)
    requires AllSpace(w)
    ensures Split(w + t) == Split(t)
    decreases |w|
  {
    if w != [] {
      assert (w + t)[1..] == w[1..] + t;
      SplitPrependSpace(w[1..], t);
    } else {
      assert w + t == t;
    }
  }

  /** `s.strip().split() == s.split()`. */
  lemma SplitIgnoresStrip(s: string)
    ensures Split(Strip(s)) == Split(s)
  {
    var l := TrimLeft(s);
    var r := Strip(s);
    TrimLeftSpec(s);
    TrimRightSpec(l);
    assert s == s[..|s| - |l|] + l;
    SplitPrependSpace(s[..|s| - |l|], l);
    assert l == r + l[|r|..];
    SplitAppendSpace(r, l[|r|..]);
  }

  /** A stripped line is blank exactly when it has no tokens. */
  lemma BlankIffNoTokens(s: string)
    ensures Strip(s) == [] <==> Split(Strip(s)) == []
  {
    var r := Strip(s);
    if r != [] {
      StripSpec(s);
      assert !IsSpace(r[0]);
    }
  }

  // ---------------------------------------------------------------------
  // sub in s
  // ---------------------------------------------------------------------

  ghost predicate OccursAt(s: string, sub: string, i: int)
  {
    0 <= i && i + |sub| <= |s| && s[i..i + |sub|] == sub
  }

  /** `sub in s`. */
  function Contains(s: string, sub: string): bool
    decreases |s|
  {
    if |sub| <= |s| && s[..|sub|] == sub then true
    else if s == [] then false
    else Contains(s[1..], sub)
  }

  /** `sub in s` holds exactly when `sub` occurs at some position of `s`. */
  lemma {:induction false} ContainsSpec(s: string, sub: string)
    ensures Contains(s, sub) <==> exists i :: OccursAt(s, sub, i)
    decreases |s|
  {
    if |sub| <= |s| && s[..|sub|] == sub {
      assert OccursAt(s, sub, 0);
    } else if s != [] {
      ContainsSpec(s[1..], sub);
      if i :| OccursAt(s, sub, i) {
        assert i != 0;
        assert s[1..][i - 1..i - 1 + |sub|] == s[i..i + |sub|];
        assert OccursAt(s[1..], sub, i - 1);
      }
      if i :| OccursAt(s[1..], sub, i) {
        assert s[1..][i..i + |sub|] == s[i + 1..i + 1 + |sub|];
        assert OccursAt(s, sub, i + 1);
      }
    }
  }

  /** A line holding a non-empty substring that has no whitespace has at least one token. */
  lemma ContainsWordHasTokens(s: string, sub: string)
    requires sub != [] && NoSpace(sub)
    requires Contains(s, sub)
    ensures Split(Strip(s)) != []
  {
    ContainsSpec(s, sub);
    var i :| OccursAt(s, sub, i);
    assert s[i] == sub[0];
    SplitIgnoresStrip(s);
    if Split(s) == [] {
      SplitEmptyAllSpace(s);
      assert false;
    }
  }
}
