/** The title and summary normalisation `x.trim().replace(/\s+/g, " ")`. */
module Whitespace {
  import opened Text

  /** Drops leading whitespace (TrimStartIsSuffix states what it keeps). */
  function TrimStart(s: string): (r: string)
    ensures |r| <= |s|
    ensures r == [] || !IsWs(r[0])
  {
    if s != [] && IsWs(s[0]) then TrimStart(s[1..]) else s
  }

  /** TrimStart keeps the suffix of `s` after a whitespace-only prefix. */
  lemma {:induction false} TrimStartIsSuffix(s: string)
    ensures TrimStart(s) == s[|s| - |TrimStart(s)|..]
    ensures forall k :: 0 <= k < |s| - |TrimStart(s)| ==> IsWs(s[k])
    decreases |s|
  {
    if s != [] && IsWs(s[0]) {
      TrimStartIsSuffix(s[1..]);
      assert s[1..][|s| - 1 - |TrimStart(s)|..] == s[|s| - |TrimStart(s)|..];
      assert forall k :: 0 < k < |s| ==> s[k] == s[1..][k - 1];
    }
  }

  /** Drops trailing whitespace (TrimEndIsPrefix states what it keeps). */
  function TrimEnd(s: string): (r: string)
    ensures |r| <= |s|
    ensures r == [] || !IsWs(r[|r| - 1])
  {
    if s != [] && IsWs(s[|s| - 1]) then TrimEnd(s[..|s| - 1]) else s
  }

  /** TrimEnd keeps the prefix of `s` before a whitespace-only suffix. */
  lemma {:induction false} TrimEndIsPrefix(s: string)
    ensures TrimEnd(s) == s[..|TrimEnd(s)|]
    ensures forall k :: |TrimEnd(s)| <= k < |s| ==> IsWs(s[k])
    decreases |s|
  {
    if s != [] && IsWs(s[|s| - 1]) {
      TrimEndIsPrefix(s[..|s| - 1]);
      assert s[..|s| - 1][..|TrimEnd(s)|] == s[..|TrimEnd(s)|];
      assert forall k :: 0 <= k < |s| - 1 ==> s[k] == s[..|s| - 1][k];
    }
  }

  /** `String.prototype.trim`: no whitespace at either end (TrimIsSlice
      states which slice of `s` is kept). */
  function Trim(s: string): (r: string)
    ensures |r| <= |s|
    ensures r == [] || (!IsWs(r[0]) && !IsWs(r[|r| - 1]))
  {
    TrimEndIsPrefix(TrimStart(s));
    TrimEnd(TrimStart(s))
  }

  /** Trim keeps the slice of `s` left after removing a whitespace-only
      prefix and a whitespace-only suffix. */
  lemma TrimIsSlice(s: string)
    ensures var lo := |s| - |TrimStart(s)|;
      && lo + |Trim(s)| <= |s| && Trim(s) == s[lo..lo + |Trim(s)|]
      && (forall k :: 0 <= k < lo ==> IsWs(s[k]))
      && (forall k :: lo + |Trim(s)| <= k < |s| ==> IsWs(s[k]))
  {
    var u := TrimStart(s);
    var r := TrimEnd(u);
    assert Trim(s) == r;
    TrimStartIsSuffix(s);
    TrimEndIsPrefix(u);
    PrefixOfSuffix(s, |s| - |u|, u, r);
  }

  /** A whitespace-only tail of a suffix is a whitespace-only tail of the whole. */
  lemma PrefixOfSuffix(s: string, lo: nat, u: string, r: string)
    requires lo <= |s| && u == s[lo..]
    requires |r| <= |u| && r == u[..|r|]
    requires forall k :: |r| <= k < |u| ==> IsWs(u[k])
    ensures r == s[lo..lo + |r|]
    ensures forall k :: lo + |r| <= k < |s| ==> IsWs(s[k])
  {
    forall k | lo + |r| <= k < |s| ensures IsWs(s[k]) {
      assert s[k] == u[k - lo];
    }
  }

  /** `replace(/\s+/g, " ")`: every maximal run of whitespace becomes one
      space (CollapseSpaces). */
  function Collapse(s: string): (r: string)
    ensures |r| <= |s|
    ensures s != [] ==> r != [] && (IsWs(r[0]) <==> IsWs(s[0]))
    decreases |s|
  {
    if s == [] then []
    else if IsWs(s[0]) then [' '] + Collapse(TrimStart(s[1..]))
    else [s[0]] + Collapse(s[1..])
  }

  /** Collapsing keeps whether the last character is whitespace. */
  lemma {:induction false} CollapseLast(s: string)
    requires s != []
    ensures IsWs(Collapse(s)[|Collapse(s)| - 1]) <==> IsWs(s[|s| - 1])
    decreases |s|
  {
    var r := Collapse(s);
    if IsWs(s[0]) {
      var u := TrimStart(s[1..]);
      TrimStartIsSuffix(s[1..]);
      assert r == [' '] + Collapse(u);
      if u != [] {
        CollapseLast(u);
        assert u[|u| - 1] == s[|s| - 1];
      } else if |s| > 1 {
        assert IsWs(s[1..][|s| - 2]);
      }
    } else if |s| > 1 {
      CollapseLast(s[1..]);
      assert r == [s[0]] + Collapse(s[1..]);
    }
  }

  /** After collapsing, the only whitespace is the plain space, and no two
      whitespace characters stand side by side. */
  lemma {:induction false} CollapseSpaces(s: string)
    ensures Spaced(Collapse(s))
    decreases |s|
  {
    if s != [] {
      var r := Collapse(s);
      if IsWs(s[0]) {
        var c := Collapse(TrimStart(s[1..]));
        CollapseSpaces(TrimStart(s[1..]));
        assert r == [' '] + c && r[1..] == c;
      } else {
        var c := Collapse(s[1..]);
        CollapseSpaces(s[1..]);
        assert r == [s[0]] + c && r[1..] == c;
      }
    }
  }

  /** The only whitespace is the plain space, never two side by side,
      read character by character. */
  predicate Spaced(t: string)
    decreases |t|
  {
    t == [] || ((IsWs(t[0]) ==> t[0] == ' ' && (|t| > 1 ==> !IsWs(t[1]))) && Spaced(t[1..]))
  }

  /** Spaced, read over all indices. */
  lemma SpacedIff(t: string)
    ensures Spaced(t) <==> SingleSpaces(t) && NoWsPair(t)
  {
    if Spaced(t) {
      SpacedHasSingleSpaces(t);
    }
    if SingleSpaces(t) && NoWsPair(t) {
      SingleSpacesAreSpaced(t);
    }
  }

  /** The only whitespace character in `t` is the plain space. */
  predicate SingleSpaces(t: string) {
    forall k :: 0 <= k < |t| && IsWs(t[k]) ==> t[k] == ' '
  }

  /** No two whitespace characters stand side by side in `t`. */
  predicate NoWsPair(t: string) {
    forall k :: 0 <= k < |t| ==> !WsPairAt(t, k)
  }

  lemma {:induction false} SpacedHasSingleSpaces(t: string)
    requires Spaced(t)
    ensures SingleSpaces(t) && NoWsPair(t)
    decreases |t|
  {
    if t != [] {
      var rest := t[1..];
      SpacedHasSingleSpaces(rest);
      forall k | 0 < k < |t| ensures t[k] == rest[k - 1] {
      }
      forall k | 0 < k < |t| ensures !WsPairAt(t, k) {
        var k': nat := k - 1;
        assert !WsPairAt(rest, k');
      }
    }
  }

  lemma {:induction false} SingleSpacesAreSpaced(t: string)
    requires SingleSpaces(t) && NoWsPair(t)
    ensures Spaced(t)
    decreases |t|
  {
    if t != [] {
      var rest := t[1..];
      forall k | 0 <= k < |rest| ensures rest[k] == t[k + 1] {
      }
      forall k | 0 <= k < |rest| ensures !WsPairAt(rest, k) {
        assert !WsPairAt(t, k + 1);
      }
      SingleSpacesAreSpaced(rest);
      assert !WsPairAt(t, 0);
    }
  }

  /** Two whitespace characters stand side by side at index `k`. */
  predicate WsPairAt(t: string, k: nat) {
    k + 1 < |t| && IsWs(t[k]) && IsWs(t[k + 1])
  }

  /** The non-whitespace characters of `s`, in order. */
  function NonWs(s: string): string {
    if s == [] then []
    else if IsWs(s[0]) then NonWs(s[1..])
    else [s[0]] + NonWs(s[1..])
  }

  /** No leading or trailing whitespace, no two adjacent whitespace
      characters, and no whitespace other than the plain space. */
  predicate IsNormalized(t: string) {
    && (t == [] || (!IsWs(t[0]) && !IsWs(t[|t| - 1])))
    && Spaced(t)
  }

  /** Title and summary normalisation. */
  function Normalize(s: string): string {
    Collapse(Trim(s))
  }

  /** Normalisation yields a normalised string. */
  lemma NormalizeIsNormalized(s: string)
    ensures IsNormalized(Normalize(s))
  {
    var t := Trim(s);
    CollapseSpaces(t);
    if t != [] {
      CollapseLast(t);
    }
  }

  /** Collapsing leaves alone a string whose whitespace is already single spaces. */
  lemma {:induction false} CollapseKeepsSingleSpaces(t: string)
    requires Spaced(t)
    ensures Collapse(t) == t
    decreases |t|
  {
    if t != [] {
      var rest := t[1..];
      CollapseKeepsSingleSpaces(rest);
      if IsWs(t[0]) {
        assert TrimStart(rest) == rest;
        assert Collapse(t) == [' '] + rest;
      } else {
        assert Collapse(t) == [t[0]] + rest;
      }
    }
  }

  /** A normalised string is a fixed point of normalisation. */
  lemma NormalizedIsFixed(t: string)
    requires IsNormalized(t)
    ensures Normalize(t) == t
  {
    assert TrimStart(t) == t;
    assert TrimEnd(t) == t;
    CollapseKeepsSingleSpaces(t);
  }

  /** Normalising twice is the same as normalising once. */
  lemma NormalizeIdempotent(s: string)
    ensures Normalize(Normalize(s)) == Normalize(s)
  {
    NormalizeIsNormalized(s);
    NormalizedIsFixed(Normalize(s));
  }

  // ---------------------------------------------------------------------
  // Where the spaces come from

  /** Concatenation is associative. */
  lemma ConcatAssoc(a: string, b: string, c: string)
    ensures a + b + c == a + (b + c)
  {
  }

  /** Leading whitespace stops at the first other character, however much
      text follows it. */
  lemma {:induction false} TrimStartAppend(a: string, x: string)
    requires a != [] && !IsWs(a[|a| - 1])
    ensures TrimStart(a + x) == TrimStart(a) + x
    decreases |a|
  {
    if IsWs(a[0]) {
      assert (a + x)[1..] == a[1..] + x;
      TrimStartAppend(a[1..], x);
    }
  }

  /** Trailing whitespace stops at the last other character, however much
      text precedes it. */
  lemma {:induction false} TrimEndPrepend(y: string, v: string)
    requires v != [] && !IsWs(v[0])
    ensures TrimEnd(y + v) == y + TrimEnd(v)
    decreases |v|
  {
    if IsWs(v[|v| - 1]) {
      assert (y + v)[..|y + v| - 1] == y + v[..|v| - 1];
      TrimEndPrepend(y, v[..|v| - 1]);
    }
  }

  /** A whitespace-only prefix is all TrimStart removes before a
      non-whitespace character. */
  lemma {:induction false} TrimStartOfBlank(w: string, v: string)
    requires forall k :: 0 <= k < |w| ==> IsWs(w[k])
    requires v == [] || !IsWs(v[0])
    ensures TrimStart(w + v) == v
    decreases |w|
  {
    if w == [] {
      assert w + v == v;
    } else {
      assert (w + v)[1..] == w[1..] + v;
      TrimStartOfBlank(w[1..], v);
    }
  }

  /** A string ending in a non-whitespace character keeps that character
      as the last one after TrimStart. */
  lemma TrimStartKeepsLast(a: string)
    requires a != [] && !IsWs(a[|a| - 1])
    ensures TrimStart(a) != [] && TrimStart(a)[|TrimStart(a)| - 1] == a[|a| - 1]
  {
    TrimStartIsSuffix(a);
  }

  /** Collapsing works piecewise across a boundary after a non-whitespace
      character: no run of whitespace spans it. */
  lemma {:induction false} CollapseAppend(u: string, x: string)
    requires u == [] || !IsWs(u[|u| - 1])
    ensures Collapse(u + x) == Collapse(u) + Collapse(x)
    decreases |u|
  {
    if u == [] {
      assert u + x == x;
    } else if IsWs(u[0]) {
      var a := u[1..];
      var t := TrimStart(a);
      assert (u + x)[1..] == a + x;
      TrimStartAppend(a, x);
      TrimStartKeepsLast(a);
      CollapseAppend(t, x);
    } else {
      assert (u + x)[1..] == u[1..] + x;
      CollapseAppend(u[1..], x);
    }
  }

  /** A run of whitespace between two non-whitespace characters (or the
      ends of the string) becomes exactly one space. */
  lemma CollapseRun(u: string, w: string, v: string)
    requires w != [] && forall k :: 0 <= k < |w| ==> IsWs(w[k])
    requires u == [] || !IsWs(u[|u| - 1])
    requires v == [] || !IsWs(v[0])
    ensures Collapse(u + w + v) == Collapse(u) + " " + Collapse(v)
  {
    CollapseAppend(u, w + v);
    CollapseBlankPrefix(w, v);
    ConcatAssoc(u, w, v);
    ConcatAssoc(Collapse(u), " ", Collapse(v));
  }

  /** A leading run of whitespace becomes one space. */
  lemma CollapseBlankPrefix(w: string, v: string)
    requires w != [] && forall k :: 0 <= k < |w| ==> IsWs(w[k])
    requires v == [] || !IsWs(v[0])
    ensures Collapse(w + v) == " " + Collapse(v)
  {
    var x := w + v;
    var rest := w[1..];
    assert x[0] == w[0] && x[1..] == rest + v;
    assert forall k :: 0 <= k < |rest| ==> IsWs(rest[k]) by {
      forall k | 0 <= k < |rest| ensures IsWs(rest[k]) {
        assert rest[k] == w[k + 1];
      }
    }
    TrimStartOfBlank(rest, v);
  }

  /** Normalisation: the whitespace between two words becomes exactly one
      space, and each side is normalised on its own. */
  lemma NormalizeRun(u: string, w: string, v: string)
    requires w != [] && forall k :: 0 <= k < |w| ==> IsWs(w[k])
    requires u != [] && !IsWs(u[|u| - 1])
    requires v != [] && !IsWs(v[0])
    ensures Normalize(u + w + v) == Normalize(u) + " " + Normalize(v)
  {
    var a := TrimStart(u);
    var b := TrimEnd(v);
    TrimStartAppend(u, w + v);
    ConcatAssoc(u, w, v);
    ConcatAssoc(a, w, v);
    TrimEndPrepend(a + w, v);
    TrimStartKeepsLast(u);
    TrimEndIsPrefix(v);
    assert Trim(u + w + v) == a + w + b;
    CollapseRun(a, w, b);
  }

  lemma {:induction false} NonWsAppend(a: string, b: string)
    ensures NonWs(a + b) == NonWs(a) + NonWs(b)
    decreases |a|
  {
    if a == [] {
      assert a + b == b;
    } else {
      assert (a + b)[1..] == a[1..] + b;
      NonWsAppend(a[1..], b);
    }
  }

  /** A whitespace-only string has no non-whitespace characters. */
  lemma {:induction false} NonWsOfBlank(s: string)
    requires forall k :: 0 <= k < |s| ==> IsWs(s[k])
    ensures NonWs(s) == []
    decreases |s|
  {
    if s != [] {
      NonWsOfBlank(s[1..]);
    }
  }

  /** Removing a whitespace-only prefix keeps the other characters. */
  lemma TrimStartKeepsNonWs(s: string)
    ensures NonWs(TrimStart(s)) == NonWs(s)
  {
    var u := TrimStart(s);
    TrimStartIsSuffix(s);
    var pre := s[..|s| - |u|];
    assert s == pre + u;
    NonWsAppend(pre, u);
    NonWsOfBlank(pre);
  }

  /** Removing a whitespace-only suffix keeps the other characters. */
  lemma TrimEndKeepsNonWs(s: string)
    ensures NonWs(TrimEnd(s)) == NonWs(s)
  {
    var r := TrimEnd(s);
    TrimEndIsPrefix(s);
    var post := s[|r|..];
    assert s == r + post;
    NonWsAppend(r, post);
    NonWsOfBlank(post);
  }

  /** Trimming removes whitespace only. */
  lemma TrimKeepsNonWs(s: string)
    ensures NonWs(Trim(s)) == NonWs(s)
  {
    TrimStartKeepsNonWs(s);
    TrimEndKeepsNonWs(TrimStart(s));
  }

  /** Collapsing changes whitespace only. */
  lemma {:induction false} CollapseKeepsNonWs(s: string)
    ensures NonWs(Collapse(s)) == NonWs(s)
    decreases |s|
  {
    if s != [] {
      if IsWs(s[0]) {
        var u := TrimStart(s[1..]);
        CollapseKeepsNonWs(u);
        TrimStartKeepsNonWs(s[1..]);
        assert ([' '] + Collapse(u))[1..] == Collapse(u);
      } else {
        CollapseKeepsNonWs(s[1..]);
        assert ([s[0]] + Collapse(s[1..]))[1..] == Collapse(s[1..]);
      }
    }
  }

  /** Normalisation changes whitespace only: the other characters survive in order. */
  lemma NormalizeKeepsNonWs(s: string)
    ensures NonWs(Normalize(s)) == NonWs(s)
  {
    TrimKeepsNonWs(s);
    CollapseKeepsNonWs(Trim(s));
  }
}
