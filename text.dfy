/** Strings as sequences of characters: the character classes the feed
    translator's patterns use, substring occurrences and leftmost search. */
module Text {

  datatype Option<+T> = None | Some(value: T) {
    function GetOr(default: T): T {
      match this
      case Some(v) => v
      case None => default
    }
  }

  /** ECMAScript LineTerminator: the characters `.` in a pattern does not match. */
  predicate IsLineTerminator(c: char) {
    c == '\n' || c == '\r' || c == '\U{2028}' || c == '\U{2029}'
  }

  /** ECMAScript WhiteSpace and LineTerminator together: the class `\s`, and
      exactly what `String.prototype.trim` removes from both ends. */
  predicate IsWs(c: char) {
    IsLineTerminator(c) || IsWhiteSpace(c)
  }

  /** ECMAScript WhiteSpace: tab, vertical tab, form feed, the space
      separators (space, no-break space, U+1680, U+2000 to U+200A, U+202F,
      U+205F, U+3000) and the byte order mark. */
  predicate IsWhiteSpace(c: char) {
    || c == '\t' || c == '\U{0B}' || c == '\U{0C}' || c == ' ' || c == '\U{A0}'
    || c == '\U{1680}' || ('\U{2000}' <= c <= '\U{200A}')
    || c == '\U{202F}' || c == '\U{205F}' || c == '\U{3000}' || c == '\U{FEFF}'
  }

  /** No character of `t` is a line terminator. */
  predicate NoLineTerminator(t: string) {
    forall i :: 0 <= i < |t| ==> !IsLineTerminator(t[i])
  }

  /** `pat` occurs in `s` starting at index `k`. */
  predicate Occurs(s: string, pat: string, k: nat) {
    k + |pat| <= |s| && MatchesAt(s, pat, k)
  }

  /** The characters of `pat` stand in `s` from index `k` on, as far as `s` goes. */
  predicate MatchesAt(s: string, pat: string, k: nat)
    decreases |pat|
  {
    pat == [] || (k < |s| && s[k] == pat[0] && MatchesAt(s, pat[1..], k + 1))
  }

  /** Occurs, character by character. */
  lemma {:induction false} OccursIndex(s: string, pat: string, k: nat, t: nat)
    requires Occurs(s, pat, k) && t < |pat|
    ensures s[k + t] == pat[t]
    decreases |pat|
  {
    if t > 0 {
      OccursIndex(s, pat[1..], k + 1, t - 1);
    }
  }

  /** What an occurrence says about one of its characters, as an implication. */
  lemma OccursAtIndex(s: string, pat: string, k: nat, t: nat)
    requires t < |pat|
    ensures Occurs(s, pat, k) ==> k + t < |s| && s[k + t] == pat[t]
  {
    if Occurs(s, pat, k) {
      OccursIndex(s, pat, k, t);
    }
  }

  /** Matching characters at every position make an occurrence. */
  lemma {:induction false} OccursOfIndices(s: string, pat: string, k: nat)
    requires k + |pat| <= |s|
    requires forall t :: 0 <= t < |pat| ==> s[k + t] == pat[t]
    ensures Occurs(s, pat, k)
    decreases |pat|
  {
    if pat != [] {
      var rest := pat[1..];
      forall t | 0 <= t < |rest| ensures s[k + 1 + t] == rest[t] {
        assert s[k + (t + 1)] == pat[t + 1];
      }
      OccursOfIndices(s, rest, k + 1);
    }
  }

  /** The leftmost occurrence of `pat` in `s` at or after index `i`
      (FindFromSound, FindFromFirst and FindFromLeftmost state what it finds). */
  function FindFrom(s: string, pat: string, i: nat): Option<nat>
    decreases |s| - i
  {
    if i + |pat| > |s| then None
    else if Occurs(s, pat, i) then Some(i)
    else FindFrom(s, pat, i + 1)
  }

  /** What FindFrom finds is an occurrence at or after `i`. */
  lemma {:induction false} FindFromSound(s: string, pat: string, i: nat)
    ensures FindFrom(s, pat, i).Some? ==> i <= FindFrom(s, pat, i).value && Occurs(s, pat, FindFrom(s, pat, i).value)
    decreases |s| - i
  {
    if i + |pat| <= |s| && !Occurs(s, pat, i) {
      FindFromSound(s, pat, i + 1);
    }
  }

  /** Any occurrence at or after `i` is found, or one before it is. */
  lemma {:induction false} FindFromFirst(s: string, pat: string, i: nat, j: nat)
    requires i <= j && Occurs(s, pat, j)
    ensures FindFrom(s, pat, i).Some? && FindFrom(s, pat, i).value <= j
    decreases j - i
  {
    if i < j && !Occurs(s, pat, i) {
      FindFromFirst(s, pat, i + 1, j);
    }
  }

  /** FindFrom finds the leftmost occurrence, and finds nothing only when
      there is none. */
  lemma FindFromLeftmost(s: string, pat: string, i: nat)
    ensures FindFrom(s, pat, i).Some? ==> i <= FindFrom(s, pat, i).value && Occurs(s, pat, FindFrom(s, pat, i).value)
    ensures FindFrom(s, pat, i).Some? ==> forall j :: i <= j < FindFrom(s, pat, i).value ==> !Occurs(s, pat, j)
    ensures FindFrom(s, pat, i).None? ==> forall j :: i <= j ==> !Occurs(s, pat, j)
  {
    FindFromSound(s, pat, i);
    forall j | i <= j && Occurs(s, pat, j)
      ensures FindFrom(s, pat, i).Some? && FindFrom(s, pat, i).value <= j
    {
      FindFromFirst(s, pat, i, j);
    }
  }

  /** `k` is the leftmost occurrence of `pat` at or after `i`. */
  predicate FirstOccurrence(s: string, pat: string, i: nat, k: nat) {
    i <= k && Occurs(s, pat, k) && forall j :: i <= j < k ==> !Occurs(s, pat, j)
  }

  /** FindFrom computes exactly the leftmost occurrence. */
  lemma FindFromIff(s: string, pat: string, i: nat, k: nat)
    ensures FindFrom(s, pat, i) == Some(k) <==> FirstOccurrence(s, pat, i, k)
  {
    FindFromLeftmost(s, pat, i);
    if FirstOccurrence(s, pat, i, k) {
      FindFromFirst(s, pat, i, k);
    }
  }

  /** A slice of a slice is a slice of the whole. */
  lemma SliceOfSlice(s: string, lo: nat, hi: nat, x: nat, y: nat)
    requires lo <= hi <= |s| && x <= y <= hi - lo
    ensures s[lo..hi][x..y] == s[lo + x..lo + y]
  {
    forall t | 0 <= t < y - x ensures s[lo..hi][x..y][t] == s[lo + x..lo + y][t] {
      assert s[lo..hi][x + t] == s[lo + x + t];
    }
  }

  /** An occurrence inside a slice is an occurrence in the whole string, shifted. */
  lemma {:induction false} OccursInSlice(s: string, lo: nat, hi: nat, pat: string, k: nat)
    requires lo <= hi <= |s|
    requires k + |pat| <= hi - lo
    ensures Occurs(s[lo..hi], pat, k) <==> Occurs(s, pat, lo + k)
    decreases |pat|
  {
    if pat != [] {
      assert s[lo..hi][k] == s[lo + k];
      OccursInSlice(s, lo, hi, pat[1..], k + 1);
    }
  }

  /** A one-character pattern occurs exactly where that character stands. */
  lemma OccursChar(s: string, c: char, k: nat)
    ensures Occurs(s, [c], k) <==> k < |s| && s[k] == c
  {
    assert [c][1..] == [];
    assert MatchesAt(s, [], k + 1);
  }

  /** `pat` cannot start at offset `d` of `big`: one of its characters
      disagrees with `big` there. */
  ghost predicate ClashAt(big: string, pat: string, d: nat) {
    exists t :: 0 <= t < |pat| && d + t < |big| && big[d + t] != pat[t]
  }

  /** No occurrence of `pat` starts inside an occurrence of `big` at an
      offset where the two clash. */
  lemma NoOccurrenceInside(s: string, big: string, pat: string, p: nat, a: nat)
    requires Occurs(s, big, p) && p <= a && ClashAt(big, pat, a - p)
    ensures !Occurs(s, pat, a)
  {
    var t :| 0 <= t < |pat| && a - p + t < |big| && big[a - p + t] != pat[t];
    OccursIndex(s, big, p, a - p + t);
    OccursAtIndex(s, pat, a, t);
  }

  /** An occurrence of `pat` inside `big` is an occurrence in any string
      where `big` occurs. */
  lemma OccursWithin(s: string, big: string, pat: string, p: nat, d: nat)
    requires Occurs(s, big, p) && Occurs(big, pat, d)
    ensures Occurs(s, pat, p + d)
  {
    forall t | 0 <= t < |pat| ensures s[p + d + t] == pat[t] {
      OccursIndex(big, pat, d, t);
      OccursIndex(s, big, p, d + t);
    }
    OccursOfIndices(s, pat, p + d);
  }
}
