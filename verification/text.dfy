/**
 * String primitives with Python's semantics, as used by the fact checker:
 * `str.strip()`, `str.split(sep)`, `str.split(sep, 1)`, `sep.join(parts)`
 * and `str.replace(old, "")`.
 */
module Text {

  datatype Option<T> = None | Some(value: T)

  /** Python's `str.isspace()` for one character; `strip()` and the regex class `\s` use the same table. */
  predicate IsSpace(c: char) {
    || c == ' '
    || ('\t' <= c <= '\r')
    || ('\U{1C}' <= c <= '\U{1F}')
    || c == '\U{85}' || c == '\U{A0}' || c == '\U{1680}'
    || ('\U{2000}' <= c <= '\U{200A}')
    || c == '\U{2028}' || c == '\U{2029}' || c == '\U{202F}' || c == '\U{205F}' || c == '\U{3000}'
  }

  predicate IsDigit(c: char) {
    '0' <= c <= '9'
  }

  /** True when `s` has no leading and no trailing whitespace. */
  predicate IsTrimmed(s: string) {
    s == [] || (!IsSpace(s[0]) && !IsSpace(s[|s| - 1]))
  }

  // ---------------------------------------------------------------------------
  // strip()
  // ---------------------------------------------------------------------------

  /** Drops leading whitespace. */
  function TrimStart(s: string): (r: string)
    ensures |r| <= |s|
  {
    if s != [] && IsSpace(s[0]) then TrimStart(s[1..]) else s
  }

  /** Drops trailing whitespace. */
  function TrimEnd(s: string): (r: string)
    ensures |r| <= |s|
  {
    if s != [] && IsSpace(s[|s| - 1]) then TrimEnd(s[..|s| - 1]) else s
  }

  /** Python's `s.strip()`. */
  function Strip(s: string): string {
    TrimEnd(TrimStart(s))
  }

  /** `TrimStart` keeps the suffix after the leading whitespace run, and that suffix starts with a non-space. */
  lemma {:induction false} TrimStartSpec(s: string)
    ensures |TrimStart(s)| <= |s| && TrimStart(s) == s[|s| - |TrimStart(s)|..]
    ensures forall k :: 0 <= k < |s| - |TrimStart(s)| ==> IsSpace(s[k])
    ensures TrimStart(s) == [] || !IsSpace(TrimStart(s)[0])
  {
    if s != [] && IsSpace(s[0]) {
      TrimStartSpec(s[1..]);
    }
  }

  /** `TrimEnd` keeps the prefix before the trailing whitespace run, and that prefix ends with a non-space. */
  lemma {:induction false} TrimEndSpec(s: string)
    ensures |TrimEnd(s)| <= |s| && TrimEnd(s) == s[..|TrimEnd(s)|]
    ensures forall k :: |TrimEnd(s)| <= k < |s| ==> IsSpace(s[k])
    ensures TrimEnd(s) == [] || !IsSpace(TrimEnd(s)[|TrimEnd(s)| - 1])
  {
    if s != [] && IsSpace(s[|s| - 1]) {
      TrimEndSpec(s[..|s| - 1]);
    }
  }

  /** Where `strip()` starts cutting: the length of the leading whitespace run. */
  function StripStart(s: string): nat {
    |s| - |TrimStart(s)|
  }

  /** `strip()` returns the contiguous, trimmed middle of `s`; everything cut off is whitespace. */
  lemma StripIsTrimmedInfix(s: string)
    ensures IsTrimmed(Strip(s))
    ensures StripStart(s) + |Strip(s)| <= |s|
    ensures Strip(s) == s[StripStart(s)..StripStart(s) + |Strip(s)|]
    ensures forall k :: 0 <= k < StripStart(s) ==> IsSpace(s[k])
    ensures forall k :: StripStart(s) + |Strip(s)| <= k < |s| ==> IsSpace(s[k])
  {
    StripIsInfix(s);
    StripIsTrimmed(s);
    StripCutsSpace(s);
  }

  lemma StripIsInfix(s: string)
    ensures StripStart(s) + |Strip(s)| <= |s|
    ensures Strip(s) == s[StripStart(s)..StripStart(s) + |Strip(s)|]
  {
    var t := TrimStart(s);
    TrimStartSpec(s);
    TrimEndSpec(t);
    var i := StripStart(s);
    assert t == s[i..];
    assert Strip(s) == t[..|Strip(s)|];
  }

  lemma StripIsTrimmed(s: string)
    ensures IsTrimmed(Strip(s))
  {
    var t := TrimStart(s);
    TrimStartSpec(s);
    TrimEndSpec(t);
    if Strip(s) != [] {
      assert Strip(s)[0] == t[0];
    }
  }

  lemma StripCutsSpace(s: string)
    ensures StripStart(s) + |Strip(s)| <= |s|
    ensures forall k :: 0 <= k < StripStart(s) ==> IsSpace(s[k])
    ensures forall k :: StripStart(s) + |Strip(s)| <= k < |s| ==> IsSpace(s[k])
  {
    var t := TrimStart(s);
    TrimStartSpec(s);
    TrimEndSpec(t);
    var i := StripStart(s);
    forall k | i + |Strip(s)| <= k < |s| ensures IsSpace(s[k]) {
      assert s[k] == t[k - i];
    }
  }

  /** A character of `strip(s)` is a character of `s`. */
  lemma StripChars(s: string, k: nat)
    requires k < |Strip(s)|
    ensures Strip(s)[k] in s
  {
    StripIsTrimmedInfix(s);
    assert Strip(s)[k] == s[StripStart(s) + k];
  }

  /** Trimming adds no character: one absent from `s` is absent from `strip(s)`. */
  lemma StripKeepsOut(s: string, c: char)
    requires c !in s
    ensures c !in Strip(s)
  {
    forall k | 0 <= k < |Strip(s)| ensures Strip(s)[k] != c {
      StripChars(s, k);
    }
  }

  /** A trimmed string is its own `strip()`. */
  lemma TrimmedStripsToItself(s: string)
    requires IsTrimmed(s)
    ensures Strip(s) == s
  {
  }

  /** `strip()` is idempotent. */
  lemma StripIdempotent(s: string)
    ensures Strip(Strip(s)) == Strip(s)
  {
    StripIsTrimmedInfix(s);
    TrimmedStripsToItself(Strip(s));
  }

  /** `strip()` yields the empty string exactly when every character is whitespace. */
  lemma StripEmptyIffAllSpace(s: string)
    ensures Strip(s) == [] <==> forall k :: 0 <= k < |s| ==> IsSpace(s[k])
  {
    StripIsTrimmedInfix(s);
    TrimStartSpec(s);
    var t := TrimStart(s);
    if !forall k :: 0 <= k < |s| ==> IsSpace(s[k]) {
      var k :| 0 <= k < |s| && !IsSpace(s[k]);
      assert t[k - (|s| - |t|)] == s[k];
      TrimEndSpec(t);
    }
  }

  /** Leading whitespace does not change what `strip()` returns. */
  lemma StripAfterSpace(c: char, s: string)
    requires IsSpace(c)
    ensures Strip([c] + s) == Strip(s)
  {
    assert ([c] + s)[1..] == s;
  }

  /** Trailing whitespace does not change what `strip()` returns. */
  lemma StripBeforeSpace(s: string, c: char)
    requires IsSpace(c)
    ensures Strip(s + [c]) == Strip(s)
  {
    var t := TrimStart(s);
    if t == [] {
      TrimStartSpec(s);
      StripEmptyIffAllSpace(s);
      StripEmptyIffAllSpace(s + [c]);
    } else {
      TrimStartKeepsTail(s, [c]);
      assert (t + [c])[..|t|] == t;
    }
  }

  /** When `s` has a non-space character, appending to `s` does not change where leading whitespace ends. */
  lemma {:induction false} TrimStartKeepsTail(s: string, u: string)
    requires TrimStart(s) != []
    ensures TrimStart(s + u) == TrimStart(s) + u
  {
    if IsSpace(s[0]) {
      assert (s + u)[1..] == s[1..] + u;
      TrimStartKeepsTail(s[1..], u);
    } else {
      assert (s + u)[0] == s[0];
    }
  }

  // ---------------------------------------------------------------------------
  // sep.join(parts)
  // ---------------------------------------------------------------------------

  /** Python's `sep.join(parts)`. */
  function Join(parts: seq<string>, sep: string): string {
    if |parts| == 0 then ""
    else if |parts| == 1 then parts[0]
    else parts[0] + sep + Join(parts[1..], sep)
  }

  // ---------------------------------------------------------------------------
  // find / split(sep) / split(sep, 1)
  // ---------------------------------------------------------------------------

  /** Position of the first `c` in `s`, or `|s|` when there is none. */
  function IndexOf(s: string, c: char): (r: nat)
    ensures r <= |s|
    ensures forall k :: 0 <= k < r ==> s[k] != c
    ensures r < |s| ==> s[r] == c
  {
    if s == [] then 0
    else if s[0] == c then 0
    else 1 + IndexOf(s[1..], c)
  }

  lemma IndexOfPrefix(a: string, c: char, b: string)
    requires c !in a
    ensures IndexOf(a + [c] + b, c) == |a|
  {
    var s := a + [c] + b;
    assert s[|a|] == c;
    assert forall k :: 0 <= k < |a| ==> s[k] == a[k];
  }

  /** Python's `s.split(c)` for a one-character separator. */
  function SplitOn(s: string, c: char): (r: seq<string>)
    ensures |r| >= 1
  {
    if s == [] then [""]
    else if s[0] == c then [""] + SplitOn(s[1..], c)
    else
      var rest := SplitOn(s[1..], c);
      [[s[0]] + rest[0]] + rest[1..]
  }

  /** No piece of `s.split(c)` holds the separator. */
  lemma {:induction false} SplitOnPieces(s: string, c: char)
    ensures forall i :: 0 <= i < |SplitOn(s, c)| ==> c !in SplitOn(s, c)[i]
  {
    if s != [] {
      SplitOnPieces(s[1..], c);
    }
  }

  /** The first piece of `s.split(c)` is the text before the first `c`. */
  lemma {:induction false} SplitOnFirst(s: string, c: char)
    ensures SplitOn(s, c)[0] == s[..IndexOf(s, c)]
  {
    if s != [] && s[0] != c {
      SplitOnFirst(s[1..], c);
    }
  }

  lemma {:induction false} SplitOnNoSeparator(s: string, c: char)
    requires c !in s
    ensures SplitOn(s, c) == [s]
  {
    if s != [] {
      assert c !in s[1..];
      SplitOnNoSeparator(s[1..], c);
      assert [s[0]] + s[1..] == s;
    }
  }

  /** Splitting distributes over a separator: `(a + c + b).split(c) == a.split(c) + b.split(c)`. */
  lemma {:induction false} SplitOnAppend(a: string, c: char, b: string)
    ensures SplitOn(a + [c] + b, c) == SplitOn(a, c) + SplitOn(b, c)
  {
    var s := a + [c] + b;
    if a == [] {
      assert s[1..] == b;
    } else {
      assert s[1..] == a[1..] + [c] + b;
      SplitOnAppend(a[1..], c, b);
    }
  }

  /** Joining the pieces of a split gives back the string. */
  lemma {:induction false} JoinSplitOn(s: string, c: char)
    ensures Join(SplitOn(s, c), [c]) == s
  {
    if s == [] {
    } else if s[0] == c {
      JoinSplitOn(s[1..], c);
    } else {
      var rest := SplitOn(s[1..], c);
      JoinSplitOn(s[1..], c);
      if |rest| == 1 {
      } else {
        assert Join(rest, [c]) == rest[0] + [c] + Join(rest[1..], [c]);
        assert ([[s[0]] + rest[0]] + rest[1..])[1..] == rest[1..];
      }
    }
  }

  /** Splitting a join recovers the pieces when no piece holds the separator. */
  lemma {:induction false} SplitOnJoin(parts: seq<string>, c: char)
    requires |parts| >= 1
    requires forall i :: 0 <= i < |parts| ==> c !in parts[i]
    ensures SplitOn(Join(parts, [c]), c) == parts
  {
    SplitOnNoSeparator(parts[0], c);
    if |parts| > 1 {
      SplitOnJoin(parts[1..], c);
      SplitOnAppend(parts[0], c, Join(parts[1..], [c]));
    }
  }

  /** Python's `s.split(c, 1)`: one piece when `c` is absent, otherwise the text before and after the first `c`. */
  function SplitOnce(s: string, c: char): (r: seq<string>)
    ensures |r| == 1 <==> c !in s
    ensures |r| == 1 || |r| == 2
    ensures c !in r[0]
    ensures |r| == 2 ==> s == r[0] + [c] + r[1]
  {
    var i := IndexOf(s, c);
    if i == |s| then [s]
    else
      assert s == s[..i] + [c] + s[i + 1..];
      [s[..i], s[i + 1..]]
  }

  /** `split(c, 1)` agrees with `split(c)`: the same first piece, then the rest re-joined. */
  lemma SplitOnceIsSplitOn(s: string, c: char)
    ensures SplitOnce(s, c)[0] == SplitOn(s, c)[0]
    ensures |SplitOnce(s, c)| == 2 ==> SplitOnce(s, c)[1] == Join(SplitOn(s, c)[1..], [c])
  {
    SplitOnFirst(s, c);
    var i := IndexOf(s, c);
    if i < |s| {
      SplitOnAtFirst(s, c);
      JoinSplitOn(s[i + 1..], c);
    }
  }

  /** Splitting at the first separator: the text before it, then the pieces of the text after it. */
  lemma {:induction false} SplitOnAtFirst(s: string, c: char)
    requires IndexOf(s, c) < |s|
    ensures SplitOn(s, c)[1..] == SplitOn(s[IndexOf(s, c) + 1..], c)
  {
    if s[0] != c {
      SplitOnAtFirst(s[1..], c);
      assert s[1..][IndexOf(s[1..], c) + 1..] == s[IndexOf(s, c) + 1..];
    }
  }

  // ---------------------------------------------------------------------------
  // replace(pat, "")
  // ---------------------------------------------------------------------------

  /** `pat` occurs in `s` starting at position `k`. */
  predicate OccursAt(s: string, pat: string, k: nat) {
    k + |pat| <= |s| && s[k..k + |pat|] == pat
  }

  ghost predicate Occurs(s: string, pat: string) {
    exists k: nat :: OccursAt(s, pat, k)
  }

  /**
   * Python's `s.replace(pat, "")`: one left-to-right pass that deletes every
   * non-overlapping occurrence of `pat`; it is not a prefix strip.
   */
  function RemoveAll(s: string, pat: string): (r: string)
    requires pat != []
    ensures |r| <= |s|
    decreases |s|
  {
    if |s| < |pat| then s
    else if s[..|pat|] == pat then RemoveAll(s[|pat|..], pat)
    else [s[0]] + RemoveAll(s[1..], pat)
  }

  /** `replace` only deletes: a character absent from `s` is absent from the result. */
  lemma {:induction false} RemoveAllKeepsOut(s: string, pat: string, c: char)
    requires pat != []
    requires c !in s
    ensures c !in RemoveAll(s, pat)
    decreases |s|
  {
    if |s| >= |pat| {
      if s[..|pat|] == pat {
        RemoveAllKeepsOut(s[|pat|..], pat, c);
      } else {
        RemoveAllKeepsOut(s[1..], pat, c);
      }
    }
  }

  /** With no occurrence of `pat`, `replace` leaves the string as it is. */
  lemma {:induction false} RemoveAllAbsent(s: string, pat: string)
    requires pat != []
    requires !Occurs(s, pat)
    ensures RemoveAll(s, pat) == s
    decreases |s|
  {
    if |s| >= |pat| {
      assert !OccursAt(s, pat, 0);
      assert !Occurs(s[1..], pat) by {
        forall k: nat | OccursAt(s[1..], pat, k) ensures false {
          assert s[1..][k..k + |pat|] == s[k + 1..k + 1 + |pat|];
          assert OccursAt(s, pat, k + 1);
        }
      }
      RemoveAllAbsent(s[1..], pat);
    }
  }

  lemma OccursAtShift(s: string, pat: string, k: nat)
    requires s != []
    ensures OccursAt(s[1..], pat, k) <==> OccursAt(s, pat, k + 1)
  {
    if k + |pat| <= |s| - 1 {
      assert s[1..][k..k + |pat|] == s[k + 1..k + 1 + |pat|];
    }
  }

  /** Where no occurrence starts, `replace` copies the first character and carries on. */
  lemma RemoveAllCopies(s: string, pat: string)
    requires pat != [] && s != [] && !OccursAt(s, pat, 0)
    ensures RemoveAll(s, pat) == [s[0]] + RemoveAll(s[1..], pat)
  {
    if |s| >= |pat| {
      assert s[..|pat|] != pat;
    }
  }

  /** A stretch in which no occurrence of `pat` starts is copied unchanged. */
  lemma {:induction false} RemoveAllAfterPlain(a: string, b: string, pat: string)
    requires pat != []
    requires forall k: nat :: k < |a| ==> !OccursAt(a + b, pat, k)
    ensures RemoveAll(a + b, pat) == a + RemoveAll(b, pat)
    decreases |a|
  {
    if a == [] {
      assert a + b == b;
    } else {
      var s := a + b;
      assert !OccursAt(s, pat, 0);
      RemoveAllCopies(s, pat);
      assert s[1..] == a[1..] + b;
      forall k: nat | k < |a[1..]| ensures !OccursAt(a[1..] + b, pat, k) {
        assert !OccursAt(s, pat, k + 1);
        OccursAtShift(s, pat, k);
      }
      RemoveAllAfterPlain(a[1..], b, pat);
      assert a == [a[0]] + a[1..];
      assert [s[0]] + (a[1..] + RemoveAll(b, pat)) == a + RemoveAll(b, pat);
    }
  }

  // ---------------------------------------------------------------------------
  // Sequences
  // ---------------------------------------------------------------------------

  /** Equal sequences stay equal with the same last element removed. */
  lemma SeqCancel<T>(a: seq<T>, b: seq<T>, x: T)
    requires a + [x] == b + [x]
    ensures a == b
  {
    assert a == (a + [x])[..|a|];
  }
}
