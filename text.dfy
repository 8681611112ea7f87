/** Literal scanning over strings: the fixed patterns of the sync script.

    Every pattern the script hands to PCRE has one of two shapes: a literal
    (`</table>`) or `L1.*?L2` under the `/s` flag (`.` matches every
    character, newlines included). For the second shape PCRE tries start
    positions from left to right, matches the literal `L1` there, then lets
    the lazy `.*?` grow one character at a time until `L2` matches; a start
    whose `L1` has no `L2` anywhere after it fails and the next start is
    tried. `FirstSpan` is that search written out, `ReplaceSpans` is the
    global `preg_replace` built on it, and a literal is the case `L2 == ""`.
 */
module Text {

  import opened Values

  /** `pat` occurs in `s` starting at index `i`. */
  predicate OccursAt(s: string, i: nat, pat: string) {
    i + |pat| <= |s| && s[i..i + |pat|] == pat
  }

  /** Leftmost index at or after `from` where `pat` occurs. */
  function Find(s: string, pat: string, from: nat): (r: Option<nat>)
    ensures r.Some? ==> from <= r.value && OccursAt(s, r.value, pat)
    ensures r.Some? ==> forall k: nat :: from <= k < r.value ==> !OccursAt(s, k, pat)
    ensures r.None? ==> forall k: nat :: from <= k ==> !OccursAt(s, k, pat)
    decreases |s| - from
  {
    if |s| < from + |pat| then None
    else if s[from..from + |pat|] == pat then Some(from)
    else Find(s, pat, from + 1)
  }

  /** No occurrence of `open` at or after `from` is followed, at or after its
      end, by an occurrence of `close`: the pattern `open.*?close` has no
      match in `s[from..]`. */
  ghost predicate NoSpan(s: string, open: string, close: string, from: nat) {
    forall k: nat, m: nat :: from <= k && OccursAt(s, k, open) && k + |open| <= m ==> !OccursAt(s, m, close)
  }

  /** The match PCRE finds for `open.*?close` (flag `/s`) when it scans `s`
      from index `from`: the pair (start, end) of the matched text, or None. */
  function FirstSpan(s: string, open: string, close: string, from: nat): (r: Option<(nat, nat)>)
    // leftmost: the match begins with `open` and no `open` begins earlier
    ensures r.Some? ==> from <= r.value.0 && OccursAt(s, r.value.0, open)
    ensures r.Some? ==> forall k: nat :: from <= k < r.value.0 ==> !OccursAt(s, k, open)
    // shortest: the match ends with `close` and contains no earlier `close`
    ensures r.Some? ==> r.value.0 + |open| + |close| <= r.value.1 <= |s|
    ensures r.Some? ==> OccursAt(s, r.value.1 - |close|, close)
    ensures r.Some? ==> forall k: nat :: r.value.0 + |open| <= k < r.value.1 - |close| ==> !OccursAt(s, k, close)
    // and there is no match exactly when none is found
    ensures r.None? <==> NoSpan(s, open, close, from)
  {
    match Find(s, open, from)
    case None => None
    case Some(i) =>
      match Find(s, close, i + |open|)
      case None => None
      case Some(j) => Some((i, j + |close|))
  }

  /** `preg_replace` of `open.*?close` by `rep` over `s[from..]`: every match
      found by a left-to-right scan is replaced, and scanning resumes right
      after the text it matched (the replacement is never rescanned). */
  function ReplaceSpans(s: string, open: string, close: string, rep: string, from: nat): string
    requires |open| > 0 && from <= |s|
    decreases |s| - from
  {
    match FirstSpan(s, open, close, from)
    case None => s[from..]
    case Some((i, e)) => s[from..i] + rep + ReplaceSpans(s, open, close, rep, e)
  }

  /** Index `p` lies inside text that `ReplaceSpans(s, open, close, _, from)`
      replaces. */
  ghost predicate Rewritten(s: string, open: string, close: string, from: nat, p: nat)
    requires |open| > 0 && from <= |s|
    decreases |s| - from
  {
    match FirstSpan(s, open, close, from)
    case None => false
    case Some((i, e)) => (i <= p < e) || Rewritten(s, open, close, e, p)
  }

  /** The leftmost-shortest properties determine the match: a span that has
      them is the one `FirstSpan` returns. */
  lemma FirstSpanIs(s: string, open: string, close: string, from: nat, i: nat, e: nat)
    requires from <= i && OccursAt(s, i, open)
    requires forall k: nat :: from <= k < i ==> !OccursAt(s, k, open)
    requires i + |open| + |close| <= e && OccursAt(s, e - |close|, close)
    requires forall k: nat :: i + |open| <= k < e - |close| ==> !OccursAt(s, k, close)
    ensures FirstSpan(s, open, close, from) == Some((i, e))
  {
    assert !NoSpan(s, open, close, from) by {
      assert OccursAt(s, i, open) && OccursAt(s, e - |close|, close);
    }
  }

  /** A literal holding a character the text lacks occurs nowhere in it. */
  lemma AbsentCharacter(s: string, pat: string, c: char)
    requires c in pat && c !in s
    ensures forall p: nat :: !OccursAt(s, p, pat)
  {
  }

  /** `preg_replace('/open.*?close/s', rep, s)`. */
  function ReplaceMatches(s: string, open: string, close: string, rep: string): string
    requires |open| > 0
  {
    ReplaceSpans(s, open, close, rep, 0)
  }

  /** `preg_replace('/open.*?close/s', '', s)`: the matches are cut out. */
  function DeleteMatches(s: string, open: string, close: string): string
    requires |open| > 0
  {
    ReplaceMatches(s, open, close, "")
  }

  /** Literal replacement of every non-overlapping occurrence of `pat`,
      leftmost first, as PHP's `str_replace` does (and as `preg_replace` does
      for a pattern without metacharacters): the regex case with an empty
      closing literal. */
  function ReplaceAll(s: string, pat: string, rep: string): string
    requires |pat| > 0
  {
    ReplaceMatches(s, pat, "", rep)
  }

  /** A pass over text without a match returns it unchanged. */
  lemma ReplaceWithoutMatch(s: string, open: string, close: string, rep: string)
    requires |open| > 0 && NoSpan(s, open, close, 0)
    ensures ReplaceMatches(s, open, close, rep) == s
  {
    ReplaceSpansStop(s, open, close, rep, 0);
  }

  /** Literal replacement changes nothing when the literal does not occur. */
  lemma ReplaceAllWithoutOccurrence(s: string, pat: string, rep: string)
    requires |pat| > 0 && forall p: nat :: !OccursAt(s, p, pat)
    ensures ReplaceAll(s, pat, rep) == s
  {
    ReplaceWithoutMatch(s, pat, "", rep);
  }

  /** A deletion pass keeps the text outside the matches, in order. */
  lemma DeletionKeepsOrder(s: string, open: string, close: string)
    requires |open| > 0
    ensures IsSubsequence(DeleteMatches(s, open, close), s)
  {
    DeleteKeepsOrder(s, open, close, 0);
    assert s[0..] == s;
  }

  /** A deletion pass changes the text exactly when there is a match. */
  lemma DeletionChangesIffMatch(s: string, open: string, close: string)
    requires |open| > 0
    ensures DeleteMatches(s, open, close) == s <==> NoSpan(s, open, close, 0)
  {
    DeleteShrinks(s, open, close, 0);
    if NoSpan(s, open, close, 0) {
      ReplaceWithoutMatch(s, open, close, "");
    }
  }

  /** Every match present in the input lies in text the pass replaces, so
      none survives in place (a new one may still form across a cut). */
  lemma AllMatchesRewritten(s: string, open: string, close: string)
    requires |open| > 0
    ensures forall p: nat, m: nat :: OccursAt(s, p, open) && p + |open| <= m && OccursAt(s, m, close) ==> Rewritten(s, open, close, 0, p)
  {
    forall p: nat, m: nat | OccursAt(s, p, open) && p + |open| <= m && OccursAt(s, m, close)
      ensures Rewritten(s, open, close, 0, p)
    {
      EveryMatchRewritten(s, open, close, 0, p, m);
    }
  }

  /** Every occurrence of the literal lies in text the pass replaces. */
  lemma AllOccurrencesRewritten(s: string, pat: string)
    requires |pat| > 0
    ensures forall p: nat :: OccursAt(s, p, pat) ==> Rewritten(s, pat, "", 0, p)
  {
    forall p: nat | OccursAt(s, p, pat)
      ensures Rewritten(s, pat, "", 0, p)
    {
      EveryMatchRewritten(s, pat, "", 0, p, p + |pat|);
    }
  }

  /** One step of the scan: a match found at (i, e) is replaced and the scan
      resumes at e. */
  lemma ReplaceSpansStep(s: string, open: string, close: string, rep: string, from: nat, i: nat, e: nat)
    requires |open| > 0 && from <= |s|
    requires FirstSpan(s, open, close, from) == Some((i, e))
    ensures ReplaceSpans(s, open, close, rep, from) == s[from..i] + rep + ReplaceSpans(s, open, close, rep, e)
  {
  }

  /** The last step of the scan: with no match left the rest is copied. */
  lemma ReplaceSpansStop(s: string, open: string, close: string, rep: string, from: nat)
    requires |open| > 0 && from <= |s|
    requires FirstSpan(s, open, close, from) == None
    ensures ReplaceSpans(s, open, close, rep, from) == s[from..]
  {
  }

  /** Completeness of one pass: every match of `open.*?close` present in the
      input (an `open` at `p` with a `close` at `m` after it) lies, at least
      where it starts, inside text the pass replaces. */
  lemma {:induction false} EveryMatchRewritten(s: string, open: string, close: string, from: nat, p: nat, m: nat)
    requires |open| > 0 && from <= |s|
    requires from <= p && OccursAt(s, p, open)
    requires p + |open| <= m && OccursAt(s, m, close)
    ensures Rewritten(s, open, close, from, p)
    decreases |s| - from
  {
    match FirstSpan(s, open, close, from)
    case None =>
      assert false;
    case Some((i, e)) =>
      if e <= p {
        EveryMatchRewritten(s, open, close, e, p, m);
      }
  }

  /** A match found means deleting it changes the text: a deletion pass is the
      identity exactly when there is nothing to delete. */
  lemma {:induction false} DeleteShrinks(s: string, open: string, close: string, from: nat)
    requires |open| > 0 && from <= |s|
    ensures |ReplaceSpans(s, open, close, "", from)| <= |s| - from
    ensures !NoSpan(s, open, close, from) ==> |ReplaceSpans(s, open, close, "", from)| < |s| - from
    decreases |s| - from
  {
    match FirstSpan(s, open, close, from)
    case None =>
    case Some((i, e)) =>
      DeleteShrinks(s, open, close, e);
  }

  /** `a` is `b` with some characters removed, the rest kept in order. */
  ghost predicate IsSubsequence(a: string, b: string)
    decreases |b|
  {
    if a == [] then true
    else if b == [] then false
    else if a[|a| - 1] == b[|b| - 1] then IsSubsequence(a[..|a| - 1], b[..|b| - 1])
    else IsSubsequence(a, b[..|b| - 1])
  }

  lemma {:induction false} SubsequenceOfItself(a: string)
    ensures IsSubsequence(a, a)
    decreases |a|
  {
    if a != [] {
      SubsequenceOfItself(a[..|a| - 1]);
    }
  }

  lemma {:induction false} SubsequenceExtendRight(a: string, b: string, x: char)
    requires IsSubsequence(a, b)
    ensures IsSubsequence(a, b + [x])
    decreases |b| + 1, 0
  {
    assert (b + [x])[..|b|] == b;
    if a != [] && a[|a| - 1] == x {
      SubsequenceDropLast(a, b);
    }
  }

  lemma {:induction false} SubsequenceDropLast(a: string, b: string)
    requires a != [] && IsSubsequence(a, b)
    ensures IsSubsequence(a[..|a| - 1], b)
    decreases |b|, 1
  {
    assert b != [];
    assert b[..|b| - 1] + [b[|b| - 1]] == b;
    if a[|a| - 1] == b[|b| - 1] {
      SubsequenceExtendRight(a[..|a| - 1], b[..|b| - 1], b[|b| - 1]);
    } else {
      SubsequenceDropLast(a, b[..|b| - 1]);
      SubsequenceExtendRight(a[..|a| - 1], b[..|b| - 1], b[|b| - 1]);
    }
  }

  lemma {:induction false} SubsequenceAppend(a: string, b: string, d: string)
    requires IsSubsequence(a, b)
    ensures IsSubsequence(a, b + d)
    decreases |d|
  {
    if d == [] {
      assert b + d == b;
    } else {
      SubsequenceAppend(a, b, d[..|d| - 1]);
      SubsequenceExtendRight(a, b + d[..|d| - 1], d[|d| - 1]);
      assert b + d[..|d| - 1] + [d[|d| - 1]] == b + d;
    }
  }

  lemma {:induction false} SubsequencePrepend(a: string, b: string, c: string)
    requires IsSubsequence(a, b)
    ensures IsSubsequence(a, c + b)
    decreases |b|
  {
    if a != [] {
      assert b != [];
      assert (c + b)[..|c + b| - 1] == c + b[..|b| - 1];
      if a[|a| - 1] == b[|b| - 1] {
        SubsequencePrepend(a[..|a| - 1], b[..|b| - 1], c);
      } else {
        SubsequencePrepend(a, b[..|b| - 1], c);
      }
    }
  }

  lemma {:induction false} SubsequenceOfConcat(a: string, b: string, c: string, d: string)
    requires IsSubsequence(a, b) && IsSubsequence(c, d)
    ensures IsSubsequence(a + c, b + d)
    decreases |d|
  {
    if c == [] {
      assert a + c == a;
      SubsequenceAppend(a, b, d);
    } else {
      assert d != [];
      assert (a + c)[..|a + c| - 1] == a + c[..|c| - 1];
      assert (b + d)[..|b + d| - 1] == b + d[..|d| - 1];
      if c[|c| - 1] == d[|d| - 1] {
        SubsequenceOfConcat(a, b, c[..|c| - 1], d[..|d| - 1]);
      } else {
        SubsequenceOfConcat(a, b, c, d[..|d| - 1]);
      }
    }
  }

  /** A deletion pass keeps the text outside the removed spans, in order. */
  lemma {:induction false} DeleteKeepsOrder(s: string, open: string, close: string, from: nat)
    requires |open| > 0 && from <= |s|
    ensures IsSubsequence(ReplaceSpans(s, open, close, "", from), s[from..])
    decreases |s| - from
  {
    match FirstSpan(s, open, close, from)
    case None =>
      SubsequenceOfItself(s[from..]);
    case Some((i, e)) =>
      DeleteKeepsOrder(s, open, close, e);
      SkipSpan(s, from, i, e, ReplaceSpans(s, open, close, "", e));
      assert ReplaceSpans(s, open, close, "", from) == s[from..i] + "" + ReplaceSpans(s, open, close, "", e);
  }

  /** Keeping `s[from..i]`, dropping `s[i..e]` and keeping a subsequence of
      `s[e..]` gives a subsequence of `s[from..]`. */
  lemma SkipSpan(s: string, from: nat, i: nat, e: nat, rest: string)
    requires from <= i <= e <= |s|
    requires IsSubsequence(rest, s[e..])
    ensures IsSubsequence(s[from..i] + "" + rest, s[from..])
  {
    SubsequenceOfItself(s[from..i]);
    SubsequencePrepend(rest, s[e..], s[i..e]);
    assert s[i..e] + s[e..] == s[i..];
    SubsequenceOfConcat(s[from..i], s[from..i], rest, s[i..]);
    assert s[from..i] + s[i..] == s[from..];
    assert s[from..i] + "" + rest == s[from..i] + rest;
  }

  /** Replacing a literal by itself gives back the input: literal replacement
      changes only the occurrences it finds, and nothing in between. */
  lemma ReplaceAllBySelf(s: string, pat: string)
    requires |pat| > 0
    ensures ReplaceAll(s, pat, pat) == s
  {
    ReplaceBySelf(s, pat, 0);
  }

  lemma {:induction false} ReplaceBySelf(s: string, pat: string, from: nat)
    requires |pat| > 0 && from <= |s|
    ensures ReplaceSpans(s, pat, "", pat, from) == s[from..]
    decreases |s| - from
  {
    match FirstSpan(s, pat, "", from)
    case None =>
    case Some((i, e)) =>
      assert OccursAt(s, i + |pat|, "");
      assert e == i + |pat|;
      ReplaceBySelf(s, pat, e);
      assert s[from..] == s[from..i] + s[i..e] + s[e..];
  }

  /** The texts a left-to-right scan from `from` matches, in order. */
  function Matched(s: string, open: string, close: string, from: nat): seq<string>
    requires |open| > 0 && from <= |s|
    decreases |s| - from
  {
    match FirstSpan(s, open, close, from)
    case None => []
    case Some((i, e)) => [s[i..e]] + Matched(s, open, close, e)
  }

  /** The texts the scan leaves between its matches, one more than the
      matches. */
  function Gaps(s: string, open: string, close: string, from: nat): seq<string>
    requires |open| > 0 && from <= |s|
    decreases |s| - from
  {
    match FirstSpan(s, open, close, from)
    case None => [s[from..]]
    case Some((i, e)) => [s[from..i]] + Gaps(s, open, close, e)
  }

  /** `gaps[0] + fills[0] + gaps[1] + ... + fills[n-1] + gaps[n]`. */
  function Weave(gaps: seq<string>, fills: seq<string>): string
    requires |gaps| == |fills| + 1
    decreases |fills|
  {
    if fills == [] then gaps[0] else gaps[0] + fills[0] + Weave(gaps[1..], fills[1..])
  }

  /** `n` copies of `t`. */
  function Copies(t: string, n: nat): (r: seq<string>)
    ensures |r| == n && forall k :: 0 <= k < n ==> r[k] == t
  {
    if n == 0 then [] else [t] + Copies(t, n - 1)
  }

  /** There is one more gap than there are matches. */
  lemma {:induction false} GapsAroundMatches(s: string, open: string, close: string, from: nat)
    requires |open| > 0 && from <= |s|
    ensures |Gaps(s, open, close, from)| == |Matched(s, open, close, from)| + 1
    decreases |s| - from
  {
    match FirstSpan(s, open, close, from)
    case None =>
    case Some((i, e)) =>
      GapsAroundMatches(s, open, close, e);
  }

  /** The scan cuts `s[from..]` into gaps and matches: weaving the gaps with
      the matched texts gives the text back. */
  lemma {:induction false} SplitAtMatches(s: string, open: string, close: string, from: nat)
    requires |open| > 0 && from <= |s|
    ensures |Gaps(s, open, close, from)| == |Matched(s, open, close, from)| + 1
    ensures s[from..] == Weave(Gaps(s, open, close, from), Matched(s, open, close, from))
    decreases |s| - from
  {
    GapsAroundMatches(s, open, close, from);
    match FirstSpan(s, open, close, from)
    case None =>
    case Some((i, e)) =>
      SplitAtMatches(s, open, close, e);
      var gaps, matched := Gaps(s, open, close, from), Matched(s, open, close, from);
      assert gaps[1..] == Gaps(s, open, close, e);
      assert matched[1..] == Matched(s, open, close, e);
      assert s[from..] == s[from..i] + s[i..e] + s[e..];
  }

  /** `t` begins with `open` and ends with `close`, which do not overlap. */
  predicate Framed(t: string, open: string, close: string) {
    |open| + |close| <= |t| && t[..|open|] == open && t[|t| - |close|..] == close
  }

  /** Each matched text begins with `open` and ends with `close`. */
  lemma {:induction false} MatchesFramed(s: string, open: string, close: string, from: nat)
    requires |open| > 0 && from <= |s|
    ensures forall t :: t in Matched(s, open, close, from) ==> Framed(t, open, close)
    decreases |s| - from
  {
    match FirstSpan(s, open, close, from)
    case None =>
    case Some((i, e)) =>
      MatchesFramed(s, open, close, e);
      SpanFramed(s, open, close, i, e);
      assert Matched(s, open, close, from) == [s[i..e]] + Matched(s, open, close, e);
  }

  /** The text of one span begins with `open` and ends with `close`. */
  lemma SpanFramed(s: string, open: string, close: string, i: nat, e: nat)
    requires i + |open| + |close| <= e <= |s|
    requires OccursAt(s, i, open) && OccursAt(s, e - |close|, close)
    ensures Framed(s[i..e], open, close)
  {
    var t := s[i..e];
    assert t[..|open|] == s[i..i + |open|];
    assert t[|t| - |close|..] == s[e - |close|..e];
  }

  /** With an empty closing literal each match is one occurrence of `open`. */
  lemma {:induction false} LiteralMatches(s: string, pat: string, from: nat)
    requires |pat| > 0 && from <= |s|
    ensures forall t :: t in Matched(s, pat, "", from) ==> t == pat
    decreases |s| - from
  {
    match FirstSpan(s, pat, "", from)
    case None =>
    case Some((i, e)) =>
      LiteralMatches(s, pat, e);
      assert OccursAt(s, i + |pat|, "");
      assert e == i + |pat|;
  }

  /** A pass puts exactly one copy of `rep` in place of each match and keeps
      the gaps: it inserts as many copies as there are matches. */
  lemma {:induction false} ReplaceEachMatch(s: string, open: string, close: string, rep: string, from: nat)
    requires |open| > 0 && from <= |s|
    ensures |Gaps(s, open, close, from)| == |Matched(s, open, close, from)| + 1
    ensures ReplaceSpans(s, open, close, rep, from)
      == Weave(Gaps(s, open, close, from), Copies(rep, |Matched(s, open, close, from)|))
    decreases |s| - from
  {
    GapsAroundMatches(s, open, close, from);
    match FirstSpan(s, open, close, from)
    case None =>
    case Some((i, e)) =>
      ReplaceEachMatch(s, open, close, rep, e);
      var n := |Matched(s, open, close, from)|;
      assert Copies(rep, n)[1..] == Copies(rep, n - 1);
      assert Gaps(s, open, close, from)[1..] == Gaps(s, open, close, e);
  }

  /** Literal replacement: the text is its gaps woven with occurrences of
      `pat`, and the result is the same gaps woven with as many copies of
      `rep`. */
  lemma LiteralReplaced(s: string, pat: string, rep: string)
    requires |pat| > 0
    ensures var gaps, n := Gaps(s, pat, "", 0), |Matched(s, pat, "", 0)|;
      && |gaps| == n + 1
      && s == Weave(gaps, Copies(pat, n))
      && ReplaceAll(s, pat, rep) == Weave(gaps, Copies(rep, n))
  {
    SplitAtMatches(s, pat, "", 0);
    LiteralMatches(s, pat, 0);
    ReplaceEachMatch(s, pat, "", rep, 0);
    assert s[0..] == s;
    var matched := Matched(s, pat, "", 0);
    assert forall k :: 0 <= k < |matched| ==> matched[k] in matched;
    assert matched == Copies(pat, |matched|);
  }
}
