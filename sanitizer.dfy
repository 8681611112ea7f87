/** `cleanContent`: five fixed `preg_replace` passes, then one literal
    `str_replace` per entry of the image alias map. */
module Sanitizer {

  import opened Values
  import opened Text
  import opened Images

  const ScriptOpen := "<script"
  const ScriptClose := "</script>"
  const StyleOpen := "<style"
  const StyleClose := "</style>"
  const MacroOpen := "<div class=\"conf-macro"
  const DivClose := "</div>"
  const TableOpen := "<table"
  const TagEnd := ">"
  const TableWrapOpen := "<div class=\"table\"><table>"
  const TableClose := "</table>"
  const TableWrapClose := "</table></div>"

  /** The five regex passes, in the order the script runs them: scripts,
      styles and macro `<div>`s are cut out, every `<table...>` opening tag
      becomes a bare `<table>` inside a wrapper `<div>`, and every `</table>`
      closes that wrapper. */
  function Sanitize(content: string): string {
    var noScripts := DeleteMatches(content, ScriptOpen, ScriptClose);
    var noStyles := DeleteMatches(noScripts, StyleOpen, StyleClose);
    var noMacros := DeleteMatches(noStyles, MacroOpen, DivClose);
    var opensWrapped := ReplaceMatches(noMacros, TableOpen, TagEnd, TableWrapOpen);
    ReplaceAll(opensWrapped, TableClose, TableWrapClose)
  }

  /** The attribute that carries an image's alias in the page markup. */
  function AliasAttribute(alias: string): string {
    "data-linked-resource-default-alias=\"" + alias + "\""
  }

  /** The attribute that replaces it: the image's URL on the publishing side. */
  function SrcAttribute(url: string): string {
    "src=\"" + url + "\""
  }

  /** The image loop of `cleanContent` as a left fold over the map in
      iteration order: the entry met last is replaced last. */
  function RewriteImages(s: string, images: ImageMap): string
    decreases |images|
  {
    if images == [] then s
    else
      var last := images[|images| - 1];
      ReplaceAll(RewriteImages(s, images[..|images| - 1]), AliasAttribute(last.alias), SrcAttribute(last.url))
  }

  /** `cleanContent($content, $wpImageData)`. */
  method CleanContent(content: string, images: ImageMap) returns (r: string)
    ensures r == RewriteImages(Sanitize(content), images)
  {
    r := DeleteMatches(content, ScriptOpen, ScriptClose);
    r := DeleteMatches(r, StyleOpen, StyleClose);
    r := DeleteMatches(r, MacroOpen, DivClose);
    r := ReplaceMatches(r, TableOpen, TagEnd, TableWrapOpen);
    r := ReplaceAll(r, TableClose, TableWrapClose);
    for k := 0 to |images|
      invariant r == RewriteImages(Sanitize(content), images[..k])
    {
      assert images[..k + 1][..k] == images[..k];
      r := ReplaceAll(r, AliasAttribute(images[k].alias), SrcAttribute(images[k].url));
    }
    assert images[..|images|] == images;
  }

  /** The loop only ever replaces alias attributes of mapped aliases: when
      none of them occurs, the content comes out unchanged (in particular
      for an empty map). */
  lemma {:induction false} RewriteWithoutAliases(s: string, images: ImageMap)
    requires forall e, p: nat :: e in images ==> !OccursAt(s, p, AliasAttribute(e.alias))
    ensures RewriteImages(s, images) == s
    decreases |images|
  {
    if images != [] {
      var last := images[|images| - 1];
      RewriteWithoutAliases(s, images[..|images| - 1]);
      assert last in images;
      ReplaceAllWithoutOccurrence(s, AliasAttribute(last.alias), SrcAttribute(last.url));
    }
  }

  /** The opening-tag pass: the input is its gaps woven with the `<table...>`
      tags the scan finds (from `<table` to the next `>`), and the pass puts
      one bare `<table>` inside a wrapper `<div>` in place of each, attributes
      dropped, so it inserts exactly as many wrappers as it matched tags. */
  lemma TableOpensWrapped(s: string)
    ensures var gaps, opens := Gaps(s, TableOpen, TagEnd, 0), Matched(s, TableOpen, TagEnd, 0);
      && |gaps| == |opens| + 1
      && s == Weave(gaps, opens)
      && (forall t :: t in opens ==> Framed(t, TableOpen, TagEnd))
      && ReplaceMatches(s, TableOpen, TagEnd, TableWrapOpen) == Weave(gaps, Copies(TableWrapOpen, |opens|))
  {
    SplitAtMatches(s, TableOpen, TagEnd, 0);
    MatchesFramed(s, TableOpen, TagEnd, 0);
    ReplaceEachMatch(s, TableOpen, TagEnd, TableWrapOpen, 0);
    assert s[0..] == s;
  }

  /** The closing-tag pass: each `</table>` becomes one `</table></div>`,
      closing one wrapper, and the text between them is kept. */
  lemma TableClosesWrapped(s: string)
    ensures var gaps, n := Gaps(s, TableClose, "", 0), |Matched(s, TableClose, "", 0)|;
      && |gaps| == n + 1
      && s == Weave(gaps, Copies(TableClose, n))
      && ReplaceAll(s, TableClose, TableWrapClose) == Weave(gaps, Copies(TableWrapClose, n))
  {
    LiteralReplaced(s, TableClose, TableWrapClose);
  }

  /** One turn of the image loop: every occurrence of the entry's alias
      attribute in the text so far becomes its `src` attribute, and the text
      between occurrences is kept. */
  lemma ImageEntryRewritten(s: string, images: ImageMap)
    requires images != []
    ensures var prev, entry := RewriteImages(s, images[..|images| - 1]), images[|images| - 1];
      var gaps, n := Gaps(prev, AliasAttribute(entry.alias), "", 0), |Matched(prev, AliasAttribute(entry.alias), "", 0)|;
      && |gaps| == n + 1
      && prev == Weave(gaps, Copies(AliasAttribute(entry.alias), n))
      && RewriteImages(s, images) == Weave(gaps, Copies(SrcAttribute(entry.url), n))
  {
    var prev, entry := RewriteImages(s, images[..|images| - 1]), images[|images| - 1];
    LiteralReplaced(prev, AliasAttribute(entry.alias), SrcAttribute(entry.url));
  }

  /** Text with none of the five markers passes the regex passes unchanged. */
  lemma SanitizePlainText(content: string)
    requires forall p: nat :: !OccursAt(content, p, ScriptOpen)
    requires forall p: nat :: !OccursAt(content, p, StyleOpen)
    requires forall p: nat :: !OccursAt(content, p, MacroOpen)
    requires forall p: nat :: !OccursAt(content, p, TableOpen)
    requires forall p: nat :: !OccursAt(content, p, TableClose)
    ensures Sanitize(content) == content
  {
    ReplaceWithoutMatch(content, ScriptOpen, ScriptClose, "");
    ReplaceWithoutMatch(content, StyleOpen, StyleClose, "");
    ReplaceWithoutMatch(content, MacroOpen, DivClose, "");
    ReplaceWithoutMatch(content, TableOpen, TagEnd, TableWrapOpen);
    ReplaceAllWithoutOccurrence(content, TableClose, TableWrapClose);
  }

  /** The regex passes are one pass each, not repeated until nothing
      matches: cutting out a script block can join two pieces into a new one.
      `<scr<script></script>ipt></script>` comes out of the script pass as
      `<script></script>`. */
  lemma ScriptPassCanLeaveScriptBlock()
    ensures DeleteMatches(SplitScript, ScriptOpen, ScriptClose) == ScriptOpen + TagEnd + ScriptClose
    ensures !NoSpan(ScriptOpen + TagEnd + ScriptClose, ScriptOpen, ScriptClose, 0)
  {
    SplitScriptFirstMatch();
    SplitScriptNoMoreMatches();
    ReplaceSpansStep(SplitScript, ScriptOpen, ScriptClose, "", 0, 4, 21);
    ReplaceSpansStop(SplitScript, ScriptOpen, ScriptClose, "", 21);
    SplitScriptKept();
    JoinedScriptBlock();
  }

  const ScriptHead := "<scr"
  const ScriptTail := "ipt>"
  /** `<scr<script></script>ipt></script>`. */
  const SplitScript := ScriptHead + ScriptOpen + TagEnd + ScriptClose + ScriptTail + ScriptClose

  /** `pat` occurs in `a + pat + b` right after `a`. */
  lemma OccursBetween(a: string, pat: string, b: string)
    ensures OccursAt(a + pat + b, |a|, pat)
  {
    assert (a + pat + b)[|a|..|a| + |pat|] == pat;
  }

  /** One differing character rules an occurrence out. */
  lemma Mismatch(s: string, k: nat, pat: string, j: nat)
    requires j < |pat| && k + j < |s| && s[k + j] != pat[j]
    ensures !OccursAt(s, k, pat)
  {
    if k + |pat| <= |s| {
      assert s[k..k + |pat|][j] == s[k + j];
    }
  }

  /** `SplitScript` regrouped around its first `<script`, its first
      `</script>` and the text after that. */
  lemma SplitScriptParts()
    ensures SplitScript == ScriptHead + ScriptOpen + (TagEnd + ScriptClose + ScriptTail + ScriptClose)
    ensures SplitScript == ScriptHead + ScriptOpen + TagEnd + ScriptClose + (ScriptTail + ScriptClose)
    ensures SplitScript == (ScriptHead + ScriptOpen + TagEnd) + ScriptClose + (ScriptTail + ScriptClose)
  {
    var h, o, t, c, p := ScriptHead, ScriptOpen, TagEnd, ScriptClose, ScriptTail;
    Regroup(h + o, t + c, p, c);
    Regroup(h + o + t + c, [], p, c);
    Regroup(h + o + t, c, p, c);
  }

  lemma Regroup(a: string, b: string, c: string, d: string)
    ensures a + b + c + d == a + (b + c + d)
    ensures a + b + (c + d) == a + b + c + d
  {
  }

  lemma SplitScriptFirstMatch()
    ensures FirstSpan(SplitScript, ScriptOpen, ScriptClose, 0) == Some((4, 21))
  {
    SplitScriptOpens();
    SplitScriptCloses();
    FirstSpanIs(SplitScript, ScriptOpen, ScriptClose, 0, 4, 21);
  }

  /** The first `<script` of `SplitScript` is at index 4. */
  lemma SplitScriptOpens()
    ensures OccursAt(SplitScript, 4, ScriptOpen)
    ensures forall k: nat :: k < 4 ==> !OccursAt(SplitScript, k, ScriptOpen)
  {
    var s, h, o := SplitScript, ScriptHead, ScriptOpen;
    SplitScriptParts();
    OccursBetween(h, o, TagEnd + ScriptClose + ScriptTail + ScriptClose);
    assert s[1] == h[1] && s[2] == h[2] && s[3] == h[3] && s[4] == o[0];
    Mismatch(s, 0, o, 4);
    Mismatch(s, 1, o, 0);
    Mismatch(s, 2, o, 0);
    Mismatch(s, 3, o, 0);
  }

  /** The first `</script>` after it is at index 12, right after `>`. */
  lemma SplitScriptCloses()
    ensures OccursAt(SplitScript, 12, ScriptClose) && !OccursAt(SplitScript, 11, ScriptClose)
  {
    var s, c := SplitScript, ScriptClose;
    SplitScriptParts();
    OccursBetween(ScriptHead + ScriptOpen + TagEnd, c, ScriptTail + c);
    assert |ScriptHead + ScriptOpen + TagEnd| == 12;
    assert s[11] == TagEnd[0];
    Mismatch(s, 11, c, 0);
  }

  lemma SplitScriptNoMoreMatches()
    ensures FirstSpan(SplitScript, ScriptOpen, ScriptClose, 21) == None
  {
    var s, o, c := SplitScript, ScriptOpen, ScriptClose;
    SplitScriptParts();
    assert s[21..] == ScriptTail + c;
    NoOpenInTail();
    forall k: nat | 21 <= k
      ensures !OccursAt(s, k, o)
    {
      SuffixOccurrence(s, 21, k, o);
    }
    assert NoSpan(s, o, c, 21);
  }

  /** `ipt></script>` holds no `<script`. */
  lemma NoOpenInTail()
    ensures forall k: nat :: !OccursAt(ScriptTail + ScriptClose, k, ScriptOpen)
  {
    var r, o := ScriptTail + ScriptClose, ScriptOpen;
    forall k: nat
      ensures !OccursAt(r, k, o)
    {
      if k == 0 {
        Mismatch(r, 0, o, 0);
      } else if k == 1 {
        Mismatch(r, 1, o, 0);
      } else if k == 2 {
        Mismatch(r, 2, o, 0);
      } else if k == 3 {
        Mismatch(r, 3, o, 0);
      } else if k == 4 {
        Mismatch(r, 4, o, 1);
      } else if k == 5 {
        Mismatch(r, 5, o, 0);
      } else if k == 6 {
        Mismatch(r, 6, o, 0);
      }
    }
  }

  /** An occurrence at or after `a` is an occurrence in `s[a..]`. */
  lemma SuffixOccurrence(s: string, a: nat, k: nat, pat: string)
    requires a <= k && a <= |s|
    ensures OccursAt(s, k, pat) ==> OccursAt(s[a..], k - a, pat)
  {
    if OccursAt(s, k, pat) {
      assert s[a..][k - a..k - a + |pat|] == s[k..k + |pat|];
    }
  }

  lemma SplitScriptKept()
    ensures SplitScript[..4] + "" + SplitScript[21..] == ScriptOpen + TagEnd + ScriptClose
  {
    var s := SplitScript;
    SplitScriptParts();
    assert s[..4] == ScriptHead;
    assert s[21..] == ScriptTail + ScriptClose;
    assert ScriptHead + ScriptTail == ScriptOpen + TagEnd;
  }

  lemma JoinedScriptBlock()
    ensures !NoSpan(ScriptOpen + TagEnd + ScriptClose, ScriptOpen, ScriptClose, 0)
  {
    OccursBetween([], ScriptOpen, TagEnd + ScriptClose);
    OccursBetween(ScriptOpen + TagEnd, ScriptClose, []);
    assert [] + ScriptOpen + (TagEnd + ScriptClose) == ScriptOpen + TagEnd + ScriptClose;
    assert ScriptOpen + TagEnd + ScriptClose + [] == ScriptOpen + TagEnd + ScriptClose;
  }

  /** Cleaning is not idempotent, as the table wrapping wraps again: a bare
      `<table>` is cleaned to `<div class="table"><table>`, and cleaning that
      once more adds a second wrapper. */
  lemma SanitizeNotIdempotent()
    ensures Sanitize("<table>") == TableWrapOpen
    ensures Sanitize(TableWrapOpen) != TableWrapOpen
  {
    SanitizeBareTable();
    SanitizeWrappedTable();
  }

  /** The deletion passes leave `s` alone, and it holds no `</table>`. */
  lemma NoDeletionMarkers(s: string)
    requires 'r' !in s && 'y' !in s && 'o' !in s && '/' !in s
    ensures DeleteMatches(s, ScriptOpen, ScriptClose) == s
    ensures DeleteMatches(s, StyleOpen, StyleClose) == s
    ensures DeleteMatches(s, MacroOpen, DivClose) == s
    ensures forall p: nat :: !OccursAt(s, p, TableClose)
  {
    AbsentCharacter(s, ScriptOpen, 'r');
    AbsentCharacter(s, StyleOpen, 'y');
    AbsentCharacter(s, MacroOpen, 'o');
    AbsentCharacter(s, TableClose, '/');
    DeletionChangesIffMatch(s, ScriptOpen, ScriptClose);
    DeletionChangesIffMatch(s, StyleOpen, StyleClose);
    DeletionChangesIffMatch(s, MacroOpen, DivClose);
  }

  lemma SanitizeBareTable()
    ensures Sanitize("<table>") == TableWrapOpen
  {
    BareTableHasNoMarkers();
    BareTableWrapped();
    WrapperHasNoTableClose();
    SanitizeWhenOnlyTableOpens("<table>", TableWrapOpen);
  }

  lemma WrapperHasNoTableClose()
    ensures forall p: nat :: !OccursAt(TableWrapOpen, p, TableClose)
  {
    AbsentCharacter(TableWrapOpen, TableClose, '/');
  }

  lemma BareTableHasNoMarkers()
    ensures DeleteMatches("<table>", ScriptOpen, ScriptClose) == "<table>"
    ensures DeleteMatches("<table>", StyleOpen, StyleClose) == "<table>"
    ensures DeleteMatches("<table>", MacroOpen, DivClose) == "<table>"
  {
    NoDeletionMarkers("<table>");
  }

  /** When the deletion passes and the `</table>` pass have nothing to do,
      cleaning is the opening-tag pass alone. */
  lemma SanitizeWhenOnlyTableOpens(s: string, t: string)
    requires DeleteMatches(s, ScriptOpen, ScriptClose) == s
    requires DeleteMatches(s, StyleOpen, StyleClose) == s
    requires DeleteMatches(s, MacroOpen, DivClose) == s
    requires ReplaceMatches(s, TableOpen, TagEnd, TableWrapOpen) == t
    requires forall p: nat :: !OccursAt(t, p, TableClose)
    ensures Sanitize(s) == t
  {
    ReplaceAllWithoutOccurrence(t, TableClose, TableWrapClose);
  }

  lemma BareTableWrapped()
    ensures ReplaceMatches("<table>", TableOpen, TagEnd, TableWrapOpen) == TableWrapOpen
  {
    var s := "<table>";
    assert OccursAt(s, 0, TableOpen);
    assert OccursAt(s, 6, TagEnd);
    FirstSpanIs(s, TableOpen, TagEnd, 0, 0, 7);
    ReplaceSpansStep(s, TableOpen, TagEnd, TableWrapOpen, 0, 0, 7);
    ReplaceSpansStop(s, TableOpen, TagEnd, TableWrapOpen, 7);
  }

  lemma SanitizeWrappedTable()
    ensures |Sanitize(TableWrapOpen)| == 2 * |TableWrapOpen| - 7
  {
    NoDeletionMarkers(TableWrapOpen);
    var t := WrappedTableWrappedAgain();
    NoSlashInDoubleWrapper(t);
    AbsentCharacter(t, TableClose, '/');
    SanitizeWhenOnlyTableOpens(TableWrapOpen, t);
  }

  lemma WrappedTableWrappedAgain() returns (t: string)
    ensures t == ReplaceMatches(TableWrapOpen, TableOpen, TagEnd, TableWrapOpen)
    ensures t == TableWrapOpen[..19] + TableWrapOpen
  {
    var s := TableWrapOpen;
    assert OccursAt(s, 19, TableOpen);
    assert OccursAt(s, 25, TagEnd);
    WrapperHasOneTableOpen();
    FirstSpanIs(s, TableOpen, TagEnd, 0, 19, 26);
    ReplaceSpansStep(s, TableOpen, TagEnd, TableWrapOpen, 0, 19, 26);
    ReplaceSpansStop(s, TableOpen, TagEnd, TableWrapOpen, 26);
    t := s[..19] + TableWrapOpen;
  }

  lemma NoSlashInDoubleWrapper(t: string)
    requires t == TableWrapOpen[..19] + TableWrapOpen
    ensures |t| == 2 * |TableWrapOpen| - 7 && '/' !in t
  {
    var s := TableWrapOpen;
    assert '/' !in s;
    assert forall c :: c in s[..19] ==> c in s;
  }

  lemma WrapperHasOneTableOpen()
    ensures forall k: nat :: k < 19 ==> !OccursAt(TableWrapOpen, k, TableOpen)
  {
    var s := TableWrapOpen;
    var head := "<div class=\"table\">";
    assert s == head + "<table>";
    assert '<' !in head[1..];
    forall k: nat | k < 19
      ensures !OccursAt(s, k, TableOpen)
    {
      if k == 0 {
        assert s[1] == 'd';
        assert s[0..6][1] != TableOpen[1];
      } else {
        assert s[k] == head[1..][k - 1];
        assert s[k..k + 6][0] != TableOpen[0];
      }
    }
  }
}
