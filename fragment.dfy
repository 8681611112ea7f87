/** The panel fragment of a rendered page body (`extractPanelContent`). */
module Fragment {

  import opened Values
  import opened Text

  const PanelOpen := "<div class=\"panelContent\">"
  const DivClose := "</div>"

  /** The pattern `<div class="panelContent">(.*?)</div>` has no match. */
  ghost predicate NoPanel(content: string) {
    NoSpan(content, PanelOpen, DivClose, 0)
  }

  /** `r` is the text strictly between the first panel opening tag of
      `content` and the next `</div>`: shorter than the body, holding no
      `</div>`, right after the first opening tag and right before a
      `</div>`. */
  ghost predicate PanelText(content: string, r: string) {
    && |r| < |content|
    && (forall k: nat :: !OccursAt(r, k, DivClose))
    && exists i: nat ::
      && OccursAt(content, i, PanelOpen)
      && (forall k: nat :: k < i ==> !OccursAt(content, k, PanelOpen))
      && OccursAt(content, i + |PanelOpen| + |r|, DivClose)
      && content[i + |PanelOpen|..i + |PanelOpen| + |r|] == r
  }

  /** `preg_match` with the lazy group, then `$matches[1] ?? $content`: the
      text between the first panel opening tag and the first `</div>` after
      it, or the whole input when there is no such pair. Nesting is not
      tracked: a `<div>` inside the panel ends it at its own `</div>`. */
  function ExtractPanelContent(content: string): (r: string)
    // fail-open: no panel, the page body is used as it is
    ensures NoPanel(content) ==> r == content
    // a panel: the text inside it, up to the first `</div>`
    ensures !NoPanel(content) ==> PanelText(content, r)
  {
    match FirstSpan(content, PanelOpen, DivClose, 0)
    case None => content
    case Some((i, e)) =>
      PanelFound(content, i, e);
      content[i + |PanelOpen|..e - |DivClose|]
  }

  /** The text inside the panel the search finds is the panel text. */
  lemma PanelFound(content: string, i: nat, e: nat)
    requires FirstSpan(content, PanelOpen, DivClose, 0) == Some((i, e))
    ensures PanelText(content, content[i + |PanelOpen|..e - |DivClose|])
  {
    var r := content[i + |PanelOpen|..e - |DivClose|];
    SliceOccurrences(content, i + |PanelOpen|, e - |DivClose|, DivClose);
    assert OccursAt(content, i + |PanelOpen| + |r|, DivClose);
  }

  /** An occurrence inside a slice is an occurrence in the whole text. */
  lemma SliceOccurrences(s: string, a: nat, b: nat, pat: string)
    requires a <= b <= |s|
    ensures forall k: nat :: OccursAt(s[a..b], k, pat) ==> OccursAt(s, a + k, pat)
  {
    forall k: nat | OccursAt(s[a..b], k, pat)
      ensures OccursAt(s, a + k, pat)
    {
      assert k + |pat| <= b - a;
      var inSlice, inWhole := s[a..b][k..k + |pat|], s[a + k..a + k + |pat|];
      forall j | 0 <= j < |pat|
        ensures inSlice[j] == inWhole[j]
      {
        assert inSlice[j] == s[a..b][k + j] == s[a + k + j];
      }
      assert inSlice == inWhole;
    }
  }
}
