/**
 The editorial locator of `extract_editorial_link`: the first sidebar anchor
 whose text mentions "tutorial", resolved against the site root. Fetching the
 contest page and finding the sidebar and its anchors happen before this; the
 diagnostic printing is not modelled; `urljoin` is a parameter.
 */
module EditorialLocator {
  import opened Wrappers
  import opened AsciiText

  const SITE_ROOT := "https://codeforces.com"
  const TUTORIAL := "tutorial"

  /** An anchor of the sidebar that has an href: its `.text` and its href. */
  datatype Anchor = Anchor(text: string, href: string)

  /** `"tutorial" in link.text.lower()` */
  predicate IsTutorialLink(a: Anchor) {
    Contains(Lower(a.text), TUTORIAL)
  }

  /** `i` is the first anchor that qualifies. */
  ghost predicate FirstTutorialAt(links: seq<Anchor>, i: int) {
    0 <= i < |links| && IsTutorialLink(links[i]) && forall j :: 0 <= j < i ==> !IsTutorialLink(links[j])
  }

  /** `extract_editorial_link`, on the sidebar's anchors (None when the page
      has no sidebar). */
  method ExtractEditorialLink(sidebar: Option<seq<Anchor>>, urljoin: (string, string) -> string)
    returns (editorialUrl: Option<string>)
    ensures editorialUrl.None? <==>
              sidebar.None? || forall i :: 0 <= i < |sidebar.value| ==> !IsTutorialLink(sidebar.value[i])
    ensures editorialUrl.Some? ==>
              exists i :: FirstTutorialAt(sidebar.value, i) && editorialUrl.value == urljoin(SITE_ROOT, sidebar.value[i].href)
  {
    if sidebar.Some? {
      var links := sidebar.value;
      var i := 0;
      while i < |links|
        invariant 0 <= i <= |links|
        invariant forall j :: 0 <= j < i ==> !IsTutorialLink(links[j])
      {
        if IsTutorialLink(links[i]) {
          assert FirstTutorialAt(links, i);
          return Some(urljoin(SITE_ROOT, links[i].href));
        }
        i := i + 1;
      }
    }
    return None;
  }

  /** Whether an anchor qualifies does not depend on the case of its text. */
  lemma TutorialTestIgnoresCase(a: Anchor)
    ensures IsTutorialLink(a) == IsTutorialLink(Anchor(Lower(a.text), a.href))
  {
    LowerIdempotent(a.text);
  }
}
