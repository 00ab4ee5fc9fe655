/**
 The problem list resolver of `get_all_prob`: the hrefs of the anchors in the
 contest's problems table, filtered on "/problem/", resolved against the
 contest URL, deduplicated through a set and sorted. Fetching the page and
 finding the anchors happen before this; the URL resolution (`urljoin`) is a
 parameter about which nothing is assumed.
 */
module ProblemList {
  import opened AsciiText

  const PROBLEM_SEGMENT := "/problem/"

  /** Python's `<` on strings: code points compared left to right, a proper
      prefix ordered first. */
  predicate Less(a: string, b: string)
    decreases |a|
  {
    if a == [] then b != []
    else if b == [] then false
    else if a[0] != b[0] then a[0] < b[0]
    else Less(a[1..], b[1..])
  }

  lemma {:induction false} LessIrreflexive(a: string)
    ensures !Less(a, a)
    decreases |a|
  {
    if a != [] {
      LessIrreflexive(a[1..]);
    }
  }

  lemma {:induction false} LessTransitive(a: string, b: string, c: string)
    requires Less(a, b) && Less(b, c)
    ensures Less(a, c)
    decreases |a|
  {
    if a != [] && a[0] == b[0] && b[0] == c[0] {
      LessTransitive(a[1..], b[1..], c[1..]);
    }
  }

  lemma {:induction false} LessTotal(a: string, b: string)
    ensures a == b || Less(a, b) || Less(b, a)
    decreases |a|
  {
    if a != [] && b != [] && a[0] == b[0] {
      LessTotal(a[1..], b[1..]);
      if a[1..] == b[1..] {
        assert a == [a[0]] + a[1..] && b == [b[0]] + b[1..];
      }
    }
  }

  lemma LessAsymmetric(a: string, b: string)
    requires Less(a, b)
    ensures !Less(b, a)
  {
    if Less(b, a) {
      LessTransitive(a, b, a);
      LessIrreflexive(a);
    }
  }

  /** Ascending without repeats. */
  ghost predicate StrictlySorted(xs: seq<string>) {
    forall i, j :: 0 <= i < j < |xs| ==> Less(xs[i], xs[j])
  }

  function Elems(xs: seq<string>): set<string> {
    set x | x in xs
  }

  lemma ElemsEmpty(xs: seq<string>)
    ensures Elems(xs) == {} <==> xs == []
  {
    if xs != [] {
      assert xs[0] in Elems(xs);
    }
  }

  /** Inserts `x` into a strictly ascending sequence, keeping it so. */
  function Insert(xs: seq<string>, x: string): (r: seq<string>)
    requires StrictlySorted(xs)
    ensures StrictlySorted(r)
    ensures Elems(r) == Elems(xs) + {x}
    ensures r != [] && (Less(x, r[0]) || x == r[0] || (xs != [] && r[0] == xs[0]))
  {
    if xs == [] then
      [x]
    else if x == xs[0] then
      xs
    else if Less(x, xs[0]) then
      var r := [x] + xs;
      forall j | 0 < j < |r| ensures Less(r[0], r[j]) {
        if j > 1 {
          LessTransitive(x, xs[0], xs[j - 1]);
        }
      }
      r
    else
      LessTotal(x, xs[0]);
      var tail := Insert(xs[1..], x);
      assert Elems(xs) == {xs[0]} + Elems(xs[1..]);
      BelowAll(xs, x, tail);
      ConsSorted(xs[0], tail);
      var r := [xs[0]] + tail;
      assert Elems(r) == {xs[0]} + Elems(tail);
      r
  }

  /** The head of a strictly ascending listing is below everything in the
      listing of its tail with `x` added, when it is below `x`. */
  lemma BelowAll(xs: seq<string>, x: string, tail: seq<string>)
    requires StrictlySorted(xs) && xs != [] && Less(xs[0], x)
    requires Elems(tail) == Elems(xs[1..]) + {x}
    ensures forall j :: 0 <= j < |tail| ==> Less(xs[0], tail[j])
  {
    forall j | 0 <= j < |tail| ensures Less(xs[0], tail[j]) {
      var y := tail[j];
      assert y in Elems(tail);
      if y != x {
        var k :| 0 <= k < |xs[1..]| && xs[1..][k] == y;
        assert xs[k + 1] == y;
      }
    }
  }

  /** An element below every element of a strictly ascending listing can
      go in front of it. */
  lemma ConsSorted(y: string, tail: seq<string>)
    requires StrictlySorted(tail) && forall j :: 0 <= j < |tail| ==> Less(y, tail[j])
    ensures StrictlySorted([y] + tail)
  {
    var r := [y] + tail;
    forall i, j | 0 <= i < j < |r| ensures Less(r[i], r[j]) {
      if i == 0 {
        assert r[j] == tail[j - 1];
      } else {
        assert r[i] == tail[i - 1] && r[j] == tail[j - 1];
      }
    }
  }

  /** `sorted(set(xs))`. */
  function SortedSet(xs: seq<string>): (r: seq<string>)
    ensures StrictlySorted(r)
    ensures Elems(r) == Elems(xs)
  {
    if xs == [] then
      []
    else
      var init := xs[..|xs| - 1];
      assert Elems(xs) == Elems(init) + {xs[|xs| - 1]} by {
        assert xs == init + [xs[|xs| - 1]];
      }
      Insert(SortedSet(init), xs[|xs| - 1])
  }

  /** A finite set of strings has only one strictly ascending listing. */
  lemma {:induction false} SortedListingUnique(a: seq<string>, b: seq<string>)
    requires StrictlySorted(a) && StrictlySorted(b)
    requires Elems(a) == Elems(b)
    ensures a == b
    decreases |a|
  {
    ElemsEmpty(a);
    ElemsEmpty(b);
    if a != [] && b != [] {
      assert a[0] in Elems(b) && b[0] in Elems(a);
      var i :| 0 <= i < |b| && b[i] == a[0];
      var j :| 0 <= j < |a| && a[j] == b[0];
      if i > 0 && j > 0 {
        LessAsymmetric(b[0], a[0]);
      } else if i > 0 {
        LessIrreflexive(b[0]);
      } else if j > 0 {
        LessIrreflexive(a[0]);
      }
      assert a[0] == b[0];
      forall x | x in Elems(a[1..]) ensures x in Elems(b[1..]) {
        var k :| 0 <= k < |a[1..]| && a[1..][k] == x;
        assert Less(a[0], a[k + 1]);
        LessIrreflexive(x);
        assert x in Elems(b) && x != b[0];
      }
      forall x | x in Elems(b[1..]) ensures x in Elems(a[1..]) {
        var k :| 0 <= k < |b[1..]| && b[1..][k] == x;
        assert Less(b[0], b[k + 1]);
        LessIrreflexive(x);
        assert x in Elems(a) && x != a[0];
      }
      SortedListingUnique(a[1..], b[1..]);
      assert a == [a[0]] + a[1..] && b == [b[0]] + b[1..];
    }
  }

  /** The problem hrefs of the table, resolved, in page order. */
  function ProblemLinks(contestLink: string, hrefs: seq<string>, urljoin: (string, string) -> string): (r: seq<string>)
    ensures forall u :: u in r <==> exists h :: h in hrefs && Contains(h, PROBLEM_SEGMENT) && u == urljoin(contestLink, h)
  {
    if hrefs == [] then
      []
    else
      var h := hrefs[|hrefs| - 1];
      var init := ProblemLinks(contestLink, hrefs[..|hrefs| - 1], urljoin);
      assert forall g :: g in hrefs <==> g in hrefs[..|hrefs| - 1] || g == h by {
        assert hrefs == hrefs[..|hrefs| - 1] + [h];
      }
      if Contains(h, PROBLEM_SEGMENT) then init + [urljoin(contestLink, h)] else init
  }

  /** The set comprehension of `get_all_prob`. */
  ghost function ProblemUrls(contestLink: string, hrefs: seq<string>, urljoin: (string, string) -> string): set<string> {
    set h | h in hrefs && Contains(h, PROBLEM_SEGMENT) :: urljoin(contestLink, h)
  }

  /** `get_all_prob`: the contest's problem URLs, each once, ascending. */
  function GetAllProb(contestLink: string, hrefs: seq<string>, urljoin: (string, string) -> string): (r: seq<string>)
    ensures StrictlySorted(r)
    ensures Elems(r) == ProblemUrls(contestLink, hrefs, urljoin)
  {
    var links := ProblemLinks(contestLink, hrefs, urljoin);
    assert Elems(links) == ProblemUrls(contestLink, hrefs, urljoin);
    SortedSet(links)
  }

  /** The order of the anchors and any repeated anchor do not matter. */
  lemma GetAllProbIgnoresOrder(contestLink: string, hrefs1: seq<string>, hrefs2: seq<string>,
                               urljoin: (string, string) -> string)
    requires Elems(hrefs1) == Elems(hrefs2)
    ensures GetAllProb(contestLink, hrefs1, urljoin) == GetAllProb(contestLink, hrefs2, urljoin)
  {
    var r1 := GetAllProb(contestLink, hrefs1, urljoin);
    var r2 := GetAllProb(contestLink, hrefs2, urljoin);
    assert forall h :: h in hrefs1 <==> h in hrefs2 by {
      forall h ensures h in hrefs1 <==> h in hrefs2 {
        assert h in hrefs1 <==> h in Elems(hrefs1);
        assert h in hrefs2 <==> h in Elems(hrefs2);
      }
    }
    assert ProblemUrls(contestLink, hrefs1, urljoin) == ProblemUrls(contestLink, hrefs2, urljoin);
    SortedListingUnique(r1, r2);
  }
}
