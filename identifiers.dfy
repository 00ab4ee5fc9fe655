/**
 The three identifier parsers of the scraper, each a single regular
 expression in `cfscraper.py`, written out character by character.
 */
module Identifiers {
  import opened Wrappers
  import opened AsciiText

  /** What `extract_name` returns when its pattern does not match. */
  const NO_NAME_MATCH := "No match found"
  /** What `extract_contest_id` returns when its pattern does not match. */
  const NO_CONTEST_ID := "No contest ID found in the URL"
  const CONTEST_SEGMENT := "/contest/"

  /** `^([A-Za-z0-9]+)\.` matches `s` with a group of length `k`. */
  ghost predicate IdMatchAt(s: string, k: int) {
    0 < k < |s| && (forall i :: 0 <= i < k ==> IsAlnum(s[i])) && s[k] == '.'
  }

  /** The pattern has at most one match: a '.' is not alphanumeric, so the
      group is always the maximal leading alphanumeric run. */
  lemma IdMatchIsRun(s: string, k: int)
    requires IdMatchAt(s, k)
    ensures k == RunLength(s, Alnum)
  {
    var n := RunLength(s, Alnum);
    assert !IsAlnum(s[k]);
  }

  /** `extract_problem_id`: the id in front of the first '.', or None. */
  function ExtractProblemId(s: string): (r: Option<string>)
    ensures r.Some? <==> exists k :: IdMatchAt(s, k)
    ensures r.Some? ==> IdMatchAt(s, |r.value|) && r.value == s[..|r.value|]
  {
    var n := RunLength(s, Alnum);
    if 0 < n < |s| && s[n] == '.' then
      assert IdMatchAt(s, n);
      Some(s[..n])
    else
      assert forall k :: IdMatchAt(s, k) ==> k == n by {
        forall k | IdMatchAt(s, k) ensures k == n { IdMatchIsRun(s, k); }
      }
      None
  }

  /** On the text `rest` after the '.', `\s*` takes `w` characters
      (greedily) and `(.*)` captures `r`, up to the first line feed. */
  ghost predicate NameCapture(rest: string, w: int, r: string) {
    && 0 <= w <= |rest|
    && (forall i :: 0 <= i < w ==> IsSpace(rest[i]))
    && (w < |rest| ==> !IsSpace(rest[w]))
    && r <= rest[w..]
    && '\n' !in r
    && (w + |r| < |rest| ==> rest[w + |r|] == '\n')
  }

  /** The id group has length `k` and the name group captures `r`. */
  ghost predicate NameMatch(s: string, k: int, w: int, r: string) {
    0 <= k < |s| && NameCapture(s[k + 1..], w, r)
  }

  /** `\s*(.*)` on the text after the '.'. */
  function NameAfterDot(rest: string): string {
    var body := rest[RunLength(rest, Space)..];
    body[..RunLength(body, AnyButNewline)]
  }

  lemma NameAfterDotCaptures(rest: string)
    ensures NameCapture(rest, RunLength(rest, Space), NameAfterDot(rest))
  {
    var w := RunLength(rest, Space);
    var body := rest[w..];
    var r := NameAfterDot(rest);
    var m := RunLength(body, AnyButNewline);
    assert r == body[..m];
    forall i | 0 <= i < |r| ensures r[i] != '\n' {
      assert InClass(body[i], AnyButNewline);
    }
    forall i | 0 <= i < w ensures IsSpace(rest[i]) {
      assert InClass(rest[i], Space);
    }
    if w < |rest| {
      assert !InClass(rest[w], Space);
    }
    if w + |r| < |rest| {
      assert rest[w + |r|] == body[m] && !InClass(body[m], AnyButNewline);
    }
  }

  /** `extract_name`: the rest of the first line after the id, the '.' and
      any whitespace, or the sentinel when the id pattern does not match. */
  function ExtractName(s: string): string {
    var n := RunLength(s, Alnum);
    if 0 < n < |s| && s[n] == '.' then NameAfterDot(s[n + 1..]) else NO_NAME_MATCH
  }

  /** The sentinel when the pattern does not match. */
  lemma ExtractNameSentinel(s: string)
    ensures (forall k :: !IdMatchAt(s, k)) ==> ExtractName(s) == NO_NAME_MATCH
  {
    var n := RunLength(s, Alnum);
    if 0 < n < |s| && s[n] == '.' {
      assert IdMatchAt(s, n);
    }
  }

  /** Otherwise the capture group `(.*)` of `^([A-Za-z0-9]+)\.\s*(.*)`. */
  lemma ExtractNameMatches(s: string)
    ensures forall k :: IdMatchAt(s, k) ==> exists w :: NameMatch(s, k, w, ExtractName(s))
  {
    var n := RunLength(s, Alnum);
    forall k | IdMatchAt(s, k) ensures exists w :: NameMatch(s, k, w, ExtractName(s)) {
      IdMatchIsRun(s, k);
      NameAfterDotCaptures(s[n + 1..]);
      assert NameMatch(s, n, RunLength(s[n + 1..], Space), ExtractName(s));
    }
  }

  /** `extract_name` succeeds on exactly the titles that `extract_problem_id`
      accepts, and then reads on from just after the id's '.'. */
  lemma NameFollowsId(s: string)
    ensures ExtractProblemId(s).None? ==> ExtractName(s) == NO_NAME_MATCH
    ensures ExtractProblemId(s).Some? ==>
              exists w :: NameMatch(s, |ExtractProblemId(s).value|, w, ExtractName(s))
  {
    ExtractNameSentinel(s);
    ExtractNameMatches(s);
    if ExtractProblemId(s).None? {
      assert forall k :: !IdMatchAt(s, k);
    } else {
      var k := |ExtractProblemId(s).value|;
      assert IdMatchAt(s, k);
      var name := ExtractName(s);
      assert exists w :: NameMatch(s, k, w, name);
    }
  }

  /** A problem id as `^([A-Za-z0-9]+)` takes it: non-empty and alphanumeric. */
  predicate IsProblemId(id: string) {
    id != [] && forall i :: 0 <= i < |id| ==> IsAlnum(id[i])
  }

  /** Whatever follows the '.', the id in front of it is what
      `extract_problem_id` returns. */
  lemma IdBeforeDot(id: string, rest: string)
    requires IsProblemId(id)
    ensures ExtractProblemId(id + "." + rest) == Some(id)
  {
    var s := id + "." + rest;
    assert s[..|id|] == id && s[|id|] == '.';
    assert forall i :: 0 <= i < |id| ==> InClass(s[i], Alnum);
    RunLengthStopsAt(s, Alnum, |id|);
  }

  /** The parts of a well-formed title "<id>. <name>": an alphanumeric id
      and a one-line name that does not start with whitespace. */
  predicate TitleParts(id: string, name: string) {
    && IsProblemId(id)
    && (name != [] ==> !IsSpace(name[0]))
    && '\n' !in name
  }

  /** A well-formed title parses back into its id and its name. */
  lemma {:induction false} WellFormedTitle(id: string, name: string)
    requires TitleParts(id, name)
    ensures ExtractProblemId(id + ". " + name) == Some(id)
    ensures ExtractName(id + ". " + name) == name
  {
    var s := id + ". " + name;
    assert s == id + "." + (" " + name);
    IdBeforeDot(id, " " + name);
    var rest := s[|id| + 1..];
    assert rest == " " + name;
    SpaceThenName(name);
  }

  /** `\s*(.*)` on " <name>" captures the name. */
  lemma SpaceThenName(name: string)
    requires name != [] ==> !IsSpace(name[0])
    requires '\n' !in name
    ensures NameAfterDot(" " + name) == name
  {
    var rest := " " + name;
    assert rest[1..] == name;
    RunLengthStopsAt(rest, Space, 1);
    assert forall i :: 0 <= i < |name| ==> InClass(name[i], AnyButNewline);
    RunLengthStopsAt(name, AnyButNewline, |name|);
  }

  lemma HardOneTitle()
    ensures ExtractProblemId("C2. Hard One") == Some("C2")
    ensures ExtractName("C2. Hard One") == "Hard One"
  {
    assert "C2. Hard One" == "C2" + ". " + "Hard One";
    WellFormedTitle("C2", "Hard One");
  }

  /** `/contest/(\d+)` can match at position `p`. */
  ghost predicate ContestAt(u: string, p: int) {
    OccursAt(u, CONTEST_SEGMENT, p) && p + |CONTEST_SEGMENT| < |u| && IsDigit(u[p + |CONTEST_SEGMENT|])
  }

  /** The leftmost position at or after `from` where the pattern matches. */
  function FindContest(u: string, from: nat): (r: Option<nat>)
    ensures r.Some? ==> from <= r.value && ContestAt(u, r.value)
    ensures r.Some? ==> forall q :: from <= q < r.value ==> !ContestAt(u, q)
    ensures r.None? ==> forall q :: from <= q ==> !ContestAt(u, q)
    decreases |u| - from
  {
    if from + |CONTEST_SEGMENT| >= |u| then
      None
    else if CONTEST_SEGMENT <= u[from..] && IsDigit(u[from + |CONTEST_SEGMENT|]) then
      assert u[from..][..|CONTEST_SEGMENT|] == u[from..from + |CONTEST_SEGMENT|];
      Some(from)
    else
      assert u[from..][..|CONTEST_SEGMENT|] == u[from..from + |CONTEST_SEGMENT|];
      FindContest(u, from + 1)
  }

  /** The digits captured when the leftmost match is at `p`: the maximal
      digit run after "/contest/". */
  ghost predicate ContestIdAt(u: string, p: int, r: string) {
    var start := p + |CONTEST_SEGMENT|;
    && 0 <= p && |r| > 0 && start + |r| <= |u| && u[start..start + |r|] == r
    && (forall i :: 0 <= i < |r| ==> IsDigit(r[i]))
    && (start + |r| < |u| ==> !IsDigit(u[start + |r|]))
  }

  /** `extract_contest_id`: the number after the leftmost "/contest/" that is
      followed by a digit, or the sentinel. */
  function ExtractContestId(u: string): (r: string)
    ensures (forall p :: !ContestAt(u, p)) ==> r == NO_CONTEST_ID
    ensures forall p :: ContestAt(u, p) && (forall q :: 0 <= q < p ==> !ContestAt(u, q)) ==>
                          ContestIdAt(u, p, r)
    ensures r == NO_CONTEST_ID <==> forall p :: !ContestAt(u, p)
  {
    match FindContest(u, 0)
    case None => NO_CONTEST_ID
    case Some(p) =>
      var digits := u[p + |CONTEST_SEGMENT|..];
      var r := digits[..RunLength(digits, Digit)];
      assert ContestIdAt(u, p, r) by {
        assert digits[..|r|] == u[p + |CONTEST_SEGMENT|..p + |CONTEST_SEGMENT| + |r|];
        assert digits[0] == u[p + |CONTEST_SEGMENT|];
      }
      assert forall p' :: ContestAt(u, p') && (forall q :: 0 <= q < p' ==> !ContestAt(u, q)) ==> p' == p;
      assert r != NO_CONTEST_ID by {
        assert IsDigit(r[0]) && !IsDigit(NO_CONTEST_ID[0]);
      }
      r
  }

  /** The digit run after "/contest/" at the leftmost match `p` is `digits`
      when the URL holds `digits` there, followed by a non-digit or by
      nothing. */
  lemma ContestDigitsAt(u: string, p: nat, digits: string)
    requires digits != [] && forall i :: 0 <= i < |digits| ==> IsDigit(digits[i])
    requires OccursAt(u, CONTEST_SEGMENT, p) && OccursAt(u, digits, p + |CONTEST_SEGMENT|)
    requires p + |CONTEST_SEGMENT| + |digits| < |u| ==> !IsDigit(u[p + |CONTEST_SEGMENT| + |digits|])
    requires forall q :: 0 <= q < p ==> !ContestAt(u, q)
    ensures ExtractContestId(u) == digits
  {
    var start := p + |CONTEST_SEGMENT|;
    assert u[start] == digits[0];
    LeftmostContest(u, p);
    var after := u[start..];
    assert after[..|digits|] == digits;
    if |digits| < |after| {
      assert after[|digits|] == u[start + |digits|];
    }
    DigitRun(after, digits);
  }

  /** The maximal digit run of a text that starts with `digits` and then
      does not go on with a digit. */
  lemma DigitRun(after: string, digits: string)
    requires forall i :: 0 <= i < |digits| ==> IsDigit(digits[i])
    requires digits <= after && (|digits| < |after| ==> !IsDigit(after[|digits|]))
    ensures after[..RunLength(after, Digit)] == digits
  {
    assert forall i :: 0 <= i < |digits| ==> InClass(after[i], Digit);
    RunLengthStopsAt(after, Digit, |digits|);
  }

  /** The search finds the leftmost match. */
  lemma LeftmostContest(u: string, p: nat)
    requires ContestAt(u, p) && forall q :: 0 <= q < p ==> !ContestAt(u, q)
    ensures FindContest(u, 0) == Some(p)
  {
  }

  /** A URL "<host>/contest/<digits><tail>", the tail not starting with a
      digit and no match inside the host, yields those digits. */
  lemma ContestPath(host: string, digits: string, tail: string)
    requires digits != [] && forall i :: 0 <= i < |digits| ==> IsDigit(digits[i])
    requires tail != [] ==> !IsDigit(tail[0])
    requires forall q :: 0 <= q < |host| ==> !ContestAt(host + CONTEST_SEGMENT + digits + tail, q)
    ensures ExtractContestId(host + CONTEST_SEGMENT + digits + tail) == digits
  {
    var u := host + CONTEST_SEGMENT + digits + tail;
    var p := |host|;
    assert u[p..p + |CONTEST_SEGMENT|] == CONTEST_SEGMENT;
    assert u[p + |CONTEST_SEGMENT|..p + |CONTEST_SEGMENT| + |digits|] == digits;
    if tail != [] {
      assert u[p + |CONTEST_SEGMENT| + |digits|] == tail[0];
    }
    ContestDigitsAt(u, p, digits);
  }

  /** A host in which every '/' is followed by at least three characters
      other than "con": "/contest/" cannot start inside it. */
  predicate NoContestIn(host: string) {
    forall q :: 0 <= q < |host| && host[q] == '/' ==> q + 3 < |host| && host[q..q + 4] != "/con"
  }

  lemma NoContestInHost(host: string, rest: string)
    requires NoContestIn(host)
    ensures forall q :: 0 <= q < |host| ==> !ContestAt(host + rest, q)
  {
    var u := host + rest;
    forall q | 0 <= q < |host| ensures !OccursAt(u, CONTEST_SEGMENT, q) {
      if host[q] == '/' {
        assert u[q..q + 4] == host[q..q + 4] != CONTEST_SEGMENT[..4];
      } else {
        assert u[q] != CONTEST_SEGMENT[0];
      }
    }
  }

  /** The same for a URL that starts with such a host. */
  lemma ContestAfterHost(host: string, digits: string, tail: string)
    requires digits != [] && forall i :: 0 <= i < |digits| ==> IsDigit(digits[i])
    requires tail != [] ==> !IsDigit(tail[0])
    requires NoContestIn(host)
    ensures ExtractContestId(host + CONTEST_SEGMENT + digits + tail) == digits
  {
    assert host + CONTEST_SEGMENT + digits + tail == host + (CONTEST_SEGMENT + digits + tail);
    NoContestInHost(host, CONTEST_SEGMENT + digits + tail);
    ContestPath(host, digits, tail);
  }

  lemma ContestUrl()
    ensures ExtractContestId("/contest/2050/problem/C2") == "2050"
  {
    assert "/contest/2050/problem/C2" == [] + CONTEST_SEGMENT + "2050" + "/problem/C2";
    ContestPath([], "2050", "/problem/C2");
  }

  /** The site's own host holds no "/contest/". */
  lemma SiteHost()
    ensures NoContestIn("https://codeforces.com")
  {
    var h := "https://codeforces.com";
    forall q | 0 <= q < |h| && h[q] == '/' ensures q + 3 < |h| && h[q..q + 4] != "/con" {
      assert q == 6 || q == 7;
      assert h[q + 1] == (if q == 6 then '/' else 'c');
      assert h[q + 3] == (if q == 6 then 'o' else 'd');
    }
  }

  /** The URL the script builds for one problem of contest 2050 yields "2050". */
  lemma SiteContestUrl()
    ensures ExtractContestId("https://codeforces.com/contest/2050/problem/C2") == "2050"
  {
    SiteHost();
    assert "https://codeforces.com/contest/2050/problem/C2" ==
             "https://codeforces.com" + CONTEST_SEGMENT + "2050" + "/problem/C2";
    ContestAfterHost("https://codeforces.com", "2050", "/problem/C2");
  }
}
