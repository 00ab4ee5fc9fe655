/**
 The few string primitives of Python that the scraper relies on (the class
 `[A-Za-z0-9]`, `\d`, `\s`, `str.lower`, `in`, `str.strip`, `str.join`,
 `str.replace`),
 restricted to their ASCII behaviour: a character outside ASCII is never a
 letter, digit or space here, and `Lower` leaves it unchanged.
 */
module AsciiText {

  /** `[A-Za-z0-9]` */
  predicate IsAlnum(c: char) {
    'A' <= c <= 'Z' || 'a' <= c <= 'z' || '0' <= c <= '9'
  }

  /** `\d` on ASCII */
  predicate IsDigit(c: char) {
    '0' <= c <= '9'
  }

  /** `\s` and `str.isspace` on ASCII: tab, line feed, vertical tab, form feed,
      carriage return, the four separators 0x1C-0x1F, and space. */
  predicate IsSpace(c: char) {
    var n := c as int;
    9 <= n <= 13 || 28 <= n <= 31 || n == 32
  }

  /** The character classes the scraper's patterns repeat; `AnyButNewline`
      is the regex `.` without DOTALL. */
  datatype CharClass = Alnum | Digit | Space | AnyButNewline

  predicate InClass(c: char, cls: CharClass) {
    match cls
    case Alnum => IsAlnum(c)
    case Digit => IsDigit(c)
    case Space => IsSpace(c)
    case AnyButNewline => c != '\n'
  }

  /** Length of the longest prefix of `s` whose characters all belong to
      `cls` (a greedy `cls*` at the start of `s`). */
  function RunLength(s: string, cls: CharClass): (n: nat)
    ensures n <= |s|
    ensures forall i :: 0 <= i < n ==> InClass(s[i], cls)
    ensures n < |s| ==> !InClass(s[n], cls)
  {
    if s != [] && InClass(s[0], cls) then 1 + RunLength(s[1..], cls) else 0
  }

  /** The run stops exactly at the first character outside `cls`. */
  lemma RunLengthStopsAt(s: string, cls: CharClass, k: nat)
    requires k <= |s|
    requires forall i :: 0 <= i < k ==> InClass(s[i], cls)
    requires k < |s| ==> !InClass(s[k], cls)
    ensures RunLength(s, cls) == k
  {
    var n := RunLength(s, cls);
  }

  function LowerChar(c: char): char {
    if 'A' <= c <= 'Z' then (c as int + 32) as char else c
  }

  /** `str.lower` on ASCII. */
  function Lower(s: string): (r: string)
    ensures |r| == |s|
    ensures forall i :: 0 <= i < |s| ==> r[i] == LowerChar(s[i])
    ensures forall i :: 0 <= i < |r| ==> !('A' <= r[i] <= 'Z')
  {
    if s == [] then [] else [LowerChar(s[0])] + Lower(s[1..])
  }

  /** Lowering twice is lowering once, so a case-insensitive test on a lowered
      string does not depend on the case of its input. */
  lemma {:induction false} LowerIdempotent(s: string)
    ensures Lower(Lower(s)) == Lower(s)
  {
    var l := Lower(s);
    var ll := Lower(l);
    assert |ll| == |l|;
    forall i | 0 <= i < |l| ensures ll[i] == l[i] {
      assert l[i] == LowerChar(s[i]);
    }
  }

  /** `sub` occurs in `s` starting at index `i`. */
  ghost predicate OccursAt(s: string, sub: string, i: int) {
    0 <= i && i + |sub| <= |s| && s[i..i + |sub|] == sub
  }

  lemma OccursShift(s: string, sub: string)
    requires s != []
    ensures forall i :: 1 <= i ==> (OccursAt(s, sub, i) <==> OccursAt(s[1..], sub, i - 1))
    ensures forall j :: OccursAt(s[1..], sub, j) ==> OccursAt(s, sub, j + 1)
  {
    forall i | 1 <= i
      ensures OccursAt(s, sub, i) <==> OccursAt(s[1..], sub, i - 1)
    {
      if i + |sub| <= |s| {
        assert s[1..][i - 1..] == s[i..];
        assert s[i..i + |sub|] == s[i..][..|sub|];
        assert s[1..][i - 1..i - 1 + |sub|] == s[1..][i - 1..][..|sub|];
      }
    }
    forall j | OccursAt(s[1..], sub, j) ensures OccursAt(s, sub, j + 1) {
      assert OccursAt(s, sub, (j + 1)) <==> OccursAt(s[1..], sub, (j + 1) - 1);
    }
  }

  /** Python's `sub in s` on strings. */
  predicate Contains(s: string, sub: string)
    decreases |s|
  {
    sub <= s || (s != [] && Contains(s[1..], sub))
  }

  /** `sub in s` holds exactly when `sub` occurs at some index of `s`. */
  lemma {:induction false} ContainsIff(s: string, sub: string)
    ensures Contains(s, sub) <==> exists i :: OccursAt(s, sub, i)
    decreases |s|
  {
    if sub <= s {
      assert OccursAt(s, sub, 0);
    } else if s != [] {
      ContainsIff(s[1..], sub);
      OccursShift(s, sub);
      assert !OccursAt(s, sub, 0);
    }
  }

  lemma ContainsInfix(a: string, sub: string, b: string)
    ensures Contains(a + sub + b, sub)
  {
    assert OccursAt(a + sub + b, sub, |a|) by {
      assert (a + sub + b)[|a|..|a| + |sub|] == sub;
    }
    ContainsIff(a + sub + b, sub);
  }

  /** A string lacking the first character of `sub` does not contain it. */
  lemma NotContainsFirstChar(s: string, sub: string)
    requires sub != []
    requires forall i :: 0 <= i < |s| ==> s[i] != sub[0]
    ensures !Contains(s, sub)
  {
    forall i ensures !OccursAt(s, sub, i) {
      if 0 <= i < |s| {
        assert s[i] != sub[0];
      }
    }
    ContainsIff(s, sub);
  }

  /** `r` is `s` with only whitespace removed before index `i` and after `r`. */
  ghost predicate StrippedAt(s: string, r: string, i: int) {
    && 0 <= i && i + |r| <= |s| && s[i..i + |r|] == r
    && (forall k :: 0 <= k < i ==> IsSpace(s[k]))
    && (forall k :: i + |r| <= k < |s| ==> IsSpace(s[k]))
  }

  /** Number of whitespace characters at the end of `s`. */
  function TrailingSpaces(s: string): (n: nat)
    ensures n <= |s|
    ensures forall k :: |s| - n <= k < |s| ==> IsSpace(s[k])
    ensures n < |s| ==> !IsSpace(s[|s| - 1 - n])
  {
    if s != [] && IsSpace(s[|s| - 1]) then 1 + TrailingSpaces(s[..|s| - 1]) else 0
  }

  /** `str.strip()` with no argument. */
  function Strip(s: string): (r: string)
    ensures exists i :: StrippedAt(s, r, i)
    ensures r != [] ==> !IsSpace(r[0]) && !IsSpace(r[|r| - 1])
  {
    var lead := RunLength(s, Space);
    var t := s[lead..];
    var trail := TrailingSpaces(t);
    var r := t[..|t| - trail];
    assert StrippedAt(s, r, lead) by {
      assert s[lead..lead + |r|] == r;
      forall k | lead + |r| <= k < |s| ensures IsSpace(s[k]) {
        assert s[k] == t[k - lead];
      }
    }
    r
  }

  /** A string that neither starts nor ends with whitespace is its own strip. */
  lemma StripUnchanged(s: string)
    requires s != [] ==> !IsSpace(s[0]) && !IsSpace(s[|s| - 1])
    ensures Strip(s) == s
  {
    var r := Strip(s);
    var i :| StrippedAt(s, r, i);
    if s != [] {
      assert !IsSpace(s[0]) && !IsSpace(s[|s| - 1]);
      assert i == 0 && i + |r| == |s|;
      assert r == s[0..|s|];
    }
  }

  /** `sep.join(xs)`. */
  function Join(xs: seq<string>, sep: string): (r: string)
    ensures xs == [] ==> r == ""
    ensures |xs| == 1 ==> r == xs[0]
    ensures |xs| > 1 ==> xs[0] + sep <= r
  {
    if xs == [] then "" else if |xs| == 1 then xs[0] else xs[0] + sep + Join(xs[1..], sep)
  }

  /** `s.replace(pat, "")` for a non-empty `pat`: occurrences found left to
      right, each one removed, the scan resuming after it. */
  function RemoveAll(s: string, pat: string): (r: string)
    requires pat != []
    ensures |r| <= |s|
    ensures (forall i :: !OccursAt(s, pat, i)) ==> r == s
    decreases |s|
  {
    if pat <= s then
      assert OccursAt(s, pat, 0);
      RemoveAll(s[|pat|..], pat)
    else if s == [] then
      s
    else
      OccursShift(s, pat);
      [s[0]] + RemoveAll(s[1..], pat)
  }

  /** A leading label is removed and nothing else, when the rest does not
      contain it. */
  lemma RemoveLeadingLabel(pat: string, rest: string)
    requires pat != []
    requires !Contains(rest, pat)
    ensures RemoveAll(pat + rest, pat) == rest
  {
    ContainsIff(rest, pat);
    assert (pat + rest)[|pat|..] == rest;
  }
}
