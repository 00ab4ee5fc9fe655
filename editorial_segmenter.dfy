/**
 The editorial segmenter of `extract_editorial_content`: one pass over the
 children of the editorial's content container with a cursor into the list
 of problem display names and an accumulator of text. Each recognised marker
 closes the previous problem's slice; what is left at the end goes to the
 last problem. The editorial files it opens and writes are a log of
 (display name, text) pairs; fetching the page and removing the math spans
 happen before this.
 */
module EditorialSegmenter {
  import opened Wrappers
  import opened AsciiText
  import opened Identifiers

  /** A child of the content container: a tag, with its tag name, or a bare
      string (no name); `text` is its `.text`. */
  datatype Node = Node(name: Option<string>, text: string)

  /** One editorial file written: keyed by a problem's display name. */
  datatype Write = Write(key: string, text: string)

  /** The loop's variables: `current_problem_index`, `result`, and the
      files written so far. */
  datatype Cursor = Cursor(index: nat, result: seq<string>, log: seq<Write>)

  /** How a run ends: the files written, and whether `problem_names[-1]` raised
      IndexError (no names, but text left to flush). */
  datatype Outcome = Outcome(log: seq<Write>, indexError: bool)

  const START := Cursor(0, [], [])

  /** `elif ele.name:` */
  predicate IsTagged(n: Node) {
    n.name.Some? && n.name.value != ""
  }

  /** The marker test: the cursor is in range and the short name of the
      problem it points at occurs in the node's text. It applies to every
      child, tagged or not. */
  predicate IsMarker(names: seq<string>, index: nat, n: Node) {
    index < |names| && Contains(n.text, ExtractName(names[index]))
  }

  /** The loop body on one child. */
  function Step(names: seq<string>, c: Cursor, n: Node): Cursor {
    if IsMarker(names, c.index, n) then
      var log := if c.index > 0 then c.log + [Write(names[c.index - 1], Join(c.result, "\n"))] else c.log;
      Cursor(c.index + 1, [], log)
    else if IsTagged(n) then
      Cursor(c.index, c.result + [Strip(n.text)], c.log)
    else
      c
  }

  /** The loop over `nodes`, from cursor `c`. */
  function RunFrom(names: seq<string>, c: Cursor, nodes: seq<Node>): Cursor
    decreases |nodes|
  {
    if nodes == [] then c else Step(names, RunFrom(names, c, nodes[..|nodes| - 1]), nodes[|nodes| - 1])
  }

  /** After the loop: what is left in `result` goes to the last name. */
  function Flush(names: seq<string>, c: Cursor): Outcome {
    if c.result == [] then Outcome(c.log, false)
    else if names == [] then Outcome(c.log, true)
    else Outcome(c.log + [Write(names[|names| - 1], Join(c.result, "\n"))], false)
  }

  /** The loop followed by the final flush. */
  function Segment(names: seq<string>, nodes: seq<Node>): Outcome {
    Flush(names, RunFrom(names, START, nodes))
  }

  /** `extract_editorial_content`. `link` is the editorial link (None or ""
      are falsy); `content` the children of the page's content container, or
      None when the page has none. */
  method ExtractEditorialContent(link: Option<string>, content: Option<seq<Node>>, names: seq<string>)
    returns (log: seq<Write>, indexError: bool)
    ensures (link.None? || link.value == "" || content.None?) ==> log == [] && !indexError
    ensures link.Some? && link.value != "" && content.Some? ==>
              Outcome(log, indexError) == Segment(names, content.value)
  {
    log, indexError := [], false;
    if link.None? || link.value == "" {
      return;
    }
    if content.None? {
      return;
    }
    var children := content.value;
    var result: seq<string> := [];
    var currentProblemIndex: nat := 0;
    for i := 0 to |children|
      invariant Cursor(currentProblemIndex, result, log) == RunFrom(names, START, children[..i])
    {
      var ele := children[i];
      ghost var before := Cursor(currentProblemIndex, result, log);
      if currentProblemIndex < |names| && Contains(ele.text, ExtractName(names[currentProblemIndex])) {
        if currentProblemIndex > 0 {
          log := log + [Write(names[currentProblemIndex - 1], Join(result, "\n"))];
        }
        result := [];
        currentProblemIndex := currentProblemIndex + 1;
      } else if ele.name.Some? && ele.name.value != "" {
        result := result + [Strip(ele.text)];
      }
      assert Cursor(currentProblemIndex, result, log) == Step(names, before, ele);
      RunSnoc(names, START, children, i);
    }
    assert children[..|children|] == children;
    if result != [] {
      if names == [] {
        indexError := true;
        return;
      }
      log := log + [Write(names[|names| - 1], Join(result, "\n"))];
    }
  }

  // ----- The run as a whole

  /** One more child: one more step. */
  lemma RunSnoc(names: seq<string>, c: Cursor, nodes: seq<Node>, i: nat)
    requires i < |nodes|
    ensures RunFrom(names, c, nodes[..i + 1]) == Step(names, RunFrom(names, c, nodes[..i]), nodes[i])
  {
    assert nodes[..i + 1][..i] == nodes[..i];
  }

  /** Running over `a + b` is running over `a`, then over `b`. */
  lemma {:induction false} RunAppend(names: seq<string>, c: Cursor, a: seq<Node>, b: seq<Node>)
    ensures RunFrom(names, c, a + b) == RunFrom(names, RunFrom(names, c, a), b)
    decreases |b|
  {
    if b == [] {
      assert a + b == a;
    } else {
      assert (a + b)[..|a + b| - 1] == a + b[..|b| - 1];
      RunAppend(names, c, a, b[..|b| - 1]);
    }
  }

  function Keys(log: seq<Write>): (r: seq<string>)
    ensures |r| == |log| && forall k :: 0 <= k < |log| ==> r[k] == log[k].key
  {
    seq(|log|, k requires 0 <= k < |log| => log[k].key)
  }

  /** Files written by the loop once the cursor is at `index`: one per marker
      after the first. */
  function Closed(index: nat): nat {
    if index == 0 then 0 else index - 1
  }

  /** The loop invariant: the cursor stays within the name list, and the
      files written so far are those of the first `index - 1` names, in
      order, each once. */
  lemma {:induction false} RunKeys(names: seq<string>, nodes: seq<Node>)
    ensures RunFrom(names, START, nodes).index <= |names|
    ensures Keys(RunFrom(names, START, nodes).log) == names[..Closed(RunFrom(names, START, nodes).index)]
    decreases |nodes|
  {
    if nodes != [] {
      var init := nodes[..|nodes| - 1];
      RunKeys(names, init);
      StepKeys(names, RunFrom(names, START, init), nodes[|nodes| - 1]);
    }
  }

  lemma StepKeys(names: seq<string>, c: Cursor, n: Node)
    requires c.index <= |names| && Keys(c.log) == names[..Closed(c.index)]
    ensures Step(names, c, n).index <= |names|
    ensures Keys(Step(names, c, n).log) == names[..Closed(Step(names, c, n).index)]
  {
    if IsMarker(names, c.index, n) && c.index > 0 {
      var c' := Step(names, c, n);
      assert Keys(c'.log) == Keys(c.log) + [names[c.index - 1]];
      assert names[..c.index] == names[..c.index - 1] + [names[c.index - 1]];
    }
  }

  /** The cursor never moves back. */
  lemma {:induction false} CursorMonotone(names: seq<string>, a: seq<Node>, b: seq<Node>)
    ensures RunFrom(names, START, a).index <= RunFrom(names, START, a + b).index
    decreases |b|
  {
    RunAppend(names, START, a, b);
    CursorMonotoneFrom(names, RunFrom(names, START, a), b);
  }

  lemma {:induction false} CursorMonotoneFrom(names: seq<string>, c: Cursor, b: seq<Node>)
    ensures c.index <= RunFrom(names, c, b).index
    decreases |b|
  {
    if b != [] {
      CursorMonotoneFrom(names, c, b[..|b| - 1]);
    }
  }

  /** `i` ascends through name positions that the writes are keyed by. */
  ghost predicate WrittenAt(names: seq<string>, log: seq<Write>, slots: seq<nat>) {
    && |slots| == |log|
    && (forall k :: 0 <= k < |slots| ==> slots[k] < |names| && log[k].key == names[slots[k]])
    && (forall j, k :: 0 <= j < k < |slots| ==> slots[j] < slots[k])
  }

  /** At most one file per problem name, each for a distinct position of the
      name list, in ascending order of position. */
  lemma SegmentWritesEachNameOnce(names: seq<string>, nodes: seq<Node>)
    ensures |Segment(names, nodes).log| <= |names|
    ensures exists slots :: WrittenAt(names, Segment(names, nodes).log, slots)
  {
    RunKeys(names, nodes);
    FlushWrites(names, RunFrom(names, START, nodes));
  }

  lemma FlushWrites(names: seq<string>, c: Cursor)
    requires c.index <= |names| && Keys(c.log) == names[..Closed(c.index)]
    ensures |Flush(names, c).log| <= |names|
    ensures exists slots :: WrittenAt(names, Flush(names, c).log, slots)
    ensures Flush(names, c).indexError <==> c.result != [] && names == []
    ensures c.result == [] || names == [] ==> Flush(names, c).log == c.log
    ensures c.result != [] && names != [] ==>
              |Flush(names, c).log| == |c.log| + 1 && Flush(names, c).log[..|c.log|] == c.log &&
              Flush(names, c).log[|c.log|] == Write(names[|names| - 1], Join(c.result, "\n"))
  {
    var m := Closed(c.index);
    var loopSlots := seq(m, k requires 0 <= k < m => k as nat);
    assert WrittenAt(names, c.log, loopSlots) by {
      forall k | 0 <= k < m ensures c.log[k].key == names[k] {
        assert Keys(c.log)[k] == names[..m][k];
      }
    }
    var out := Flush(names, c);
    if c.result != [] && names != [] {
      var slots := loopSlots + [|names| - 1];
      assert WrittenAt(names, out.log, slots);
    } else {
      assert WrittenAt(names, out.log, loopSlots);
    }
  }

  // ----- Runs without markers

  /** The stripped texts of the tagged nodes, in order. */
  function TaggedTexts(nodes: seq<Node>): (r: seq<string>)
    ensures |r| <= |nodes|
    ensures forall t :: t in r ==> exists n :: n in nodes && IsTagged(n) && t == Strip(n.text)
    decreases |nodes|
  {
    if nodes == [] then []
    else
      var init := nodes[..|nodes| - 1];
      var n := nodes[|nodes| - 1];
      var r := TaggedTexts(init) + (if IsTagged(n) then [Strip(n.text)] else []);
      assert forall m :: m in init ==> m in nodes;
      r
  }

  /** No node is a marker for the cursor's position. */
  ghost predicate Unmarked(names: seq<string>, index: nat, nodes: seq<Node>) {
    forall k :: 0 <= k < |nodes| ==> !IsMarker(names, index, nodes[k])
  }

  /** Between markers the cursor and the log stay put and every tagged node
      adds its stripped text. */
  lemma {:induction false} UnmarkedRun(names: seq<string>, c: Cursor, nodes: seq<Node>)
    requires Unmarked(names, c.index, nodes)
    ensures RunFrom(names, c, nodes) == Cursor(c.index, c.result + TaggedTexts(nodes), c.log)
    decreases |nodes|
  {
    if nodes != [] {
      var init := nodes[..|nodes| - 1];
      assert Unmarked(names, c.index, init) by {
        forall k | 0 <= k < |init| ensures !IsMarker(names, c.index, init[k]) {
          assert init[k] == nodes[k];
        }
      }
      UnmarkedRun(names, c, init);
      assert !IsMarker(names, c.index, nodes[|nodes| - 1]);
    }
  }

  /** When the first name is never recognised, everything the tagged nodes
      hold goes, joined by line feeds, to the last name. */
  lemma NoMarkerFound(names: seq<string>, nodes: seq<Node>)
    requires names != []
    requires forall k :: 0 <= k < |nodes| ==> !Contains(nodes[k].text, ExtractName(names[0]))
    ensures Segment(names, nodes) ==
              if TaggedTexts(nodes) == [] then Outcome([], false)
              else Outcome([Write(names[|names| - 1], Join(TaggedTexts(nodes), "\n"))], false)
  {
    NoMarkerRun(names, nodes);
    FlushUnmarked(names, TaggedTexts(nodes));
  }

  lemma NoMarkerRun(names: seq<string>, nodes: seq<Node>)
    requires names != []
    requires forall k :: 0 <= k < |nodes| ==> !Contains(nodes[k].text, ExtractName(names[0]))
    ensures RunFrom(names, START, nodes) == Cursor(0, TaggedTexts(nodes), [])
  {
    var c0 := Cursor(0, [], []);
    assert c0 == START;
    assert Unmarked(names, c0.index, nodes) by {
      forall k | 0 <= k < |nodes| ensures !IsMarker(names, 0, nodes[k]) {
        assert !Contains(nodes[k].text, ExtractName(names[0]));
      }
    }
    UnmarkedRun(names, c0, nodes);
  }

  /** The final flush when nothing was written before it. */
  lemma FlushUnmarked(names: seq<string>, texts: seq<string>)
    requires names != []
    ensures Flush(names, Cursor(0, texts, [])) ==
              if texts == [] then Outcome([], false)
              else Outcome([Write(names[|names| - 1], Join(texts, "\n"))], false)
  {
  }

  /** Without names, nothing is ever written; IndexError is raised exactly
      when some tagged node left text to flush. */
  lemma NoNames(nodes: seq<Node>)
    ensures Segment([], nodes) == Outcome([], TaggedTexts(nodes) != [])
  {
    UnmarkedRun([], START, nodes);
  }

  // ----- Runs where every marker is found, in order

  /** marker 0, body 0, marker 1, body 1, ... */
  function Interleave(markers: seq<Node>, bodies: seq<seq<Node>>): seq<Node>
    requires |markers| == |bodies|
    decreases |markers|
  {
    if markers == [] then []
    else
      Interleave(markers[..|markers| - 1], bodies[..|bodies| - 1]) + [markers[|markers| - 1]] + bodies[|bodies| - 1]
  }

  /** The slices closed by markers 1 .. n: slice k holds body k and is keyed
      by the k-th name. */
  function Slices(names: seq<string>, bodies: seq<seq<Node>>, n: nat): seq<Write>
    requires n <= |names| && n <= |bodies|
  {
    if n == 0 then [] else Slices(names, bodies, n - 1) + [Write(names[n - 1], Join(TaggedTexts(bodies[n - 1]), "\n"))]
  }

  /** `pre` comes before the first marker and holds none; marker k holds the
      k-th short name; body k holds no mention of the next name. */
  ghost predicate WellMarked(names: seq<string>, pre: seq<Node>, markers: seq<Node>, bodies: seq<seq<Node>>) {
    && |names| > 0 && |markers| == |names| && |bodies| == |names|
    && Unmarked(names, 0, pre)
    && (forall k :: 0 <= k < |names| ==> IsMarker(names, k, markers[k]))
    && (forall k :: 0 <= k < |names| ==> Unmarked(names, k + 1, bodies[k]))
  }

  /** A marker, then a body that holds no mention of the next name: the
      previous slice is closed (unless this was the first marker) and the
      body's tagged text starts the next one. */
  lemma MarkerThenBody(names: seq<string>, c: Cursor, m: Node, body: seq<Node>)
    requires IsMarker(names, c.index, m)
    requires Unmarked(names, c.index + 1, body)
    ensures RunFrom(names, c, [m] + body) ==
              Cursor(c.index + 1, TaggedTexts(body),
                     if c.index > 0 then c.log + [Write(names[c.index - 1], Join(c.result, "\n"))] else c.log)
  {
    RunAppend(names, c, [m], body);
    RunOne(names, c, m);
    MarkerStep(names, c, m);
    var after := Cursor(c.index + 1, [], if c.index > 0 then c.log + [Write(names[c.index - 1], Join(c.result, "\n"))] else c.log);
    UnmarkedRun(names, after, body);
  }

  lemma RunOne(names: seq<string>, c: Cursor, n: Node)
    ensures RunFrom(names, c, [n]) == Step(names, c, n)
  {
    assert [n][..0] == [];
  }

  /** A marker at index `i > 0` writes `names[i - 1]` with the accumulated
      text, and at index 0 writes nothing; either way the text is reset and
      the cursor moves on by one. */
  lemma MarkerStep(names: seq<string>, c: Cursor, m: Node)
    requires IsMarker(names, c.index, m)
    ensures Step(names, c, m) ==
              Cursor(c.index + 1, [], if c.index > 0 then c.log + [Write(names[c.index - 1], Join(c.result, "\n"))] else c.log)
  {
  }

  lemma InterleaveLast(markers: seq<Node>, bodies: seq<seq<Node>>, j: nat)
    requires |markers| == |bodies| && 0 < j <= |markers|
    ensures Interleave(markers[..j], bodies[..j]) ==
              Interleave(markers[..j - 1], bodies[..j - 1]) + ([markers[j - 1]] + bodies[j - 1])
  {
    assert markers[..j][..j - 1] == markers[..j - 1];
    assert bodies[..j][..j - 1] == bodies[..j - 1];
  }

  lemma {:induction false} MarkedPrefix(names: seq<string>, pre: seq<Node>, markers: seq<Node>, bodies: seq<seq<Node>>, j: nat)
    requires WellMarked(names, pre, markers, bodies)
    requires 0 < j <= |names|
    ensures RunFrom(names, START, pre + Interleave(markers[..j], bodies[..j])) ==
              Cursor(j, TaggedTexts(bodies[j - 1]), Slices(names, bodies, j - 1))
    decreases j
  {
    var prior := pre + Interleave(markers[..j - 1], bodies[..j - 1]);
    InterleaveLast(markers, bodies, j);
    assert pre + Interleave(markers[..j], bodies[..j]) == prior + ([markers[j - 1]] + bodies[j - 1]);
    assert IsMarker(names, j - 1, markers[j - 1]);
    assert Unmarked(names, j, bodies[j - 1]);
    RunAppend(names, START, prior, [markers[j - 1]] + bodies[j - 1]);
    var before := RunFrom(names, START, prior);
    if j == 1 {
      assert prior == pre by {
        assert markers[..0] == [] && bodies[..0] == [];
      }
      UnmarkedRun(names, START, pre);
      assert before == Cursor(0, TaggedTexts(pre), []);
    } else {
      MarkedPrefix(names, pre, markers, bodies, j - 1);
      assert before == Cursor(j - 1, TaggedTexts(bodies[j - 2]), Slices(names, bodies, j - 2));
    }
    MarkerThenBody(names, before, markers[j - 1], bodies[j - 1]);
  }

  /** Every marker found, in order: content before the first marker is
      dropped, the k-th name gets exactly the tagged text between its marker
      and the next, and the last name gets what follows its marker (when
      there is any). */
  lemma InOrderMarkers(names: seq<string>, pre: seq<Node>, markers: seq<Node>, bodies: seq<seq<Node>>)
    requires WellMarked(names, pre, markers, bodies)
    ensures var last := TaggedTexts(bodies[|names| - 1]);
            Segment(names, pre + Interleave(markers, bodies)) ==
              Outcome(Slices(names, bodies, |names| - 1) +
                        (if last == [] then [] else [Write(names[|names| - 1], Join(last, "\n"))]), false)
  {
    var n := |names|;
    MarkedPrefix(names, pre, markers, bodies, n);
    assert markers[..n] == markers && bodies[..n] == bodies;
    FlushLast(names, TaggedTexts(bodies[n - 1]), Slices(names, bodies, n - 1));
  }

  /** The final flush once the cursor is past the last name. */
  lemma FlushLast(names: seq<string>, last: seq<string>, log: seq<Write>)
    requires names != []
    ensures Flush(names, Cursor(|names|, last, log)) ==
              Outcome(log + (if last == [] then [] else [Write(names[|names| - 1], Join(last, "\n"))]), false)
  {
  }

  /** A well-formed title is recognised as its own marker. */
  lemma TitleMarks(title: string, id: string, name: string)
    requires TitleParts(id, name)
    requires title == id + ". " + name
    ensures ExtractName(title) == name && Contains(title, name)
  {
    WellFormedTitle(id, name);
    ContainsInfix(id + ". ", name, []);
    assert id + ". " + name + [] == title;
  }

  /** Two problems, each found by its marker: the first gets the tagged text
      between the markers, the second what follows its marker. */
  lemma TwoSlices(names: seq<string>, m0: Node, body0: seq<Node>, m1: Node, body1: seq<Node>)
    requires |names| == 2
    requires IsMarker(names, 0, m0) && Unmarked(names, 1, body0) && IsMarker(names, 1, m1)
    ensures var last := TaggedTexts(body1);
            Segment(names, [m0] + body0 + [m1] + body1) ==
              Outcome([Write(names[0], Join(TaggedTexts(body0), "\n"))] +
                        (if last == [] then [] else [Write(names[1], Join(last, "\n"))]), false)
  {
    TwoSlicesRun(names, m0, body0, m1, body1);
    FlushTwo(names, TaggedTexts(body0), TaggedTexts(body1));
  }

  /** The final flush after the second marker. */
  lemma FlushTwo(names: seq<string>, first: seq<string>, last: seq<string>)
    requires |names| == 2
    ensures Flush(names, Cursor(2, last, [Write(names[0], Join(first, "\n"))])) ==
              Outcome([Write(names[0], Join(first, "\n"))] +
                        (if last == [] then [] else [Write(names[1], Join(last, "\n"))]), false)
  {
  }

  lemma TwoSlicesRun(names: seq<string>, m0: Node, body0: seq<Node>, m1: Node, body1: seq<Node>)
    requires |names| == 2
    requires IsMarker(names, 0, m0) && Unmarked(names, 1, body0) && IsMarker(names, 1, m1)
    ensures RunFrom(names, START, [m0] + body0 + [m1] + body1) ==
              Cursor(2, TaggedTexts(body1), [Write(names[0], Join(TaggedTexts(body0), "\n"))])
  {
    var c0 := Cursor(0, [], []);
    assert c0 == START && c0.index + 1 == 1;
    RunAppend(names, c0, [m0] + body0, [m1] + body1);
    assert [m0] + body0 + [m1] + body1 == ([m0] + body0) + ([m1] + body1);
    MarkerThenBody(names, c0, m0, body0);
    var c1 := Cursor(1, TaggedTexts(body0), []);
    assert Unmarked(names, c1.index + 1, body1);
    MarkerThenBody(names, c1, m1, body1);
  }

  /** A tagged child whose text has no surrounding whitespace contributes
      exactly its text. */
  lemma TaggedSingle(n: Node)
    requires IsTagged(n)
    requires n.text != [] ==> !IsSpace(n.text[0]) && !IsSpace(n.text[|n.text| - 1])
    ensures TaggedTexts([n]) == [n.text] && Join(TaggedTexts([n]), "\n") == n.text
  {
    assert [n][..0] == [];
    StripUnchanged(n.text);
  }

  lemma TwoTitlesMarked(names: seq<string>, idA: string, nameA: string, idB: string, nameB: string, m0: Node, b0: Node, m1: Node)
    requires TitleParts(idA, nameA) && TitleParts(idB, nameB)
    requires names == [idA + ". " + nameA, idB + ". " + nameB]
    requires m0.text == names[0] && m1.text == names[1] && !Contains(b0.text, nameB)
    ensures IsMarker(names, 0, m0) && Unmarked(names, 1, [b0]) && IsMarker(names, 1, m1)
  {
    TitleMarks(names[0], idA, nameA);
    TitleMarks(names[1], idB, nameB);
  }

  /** Two problems "<idA>. <nameA>" and "<idB>. <nameB>", and the tagged
      children: the first title, an intro that does not mention the second
      name, the second title, an outro (for instance "A. Sum", "intro text",
      "B. Product", "outro text"). The intro goes to the first problem, the
      outro to the second. */
  lemma TwoProblems(names: seq<string>, nodes: seq<Node>, idA: string, nameA: string, idB: string, nameB: string,
                    tag: string, intro: string, outro: string)
    requires TitleParts(idA, nameA) && TitleParts(idB, nameB)
    requires names == [idA + ". " + nameA, idB + ". " + nameB]
    requires tag != [] && !Contains(intro, nameB)
    requires intro != [] ==> !IsSpace(intro[0]) && !IsSpace(intro[|intro| - 1])
    requires outro != [] ==> !IsSpace(outro[0]) && !IsSpace(outro[|outro| - 1])
    requires nodes == [Node(Some(tag), names[0]), Node(Some(tag), intro), Node(Some(tag), names[1]), Node(Some(tag), outro)]
    ensures Segment(names, nodes) == Outcome([Write(names[0], intro), Write(names[1], outro)], false)
  {
    var m0, b0, m1, b1 := nodes[0], nodes[1], nodes[2], nodes[3];
    assert nodes == [m0] + [b0] + [m1] + [b1];
    TwoTitlesMarked(names, idA, nameA, idB, nameB, m0, b0, m1);
    TwoSlices(names, m0, [b0], m1, [b1]);
    TaggedSingle(b0);
    TaggedSingle(b1);
    assert [Write(names[0], intro)] + [Write(names[1], outro)] == [Write(names[0], intro), Write(names[1], outro)];
  }

  lemma SumProductTitles()
    ensures "A. Sum" == "A" + ". " + "Sum" && "B. Product" == "B" + ". " + "Product"
  {
  }

  lemma SumProductParts()
    ensures TitleParts("A", "Sum") && TitleParts("B", "Product")
  {
  }

  /** Problems "A. Sum" and "B. Product"; children "A. Sum", "intro text",
      "B. Product", "outro text", all paragraphs. */
  lemma SumProductEditorial(names: seq<string>, nodes: seq<Node>)
    requires names == ["A. Sum", "B. Product"]
    requires nodes == [Node(Some("p"), "A. Sum"), Node(Some("p"), "intro text"),
                       Node(Some("p"), "B. Product"), Node(Some("p"), "outro text")]
    ensures Segment(names, nodes) == Outcome([Write("A. Sum", "intro text"), Write("B. Product", "outro text")], false)
  {
    SumProductTitles();
    SumProductParts();
    NotContainsFirstChar("intro text", "Product");
    TwoProblems(names, nodes, "A", "Sum", "B", "Product", "p", "intro text", "outro text");
  }
}
