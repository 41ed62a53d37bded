/**
 Unified diffs: the edit script cut into hunks with surrounding context, where hunks whose contexts
 would overlap are joined.  A diff is read back as the code writes it: every range starts at the line
 that its header names.
 */
module UnifiedDiff {
  import opened Common
  import opened EditDistance

  // A hunk line: tagged ' ' for no change, '-' for deletion and '+' for addition.
  datatype Line = Line(tag: char, text: string)

  // A printed hunk: "@@ -leftStart,leftLength +rightStart,rightLength @@", then its lines.
  datatype HunkText = HunkText(leftStart: nat, leftLength: nat, rightStart: nat, rightLength: nat, lines: seq<Line>)

  // The lines of the old text that a hunk shows, and those of the new text.
  ghost function LeftOf(lines: seq<Line>): seq<string> {
    if lines == [] then []
    else
      var last := lines[|lines| - 1];
      LeftOf(lines[..|lines| - 1]) + if last.tag == '+' then [] else [last.text]
  }

  ghost function RightOf(lines: seq<Line>): seq<string> {
    if lines == [] then []
    else
      var last := lines[|lines| - 1];
      RightOf(lines[..|lines| - 1]) + if last.tag == '-' then [] else [last.text]
  }

  lemma SidesOfAppend(lines: seq<Line>, x: Line)
    ensures LeftOf(lines + [x]) == LeftOf(lines) + if x.tag == '+' then [] else [x.text]
    ensures RightOf(lines + [x]) == RightOf(lines) + if x.tag == '-' then [] else [x.text]
  {
    assert (lines + [x])[..|lines + [x]| - 1] == lines;
  }

  lemma {:induction false} SidesOfConcat(a: seq<Line>, b: seq<Line>)
    ensures LeftOf(a + b) == LeftOf(a) + LeftOf(b)
    ensures RightOf(a + b) == RightOf(a) + RightOf(b)
  {
    if b == [] {
      assert a + b == a;
    } else {
      var rest, x := b[..|b| - 1], b[|b| - 1];
      assert b == rest + [x] && a + b == a + rest + [x];
      SidesOfAppend(rest, x);
      SidesOfAppend(a + rest, x);
      hide LeftOf, RightOf;
      SidesOfConcat(a, rest);
    }
  }

  ghost predicate AllTagged(lines: seq<Line>, tag: char) {
    forall line | line in lines :: line.tag == tag
  }

  lemma {:induction false} SidesOfTagged(lines: seq<Line>)
    ensures AllTagged(lines, '-') ==> RightOf(lines) == []
    ensures AllTagged(lines, '+') ==> LeftOf(lines) == []
  {
    if lines != [] {
      SidesOfTagged(lines[..|lines| - 1]);
    }
  }

  // --------------------------------------------------------------------------
  // Applying a diff
  // --------------------------------------------------------------------------

  // How far a patch has read the old text, and what it has written.
  datatype Progress = Progress(at: nat, output: seq<string>)

  // A hunk applies when it lies after the previous one, its header counts its lines, the old
  // lines it shows are those of the text, and its position in the new text is the announced one.
  ghost function ApplyHunk(left: seq<string>, p: Progress, h: HunkText): Option<Progress> {
    var start := h.leftStart - 1;
    if && p.at <= start
       && start + h.leftLength <= |left|
       && LeftOf(h.lines) == left[start..start + h.leftLength]
       && |p.output| + (start - p.at) == h.rightStart - 1
       && |RightOf(h.lines)| == h.rightLength
    then Some(Progress(start + h.leftLength, p.output + left[p.at..start] + RightOf(h.lines)))
    else None
  }

  ghost function ApplyHunks(left: seq<string>, hunks: seq<HunkText>): Option<Progress> {
    if hunks == [] then Some(Progress(0, []))
    else
      match ApplyHunks(left, hunks[..|hunks| - 1])
      case None => None
      case Some(p) => ApplyHunk(left, p, hunks[|hunks| - 1])
  }

  ghost function Apply(left: seq<string>, hunks: seq<HunkText>): Option<seq<string>> {
    match ApplyHunks(left, hunks)
    case None => None
    case Some(p) => if p.at <= |left| then Some(p.output + left[p.at..]) else None
  }

  // --------------------------------------------------------------------------
  // What a diff joins
  // --------------------------------------------------------------------------

  // The pairs of positions at which lines, starting at line l of the old text and line r of the
  // new one, show one line as the same in both.
  ghost function Joins(lines: seq<Line>, l: nat, r: nat): seq<(nat, nat)> {
    if lines == [] then []
    else
      var front := lines[..|lines| - 1];
      Joins(front, l, r) + if lines[|lines| - 1].tag == ' ' then [(l + |LeftOf(front)|, r + |RightOf(front)|)] else []
  }

  lemma JoinsOfAppend(lines: seq<Line>, x: Line, l: nat, r: nat)
    ensures Joins(lines + [x], l, r) ==
            Joins(lines, l, r) + if x.tag == ' ' then [(l + |LeftOf(lines)|, r + |RightOf(lines)|)] else []
  {
    assert (lines + [x])[..|lines + [x]| - 1] == lines;
  }

  lemma {:induction false} JoinsOfConcat(a: seq<Line>, b: seq<Line>, l: nat, r: nat)
    ensures Joins(a + b, l, r) == Joins(a, l, r) + Joins(b, l + |LeftOf(a)|, r + |RightOf(a)|)
  {
    hide LeftOf, RightOf;
    if b == [] {
      assert a + b == a;
    } else {
      var rest, x := b[..|b| - 1], b[|b| - 1];
      assert b == rest + [x] && a + b == a + rest + [x];
      SidesOfConcat(a, rest);
      JoinsOfAppend(rest, x, l + |LeftOf(a)|, r + |RightOf(a)|);
      JoinsOfAppend(a + rest, x, l, r);
      hide Joins;
      JoinsOfConcat(a, rest, l, r);
    }
  }

  lemma {:induction false} JoinsOfAdditions(lines: seq<Line>, additions: seq<Line>, l: nat, r: nat)
    requires AllTagged(additions, '+')
    ensures Joins(lines + additions, l, r) == Joins(lines, l, r)
  {
    if additions == [] {
      assert lines + additions == lines;
    } else {
      var rest, x := additions[..|additions| - 1], additions[|additions| - 1];
      JoinsOfAdditions(lines, rest, l, r);
      JoinsOfAppend(lines + rest, x, l, r);
      assert lines + additions == lines + rest + [x];
    }
  }

  // Two positions are joined exactly by an unchanged line at these positions, and there are as
  // many pairs as unchanged lines.
  lemma {:induction false} JoinedIff(lines: seq<Line>, l: nat, r: nat, i: nat, j: nat)
    ensures (i, j) in Joins(lines, l, r)
            <==> exists k | 0 <= k < |lines| ::
              lines[k].tag == ' ' && i == l + |LeftOf(lines[..k])| && j == r + |RightOf(lines[..k])|
    ensures |Joins(lines, l, r)| == Count(lines, ' ')
  {
    hide LeftOf, RightOf;
    if lines != [] {
      var n, front := |lines| - 1, lines[..|lines| - 1];
      JoinedIff(front, l, r, i, j);
      assert forall k | 0 <= k <= n :: front[..k] == lines[..k];
      assert forall k | 0 <= k < n :: front[k] == lines[k];
    }
  }

  ghost function Count(lines: seq<Line>, tag: char): nat {
    if lines == [] then 0 else Count(lines[..|lines| - 1], tag) + if lines[|lines| - 1].tag == tag then 1 else 0
  }

  ghost function Diagonal(l: nat, r: nat, n: nat): seq<(nat, nat)> {
    seq(n, (k: nat) => (l + k, r + k))
  }

  lemma {:induction false} UnchangedLinesJoin(lines: seq<Line>, l: nat, r: nat)
    requires AllTagged(lines, ' ')
    ensures Joins(lines, l, r) == Diagonal(l, r, |lines|)
    ensures |LeftOf(lines)| == |RightOf(lines)| == |lines|
  {
    if lines != [] {
      UnchangedLinesJoin(lines[..|lines| - 1], l, r);
    }
  }

  // The same for an edit script: where it matches.
  ghost function Matched(edits: seq<EditType>): seq<(nat, nat)> {
    if edits == [] then []
    else
      var front := edits[..|edits| - 1];
      Matched(front) + if edits[|edits| - 1] == Match then [(LeftLen(front), RightLen(front))] else []
  }

  lemma {:induction false} MatchedIff(edits: seq<EditType>, i: nat, j: nat)
    ensures (i, j) in Matched(edits)
            <==> exists e | 0 <= e < |edits| :: edits[e] == Match && i == LeftLen(edits[..e]) && j == RightLen(edits[..e])
  {
    hide LeftLen, RightLen;
    if edits != [] {
      var n, front := |edits| - 1, edits[..|edits| - 1];
      MatchedIff(front, i, j);
      assert forall k | 0 <= k <= n :: front[..k] == edits[..k];
      assert forall k | 0 <= k < n :: front[k] == edits[k];
    }
  }

  // One more edit joins one more pair, or none.
  lemma MatchedNext(edits: seq<EditType>, left: seq<string>, right: seq<string>, e: nat, l: nat, r: nat)
    requires e < |edits| && Reaches(edits, left, right, e, l, r)
    ensures Matched(edits[..e + 1]) == Matched(edits[..e]) + if edits[e] == Match then [(l, r)] else []
  {
    hide LeftLen, RightLen;
    assert edits[..e + 1][..e] == edits[..e];
  }

  ghost function Kept(lines: seq<string>): (kept: seq<Line>)
    ensures AllTagged(kept, ' ')
  {
    seq(|lines|, k requires 0 <= k < |lines| => Line(' ', lines[k]))
  }

  lemma {:induction false} SidesOfKept(lines: seq<string>)
    ensures LeftOf(Kept(lines)) == lines && RightOf(Kept(lines)) == lines
  {
    if lines != [] {
      var rest := lines[..|lines| - 1];
      SidesOfKept(rest);
      assert Kept(lines)[..|lines| - 1] == Kept(rest);
    }
  }

  ghost function Slice(lines: seq<string>, from: int, to: int): seq<string> {
    if 0 <= from <= to <= |lines| then lines[from..to] else []
  }

  // The line of the old text behind the last hunk.
  ghost function EndOf(hunks: seq<HunkText>): int {
    if hunks == [] then 0 else hunks[|hunks| - 1].leftStart - 1 + hunks[|hunks| - 1].leftLength
  }

  // The hunks' lines, with the lines of the old text that were left out before each of them ...
  ghost function UnfoldTo(left: seq<string>, hunks: seq<HunkText>): seq<Line> {
    if hunks == [] then []
    else
      var front, h := hunks[..|hunks| - 1], hunks[|hunks| - 1];
      UnfoldTo(left, front) + Kept(Slice(left, EndOf(front), h.leftStart - 1)) + h.lines
  }

  // ... and behind the last: the diff with unlimited context.
  ghost function Unfold(left: seq<string>, hunks: seq<HunkText>): seq<Line> {
    UnfoldTo(left, hunks) + Kept(Slice(left, EndOf(hunks), |left|))
  }

  // The diff says what the script says: the two texts, and which of their lines are the same.
  ghost predicate Replays(hunks: seq<HunkText>, left: seq<string>, right: seq<string>, edits: seq<EditType>) {
    var lines := Unfold(left, hunks);
    LeftOf(lines) == left && RightOf(lines) == right && Joins(lines, 0, 0) == Matched(edits)
  }

  lemma {:induction false} LinesAreCounted(lines: seq<Line>)
    requires forall line | line in lines :: line.tag in " -+"
    ensures Count(lines, ' ') + Count(lines, '-') == |LeftOf(lines)|
    ensures Count(lines, ' ') + Count(lines, '+') == |RightOf(lines)|
  {
    if lines != [] {
      LinesAreCounted(lines[..|lines| - 1]);
    }
  }

  ghost function CountOf(edits: seq<EditType>, edit: EditType): nat {
    if edits == [] then 0 else CountOf(edits[..|edits| - 1], edit) + if edits[|edits| - 1] == edit then 1 else 0
  }

  lemma {:induction false} EditsAreCounted(edits: seq<EditType>)
    ensures |Matched(edits)| == CountOf(edits, Match)
    ensures LeftLen(edits) == CountOf(edits, Match) + CountOf(edits, Remove) + CountOf(edits, Replace)
    ensures RightLen(edits) == CountOf(edits, Match) + CountOf(edits, Add) + CountOf(edits, Replace)
  {
    if edits != [] {
      EditsAreCounted(edits[..|edits| - 1]);
    }
  }

  lemma {:induction false} TagsOfUnfold(left: seq<string>, hunks: seq<HunkText>)
    requires forall h | h in hunks :: forall line | line in h.lines :: line.tag in " -+"
    ensures forall line | line in Unfold(left, hunks) :: line.tag in " -+"
  {
    hide Kept, Slice;
    if hunks != [] {
      TagsOfUnfold(left, hunks[..|hunks| - 1]);
      assert hunks[|hunks| - 1] in hunks;
    }
  }

  // Then it removes and adds as many lines as the script.
  lemma ChangesAreCounted(hunks: seq<HunkText>, left: seq<string>, right: seq<string>, edits: seq<EditType>)
    requires Replays(hunks, left, right, edits) && IsScript(edits, left, right)
    requires forall h | h in hunks :: forall line | line in h.lines :: line.tag in " -+"
    ensures var lines := Unfold(left, hunks);
            && Count(lines, ' ') == CountOf(edits, Match)
            && Count(lines, '-') == CountOf(edits, Remove) + CountOf(edits, Replace)
            && Count(lines, '+') == CountOf(edits, Add) + CountOf(edits, Replace)
  {
    hide Unfold, LeftOf, RightOf, Joins, Matched, LeftLen, RightLen, Count, CountOf, Transforms;
    var lines := Unfold(left, hunks);
    TagsOfUnfold(left, hunks);
    LinesAreCounted(lines);
    JoinedIff(lines, 0, 0, 0, 0);
    EditsAreCounted(edits);
    PrefixTransforms(edits, left, right, |left|, |right|, 0);
  }

  // How far the hunks printed so far replay the script.
  ghost predicate ReplaysTo(hunks: seq<HunkText>, left: seq<string>, right: seq<string>, edits: seq<EditType>,
                            e: nat, l: nat, r: nat)
  {
    && e <= |edits| && l <= |left| && r <= |right| && EndOf(hunks) == l
    && LeftOf(UnfoldTo(left, hunks)) == left[..l] && RightOf(UnfoldTo(left, hunks)) == right[..r]
    && Joins(UnfoldTo(left, hunks), 0, 0) == Matched(edits[..e])
  }

  lemma NothingReplayed(left: seq<string>, right: seq<string>, edits: seq<EditType>)
    ensures ReplaysTo([], left, right, edits, 0, 0, 0)
  {
    assert edits[..0] == [];
  }

  // Unchanged lines behind what is shown so far.
  lemma KeptJoins(shown: seq<Line>, kept: seq<string>)
    ensures LeftOf(shown + Kept(kept)) == LeftOf(shown) + kept && RightOf(shown + Kept(kept)) == RightOf(shown) + kept
    ensures Joins(shown + Kept(kept), 0, 0) ==
            Joins(shown, 0, 0) + Diagonal(|LeftOf(shown)|, |RightOf(shown)|, |kept|)
  {
    hide LeftOf, RightOf, Joins;
    SidesOfKept(kept);
    SidesOfConcat(shown, Kept(kept));
    JoinsOfConcat(shown, Kept(kept), 0, 0);
    UnchangedLinesJoin(Kept(kept), |LeftOf(shown)|, |RightOf(shown)|);
  }

  lemma UnfoldMore(left: seq<string>, hunks: seq<HunkText>, h: HunkText)
    ensures UnfoldTo(left, hunks + [h]) == UnfoldTo(left, hunks) + Kept(Slice(left, EndOf(hunks), h.leftStart - 1)) + h.lines
    ensures EndOf(hunks + [h]) == h.leftStart - 1 + h.leftLength
  {
    hide Kept;
    assert (hunks + [h])[..|hunks + [h]| - 1] == hunks;
  }

  lemma ReplaysMore(hunks: seq<HunkText>, h: HunkText, left: seq<string>, right: seq<string>, edits: seq<EditType>,
                    e: nat, l: nat, r: nat, ls: nat, rs: nat, e': nat, l': nat, r': nat)
    requires ReplaysTo(hunks, left, right, edits, e, l, r)
    requires l <= ls <= |left| && r <= rs <= |right| && left[l..ls] == right[r..rs]
    requires Shows(h.lines, left, right, ls, l', rs, r') && e' <= |edits|
    requires h.leftStart == ls + 1 && h.leftLength == |LeftOf(h.lines)|
    requires Matched(edits[..e]) + Diagonal(l, r, ls - l) + Joins(h.lines, ls, rs) == Matched(edits[..e'])
    ensures ReplaysTo(hunks + [h], left, right, edits, e', l', r')
  {
    hide LeftOf, RightOf, Joins, Matched, UnfoldTo, EndOf, Kept;
    UnfoldMore(left, hunks, h);
    var shown := UnfoldTo(left, hunks);
    KeptJoins(shown, left[l..ls]);
    var before := shown + Kept(left[l..ls]);
    SidesOfConcat(before, h.lines);
    JoinsOfConcat(before, h.lines, 0, 0);
    SlicesOf(left, l, ls, l');
    SlicesOf(right, r, rs, r');
    assert |left[l..ls]| == |right[r..rs]|;
    assert left[..l] + left[l..ls] == left[..ls] && right[..r] + right[r..rs] == right[..rs];
  }

  lemma ReplaysAll(hunks: seq<HunkText>, left: seq<string>, right: seq<string>, edits: seq<EditType>,
                   e: nat, l: nat, r: nat)
    requires ReplaysTo(hunks, left, right, edits, e, l, r) && left[l..] == right[r..]
    requires Matched(edits) == Matched(edits[..e]) + Diagonal(l, r, |left| - l)
    ensures Replays(hunks, left, right, edits)
  {
    hide LeftOf, RightOf, Joins, Matched, UnfoldTo, EndOf, Kept;
    KeptJoins(UnfoldTo(left, hunks), left[l..]);
    assert Slice(left, EndOf(hunks), |left|) == left[l..];
    assert left[..l] + left[l..] == left && right[..r] + right[r..] == right;
  }

  // --------------------------------------------------------------------------
  // Walking an edit script from the front
  // --------------------------------------------------------------------------

  function LeftLen(edits: seq<EditType>): nat {
    if edits == [] then 0 else LeftLen(edits[..|edits| - 1]) + if edits[|edits| - 1] == Add then 0 else 1
  }

  function RightLen(edits: seq<EditType>): nat {
    if edits == [] then 0 else RightLen(edits[..|edits| - 1]) + if edits[|edits| - 1] == Remove then 0 else 1
  }

  ghost predicate IsScript(edits: seq<EditType>, left: seq<string>, right: seq<string>) {
    Transforms(edits, left, right, |left|, |right|)
  }

  // After the first e edits, l lines of left and r lines of right are dealt with.
  ghost predicate Reaches(edits: seq<EditType>, left: seq<string>, right: seq<string>, e: nat, l: nat, r: nat) {
    && e <= |edits| && l <= |left| && r <= |right|
    && LeftLen(edits[..e]) == l && RightLen(edits[..e]) == r
    && (e == |edits| ==> l == |left| && r == |right|)
  }

  lemma {:induction false} PrefixTransforms(edits: seq<EditType>, left: seq<string>, right: seq<string>,
                                            i: nat, j: nat, e: nat)
    requires i <= |left| && j <= |right| && e <= |edits| && Transforms(edits, left, right, i, j)
    ensures LeftLen(edits) == i && RightLen(edits) == j
    ensures LeftLen(edits[..e]) <= |left| && RightLen(edits[..e]) <= |right|
    ensures Transforms(edits[..e], left, right, LeftLen(edits[..e]), RightLen(edits[..e]))
    decreases |edits|
  {
    if edits != [] {
      var rest, move := edits[..|edits| - 1], edits[|edits| - 1];
      var i', j' := if move != Add then i - 1 else i, if move != Remove then j - 1 else j;
      PrefixTransforms(rest, left, right, i', j', if e < |edits| then e else e - 1);
      if e < |edits| {
        assert rest[..e] == edits[..e];
      } else {
        assert edits[..e] == edits;
      }
    } else {
      assert edits[..e] == edits;
    }
  }

  // What the next edit says about the next lines, and where it leads.
  lemma NextEdit(edits: seq<EditType>, left: seq<string>, right: seq<string>, e: nat, l: nat, r: nat)
    requires IsScript(edits, left, right) && e < |edits| && Reaches(edits, left, right, e, l, r)
    ensures edits[e] != Add ==> l < |left|
    ensures edits[e] != Remove ==> r < |right|
    ensures edits[e] == Match ==> left[l] == right[r]
    ensures edits[e] == Replace ==> left[l] != right[r]
    ensures Reaches(edits, left, right, e + 1, if edits[e] == Add then l else l + 1, if edits[e] == Remove then r else r + 1)
  {
    var upTo := edits[..e + 1];
    assert upTo[..e] == edits[..e] && upTo[e] == edits[e];
    PrefixTransforms(edits, left, right, |left|, |right|, e + 1);
    if e + 1 == |edits| {
      assert upTo == edits;
    }
  }

  lemma StartOfScript(edits: seq<EditType>, left: seq<string>, right: seq<string>)
    requires IsScript(edits, left, right)
    ensures Reaches(edits, left, right, 0, 0, 0)
  {
    assert edits[..0] == [];
  }

  ghost predicate AllMatch(edits: seq<EditType>, from: nat, to: nat)
    requires to <= |edits|
  {
    forall k | from <= k < to :: edits[k] == Match
  }

  // --------------------------------------------------------------------------
  // The shape of a hunk
  // --------------------------------------------------------------------------

  // How many unchanged lines a hunk ends with.
  ghost function TrailingContext(lines: seq<Line>): nat {
    if lines == [] || lines[|lines| - 1].tag != ' ' then 0 else TrailingContext(lines[..|lines| - 1]) + 1
  }

  // Fewer than `limit` unchanged lines in a row anywhere.
  ghost predicate Tight(lines: seq<Line>, limit: nat) {
    lines == [] || (Tight(lines[..|lines| - 1], limit) && TrailingContext(lines) < limit)
  }

  // The first change is at line p.
  ghost predicate Leads(lines: seq<Line>, p: nat) {
    p < |lines| && lines[p].tag != ' ' && forall k | 0 <= k < p :: lines[k].tag == ' '
  }

  // Between two unchanged lines all removals come before all additions.
  ghost predicate Grouped(lines: seq<Line>) {
    && (forall line | line in lines :: line.tag in " -+")
    && forall k | 0 < k < |lines| :: lines[k - 1].tag == '+' ==> lines[k].tag != '-'
  }

  // `context` unchanged lines before the first change and after the last one, fewer only at the
  // ends of the texts; and changes with 2 * context or more unchanged lines between them are not
  // in the same hunk.
  ghost predicate WellShaped(h: HunkText, context: nat, leftSize: nat, rightSize: nat) {
    && h.leftLength == |LeftOf(h.lines)| && h.rightLength == |RightOf(h.lines)|
    && h.leftStart - 1 + h.leftLength <= leftSize && h.rightStart - 1 + h.rightLength <= rightSize
    && h.leftStart >= 1 && h.rightStart >= 1
    && Tight(h.lines, 2 * context) && Grouped(h.lines)
    && (exists p: nat | p == context || (p < context && h.leftStart == 1 && h.rightStart == 1) :: Leads(h.lines, p))
    && (|| TrailingContext(h.lines) == context
        || (&& TrailingContext(h.lines) < context
            && h.leftStart - 1 + h.leftLength == leftSize && h.rightStart - 1 + h.rightLength == rightSize))
  }

  // A hunk without lines on one side has only lines of the other side.
  lemma {:induction false} OneSided(lines: seq<Line>)
    ensures LeftOf(lines) == [] || RightOf(lines) == [] ==> forall k | 0 <= k < |lines| :: lines[k].tag != ' '
  {
    if lines != [] {
      OneSided(lines[..|lines| - 1]);
    }
  }

  lemma LeadsAtOnce(lines: seq<Line>, p: nat)
    requires Leads(lines, p) && forall k | 0 <= k < |lines| :: lines[k].tag != ' '
    ensures p == 0
  {
    var first := lines[0].tag;
  }

  lemma NoTrailingContext(lines: seq<Line>)
    requires lines != [] && lines[|lines| - 1].tag != ' '
    ensures TrailingContext(lines) == 0
  {
  }

  // Only an empty text has an empty range in a header.
  lemma EmptyRangeIff(h: HunkText, context: nat, leftSize: nat, rightSize: nat)
    requires WellShaped(h, context, leftSize, rightSize) && context > 0
    ensures h.leftLength == 0 <==> leftSize == 0
    ensures h.rightLength == 0 <==> rightSize == 0
  {
    hide LeftOf, RightOf, Tight, TrailingContext;
    if h.leftLength == 0 || h.rightLength == 0 {
      OneSided(h.lines);
      var p: nat :| (p == context || (p < context && h.leftStart == 1 && h.rightStart == 1)) && Leads(h.lines, p);
      LeadsAtOnce(h.lines, p);
      NoTrailingContext(h.lines);
    }
  }

  lemma {:induction false} TightIsMonotone(lines: seq<Line>, limit: nat, larger: nat)
    requires Tight(lines, limit) && limit <= larger
    ensures Tight(lines, larger)
  {
    if lines != [] {
      TightIsMonotone(lines[..|lines| - 1], limit, larger);
    }
  }

  lemma ShapeOfAppend(lines: seq<Line>, x: Line, limit: nat)
    ensures TrailingContext(lines + [x]) == if x.tag == ' ' then TrailingContext(lines) + 1 else 0
    ensures Tight(lines + [x], limit) <==> Tight(lines, limit) && TrailingContext(lines + [x]) < limit
    ensures forall p: nat | Leads(lines, p) :: Leads(lines + [x], p)
  {
    assert (lines + [x])[..|lines + [x]| - 1] == lines;
  }

  lemma {:induction false} ShapeOfAdditions(lines: seq<Line>, additions: seq<Line>, limit: nat)
    requires AllTagged(additions, '+') && limit > 0
    ensures Tight(lines + additions, limit) <==> Tight(lines, limit)
    ensures TrailingContext(lines + additions) == if additions == [] then TrailingContext(lines) else 0
  {
    if additions == [] {
      assert lines + additions == lines;
    } else {
      var rest, x := additions[..|additions| - 1], additions[|additions| - 1];
      ShapeOfAdditions(lines, rest, limit);
      ShapeOfAppend(lines + rest, x, limit);
      assert lines + additions == lines + rest + [x];
    }
  }

  lemma ShapeOfRemoval(lines: seq<Line>, x: Line, additions: seq<Line>, limit: nat)
    requires x.tag == '-' && AllTagged(additions, '+') && limit > 0
    ensures Tight(lines + [x] + additions, limit) <==> Tight(lines + additions, limit)
    ensures TrailingContext(lines + [x] + additions) == 0
    ensures forall p: nat | Leads(lines + additions, p) :: Leads(lines + [x] + additions, p)
  {
    ShapeOfAdditions(lines, additions, limit);
    ShapeOfAdditions(lines + [x], additions, limit);
    ShapeOfAppend(lines, x, limit);
    forall p: nat | Leads(lines + additions, p)
      ensures Leads(lines + [x] + additions, p)
    {
      assert additions != [] ==> (lines + additions)[|lines|] == additions[0];
      assert p <= |lines|;
      assert forall k | 0 <= k < p :: (lines + [x] + additions)[k] == (lines + additions)[k];
    }
  }

  // --------------------------------------------------------------------------
  // One hunk
  // --------------------------------------------------------------------------

  // What pushing the line x does to a hunk's printed lines: both sides, the unchanged lines at
  // the end, and the place of the first change.
  ghost predicate Grew(before: seq<Line>, after: seq<Line>, x: Line) {
    && LeftOf(after) == LeftOf(before) + (if x.tag == '+' then [] else [x.text])
    && RightOf(after) == RightOf(before) + (if x.tag == '-' then [] else [x.text])
    && (forall l: nat, r: nat ::
          Joins(after, l, r) ==
          Joins(before, l, r) + if x.tag == ' ' then [(l + |LeftOf(before)|, r + |RightOf(before)|)] else [])
    && TrailingContext(after) == (if x.tag == ' ' then TrailingContext(before) + 1 else 0)
    && (forall limit: nat | limit > 0 && Tight(before, limit) && TrailingContext(after) < limit :: Tight(after, limit))
    && (forall p: nat | Leads(before, p) :: Leads(after, p))
    && (AllTagged(before, ' ') && x.tag != ' ' ==> Leads(after, |before|))
  }

  lemma AppendGrows(lines: seq<Line>, x: Line)
    ensures Grew(lines, lines + [x], x)
  {
    hide LeftOf, RightOf, Tight, TrailingContext, Joins;
    SidesOfAppend(lines, x);
    ShapeOfAppend(lines, x, 1);
    forall l: nat, r: nat
      ensures Joins(lines + [x], l, r) ==
              Joins(lines, l, r) + if x.tag == ' ' then [(l + |LeftOf(lines)|, r + |RightOf(lines)|)] else []
    {
      JoinsOfAppend(lines, x, l, r);
    }
    forall limit: nat | limit > 0 && Tight(lines, limit) && TrailingContext(lines + [x]) < limit
      ensures Tight(lines + [x], limit)
    {
      ShapeOfAppend(lines, x, limit);
    }
  }

  // Inserting a removal x in front of pending additions.
  lemma RemovalGrows(lines: seq<Line>, x: Line, additions: seq<Line>)
    requires x.tag == '-' && AllTagged(additions, '+')
    ensures Grew(lines + additions, lines + [x] + additions, x)
  {
    hide LeftOf, RightOf, Tight, TrailingContext, Joins;
    SidesOfTagged(additions);
    SidesOfConcat(lines, additions);
    SidesOfConcat(lines + [x], additions);
    AppendGrows(lines, x);
    forall l: nat, r: nat
      ensures Joins(lines + [x] + additions, l, r) == Joins(lines + additions, l, r)
    {
      JoinsOfAdditions(lines, additions, l, r);
      JoinsOfAdditions(lines + [x], additions, l, r);
      JoinsOfAppend(lines, x, l, r);
    }
    ShapeOfRemoval(lines, x, additions, 1);
    forall limit: nat | limit > 0 && Tight(lines + additions, limit)
      ensures Tight(lines + [x] + additions, limit)
    {
      ShapeOfRemoval(lines, x, additions, limit);
    }
  }

  lemma PartsAreGrouped(lines: seq<Line>, removals: seq<Line>, additions: seq<Line>)
    requires Grouped(lines) && (lines != [] ==> lines[|lines| - 1].tag == ' ')
    requires AllTagged(removals, '-') && AllTagged(additions, '+')
    ensures Grouped(lines + removals + additions)
  {
    var all := lines + removals + additions;
    forall k | 0 < k < |all|
      ensures all[k - 1].tag == '+' ==> all[k].tag != '-'
    {
      if |lines| <= k < |lines| + |removals| {
        assert all[k - 1] == if k == |lines| then lines[k - 1] else removals[k - 1 - |lines|];
      } else if k >= |lines| + |removals| {
        assert all[k] in additions;
      }
    }
  }

  lemma GroupsGrow(lines: seq<Line>, x: Line)
    requires Grouped(lines) && x.tag == ' '
    ensures Grouped(lines + [x])
  {
  }

  class Hunk {
    const leftStart: nat
    const rightStart: nat
    var adds: nat
    var removes: nat
    var common: nat
    var hunk: seq<Line>
    var hunkAdds: seq<Line>
    var hunkRemoves: seq<Line>

    // The lines in the order in which they will be printed.
    ghost function Lines(): seq<Line>
      reads this
    {
      hunk + hunkRemoves + hunkAdds
    }

    ghost predicate Valid()
      reads this
    {
      && AllTagged(hunkRemoves, '-') && AllTagged(hunkAdds, '+')
      && Grouped(hunk) && (hunk != [] ==> hunk[|hunk| - 1].tag == ' ')
      && removes + common == |LeftOf(Lines())|
      && adds + common == |RightOf(Lines())|
    }

    predicate HasEdits()
      reads this
    {
      adds > 0 || removes > 0
    }

    constructor (leftStart: nat, rightStart: nat)
      ensures Valid() && Lines() == [] && !HasEdits()
      ensures this.leftStart == leftStart && this.rightStart == rightStart
    {
      this.leftStart, this.rightStart := leftStart, rightStart;
      adds, removes, common := 0, 0, 0;
      hunk, hunkAdds, hunkRemoves := [], [], [];
    }

    // Pending removals come before pending additions.
    method FlushEdits()
      modifies this`hunk, this`hunkAdds, this`hunkRemoves
      ensures hunk == old(Lines()) && hunkRemoves == [] && hunkAdds == []
    {
      hunk := hunk + hunkRemoves;
      hunkRemoves := [];
      hunk := hunk + hunkAdds;
      hunkAdds := [];
    }

    method PushLine(edit: char, line: string)
      requires Valid() && edit in " -+"
      modifies this
      ensures Valid()
      ensures Grew(old(Lines()), Lines(), Line(edit, line))
      ensures HasEdits() <==> old(HasEdits()) || edit != ' '
      ensures edit == ' ' ==> Lines() == old(Lines()) + [Line(' ', line)]
      ensures edit == '-' ==> Lines() == old(hunk + hunkRemoves + [Line('-', line)] + hunkAdds)
      ensures edit == '+' ==> Lines() == old(Lines()) + [Line('+', line)]
    {
      hide LeftOf, RightOf, Tight, TrailingContext, Leads, Joins;
      ghost var before, x := Lines(), Line(edit, line);
      PartsAreGrouped(hunk, hunkRemoves, hunkAdds);
      match edit {
        case ' ' =>
          AppendGrows(before, x);
          GroupsGrow(before, x);
          common := common + 1;
          FlushEdits();
          hunk := hunk + [Line(' ', line)];
          assert Lines() == before + [x];
        case '-' =>
          RemovalGrows(hunk + hunkRemoves, x, hunkAdds);
          assert hunk + (hunkRemoves + [x]) + hunkAdds == hunk + hunkRemoves + [x] + hunkAdds;
          removes := removes + 1;
          hunkRemoves := hunkRemoves + [Line('-', line)];
        case '+' =>
          AppendGrows(before, x);
          assert hunk + hunkRemoves + (hunkAdds + [x]) == before + [x];
          adds := adds + 1;
          hunkAdds := hunkAdds + [Line('+', line)];
      }
    }

    method PrintTo() returns (text: HunkText)
      requires Valid()
      modifies this`hunk, this`hunkAdds, this`hunkRemoves
      ensures text == HunkText(leftStart, |old(LeftOf(Lines()))|, rightStart, |old(RightOf(Lines()))|, old(Lines()))
      ensures Grouped(text.lines)
    {
      PartsAreGrouped(hunk, hunkRemoves, hunkAdds);
      var leftLength, rightLength := removes + common, adds + common;
      FlushEdits();
      text := HunkText(leftStart, leftLength, rightStart, rightLength, hunk);
    }
  }

  // --------------------------------------------------------------------------
  // Building the hunks
  // --------------------------------------------------------------------------

  // The lines show left[ls..l] as the old text and right[rs..r] as the new text.
  ghost predicate Shows(lines: seq<Line>, left: seq<string>, right: seq<string>, ls: nat, l: nat, rs: nat, r: nat) {
    && ls <= l <= |left| && rs <= r <= |right|
    && LeftOf(lines) == left[ls..l] && RightOf(lines) == right[rs..r]
  }

  lemma GrewShows(before: seq<Line>, after: seq<Line>, x: Line, left: seq<string>, right: seq<string>,
                  ls: nat, l: nat, rs: nat, r: nat)
    requires Grew(before, after, x) && Shows(before, left, right, ls, l, rs, r)
    requires x.tag != '+' ==> l < |left| && x.text == left[l]
    requires x.tag != '-' ==> r < |right| && x.text == right[r]
    ensures Shows(after, left, right, ls, if x.tag == '+' then l else l + 1, rs, if x.tag == '-' then r else r + 1)
  {
    hide LeftOf, RightOf, Tight, TrailingContext, Leads, AllTagged;
    SliceGrows(left, ls, l);
    SliceGrows(right, rs, r);
  }

  lemma SliceGrows(lines: seq<string>, from: nat, to: nat)
    requires from <= to <= |lines|
    ensures to < |lines| ==> lines[from..to + 1] == lines[from..to] + [lines[to]]
    ensures lines[from..to] + [] == lines[from..to]
  {
  }

  // So far the hunk consists of unchanged lines.
  ghost predicate Begins(hunk: Hunk, left: seq<string>, right: seq<string>, ls: nat, l: nat, rs: nat, r: nat)
    reads hunk
  {
    && hunk.Valid() && !hunk.HasEdits() && AllTagged(hunk.Lines(), ' ') && |hunk.Lines()| == l - ls
    && Shows(hunk.Lines(), left, right, ls, l, rs, r)
    && TrailingContext(hunk.Lines()) == l - ls && Tight(hunk.Lines(), l - ls + 1)
  }

  // The lines show both texts so far.  If they hold a change, the first one is line `lead` and
  // nSuffix unchanged lines follow the last one; otherwise there are `lead` lines.
  ghost predicate Fills(lines: seq<Line>, left: seq<string>, right: seq<string>, ls: nat, l: nat, rs: nat, r: nat,
                        lead: nat, context: nat, changed: bool, nSuffix: nat)
  {
    && Shows(lines, left, right, ls, l, rs, r) && Tight(lines, 2 * context)
    && (if changed then Leads(lines, lead) && TrailingContext(lines) == nSuffix
        else AllTagged(lines, ' ') && |lines| == lead)
  }

  lemma FillsMore(before: seq<Line>, after: seq<Line>, x: Line, left: seq<string>, right: seq<string>,
                  ls: nat, l: nat, rs: nat, r: nat, lead: nat, context: nat, changed: bool, nSuffix: nat)
    requires Grew(before, after, x) && context > 0
    requires Fills(before, left, right, ls, l, rs, r, lead, context, changed, nSuffix)
    requires x.tag != '+' ==> l < |left| && x.text == left[l]
    requires x.tag != '-' ==> r < |right| && x.text == right[r]
    requires x.tag == ' ' ==> changed && nSuffix + 1 < 2 * context
    ensures Joins(after, ls, rs) == Joins(before, ls, rs) + if x.tag == ' ' then [(l, r)] else []
    ensures Fills(after, left, right, ls, if x.tag == '+' then l else l + 1, rs, if x.tag == '-' then r else r + 1,
                  lead, context, true, if x.tag == ' ' then nSuffix + 1 else 0)
  {
    hide LeftOf, RightOf, Tight, TrailingContext, Leads, AllTagged, Joins;
    GrewShows(before, after, x, left, right, ls, l, rs, r);
    assert |left[ls..l]| == l - ls && |right[rs..r]| == r - rs;
  }

  // One edit, at line l of the old text and line r of the new one, pushed onto a hunk.
  method PushEdit(hunk: Hunk, edit: EditType, left: seq<string>, right: seq<string>,
                  ghost ls: nat, l: nat, ghost rs: nat, r: nat, ghost lead: nat, ghost context: nat, ghost nSuffix: nat)
    requires (edit != Add ==> l < |left|) && (edit != Remove ==> r < |right|) && context > 0
    requires edit == Match ==> left[l] == right[r] && hunk.HasEdits() && nSuffix + 1 < 2 * context
    requires hunk.Valid() && Fills(hunk.Lines(), left, right, ls, l, rs, r, lead, context, hunk.HasEdits(), nSuffix)
    modifies hunk
    ensures hunk.Valid() && hunk.HasEdits()
    ensures Fills(hunk.Lines(), left, right, ls, if edit == Add then l else l + 1, rs, if edit == Remove then r else r + 1,
                  lead, context, true, if edit == Match then nSuffix + 1 else 0)
    ensures Joins(hunk.Lines(), ls, rs) == old(Joins(hunk.Lines(), ls, rs)) + if edit == Match then [(l, r)] else []
  {
    hide Grew, Fills, Joins;
    ghost var before, changed := hunk.Lines(), hunk.HasEdits();
    if edit == Match || edit == Remove || edit == Replace {
      ghost var x := Line(if edit == Match then ' ' else '-', left[l]);
      hunk.PushLine(if edit == Match then ' ' else '-', left[l]);
      FillsMore(before, hunk.Lines(), x, left, right, ls, l, rs, r, lead, context, changed, nSuffix);
    }
    if edit == Add {
      hunk.PushLine('+', right[r]);
      FillsMore(before, hunk.Lines(), Line('+', right[r]), left, right, ls, l, rs, r, lead, context, changed, nSuffix);
    } else if edit == Replace {
      ghost var middle := hunk.Lines();
      hunk.PushLine('+', right[r]);
      FillsMore(middle, hunk.Lines(), Line('+', right[r]), left, right, ls, l + 1, rs, r, lead, context, true, 0);
    }
  }

  lemma DiagonalGrows(l: nat, r: nat, n: nat)
    ensures Diagonal(l, r, n + 1) == Diagonal(l, r, n) + [(l + n, r + n)]
  {
  }

  // Skips the unchanged lines before the next change.
  method SkipMatches(edits: seq<EditType>, ghost left: seq<string>, ghost right: seq<string>,
                     e0: nat, l0: nat, r0: nat) returns (e: nat, l: nat, r: nat)
    requires IsScript(edits, left, right) && Reaches(edits, left, right, e0, l0, r0)
    ensures Reaches(edits, left, right, e, l, r)
    ensures e - e0 == l - l0 == r - r0 >= 0
    ensures AllMatch(edits, e0, e) && (e < |edits| ==> edits[e] != Match)
    ensures left[l0..l] == right[r0..r]
    ensures Matched(edits[..e]) == Matched(edits[..e0]) + Diagonal(l0, r0, e - e0)
  {
    hide Matched, IsScript, Reaches;
    e, l, r := e0, l0, r0;
    ReachesNoFurther(edits, left, right, e, l, r);
    assert Matched(edits[..e]) == Matched(edits[..e0]) + Diagonal(l0, r0, 0);
    while e < |edits| && edits[e] == Match
      invariant Reaches(edits, left, right, e, l, r)
      invariant e - e0 == l - l0 == r - r0 >= 0 && e <= |edits|
      invariant l <= |left| && r <= |right| && AllMatch(edits, e0, e) && left[l0..l] == right[r0..r]
      invariant Matched(edits[..e]) == Matched(edits[..e0]) + Diagonal(l0, r0, e - e0)
    {
      NextEdit(edits, left, right, e, l, r);
      ReachesNoFurther(edits, left, right, e + 1, l + 1, r + 1);
      MatchedNext(edits, left, right, e, l, r);
      DiagonalGrows(l0, r0, e - e0);
      assert left[l0..l + 1] == left[l0..l] + [left[l]] && right[r0..r + 1] == right[r0..r] + [right[r]];
      e, l, r := e + 1, l + 1, r + 1;
    }
  }

  // A change follows within the next `distance` edits.
  ghost predicate NearChange(edits: seq<EditType>, e: nat, distance: int)
    requires e <= |edits|
  {
    exists q :: e <= q < |edits| && edits[q] != Match && q - e < distance
  }

  // No change follows, or `context` unchanged lines come first.
  ghost predicate FarFromNext(edits: seq<EditType>, e: nat, context: nat)
    requires e <= |edits|
  {
    AllMatch(edits, e, |edits|) || (e + context <= |edits| && AllMatch(edits, e, e + context))
  }

  method IsChangeNear(edits: seq<EditType>, e: nat, context: nat) returns (near: bool)
    requires e <= |edits|
    ensures near <==> NearChange(edits, e, context)
    ensures near <==> !FarFromNext(edits, e, context)
  {
    var it := e;
    while it < |edits| && edits[it] == Match
      invariant e <= it <= |edits| && AllMatch(edits, e, it)
    {
      it := it + 1;
    }
    near := it < |edits| && it - e < context;
  }

  // One unchanged line on top of unchanged lines only.
  method PushContext(hunk: Hunk, left: seq<string>, ghost right: seq<string>, ghost ls: nat, l: nat, ghost rs: nat,
          ghost r: nat)
    requires hunk.Valid() && !hunk.HasEdits() && l < |left|
    modifies hunk
    ensures hunk.Valid() && !hunk.HasEdits()
    ensures old(Begins(hunk, left, right, ls, l, rs, r)) && r < |right| && left[l] == right[r] ==>
              Begins(hunk, left, right, ls, l + 1, rs, r + 1)
  {
    ghost var before, begins := hunk.Lines(), Begins(hunk, left, right, ls, l, rs, r);
    hunk.PushLine(' ', left[l]);
    if begins && r < |right| && left[l] == right[r] {
      GrewShows(before, hunk.Lines(), Line(' ', left[l]), left, right, ls, l, rs, r);
      TightIsMonotone(before, |before| + 1, |before| + 2);
    }
  }

  lemma BeginsEmpty(hunk: Hunk, left: seq<string>, right: seq<string>, ls: nat, rs: nat)
    requires hunk.Valid() && !hunk.HasEdits() && hunk.Lines() == [] && ls <= |left| && rs <= |right|
    ensures Begins(hunk, left, right, ls, ls, rs, rs)
  {
  }

  ghost predicate Agree(left: seq<string>, right: seq<string>, ls: nat, l: nat, rs: nat, r: nat)
    requires ls <= l <= |left| && rs <= r <= |right|
  {
    left[ls..l] == right[rs..r]
  }

  lemma SlicesAgree(left: seq<string>, right: seq<string>, ls: nat, l: nat, rs: nat, r: nat, k: nat)
    requires ls <= l <= |left| && rs <= r <= |right| && Agree(left, right, ls, l, rs, r) && k < l - ls
    ensures l - ls == r - rs && left[ls + k] == right[rs + k]
  {
    assert |left[ls..l]| == |right[rs..r]|;
    assert left[ls + k] == left[ls..l][k] == right[rs..r][k] == right[rs + k];
  }

  // The `prefix` lines before line l.  They show both texts when those agree there; they may not
  // when no change follows, but then the hunk is not printed.
  method PushPrefix(hunk: Hunk, left: seq<string>, ghost right: seq<string>, prefix: nat, l: nat, ghost r: nat)
    requires hunk.Valid() && hunk.Lines() == [] && !hunk.HasEdits()
    requires prefix <= l <= |left| && prefix <= r <= |right|
    modifies hunk
    ensures hunk.Valid() && !hunk.HasEdits()
    ensures Agree(left, right, l - prefix, l, r - prefix, r) ==> Begins(hunk, left, right, l - prefix, l, r - prefix, r)
  {
    hide Begins, Agree, Hunk.Valid, Hunk.Lines, Hunk.HasEdits;
    ghost var ls, rs := l - prefix, r - prefix;
    ghost var agree := Agree(left, right, ls, l, rs, r);
    BeginsEmpty(hunk, left, right, ls, rs);
    for i := prefix downto 0
      invariant hunk.Valid() && !hunk.HasEdits()
      invariant agree ==> Begins(hunk, left, right, ls, l - i, rs, r - i)
    {
      if agree {
        SlicesAgree(left, right, ls, l, rs, r, prefix - (i + 1));
      }
      PushContext(hunk, left, right, ls, l - (i + 1), rs, r - (i + 1));
    }
  }

  lemma BeginsFills(hunk: Hunk, left: seq<string>, right: seq<string>, ls: nat, l: nat, rs: nat, r: nat, lead: nat,
          context: nat)
    requires Begins(hunk, left, right, ls, l, rs, r) && l - ls == lead <= context && context > 0
    ensures Fills(hunk.Lines(), left, right, ls, l, rs, r, lead, context, false, 0)
  {
    TightIsMonotone(hunk.Lines(), lead + 1, 2 * context);
  }

  // Pushes edits until the hunk has enough context at its end or the input is over.
  method FillHunk(hunk: Hunk, edits: seq<EditType>, left: seq<string>, right: seq<string>, context: nat,
                  ghost prior: seq<(nat, nat)>, ghost ls: nat, ghost rs: nat, ghost lead: nat,
                  e0: nat, l0: nat, r0: nat) returns (e: nat, l: nat, r: nat)
    requires IsScript(edits, left, right) && Reaches(edits, left, right, e0, l0, r0)
    requires e0 < |edits| ==> edits[e0] != Match
    requires hunk.Valid() && !hunk.HasEdits()
    requires e0 < |edits| ==>
               && Begins(hunk, left, right, ls, l0, rs, r0) && l0 - ls == lead <= context
               && prior + Joins(hunk.Lines(), ls, rs) == Matched(edits[..e0])
    modifies hunk
    ensures hunk.Valid() && e0 <= e && Reaches(edits, left, right, e, l, r)
    ensures hunk.HasEdits() <==> e > e0
    ensures e > e0 <==> context > 0 && e0 < |edits|
    ensures e > e0 ==> prior + Joins(hunk.Lines(), ls, rs) == Matched(edits[..e])
    ensures e0 < e < |edits| ==> FarFromNext(edits, e, context) && l >= context && r >= context
    ensures e > e0 ==>
              && Shows(hunk.Lines(), left, right, ls, l, rs, r)
              && Tight(hunk.Lines(), 2 * context) && Leads(hunk.Lines(), lead)
              && (|| TrailingContext(hunk.Lines()) == context
                  || (TrailingContext(hunk.Lines()) < context && e == |edits|))
  {
    hide Fills, Begins, Reaches, Suffix, NearChange, FarFromNext, Tight, Leads, TrailingContext, Shows, IsScript, AllMatch,
         Joins, Matched, Grouped, AllTagged, LeftOf, RightOf;
    e, l, r := e0, l0, r0;
    var nSuffix := 0;
    ReachesNoFurther(edits, left, right, e, l, r);
    SuffixBegins(edits, e, l, r, context);
    if context > 0 && e < |edits| {
      BeginsFills(hunk, left, right, ls, l, rs, r, lead, context);
    }
    while e < |edits|
      invariant e0 <= e <= |edits| && Reaches(edits, left, right, e, l, r) && Suffix(edits, e, l, r, context, nSuffix)
      invariant hunk.Valid() && (hunk.HasEdits() <==> e > e0)
      invariant if e > e0 then context > 0 else nSuffix == 0
      invariant e0 < |edits| && context > 0 ==>
                  && Fills(hunk.Lines(), left, right, ls, l, rs, r, lead, context, e > e0, nSuffix)
                  && prior + Joins(hunk.Lines(), ls, rs) == Matched(edits[..e])
      decreases |edits| - e
    {
      if nSuffix >= context {
        // Continue only if the next change is very close.
        var near := IsChangeNear(edits, e, context);
        if !near {
          break;
        }
      }
      var edit := edits[e];
      SuffixGrows(edits, e, l, r, context, nSuffix);
      NextEdit(edits, left, right, e, l, r);
      MatchedNext(edits, left, right, e, l, r);
      PushEdit(hunk, edit, left, right, ls, l, rs, r, lead, context, nSuffix);
      // Reset the count when a change is found.
      nSuffix := if edit == Match then nSuffix + 1 else 0;
      l := if edit != Add then l + 1 else l;
      r := if edit != Remove then r + 1 else r;
      e := e + 1;
    }
    SuffixEnds(edits, e, l, r, context, nSuffix);
    if e > e0 {
      FillsMeans(hunk.Lines(), left, right, ls, l, rs, r, lead, context, nSuffix);
    }
  }

  // nSuffix unchanged lines have just been passed; beyond `context` that is because a change is near.
  ghost predicate Suffix(edits: seq<EditType>, e: nat, l: nat, r: nat, context: nat, nSuffix: nat) {
    && e <= |edits| && nSuffix <= l && nSuffix <= r
    && (nSuffix <= context || NearChange(edits, e, 2 * context - nSuffix))
  }

  lemma ReachesNoFurther(edits: seq<EditType>, left: seq<string>, right: seq<string>, e: nat, l: nat, r: nat)
    requires Reaches(edits, left, right, e, l, r)
    ensures e <= |edits| && l <= |left| && r <= |right|
  {
  }

  lemma SuffixBegins(edits: seq<EditType>, e: nat, l: nat, r: nat, context: nat)
    requires e <= |edits|
    ensures Suffix(edits, e, l, r, context, 0)
  {
  }

  lemma SuffixGrows(edits: seq<EditType>, e: nat, l: nat, r: nat, context: nat, nSuffix: nat)
    requires Suffix(edits, e, l, r, context, nSuffix) && e < |edits|
    requires nSuffix < context || NearChange(edits, e, context)
    ensures context > 0 && (edits[e] == Match ==> nSuffix + 1 < 2 * context)
    ensures Suffix(edits, e + 1, if edits[e] == Add then l else l + 1, if edits[e] == Remove then r else r + 1,
                   context, if edits[e] == Match then nSuffix + 1 else 0)
  {
  }

  lemma SuffixEnds(edits: seq<EditType>, e: nat, l: nat, r: nat, context: nat, nSuffix: nat)
    requires Suffix(edits, e, l, r, context, nSuffix)
    requires e == |edits| || (nSuffix >= context && !NearChange(edits, e, context))
    ensures nSuffix <= context && (e < |edits| ==> nSuffix == context && l >= context && r >= context)
  {
  }

  lemma FillsMeans(lines: seq<Line>, left: seq<string>, right: seq<string>, ls: nat, l: nat, rs: nat, r: nat,
                   lead: nat, context: nat, nSuffix: nat)
    requires Fills(lines, left, right, ls, l, rs, r, lead, context, true, nSuffix)
    ensures Shows(lines, left, right, ls, l, rs, r)
    ensures Tight(lines, 2 * context) && Leads(lines, lead) && TrailingContext(lines) == nSuffix
  {
  }

  // --------------------------------------------------------------------------
  // The diff
  // --------------------------------------------------------------------------

  // The hunks printed so far rebuild the first r lines of the new text from the first l of the old.
  ghost predicate Rebuilds(hunks: seq<HunkText>, left: seq<string>, right: seq<string>, l: nat, r: nat) {
    l <= |left| && r <= |right| && ApplyHunks(left, hunks) == Some(Progress(l, right[..r]))
  }

  lemma RebuildsMore(hunks: seq<HunkText>, h: HunkText, left: seq<string>, right: seq<string>,
                     l: nat, r: nat, ls: nat, rs: nat, l': nat, r': nat)
    requires Rebuilds(hunks, left, right, l, r)
    requires l <= ls <= |left| && r <= rs <= |right| && left[l..ls] == right[r..rs]
    requires Shows(h.lines, left, right, ls, l', rs, r')
    requires h.leftStart == ls + 1 && h.rightStart == rs + 1
    requires h.leftLength == |LeftOf(h.lines)| && h.rightLength == |RightOf(h.lines)|
    ensures Rebuilds(hunks + [h], left, right, l', r')
  {
    hide LeftOf, RightOf, ApplyHunks;
    ApplyMore(left, hunks, h);
    SlicesOf(left, l, ls, l');
    SlicesOf(right, r, rs, r');
    assert |left[l..ls]| == |right[r..rs]|;
    assert right[..r] + left[l..ls] + RightOf(h.lines) == right[..r'];
  }

  lemma ApplyMore(left: seq<string>, hunks: seq<HunkText>, h: HunkText)
    ensures ApplyHunks(left, hunks + [h]) ==
            match ApplyHunks(left, hunks)
            case None => None
            case Some(p) => ApplyHunk(left, p, h)
  {
    hide ApplyHunk;
    assert (hunks + [h])[..|hunks + [h]| - 1] == hunks;
  }

  lemma SlicesOf(lines: seq<string>, a: nat, b: nat, c: nat)
    requires a <= b <= c <= |lines|
    ensures |lines[a..b]| == b - a && |lines[b..c]| == c - b
    ensures lines[..a] + lines[a..b] + lines[b..c] == lines[..c]
  {
  }

  lemma RebuildsAll(hunks: seq<HunkText>, left: seq<string>, right: seq<string>, l: nat, r: nat)
    requires Rebuilds(hunks, left, right, l, r) && left[l..] == right[r..]
    ensures Apply(left, hunks) == Some(right)
  {
    assert right[..r] + right[r..] == right;
  }

  lemma EndOfSlice(lines: seq<string>, from: nat, to: nat, n: nat)
    requires from <= to <= |lines| && n <= to - from
    ensures lines[to - n..to] == lines[from..to][to - from - n..]
    ensures lines[from..to - n] == lines[from..to][..to - from - n]
  {
  }

  // The context before a change never reaches back into the previous hunk.
  lemma PrefixFits(edits: seq<EditType>, left: seq<string>, right: seq<string>, context: nat,
                   e0: nat, l0: nat, r0: nat, e: nat, l: nat, r: nat, prefix: nat)
    requires e0 <= e <= |edits| && l0 <= l <= |left| && r0 <= r <= |right|
    requires e - e0 == l - l0 == r - r0 && left[l0..l] == right[r0..r]
    requires e < |edits| ==> edits[e] != Match
    requires (e0 == l0 == r0 == 0) || (FarFromNext(edits, e0, context) && l0 >= context && r0 >= context)
    requires prefix == if l < context then l else context
    ensures prefix <= r && (e < |edits| && prefix < context ==> l == r == prefix)
    ensures e < |edits| ==>
              && l0 <= l - prefix && r0 <= r - prefix
              && left[l - prefix..l] == right[r - prefix..r]
              && left[l0..l - prefix] == right[r0..r - prefix]
  {
    if e < |edits| {
      assert prefix <= l - l0;
      EndOfSlice(left, l0, l, prefix);
      EndOfSlice(right, r0, r, prefix);
    }
  }

  // Where the outer loop may start its next hunk: at the beginning, or right behind a hunk with
  // at least `context` unchanged lines before the next change.
  ghost predicate Resumes(edits: seq<EditType>, left: seq<string>, right: seq<string>, context: nat, e: nat, l: nat,
          r: nat) {
    && Reaches(edits, left, right, e, l, r)
    && (e == |edits| || (e == l == r == 0) || (FarFromNext(edits, e, context) && l >= context && r >= context))
  }

  lemma HunkIsWellShaped(h: HunkText, edits: seq<EditType>, left: seq<string>, right: seq<string>, context: nat,
                         ls: nat, rs: nat, e: nat, l: nat, r: nat, lead: nat)
    requires Shows(h.lines, left, right, ls, l, rs, r) && Reaches(edits, left, right, e, l, r)
    requires h.leftStart == ls + 1 && h.leftLength == |LeftOf(h.lines)|
    requires h.rightStart == rs + 1 && h.rightLength == |RightOf(h.lines)|
    requires Tight(h.lines, 2 * context) && Leads(h.lines, lead) && Grouped(h.lines)
    requires lead == context || (lead < context && ls == rs == 0)
    requires || TrailingContext(h.lines) == context
             || (TrailingContext(h.lines) < context && e == |edits|)
    ensures WellShaped(h, context, |left|, |right|)
  {
    hide LeftOf, RightOf, Tight, TrailingContext, Leads;
    assert |left[ls..l]| == l - ls && |right[rs..r]| == r - rs;
  }

  lemma NothingLeft(edits: seq<EditType>, left: seq<string>, right: seq<string>, e: nat, l: nat, r: nat, l0: nat, r0: nat)
    requires Reaches(edits, left, right, e, l, r) && l0 <= l && r0 <= r && left[l0..l] == right[r0..r]
    ensures e == |edits| ==> left[l0..] == right[r0..]
  {
    assert e == |edits| ==> left[l0..] == left[l0..l] && right[r0..] == right[r0..r];
  }

  lemma ChangeLeftIff(edits: seq<EditType>, e0: nat, e: nat)
    requires e0 <= e <= |edits| && AllMatch(edits, e0, e) && (e < |edits| ==> edits[e] != Match)
    ensures AllMatch(edits, e0, |edits|) <==> e == |edits|
  {
  }

  lemma DiagonalSplits(l: nat, r: nat, n: nat, m: nat)
    ensures Diagonal(l, r, n + m) == Diagonal(l, r, n) + Diagonal(l + n, r + n, m)
  {
  }

  // The unchanged lines up to the change, those left out and those shown, join what the script matches.
  lemma PrefixJoins(hunk: Hunk, edits: seq<EditType>, left: seq<string>, right: seq<string>,
                    e0: nat, l0: nat, r0: nat, e: nat, l: nat, r: nat, ls: nat, rs: nat)
    requires Begins(hunk, left, right, ls, l, rs, r) && l0 <= ls <= l && rs - r0 == ls - l0
    requires e0 <= e <= |edits| && l - l0 == e - e0
    requires Matched(edits[..e]) == Matched(edits[..e0]) + Diagonal(l0, r0, e - e0)
    ensures Matched(edits[..e0]) + Diagonal(l0, r0, ls - l0) + Joins(hunk.Lines(), ls, rs) == Matched(edits[..e])
  {
    hide Joins, Matched, LeftOf, RightOf, Diagonal, Tight, TrailingContext;
    UnchangedLinesJoin(hunk.Lines(), ls, rs);
    DiagonalSplits(l0, r0, ls - l0, l - ls);
  }

  lemma ReplaysRest(hunks: seq<HunkText>, left: seq<string>, right: seq<string>, edits: seq<EditType>,
                    e0: nat, l0: nat, r0: nat, e: nat, l: nat, r: nat)
    requires ReplaysTo(hunks, left, right, edits, e0, l0, r0) && left[l0..] == right[r0..]
    requires Reaches(edits, left, right, e, l, r) && e == |edits| && l - l0 == e - e0 >= 0
    requires Matched(edits[..e]) == Matched(edits[..e0]) + Diagonal(l0, r0, e - e0)
    ensures Replays(hunks, left, right, edits)
  {
    hide Matched, Replays, Diagonal;
    assert edits[..e] == edits;
    ReplaysAll(hunks, left, right, edits, e0, l0, r0);
  }

  lemma {:induction false} PathOfEqual(left: seq<string>, i: nat)
    requires i <= |left|
    ensures AllMatch(Path(left, left, i, i), 0, |Path(left, left, i, i)|)
  {
    hide Cost;
    if i > 0 {
      PathOfEqual(left, i - 1);
    }
  }

  // One round of the outer loop: the next hunk, if any change is left.
  method NextHunk(edits: seq<EditType>, left: seq<string>, right: seq<string>, context: nat,
                  ghost hunks: seq<HunkText>, e0: nat, l0: nat, r0: nat)
    returns (text: Option<HunkText>, e: nat, l: nat, r: nat)
    requires IsScript(edits, left, right) && Resumes(edits, left, right, context, e0, l0, r0) && e0 < |edits|
    requires Rebuilds(hunks, left, right, l0, r0) && ReplaysTo(hunks, left, right, edits, e0, l0, r0)
    ensures text.None? <==> context == 0 || AllMatch(edits, e0, |edits|)
    ensures text.None? && context > 0 ==> Apply(left, hunks) == Some(right) && Replays(hunks, left, right, edits)
    ensures text.Some? ==>
              && context > 0 && e > e0 && Resumes(edits, left, right, context, e, l, r)
              && Rebuilds(hunks + [text.value], left, right, l, r) && WellShaped(text.value, context, |left|, |right|)
              && ReplaysTo(hunks + [text.value], left, right, edits, e, l, r)
  {
    hide Apply, LeftOf, RightOf, Tight, TrailingContext, Leads, AllTagged, Transforms, FarFromNext, Rebuilds, IsScript,
         AllMatch, Begins, Shows, Reaches, WellShaped, Joins, Matched, ReplaysTo, Replays, Diagonal, Grouped;
    // Find the first change.
    e, l, r := SkipMatches(edits, left, right, e0, l0, r0);
    ReachesNoFurther(edits, left, right, e, l, r);
    NothingLeft(edits, left, right, e, l, r, l0, r0);
    ChangeLeftIff(edits, e0, e);
    // Find the first line to include in the hunk.
    var prefix := if l < context then l else context;
    PrefixFits(edits, left, right, context, e0, l0, r0, e, l, r, prefix);
    var hunk := new Hunk(l - prefix + 1, r - prefix + 1);
    ghost var ls, rs := l - prefix, r - prefix;
    PushPrefix(hunk, left, right, prefix, l, r);
    ghost var prior := Matched(edits[..e0]) + Diagonal(l0, r0, if ls < l0 then 0 else ls - l0);
    if e < |edits| {
      PrefixJoins(hunk, edits, left, right, e0, l0, r0, e, l, r, ls, rs);
    }
    ghost var end := (e, l, r);
    e, l, r := FillHunk(hunk, edits, left, right, context, prior, ls, rs, prefix, e, l, r);
    if !hunk.HasEdits() {
      // We are done. We don't want this hunk.
      if context > 0 {
        RebuildsAll(hunks, left, right, l0, r0);
        ReplaysRest(hunks, left, right, edits, e0, l0, r0, end.0, end.1, end.2);
      }
      return None, e, l, r;
    }
    ReachesNoFurther(edits, left, right, e, l, r);
    var printed := hunk.PrintTo();
    HunkIsWellShaped(printed, edits, left, right, context, ls, rs, e, l, r, prefix);
    RebuildsMore(hunks, printed, left, right, l0, r0, ls, rs, l, r);
    ReplaysMore(hunks, printed, left, right, edits, e0, l0, r0, ls, rs, e, l, r);
    text := Some(printed);
  }

  method CreateUnifiedDiff(left: seq<string>, right: seq<string>, context: nat) returns (hunks: seq<HunkText>)
    ensures Apply(left, hunks) == Some(right) <==> context >= 1 || left == right
    ensures forall h | h in hunks :: WellShaped(h, context, |left|, |right|)
    // a header with an empty range, which other readers of the format count from the line before
    ensures forall h | h in hunks :: (h.leftLength == 0 <==> left == []) && (h.rightLength == 0 <==> right == [])
    ensures context == 0 || left == right ==> hunks == []
    // left-out lines included, the lines are those of the edit script
    ensures context >= 1 ==> Replays(hunks, left, right, Path(left, right, |left|, |right|))
  {
    hide Apply, ApplyHunks, WellShaped, FarFromNext, ReplaysTo, Replays, Matched, Path, AllMatch;
    var edits := CalculateStringEdits(left, right);
    PathTransforms(left, right, |left|, |right|);
    StartOfScript(edits, left, right);
    if left == right {
      PathOfEqual(left, |left|);
    }
    var l: nat, r: nat, e: nat := 0, 0, 0;
    hunks := [];
    NoHunks(left, right);
    NothingReplayed(left, right, edits);
    while e < |edits|
      invariant Resumes(edits, left, right, context, e, l, r) && Rebuilds(hunks, left, right, l, r)
      invariant ReplaysTo(hunks, left, right, edits, e, l, r)
      invariant context == 0 || left == right ==> hunks == [] && e == 0
      invariant forall h | h in hunks :: WellShaped(h, context, |left|, |right|)
      invariant forall h | h in hunks :: (h.leftLength == 0 <==> left == []) && (h.rightLength == 0 <==> right == [])
      decreases |edits| - e
    {
      var text;
      text, e, l, r := NextHunk(edits, left, right, context, hunks, e, l, r);
      if text.None? {
        return;
      }
      EmptyRangeIff(text.value, context, |left|, |right|);
      hunks := hunks + [text.value];
    }
    RebuildsAll(hunks, left, right, l, r);
    assert edits[..e] == edits;
    ReplaysAll(hunks, left, right, edits, e, l, r);
  }

  lemma NoHunks(left: seq<string>, right: seq<string>)
    ensures Rebuilds([], left, right, 0, 0)
    ensures Apply(left, []) == Some(left)
  {
    assert left[0..] == left && [] + left == left && right[..0] == [];
  }
}
