/** Printing an edit script as a unified diff: Hunk and CreateUnifiedDiff of
    utils/googletest/src/gtest.cc.  A hunk is the record its header and its lines are printed
    from; a part of the header that the source omits is `None` here. */
module UnifiedDiff {
  import opened EditDistance
  import opened Options

  datatype Line = Line(mark: char, text: string)

  datatype Range = Range(start: nat, length: nat)

  datatype PrintedHunk = PrintedHunk(left: Option<Range>, right: Option<Range>, lines: seq<Line>)

  // ----- what the lines of a hunk say -----

  /** The lines of one side: the kept ones and those with the mark of that side. */
  function Side(lines: seq<Line>, mark: char): seq<string> {
    if lines == [] then [] else
      var last := lines[|lines| - 1];
      Side(lines[..|lines| - 1], mark) + if last.mark == ' ' || last.mark == mark then [last.text] else []
  }

  function LeftText(lines: seq<Line>): seq<string> {
    Side(lines, '-')
  }

  function RightText(lines: seq<Line>): seq<string> {
    Side(lines, '+')
  }

  function Count(lines: seq<Line>, mark: char): nat {
    if lines == [] then 0 else Count(lines[..|lines| - 1], mark) + if lines[|lines| - 1].mark == mark then 1 else 0
  }

  /** How many kept lines the list begins and ends with. */
  function Leading(lines: seq<Line>): nat {
    if lines == [] then 0 else
      var n := Leading(lines[..|lines| - 1]);
      if n == |lines| - 1 && lines[|lines| - 1].mark == ' ' then n + 1 else n
  }

  function Trailing(lines: seq<Line>): nat {
    if lines == [] || lines[|lines| - 1].mark != ' ' then 0 else Trailing(lines[..|lines| - 1]) + 1
  }

  /** Where on each side, counted from the first line, the kept lines are. */
  function KeptIn(lines: seq<Line>): seq<At> {
    if lines == [] then [] else
      var front := lines[..|lines| - 1];
      KeptIn(front) + if lines[|lines| - 1].mark == ' ' then [At(|LeftText(front)|, |RightText(front)|)] else []
  }

  function Max(a: nat, b: nat): nat {
    if a < b then b else a
  }

  /** The longest run of kept lines between two lines that are not kept. */
  function Inner(lines: seq<Line>): nat {
    if lines == [] then 0 else
      var front := lines[..|lines| - 1];
      if lines[|lines| - 1].mark == ' ' then Inner(front) else InnerAfterEdit(front, Inner(front))
  }

  /** The same once an edit follows: the kept lines at the end are now in between, unless no edit
      came before them. */
  function InnerAfterEdit(lines: seq<Line>, inner: nat): nat {
    if Leading(lines) == |lines| then inner else Max(inner, Trailing(lines))
  }

  /** Removed lines come before the added lines they are next to. */
  ghost predicate Grouped(lines: seq<Line>) {
    forall i :: 0 <= i < |lines| - 1 && lines[i].mark == '+' ==> lines[i + 1].mark != '-'
  }

  ghost predicate AllMarked(lines: seq<Line>, mark: char) {
    forall i :: 0 <= i < |lines| ==> lines[i].mark == mark
  }

  lemma {:induction false} SideAppend(a: seq<Line>, b: seq<Line>, mark: char)
    ensures Side(a + b, mark) == Side(a, mark) + Side(b, mark)
    decreases |b|
  {
    if b == [] {
      assert a + b == a;
    } else {
      assert (a + b)[..|a + b| - 1] == a + b[..|b| - 1];
      SideAppend(a, b[..|b| - 1], mark);
    }
  }

  lemma {:induction false} CountAppend(a: seq<Line>, b: seq<Line>, mark: char)
    ensures Count(a + b, mark) == Count(a, mark) + Count(b, mark)
    decreases |b|
  {
    if b == [] {
      assert a + b == a;
    } else {
      assert (a + b)[..|a + b| - 1] == a + b[..|b| - 1];
      CountAppend(a, b[..|b| - 1], mark);
    }
  }

  lemma {:induction false} OtherSideIsEmpty(lines: seq<Line>, mark: char, other: char)
    requires AllMarked(lines, other) && other != ' ' && other != mark
    ensures Side(lines, mark) == [] && Count(lines, mark) == 0
  {
    if lines != [] {
      OtherSideIsEmpty(lines[..|lines| - 1], mark, other);
    }
  }

  lemma {:induction false} LeadingStays(a: seq<Line>, b: seq<Line>)
    requires forall i :: 0 <= i < |b| ==> b[i].mark != ' '
    ensures Leading(a + b) == Leading(a)
    decreases |b|
  {
    if b == [] {
      assert a + b == a;
    } else {
      assert (a + b)[..|a + b| - 1] == a + b[..|b| - 1];
      LeadingStays(a, b[..|b| - 1]);
    }
  }

  lemma {:induction false} KeptStays(a: seq<Line>, b: seq<Line>)
    requires forall i :: 0 <= i < |b| ==> b[i].mark != ' '
    ensures KeptIn(a + b) == KeptIn(a)
    decreases |b|
  {
    if b == [] {
      assert a + b == a;
    } else {
      assert (a + b)[..|a + b| - 1] == a + b[..|b| - 1];
      KeptStays(a, b[..|b| - 1]);
    }
  }

  lemma {:induction false} InnerStays(a: seq<Line>, b: seq<Line>)
    requires b != [] && forall i :: 0 <= i < |b| ==> b[i].mark != ' '
    ensures Inner(a + b) == InnerAfterEdit(a, Inner(a))
    decreases |b|
  {
    var front := b[..|b| - 1];
    assert (a + b)[..|a + b| - 1] == a + front;
    LeadingIsBounded(a);
    if front == [] {
      assert a + front == a;
    } else {
      InnerStays(a, front);
      LeadingStays(a, front);
      assert Trailing(a + front) == 0;
    }
  }

  lemma {:induction false} LeadingIsBounded(lines: seq<Line>)
    ensures Leading(lines) <= |lines|
  {
    if lines != [] {
      LeadingIsBounded(lines[..|lines| - 1]);
    }
  }

  lemma {:induction false} SideLength(lines: seq<Line>, mark: char)
    requires mark != ' '
    ensures |Side(lines, mark)| == Count(lines, mark) + Count(lines, ' ')
  {
    if lines != [] {
      SideLength(lines[..|lines| - 1], mark);
    }
  }

  lemma OneMore(lines: seq<Line>, line: Line, mark: char)
    ensures Side(lines + [line], mark)
         == Side(lines, mark) + if line.mark == ' ' || line.mark == mark then [line.text] else []
    ensures Count(lines + [line], mark) == Count(lines, mark) + if line.mark == mark then 1 else 0
  {
    assert (lines + [line])[..|lines|] == lines;
  }

  /** A removed line may overtake the added lines that wait: either side reads as if it came last. */
  lemma Overtakes(before: seq<Line>, added: seq<Line>, text: string, mark: char)
    requires AllMarked(added, '+') && mark in "-+ "
    ensures Count(before + [Line('-', text)] + added, mark) == Count(before + added + [Line('-', text)], mark)
    ensures mark != ' ' ==>
      Side(before + [Line('-', text)] + added, mark) == Side(before + added + [Line('-', text)], mark)
  {
    var line := Line('-', text);
    CountAppend(before + [line], added, mark);
    CountAppend(before, added, mark);
    OneMore(before, line, mark);
    OneMore(before + added, line, mark);
    SideAppend(before + [line], added, mark);
    SideAppend(before, added, mark);
    if mark == '-' {
      OtherSideIsEmpty(added, '-', '+');
    }
  }

  lemma GroupedLines(lines: seq<Line>, removed: seq<Line>, added: seq<Line>)
    requires Grouped(lines) && (lines != [] ==> lines[|lines| - 1].mark == ' ')
    requires AllMarked(removed, '-') && AllMarked(added, '+')
    ensures Grouped(lines + removed + added)
  {
  }

  /** What a list of lines amounts to: the text of each side, the number of lines by mark, and where the
      kept ones are. */
  datatype Content = Content(left: seq<string>, right: seq<string>, removes: nat, adds: nat, common: nat,
                             leading: nat, trailing: nat, inner: nat, kept: seq<At>) {
    function Push(mark: char, text: string): Content {
      match mark
      case ' ' =>
        Content(left + [text], right + [text], removes, adds, common + 1,
                if removes + adds == 0 then leading + 1 else leading, trailing + 1, inner,
                kept + [At(|left|, |right|)])
      case '-' => Content(left + [text], right, removes + 1, adds, common, leading, 0, NextInner(), kept)
      case '+' => Content(left, right + [text], removes, adds + 1, common, leading, 0, NextInner(), kept)
      case _ => this
    }

    function NextInner(): nat {
      if removes + adds == 0 then inner else Max(inner, trailing)
    }
  }

  function ContentOf(lines: seq<Line>): Content {
    Content(LeftText(lines), RightText(lines), Count(lines, '-'), Count(lines, '+'), Count(lines, ' '),
            Leading(lines), Trailing(lines), Inner(lines), KeptIn(lines))
  }

  /** The lines have no other marks, so they are all leading iff there are no edits. */
  ghost predicate Marked(lines: seq<Line>) {
    forall i :: 0 <= i < |lines| ==> lines[i].mark in "-+ "
  }

  lemma {:induction false} AllLeading(lines: seq<Line>)
    requires Marked(lines)
    ensures Leading(lines) <= |lines|
    ensures Leading(lines) == |lines| <==> Count(lines, '-') + Count(lines, '+') == 0
  {
    if lines != [] {
      AllLeading(lines[..|lines| - 1]);
    }
  }

  lemma ContentOfOneMore(lines: seq<Line>, mark: char, text: string)
    requires mark in "-+ " && Marked(lines)
    ensures ContentOf(lines + [Line(mark, text)]) == ContentOf(lines).Push(mark, text)
  {
    AllLeading(lines);
    assert (lines + [Line(mark, text)])[..|lines|] == lines;
    OneMore(lines, Line(mark, text), '-');
    OneMore(lines, Line(mark, text), '+');
    OneMore(lines, Line(mark, text), ' ');
  }

  lemma OvertakesInside(before: seq<Line>, added: seq<Line>, text: string)
    requires AllMarked(added, '+')
    ensures var early, late := before + [Line('-', text)] + added, before + added + [Line('-', text)];
      && Leading(early) == Leading(late) && Trailing(early) == Trailing(late) && Inner(early) == Inner(late)
      && KeptIn(early) == KeptIn(late)
  {
    var line := Line('-', text);
    LeadingStays(before, [line] + added);
    LeadingStays(before, added + [line]);
    InnerStays(before, [line] + added);
    InnerStays(before, added + [line]);
    KeptStays(before, [line] + added);
    KeptStays(before, added + [line]);
    assert before + [line] + added == before + ([line] + added);
    assert before + added + [line] == before + (added + [line]);
  }

  lemma OvertakesOnEachSide(before: seq<Line>, added: seq<Line>, text: string)
    requires AllMarked(added, '+') && Marked(before)
    ensures ContentOf(before + [Line('-', text)] + added) == ContentOf(before + added).Push('-', text)
  {
    Overtakes(before, added, text, '-');
    Overtakes(before, added, text, '+');
    Overtakes(before, added, text, ' ');
    OvertakesInside(before, added, text);
    ContentOfOneMore(before + added, '-', text);
  }

  lemma PushedCommon(lines: seq<Line>, removed: seq<Line>, added: seq<Line>, text: string)
    requires Marked(lines) && Grouped(lines) && (lines != [] ==> lines[|lines| - 1].mark == ' ')
    requires AllMarked(removed, '-') && AllMarked(added, '+')
    ensures var all := lines + removed + added;
      Grouped(all + [Line(' ', text)]) && ContentOf(all + [Line(' ', text)]) == ContentOf(all).Push(' ', text)
  {
    GroupedLines(lines, removed, added);
    ContentOfOneMore(lines + removed + added, ' ', text);
  }

  lemma PushedAdded(lines: seq<Line>, removed: seq<Line>, added: seq<Line>, text: string)
    requires Marked(lines) && AllMarked(removed, '-') && AllMarked(added, '+')
    ensures ContentOf(lines + removed + (added + [Line('+', text)])) == ContentOf(lines + removed + added).Push('+', text)
  {
    var all := lines + removed + added;
    assert Marked(all);
    ContentOfOneMore(all, '+', text);
    assert all + [Line('+', text)] == lines + removed + (added + [Line('+', text)]);
  }

  class Hunk {
    const leftStart: nat
    const rightStart: nat
    var adds: nat
    var removes: nat
    var common: nat
    var hunk: seq<Line>
    var hunkAdds: seq<Line>
    var hunkRemoves: seq<Line>
    ghost var contents: Content

    /** All lines, in the order in which they will be printed. */
    function Lines(): seq<Line>
      reads this
    {
      hunk + hunkRemoves + hunkAdds
    }

    ghost predicate Counted()
      reads this
    {
      && contents == ContentOf(Lines())
      && removes == contents.removes && adds == contents.adds && common == contents.common
    }

    ghost predicate Ordered()
      reads this
    {
      && Marked(hunk)
      && AllMarked(hunkRemoves, '-')
      && AllMarked(hunkAdds, '+')
      && Grouped(hunk)
      && (hunk != [] ==> hunk[|hunk| - 1].mark == ' ')
    }

    ghost predicate Valid()
      reads this
    {
      Counted() && Ordered()
    }

    constructor (leftStart: nat, rightStart: nat)
      ensures Valid() && Lines() == [] && contents == Content([], [], 0, 0, 0, 0, 0, 0, [])
      ensures !HasEdits() && this.leftStart == leftStart && this.rightStart == rightStart
    {
      this.leftStart := leftStart;
      this.rightStart := rightStart;
      adds, removes, common := 0, 0, 0;
      hunk, hunkAdds, hunkRemoves := [], [], [];
      contents := Content([], [], 0, 0, 0, 0, 0, 0, []);
    }

    /** Adds a line at the end of the side or sides it belongs to, though not always at the end of
        the printed lines. */
    method PushLine(edit: char, line: string)
      requires Valid()
      modifies this
      ensures Valid()
      ensures contents == old(contents).Push(edit, line)
    {
      match edit
      case ' ' => PushCommon(line);
      case '-' => PushRemoved(line);
      case '+' => PushAdded(line);
      case _ =>
    }

    method PushCommon(line: string)
      requires Valid()
      modifies this
      ensures Valid()
      ensures contents == old(contents).Push(' ', line)
    {
      ghost var lines := Lines();
      PushedCommon(hunk, hunkRemoves, hunkAdds, line);
      common := common + 1;
      FlushEdits();
      hunk := hunk + [Line(' ', line)];
      assert Lines() == hunk == lines + [Line(' ', line)];
      contents := contents.Push(' ', line);
    }

    method PushRemoved(line: string)
      requires Valid()
      modifies this
      ensures Valid()
      ensures contents == old(contents).Push('-', line)
    {
      OvertakesOnEachSide(hunk + hunkRemoves, hunkAdds, line);
      assert hunk + (hunkRemoves + [Line('-', line)]) == hunk + hunkRemoves + [Line('-', line)];
      removes := removes + 1;
      hunkRemoves := hunkRemoves + [Line('-', line)];
      contents := contents.Push('-', line);
    }

    method PushAdded(line: string)
      requires Valid()
      modifies this
      ensures Valid()
      ensures contents == old(contents).Push('+', line)
    {
      PushedAdded(hunk, hunkRemoves, hunkAdds, line);
      adds := adds + 1;
      hunkAdds := hunkAdds + [Line('+', line)];
      contents := contents.Push('+', line);
    }

    method FlushEdits()
      modifies this
      ensures hunk == old(Lines()) && hunkRemoves == [] && hunkAdds == []
      ensures adds == old(adds) && removes == old(removes) && common == old(common) && contents == old(contents)
    {
      hunk := hunk + hunkRemoves;
      hunkRemoves := [];
      hunk := hunk + hunkAdds;
      hunkAdds := [];
    }

    predicate HasEdits()
      reads this
    {
      adds > 0 || removes > 0
    }

    lemma EditsAreCounted()
      requires Valid()
      ensures HasEdits() <==> contents.removes > 0 || contents.adds > 0
    {
    }

    /** The header names a side only if that side has lines of its own. */
    function PrintHeader(): (Option<Range>, Option<Range>)
      reads this
    {
      (if removes > 0 then Some(Range(leftStart, removes + common)) else None,
       if adds > 0 then Some(Range(rightStart, adds + common)) else None)
    }

    method PrintTo() returns (printed: PrintedHunk)
      requires Valid()
      modifies this
      ensures printed.lines == old(Lines()) && Grouped(printed.lines)
      ensures ContentOf(printed.lines) == old(contents)
      ensures printed.left == if old(contents).removes > 0 then Some(Range(leftStart, |old(contents).left|)) else None
      ensures printed.right == if old(contents).adds > 0 then Some(Range(rightStart, |old(contents).right|)) else None
    {
      SideLength(Lines(), '-');
      SideLength(Lines(), '+');
      GroupedLines(hunk, hunkRemoves, hunkAdds);
      var header := PrintHeader();
      FlushEdits();
      printed := PrintedHunk(header.0, header.1, hunk);
    }
  }

  // ----- what a diff is -----

  /** A place in the left and one in the right text. */
  datatype At = At(l: nat, r: nat)

  function Skip(at: At, gap: nat): At {
    At(at.l + gap, at.r + gap)
  }

  /** Where a hunk that starts at `at` ends. */
  function End(h: PrintedHunk, at: At): At {
    At(at.l + |LeftText(h.lines)|, at.r + |RightText(h.lines)|)
  }

  /** What the header says of the sides is true of the lines and of the hunk's place. */
  predicate HeaderFits(h: PrintedHunk, at: At) {
    && (h.left.Some? ==> h.left.value == Range(at.l + 1, |LeftText(h.lines)|))
    && (h.right.Some? ==> h.right.value == Range(at.r + 1, |RightText(h.lines)|))
  }

  /** `piece` is what `text` has from position `p` on. */
  predicate Reads(text: seq<string>, p: nat, piece: seq<string>) {
    p <= |text| && piece <= text[p..]
  }

  /** The hunk has `context` kept lines before and after its edits, or all there are.  Between two of
      its edits there are fewer than twice as many: edits further apart are in different hunks. */
  ghost predicate Framed(h: PrintedHunk, left: seq<string>, right: seq<string>, context: nat, at: At) {
    && (Leading(h.lines) == context || (Leading(h.lines) < context && at == At(0, 0)))
    && (Trailing(h.lines) == context || (Trailing(h.lines) < context && End(h, at) == At(|left|, |right|)))
    && Inner(h.lines) < 2 * context
  }

  /** The hunk lists exactly the lines both sides have from `at` on. */
  ghost predicate Placed(h: PrintedHunk, left: seq<string>, right: seq<string>, context: nat, at: At) {
    && Reads(left, at.l, LeftText(h.lines))
    && Reads(right, at.r, RightText(h.lines))
    && HeaderFits(h, at)
    && (h.left.Some? || h.right.Some?)
    && Grouped(h.lines)
    && Framed(h, left, right, context, at)
  }

  /** How many lines lie between `at` and the hunk, by its header. */
  function Gap(h: PrintedHunk, at: At): int {
    if h.left.Some? then h.left.value.start - 1 - at.l
    else if h.right.Some? then h.right.value.start - 1 - at.r
    else 0
  }

  /** Both sides have the same `gap` lines from `at` on. */
  ghost predicate SameLines(left: seq<string>, right: seq<string>, at: At, gap: int) {
    && 0 <= gap && at.l + gap <= |left| && at.r + gap <= |right|
    && left[at.l..at.l + gap] == right[at.r..at.r + gap]
  }

  /** The hunk comes after `at`, and both sides are the same up to it. */
  ghost predicate Follows(h: PrintedHunk, left: seq<string>, right: seq<string>, context: nat, at: At) {
    SameLines(left, right, at, Gap(h, at)) && Placed(h, left, right, context, Skip(at, Gap(h, at)))
  }

  /** The hunks lead from one place to another: they are in order, do not overlap, and between them
      both sides are the same. */
  ghost predicate Hunks(hunks: seq<PrintedHunk>, left: seq<string>, right: seq<string>, context: nat, from: At, to: At)
    decreases |hunks|
  {
    if hunks == [] then from == to
    else
      && Follows(hunks[0], left, right, context, from)
      && Hunks(hunks[1..], left, right, context, End(hunks[0], Skip(from, Gap(hunks[0], from))), to)
  }

  /** What someone who has the left text and the printed hunks only can do with them: find the
      hunk's place, check the old lines and the header against it and put the new lines in. */
  function ApplyPatch(left: seq<string>, hunks: seq<PrintedHunk>, at: At): Option<seq<string>>
    requires at.l <= |left|
    decreases |hunks|
  {
    if hunks == [] then Some(left[at.l..])
    else
      var h, gap := hunks[0], Gap(hunks[0], at);
      if gap < 0 || !Reads(left, at.l + gap, LeftText(h.lines)) || !HeaderFits(h, Skip(at, gap)) then None
      else
        match ApplyPatch(left, hunks[1..], End(h, Skip(at, gap)))
        case None => None
        case Some(rest) => Some(left[at.l..at.l + gap] + RightText(h.lines) + rest)
  }

  // ----- which lines a diff keeps -----

  /** `n` lines of either side, one after the other. */
  function Diagonal(at: At, n: int): seq<At> {
    if n <= 0 then [] else seq(n, i requires 0 <= i < n => Skip(at, i))
  }

  function Shifted(places: seq<At>, at: At): seq<At> {
    seq(|places|, i requires 0 <= i < |places| => At(at.l + places[i].l, at.r + places[i].r))
  }

  /** The pairs of lines kept from `at` to the end of the hunk: those before it, and its own. */
  function PlacesTo(h: PrintedHunk, at: At): seq<At> {
    var gap := Gap(h, at);
    if gap < 0 then [] else Diagonal(at, gap) + Shifted(KeptIn(h.lines), Skip(at, gap))
  }

  /** The pairs of lines a reader of the diff takes for the same between two places: those that the
      hunks keep and those outside of them. */
  function KeptPairs(hunks: seq<PrintedHunk>, from: At, end: At): seq<At>
    decreases |hunks|
  {
    if hunks == [] then Diagonal(from, end.l - from.l)
    else
      var gap := Gap(hunks[0], from);
      PlacesTo(hunks[0], from) + if gap < 0 then [] else KeptPairs(hunks[1..], End(hunks[0], Skip(from, gap)), end)
  }

  /** The lines with one mark in all the hunks. */
  function Total(hunks: seq<PrintedHunk>, mark: char): nat {
    if hunks == [] then 0 else Count(hunks[0].lines, mark) + Total(hunks[1..], mark)
  }

  lemma {:induction false} KeptPairsOneMore(hunks: seq<PrintedHunk>, h: PrintedHunk, left: seq<string>,
      right: seq<string>, context: nat, from: At, to: At, end: At)
    requires Hunks(hunks, left, right, context, from, to) && Gap(h, to) >= 0
    ensures KeptPairs(hunks + [h], from, end)
         == KeptPairs(hunks, from, to) + PlacesTo(h, to) + KeptPairs([], End(h, Skip(to, Gap(h, to))), end)
    decreases |hunks|
  {
    hide Placed, PlacesTo, SameLines, End, Diagonal, Gap;
    if hunks == [] {
      assert hunks + [h] == [h] && [h][1..] == [];
      NoDiagonal(from);
    } else {
      GapIsNat(hunks[0], left, right, context, from);
      var next := End(hunks[0], Skip(from, Gap(hunks[0], from)));
      KeptPairsOneMore(hunks[1..], h, left, right, context, next, to, end);
      assert (hunks + [h])[0] == hunks[0] && (hunks + [h])[1..] == hunks[1..] + [h];
    }
  }

  lemma NoDiagonal(at: At)
    ensures Diagonal(at, 0) == []
  {
  }

  lemma GapIsNat(h: PrintedHunk, left: seq<string>, right: seq<string>, context: nat, at: At)
    requires Follows(h, left, right, context, at)
    ensures Gap(h, at) >= 0
  {
  }

  lemma {:induction false} KeptPairsToEnd(hunks: seq<PrintedHunk>, left: seq<string>, right: seq<string>, context: nat,
      from: At, to: At, end: At)
    requires Hunks(hunks, left, right, context, from, to)
    ensures KeptPairs(hunks, from, end) == KeptPairs(hunks, from, to) + Diagonal(to, end.l - to.l)
    decreases |hunks|
  {
    hide Placed, PlacesTo, SameLines;
    if hunks != [] {
      GapIsNat(hunks[0], left, right, context, from);
      KeptPairsToEnd(hunks[1..], left, right, context, End(hunks[0], Skip(from, Gap(hunks[0], from))), to, end);
    }
  }

  lemma {:induction false} KeptInLength(lines: seq<Line>)
    ensures |KeptIn(lines)| == Count(lines, ' ')
  {
    if lines != [] {
      KeptInLength(lines[..|lines| - 1]);
    }
  }

  /** Every line of the left text is kept or removed, and every line of the right one kept or added. */
  lemma {:induction false} KeptOrMarked(hunks: seq<PrintedHunk>, left: seq<string>, right: seq<string>, context: nat,
      from: At, to: At, end: At)
    requires Hunks(hunks, left, right, context, from, to)
    requires to.l <= end.l && end.l - to.l == end.r - to.r
    ensures |KeptPairs(hunks, from, end)| + Total(hunks, '-') == end.l - from.l
    ensures |KeptPairs(hunks, from, end)| + Total(hunks, '+') == end.r - from.r
    decreases |hunks|
  {
    if hunks != [] {
      var h := hunks[0];
      GapIsNat(h, left, right, context, from);
      hide Placed, SameLines, KeptIn, Leading, Trailing, Inner;
      KeptOrMarked(hunks[1..], left, right, context, End(h, Skip(from, Gap(h, from))), to, end);
      KeptInLength(h.lines);
      SideLength(h.lines, '-');
      SideLength(h.lines, '+');
    }
  }

  /** Where on each side the matches of a script are. */
  function MatchedPairs(edits: seq<EditType>): seq<At> {
    if edits == [] then [] else
      var front := edits[..|edits| - 1];
      MatchedPairs(front) + if edits[|edits| - 1].Match? then [At(LeftLen(front), RightLen(front))] else []
  }

  lemma {:induction false} MovesOfSides(edits: seq<EditType>)
    ensures |MatchedPairs(edits)| == Moves(edits, Match)
    ensures LeftLen(edits) == Moves(edits, Match) + Moves(edits, Remove) + Moves(edits, Replace)
    ensures RightLen(edits) == Moves(edits, Match) + Moves(edits, Add) + Moves(edits, Replace)
  {
    if edits != [] {
      MovesOfSides(edits[..|edits| - 1]);
    }
  }

  // ----- lists of hunks -----

  lemma OnlyHunk(h: PrintedHunk, left: seq<string>, right: seq<string>, context: nat, at: At, gap: nat)
    requires SameLines(left, right, at, gap) && Placed(h, left, right, context, Skip(at, gap))
    ensures Gap(h, at) == gap && Hunks([h], left, right, context, at, End(h, Skip(at, gap)))
  {
    assert Gap(h, at) == gap;
    assert [h][1..] == [];
  }

  lemma {:induction false} OneMoreHunk(hunks: seq<PrintedHunk>, h: PrintedHunk, left: seq<string>, right: seq<string>,
      context: nat, from: At, to: At, gap: nat)
    requires Hunks(hunks, left, right, context, from, to)
    requires SameLines(left, right, to, gap) && Placed(h, left, right, context, Skip(to, gap))
    ensures Hunks(hunks + [h], left, right, context, from, End(h, Skip(to, gap)))
    decreases |hunks|
  {
    if hunks == [] {
      OnlyHunk(h, left, right, context, from, gap);
      assert hunks + [h] == [h];
    } else {
      OneMoreHunk(hunks[1..], h, left, right, context, End(hunks[0], Skip(from, Gap(hunks[0], from))), to, gap);
      assert (hunks + [h])[0] == hunks[0] && (hunks + [h])[1..] == hunks[1..] + [h];
    }
  }

  /** Applying the hunks to the left gives the right. */
  lemma {:induction false} HunksPatch(hunks: seq<PrintedHunk>, left: seq<string>, right: seq<string>, context: nat,
      from: At, to: At)
    requires Hunks(hunks, left, right, context, from, to)
    requires from.l <= |left| && from.r <= |right|
    requires to.l <= |left| && to.r <= |right| && left[to.l..] == right[to.r..]
    ensures ApplyPatch(left, hunks, from) == Some(right[from.r..])
    decreases |hunks|
  {
    hide Framed, Grouped, HeaderFits, Gap;
    if hunks != [] {
      var h, gap := hunks[0], Gap(hunks[0], from);
      HunksPatch(hunks[1..], left, right, context, End(h, Skip(from, gap)), to);
      SplitAt(right, from.r, gap, RightText(h.lines));
    }
  }

  lemma SplitAt(text: seq<string>, p: nat, gap: nat, piece: seq<string>)
    requires p + gap <= |text| && piece <= text[p + gap..]
    ensures text[p..] == text[p..p + gap] + piece + text[p + gap + |piece|..]
  {
    assert text[p + gap..] == piece + text[p + gap..][|piece|..];
    assert text[p + gap..][|piece|..] == text[p + gap + |piece|..];
    assert text[p..] == text[p..p + gap] + text[p + gap..];
  }

  // ----- following the edits -----

  /** An edit moves on in the texts it reads from, and stays inside them. */
  ghost predicate Step(edit: EditType, left: seq<string>, right: seq<string>, at: At, next: At) {
    && next == At(at.l + (if edit.Add? then 0 else 1), at.r + (if edit.Remove? then 0 else 1))
    && next.l <= |left| && next.r <= |right|
    && (edit.Match? ==> left[at.l] == right[at.r])
  }

  /** `path[i]` is the place before edit `i`. */
  ghost predicate IsPath(path: seq<At>, edits: seq<EditType>, left: seq<string>, right: seq<string>) {
    && |path| == |edits| + 1
    && path[0] == At(0, 0) && path[|edits|] == At(|left|, |right|)
    && forall i {:trigger edits[i]} :: 0 <= i < |edits| ==> Step(edits[i], left, right, path[i], path[i + 1])
  }

  ghost predicate AllMatch(edits: seq<EditType>, from: nat, to: nat) {
    forall i :: from <= i < to && i < |edits| ==> edits[i].Match?
  }

  lemma {:induction false} PrefixIsShorter(edits: seq<EditType>, i: nat)
    requires i <= |edits|
    ensures LeftLen(edits[..i]) <= LeftLen(edits) && RightLen(edits[..i]) <= RightLen(edits)
    decreases |edits| - i
  {
    if i == |edits| {
      assert edits[..i] == edits;
    } else {
      PrefixIsShorter(edits, i + 1);
      assert edits[..i + 1] == edits[..i] + [edits[i]];
      AppendMove(edits[..i], edits[i]);
    }
  }

  ghost function Place(edits: seq<EditType>, i: nat): At
    requires i <= |edits|
  {
    At(LeftLen(edits[..i]), RightLen(edits[..i]))
  }

  lemma NextPlace(edits: seq<EditType>, left: seq<string>, right: seq<string>, i: nat)
    requires ValidScript(edits, Matches(left, right), |left|, |right|) && i < |edits|
    ensures Step(edits[i], left, right, Place(edits, i), Place(edits, i + 1))
  {
    assert edits[..i + 1] == edits[..i] + [edits[i]];
    AppendMove(edits[..i], edits[i]);
    PrefixIsShorter(edits, i + 1);
  }

  /** A valid script is a path from the beginning of both texts to their ends. */
  lemma ScriptIsPath(edits: seq<EditType>, left: seq<string>, right: seq<string>) returns (path: seq<At>)
    requires ValidScript(edits, Matches(left, right), |left|, |right|)
    ensures IsPath(path, edits, left, right)
    ensures MatchedIn(path, edits, 0, |edits|) == MatchedPairs(edits)
  {
    path := seq(|edits| + 1, i requires 0 <= i <= |edits| => Place(edits, i));
    assert edits[..|edits|] == edits;
    forall i | 0 <= i < |edits| ensures Step(edits[i], left, right, path[i], path[i + 1]) {
      NextPlace(edits, left, right, i);
    }
    MatchedAlong(path, edits, |edits|);
  }

  /** The places of the matches among the edits `i` to `j`. */
  ghost function MatchedIn(path: seq<At>, edits: seq<EditType>, i: nat, j: nat): seq<At>
    requires i <= j <= |edits| < |path|
  {
    if i == j then [] else MatchedIn(path, edits, i, j - 1) + if edits[j - 1].Match? then [path[j - 1]] else []
  }

  lemma {:induction false} MatchedAlong(path: seq<At>, edits: seq<EditType>, j: nat)
    requires j <= |edits| < |path| && forall i :: 0 <= i < |path| - 1 && i < |edits| ==> path[i] == Place(edits, i)
    ensures MatchedIn(path, edits, 0, j) == MatchedPairs(edits[..j])
  {
    if j > 0 {
      MatchedAlong(path, edits, j - 1);
      assert edits[..j][..j - 1] == edits[..j - 1];
    }
  }

  lemma {:induction false} MatchedSplit(path: seq<At>, edits: seq<EditType>, i: nat, j: nat, k: nat)
    requires i <= j <= k <= |edits| < |path|
    ensures MatchedIn(path, edits, i, k) == MatchedIn(path, edits, i, j) + MatchedIn(path, edits, j, k)
  {
    if j < k {
      MatchedSplit(path, edits, i, j, k - 1);
    }
  }

  lemma DiagonalOneMore(at: At, n: nat)
    ensures Diagonal(at, n + 1) == Diagonal(at, n) + [Skip(at, n)]
  {
  }

  /** Matches move on both sides at once. */
  lemma {:induction false} MatchedDiagonal(path: seq<At>, edits: seq<EditType>, left: seq<string>, right: seq<string>,
      i: nat, j: nat)
    requires IsPath(path, edits, left, right) && i <= j <= |edits| && AllMatch(edits, i, j)
    ensures path[j] == Skip(path[i], j - i) && MatchedIn(path, edits, i, j) == Diagonal(path[i], j - i)
  {
    PathLength(path, edits, left, right);
    hide IsPath, MatchedIn, Diagonal;
    if i < j {
      MatchedDiagonal(path, edits, left, right, i, j - 1);
      OneStep(path, edits, left, right, j - 1);
      OneMoreMatch(path, edits, i, j - 1);
      DiagonalOneMore(path[i], j - 1 - i);
    } else {
      NothingMatched(path, edits, i);
      NoDiagonal(path[i]);
    }
  }

  lemma NothingMatched(path: seq<At>, edits: seq<EditType>, i: nat)
    requires i <= |edits| < |path|
    ensures MatchedIn(path, edits, i, i) == []
  {
  }

  lemma OneMoreMatch(path: seq<At>, edits: seq<EditType>, i: nat, j: nat)
    requires i <= j < |edits| < |path| && edits[j].Match?
    ensures MatchedIn(path, edits, i, j + 1) == MatchedIn(path, edits, i, j) + [path[j]]
  {
  }

  lemma ShiftedOneMore(places: seq<At>, place: At, at: At)
    ensures Shifted(places + [place], at) == Shifted(places, at) + [At(at.l + place.l, at.r + place.r)]
  {
  }

  /** Another edit of a hunk: it keeps a pair iff the edit is a match. */
  lemma KeptOneMore(path: seq<At>, edits: seq<EditType>, i: nat, j: nat, kept: seq<At>, place: At, start: At,
      before: seq<At>)
    requires i <= j < |edits| < |path| && path[j] == At(start.l + place.l, start.r + place.r)
    requires Shifted(kept, start) == before + MatchedIn(path, edits, i, j)
    ensures Shifted(kept + if edits[j].Match? then [place] else [], start) == before + MatchedIn(path, edits, i, j + 1)
  {
    hide Shifted;
    ShiftedOneMore(kept, place, start);
    assert kept + [] == kept;
  }

  lemma OneMoreSame(left: seq<string>, right: seq<string>, at: At, gap: nat)
    requires SameLines(left, right, at, gap)
    requires at.l + gap < |left| && at.r + gap < |right| && left[at.l + gap] == right[at.r + gap]
    ensures SameLines(left, right, at, gap + 1)
  {
    OneMoreOf(left, at.l, at.l + gap);
    OneMoreOf(right, at.r, at.r + gap);
  }

  /** The position of the first edit that is not a match. */
  method FindEdit(edits: seq<EditType>, from: nat) returns (i: nat)
    requires from <= |edits|
    ensures from <= i <= |edits| && AllMatch(edits, from, i)
    ensures i == |edits| || !edits[i].Match?
  {
    i := from;
    while i < |edits| && edits[i].Match?
      invariant from <= i <= |edits| && AllMatch(edits, from, i)
    {
      i := i + 1;
    }
  }

  /** Going past the matches before a hunk. */
  method SkipMatches(ghost path: seq<At>, edits: seq<EditType>, ghost left: seq<string>, ghost right: seq<string>,
      l0: nat, r0: nat, edit0: nat)
    returns (l: nat, r: nat, edit: nat)
    requires IsPath(path, edits, left, right) && edit0 <= |edits| && path[edit0] == At(l0, r0)
    requires l0 <= |left| && r0 <= |right|
    ensures edit0 <= edit <= |edits| && AllMatch(edits, edit0, edit)
    ensures if edit == |edits| then At(l, r) == At(|left|, |right|) else !edits[edit].Match?
    ensures path[edit] == At(l, r) == Skip(At(l0, r0), edit - edit0)
    ensures SameLines(left, right, At(l0, r0), edit - edit0)
  {
    l, r, edit := l0, r0, edit0;
    while edit < |edits| && edits[edit].Match?
      invariant edit0 <= edit <= |edits| && AllMatch(edits, edit0, edit)
      invariant path[edit] == At(l, r) == Skip(At(l0, r0), edit - edit0)
      invariant SameLines(left, right, At(l0, r0), edit - edit0)
    {
      OneMoreSame(left, right, At(l0, r0), edit - edit0);
      l, r, edit := l + 1, r + 1, edit + 1;
    }
  }

  lemma OneMoreOf(text: seq<string>, from: nat, i: nat)
    requires from <= i < |text|
    ensures text[from..i + 1] == text[from..i] + [text[i]]
  {
  }

  method PushPrefix(hunk: Hunk, left: seq<string>, l: nat, prefix: nat)
    requires hunk.Valid() && !hunk.HasEdits() && hunk.contents == Content([], [], 0, 0, 0, 0, 0, 0, [])
    requires prefix <= l <= |left|
    modifies hunk
    ensures hunk.Valid() && !hunk.HasEdits()
    ensures hunk.contents == Content(left[l - prefix..l], left[l - prefix..l], 0, 0, prefix, prefix, prefix, 0,
                                     Diagonal(At(0, 0), prefix))
  {
    hide Hunk.Valid;
    var i := prefix;
    while i > 0
      invariant 0 <= i <= prefix && hunk.Valid() && !hunk.HasEdits()
      invariant hunk.contents == Content(left[l - prefix..l - i], left[l - prefix..l - i], 0, 0,
                                           prefix - i, prefix - i, prefix - i, 0, Diagonal(At(0, 0), prefix - i))
    {
      DiagonalOneMore(At(0, 0), prefix - i);
      hunk.PushLine(' ', left[l - i]);
      hunk.EditsAreCounted();
      OneMoreOf(left, l - prefix, l - i);
      i := i - 1;
    }
  }

  /** The next `context` edits, as far as there are any, are matches. */
  ghost predicate Far(edits: seq<EditType>, i: nat, context: nat) {
    AllMatch(edits, i, i + context)
  }

  /** Where a hunk may end: `context` matches behind, no edit within the next `context`. */
  ghost predicate MayStop(edits: seq<EditType>, i: nat, at: At, context: nat) {
    Far(edits, i, context) && context <= at.l && context <= at.r
  }

  /** Is the next edit that is not a match too far away, or is there none? */
  method NextIsFar(edits: seq<EditType>, i: nat, context: nat) returns (far: bool)
    requires i <= |edits|
    ensures far <==> Far(edits, i, context)
  {
    var it := FindEdit(edits, i);
    far := it == |edits| || it - i >= context;
  }

  /** One edit of a hunk. */
  method PushEdit(hunk: Hunk, edit: EditType, left: seq<string>, right: seq<string>, l: nat, r: nat)
    requires hunk.Valid()
    requires edit.Add? || l < |left|
    requires edit.Remove? || r < |right|
    requires edit.Match? ==> left[l] == right[r]
    modifies hunk
    ensures hunk.Valid()
    ensures hunk.contents.left == old(hunk.contents.left) + if edit.Add? then [] else [left[l]]
    ensures hunk.contents.right == old(hunk.contents.right) + if edit.Remove? then [] else [right[r]]
    ensures hunk.HasEdits() <==> old(hunk.HasEdits()) || !edit.Match?
    ensures hunk.contents.leading == old(hunk.contents.leading) + if edit.Match? && !old(hunk.HasEdits()) then 1 else 0
    ensures hunk.contents.trailing == if edit.Match? then old(hunk.contents.trailing) + 1 else 0
    ensures hunk.contents.inner == if edit.Match? then old(hunk.contents.inner) else old(hunk.contents.NextInner())
    ensures hunk.contents.kept == old(hunk.contents.kept)
      + if edit.Match? then [At(|old(hunk.contents.left)|, |old(hunk.contents.right)|)] else []
  {
    if edit.Match? || edit.Remove? || edit.Replace? {
      hunk.PushLine(if edit.Match? then ' ' else '-', left[l]);
    }
    if edit.Add? || edit.Replace? {
      hunk.PushLine('+', right[r]);
    }
  }

  /** The next edit is less than `d` away. */
  ghost predicate EditWithin(edits: seq<EditType>, i: nat, d: int) {
    exists j :: i <= j < i + d && j < |edits| && !edits[j].Match?
  }

  lemma OneNearer(edits: seq<EditType>, i: nat, d: int)
    requires i < |edits| && edits[i].Match? && EditWithin(edits, i, d)
    ensures d > 1 && EditWithin(edits, i + 1, d - 1)
  {
    var j :| i <= j < i + d && j < |edits| && !edits[j].Match?;
    assert i + 1 <= j;
  }

  lemma NothingWithin(edits: seq<EditType>, d: int)
    ensures !EditWithin(edits, |edits|, d)
  {
  }

  lemma FarOrWithin(edits: seq<EditType>, i: nat, context: nat)
    ensures Far(edits, i, context) <==> !EditWithin(edits, i, context)
    ensures forall d: int :: d <= context && EditWithin(edits, i, d) ==> EditWithin(edits, i, context)
  {
  }

  lemma FarFromAnEdit(edits: seq<EditType>, i: nat, context: nat)
    requires i < |edits| && !edits[i].Match?
    ensures Far(edits, i, context) <==> context == 0
  {
  }

  /** While an edit is pushed that is not far from the last: how near the next one has to be. */
  lemma StaysNear(edits: seq<EditType>, edit0: nat, edit: nat, nSuffix: nat, context: nat)
    requires edit0 <= edit < |edits| && !edits[edit0].Match? && (edit == edit0 ==> nSuffix == 0)
    requires nSuffix >= context ==> !Far(edits, edit, context)
    requires nSuffix > context ==> nSuffix < 2 * context && EditWithin(edits, edit, 2 * context - nSuffix)
    ensures context > 0
    ensures var n := if edits[edit].Match? then nSuffix + 1 else 0;
      n > context ==> n < 2 * context && EditWithin(edits, edit + 1, 2 * context - n)
  {
    FarOrWithin(edits, edit, context);
    if edit == edit0 {
      FarFromAnEdit(edits, edit, context);
    }
    hide EditWithin, Far;
    if edits[edit].Match? && nSuffix >= context {
      OneNearer(edits, edit, 2 * context - nSuffix);
    }
  }

  /** Where the next edit is far, the hunk ends with just the context, or nothing was pushed at all. */
  lemma FarEnds(edits: seq<EditType>, edit: nat, at: At, context: nat, nSuffix: nat)
    requires Far(edits, edit, context) && nSuffix >= context && nSuffix <= at.l && nSuffix <= at.r
    requires nSuffix > context ==> nSuffix < 2 * context && EditWithin(edits, edit, 2 * context - nSuffix)
    ensures MayStop(edits, edit, at, context) && nSuffix == context
  {
    FarOrWithin(edits, edit, context);
  }

  lemma OneStep(path: seq<At>, edits: seq<EditType>, left: seq<string>, right: seq<string>, i: nat)
    requires IsPath(path, edits, left, right) && i < |edits|
    ensures Step(edits[i], left, right, path[i], path[i + 1])
  {
  }

  lemma PathLength(path: seq<At>, edits: seq<EditType>, left: seq<string>, right: seq<string>)
    requires IsPath(path, edits, left, right)
    ensures |path| == |edits| + 1
  {
  }

  /** The edits of one hunk, until enough matches follow or the input is over. */
  method FillHunk(hunk: Hunk, ghost path: seq<At>, edits: seq<EditType>, left: seq<string>, right: seq<string>,
      context: nat, l0: nat, r0: nat, edit0: nat, ghost start: At)
    returns (l: nat, r: nat, edit: nat)
    requires hunk.Valid() && !hunk.HasEdits() && hunk.contents.inner == 0
    requires IsPath(path, edits, left, right) && edit0 <= |edits| && path[edit0] == At(l0, r0)
    requires l0 <= |left| && r0 <= |right|
    requires edit0 == |edits| || !edits[edit0].Match?
    requires start.l + |hunk.contents.left| == l0 && start.r + |hunk.contents.right| == r0
    modifies hunk
    ensures hunk.Valid() && edit0 <= edit <= |edits| && path[edit] == At(l, r)
    ensures Shifted(hunk.contents.kept, start)
         == Shifted(old(hunk.contents.kept), start) + MatchedIn(path, edits, edit0, edit)
    ensures l0 <= l <= |left| && r0 <= r <= |right|
    ensures hunk.contents.left == old(hunk.contents.left) + left[l0..l]
    ensures hunk.contents.right == old(hunk.contents.right) + right[r0..r]
    ensures hunk.HasEdits() <==> context > 0 && edit0 < |edits|
    ensures hunk.contents.leading == old(hunk.contents.leading)
    ensures if edit == |edits| then At(l, r) == At(|left|, |right|) else MayStop(edits, edit, At(l, r), context)
    ensures hunk.HasEdits() ==> edit0 < edit && hunk.contents.inner < 2 * context
    ensures hunk.HasEdits() ==>
      hunk.contents.trailing == context || (hunk.contents.trailing < context && edit == |edits|)
  {
    hide Hunk.Valid, EditWithin, Far, MayStop, Shifted, MatchedIn;
    l, r, edit := l0, r0, edit0;
    NothingMatched(path, edits, edit);
    var nSuffix := 0;
    while edit < |edits|
      invariant hunk.Valid() && edit0 <= edit <= |edits| && path[edit] == At(l, r)
      invariant l0 <= l <= |left| && r0 <= r <= |right|
      invariant hunk.contents.left == old(hunk.contents.left) + left[l0..l]
      invariant hunk.contents.right == old(hunk.contents.right) + right[r0..r]
      invariant hunk.HasEdits() <==> edit0 < edit
      invariant edit0 < edit ==> context > 0
      invariant hunk.contents.leading == old(hunk.contents.leading)
      invariant start.l + |hunk.contents.left| == l && start.r + |hunk.contents.right| == r
      invariant Shifted(hunk.contents.kept, start)
             == Shifted(old(hunk.contents.kept), start) + MatchedIn(path, edits, edit0, edit)
      invariant nSuffix <= l && nSuffix <= r
      invariant if edit0 < edit then hunk.contents.trailing == nSuffix else nSuffix == 0
      invariant if edit0 < edit then hunk.contents.inner < 2 * context else hunk.contents.inner == 0
      invariant nSuffix > context ==> nSuffix < 2 * context && EditWithin(edits, edit, 2 * context - nSuffix)
    {
      if nSuffix >= context {
        var far := NextIsFar(edits, edit, context);
        if far {
          FarEnds(edits, edit, At(l, r), context, nSuffix);
          break;
        }
      }
      ghost var l', r' := l, r;
      StaysNear(edits, edit0, edit, nSuffix, context);
      OneStep(path, edits, left, right, edit);
      hunk.EditsAreCounted();
      KeptOneMore(path, edits, edit0, edit, hunk.contents.kept,
        At(|hunk.contents.left|, |hunk.contents.right|), start, Shifted(old(hunk.contents.kept), start));
      PushEdit(hunk, edits[edit], left, right, l, r);
      nSuffix := if edits[edit].Match? then nSuffix + 1 else 0;
      l := if edits[edit].Add? then l else l + 1;
      r := if edits[edit].Remove? then r else r + 1;
      OneMorePiece(left, l0, l', l);
      OneMorePiece(right, r0, r', r);
      edit := edit + 1;
    }
    NothingWithin(edits, 2 * context - nSuffix);
  }

  lemma OneMorePiece(text: seq<string>, from: nat, i: nat, j: nat)
    requires from <= i <= j <= |text| && j <= i + 1
    ensures text[from..j] == text[from..i] + if i == j then [] else [text[i]]
  {
  }

  // ----- the whole diff -----

  /** The hunks lead from the beginning to a place from which on both sides are the same. */
  ghost predicate IsUnifiedDiff(hunks: seq<PrintedHunk>, left: seq<string>, right: seq<string>, context: nat) {
    exists end: At :: Hunks(hunks, left, right, context, At(0, 0), end) && SameFrom(left, right, end)
  }

  ghost predicate SameFrom(left: seq<string>, right: seq<string>, at: At) {
    at.l <= |left| && at.r <= |right| && left[at.l..] == right[at.r..]
  }

  lemma AtTheEnd(left: seq<string>, right: seq<string>)
    ensures SameFrom(left, right, At(|left|, |right|))
  {
  }

  lemma RestIsSame(left: seq<string>, right: seq<string>, at: At, gap: nat)
    requires SameLines(left, right, at, gap) && at.l + gap == |left| && at.r + gap == |right|
    ensures SameFrom(left, right, at)
  {
    assert left[at.l..] == left[at.l..at.l + gap] && right[at.r..] == right[at.r..at.r + gap];
  }

  /** The lines before a hunk's first edit that the hunk shows are the same on both sides. */
  lemma PrefixIsSame(left: seq<string>, right: seq<string>, at: At, gap: nat, prefix: nat)
    requires SameLines(left, right, at, gap) && prefix <= gap
    ensures SameLines(left, right, at, gap - prefix)
    ensures left[at.l + gap - prefix..at.l + gap] == right[at.r + gap - prefix..at.r + gap]
  {
    assert left[at.l..at.l + gap][..gap - prefix] == left[at.l..at.l + gap - prefix];
    assert right[at.r..at.r + gap][..gap - prefix] == right[at.r..at.r + gap - prefix];
    assert left[at.l..at.l + gap][gap - prefix..] == left[at.l + gap - prefix..at.l + gap];
    assert right[at.r..at.r + gap][gap - prefix..] == right[at.r + gap - prefix..at.r + gap];
  }

  /** There are enough matches before an edit for the context that the hunk shows. */
  lemma EnoughMatches(edits: seq<EditType>, edit0: nat, edit: nat, at: At, context: nat)
    requires (edit0 == 0 && at == At(0, 0)) || MayStop(edits, edit0, at, context)
    requires edit0 <= edit <= |edits| && AllMatch(edits, edit0, edit)
    requires edit == |edits| || !edits[edit].Match?
    ensures var prefix := Min(at.l + edit - edit0, context);
      && prefix <= at.r + edit - edit0
      && (edit < |edits| ==> prefix <= edit - edit0)
      && (prefix == context || at.l + edit - edit0 == prefix == at.r + edit - edit0)
  {
    if edit0 != 0 || at != At(0, 0) {
      assert edit < |edits| ==> context <= edit - edit0;
    }
  }

  /** A printed hunk is in its place. */
  lemma HunkIsPlaced(h: PrintedHunk, left: seq<string>, right: seq<string>, context: nat, at: At, to: At, c: Content)
    requires ContentOf(h.lines) == c && Grouped(h.lines)
    requires at.l <= to.l <= |left| && at.r <= to.r <= |right|
    requires c.left == left[at.l..to.l] && c.right == right[at.r..to.r]
    requires h.left == if c.removes > 0 then Some(Range(at.l + 1, |c.left|)) else None
    requires h.right == if c.adds > 0 then Some(Range(at.r + 1, |c.right|)) else None
    requires c.removes > 0 || c.adds > 0
    requires c.inner < 2 * context
    requires c.leading == context || (c.leading < context && at == At(0, 0))
    requires c.trailing == context || (c.trailing < context && to == At(|left|, |right|))
    ensures Placed(h, left, right, context, at) && End(h, at) == to
  {
    assert left[at.l..][..to.l - at.l] == left[at.l..to.l];
    assert right[at.r..][..to.r - at.r] == right[at.r..to.r];
  }

  /** A hunk that was filled with the context before the first edit, at `mid`, and then with the
      edits follows the hunks before it. */
  lemma HunkExtends(hunks: seq<PrintedHunk>, h: PrintedHunk, left: seq<string>, right: seq<string>, context: nat,
      at: At, gap: nat, start: At, mid: At, to: At, c: Content)
    requires Hunks(hunks, left, right, context, At(0, 0), at)
    requires start == Skip(at, gap) && SameLines(left, right, at, gap)
    requires start.l <= mid.l <= to.l <= |left| && start.r <= mid.r <= to.r <= |right|
    requires left[start.l..mid.l] == right[start.r..mid.r]
    requires ContentOf(h.lines) == c && Grouped(h.lines)
    requires c.left == left[start.l..mid.l] + left[mid.l..to.l]
    requires c.right == left[start.l..mid.l] + right[mid.r..to.r]
    requires h.left == if c.removes > 0 then Some(Range(start.l + 1, |c.left|)) else None
    requires h.right == if c.adds > 0 then Some(Range(start.r + 1, |c.right|)) else None
    requires c.removes > 0 || c.adds > 0
    requires c.inner < 2 * context
    requires c.leading == context || (c.leading < context && start == At(0, 0))
    requires c.trailing == context || (c.trailing < context && to == At(|left|, |right|))
    ensures Hunks(hunks + [h], left, right, context, At(0, 0), to)
  {
    hide Hunks, ContentOf, Grouped, Placed;
    JoinSlices(left, start.l, mid.l, to.l);
    JoinSlices(right, start.r, mid.r, to.r);
    HunkIsPlaced(h, left, right, context, start, to, c);
    OneMoreHunk(hunks, h, left, right, context, At(0, 0), at, gap);
  }

  /** The same, from where the search for the hunk began and the lines it shows before its first edit. */
  lemma PrintedExtends(hunks: seq<PrintedHunk>, h: PrintedHunk, left: seq<string>, right: seq<string>, context: nat,
      at: At, gap: nat, prefix: nat, to: At, c: Content)
    requires Hunks(hunks, left, right, context, At(0, 0), at)
    requires SameLines(left, right, at, gap) && prefix <= gap
    requires at.l + gap <= to.l <= |left| && at.r + gap <= to.r <= |right|
    requires ContentOf(h.lines) == c && Grouped(h.lines)
    requires c.left == left[at.l + gap - prefix..at.l + gap] + left[at.l + gap..to.l]
    requires c.right == left[at.l + gap - prefix..at.l + gap] + right[at.r + gap..to.r]
    requires h.left == if c.removes > 0 then Some(Range(at.l + gap - prefix + 1, |c.left|)) else None
    requires h.right == if c.adds > 0 then Some(Range(at.r + gap - prefix + 1, |c.right|)) else None
    requires c.removes > 0 || c.adds > 0
    requires c.inner < 2 * context
    requires c.leading == prefix && (prefix == context || (prefix < context && at.l + gap == at.r + gap == prefix))
    requires c.trailing == context || (c.trailing < context && to == At(|left|, |right|))
    ensures Hunks(hunks + [h], left, right, context, At(0, 0), to)
  {
    hide Hunks, ContentOf, Grouped, SameLines;
    PrefixIsSame(left, right, at, gap, prefix);
    HunkExtends(hunks, h, left, right, context, at, gap - prefix,
      Skip(at, gap - prefix), Skip(at, gap), to, c);
  }

  lemma JoinSlices(text: seq<string>, i: nat, j: nat, k: nat)
    requires i <= j <= k <= |text|
    ensures text[i..j] + text[j..k] == text[i..k]
  {
  }

  lemma {:induction false} JoinDiagonals(at: At, n: nat, m: nat)
    ensures Diagonal(at, n + m) == Diagonal(at, n) + Diagonal(Skip(at, n), m)
  {
    hide Diagonal;
    if m == 0 {
      NoDiagonal(Skip(at, n));
    } else {
      JoinDiagonals(at, n, m - 1);
      DiagonalOneMore(at, n + m - 1);
      DiagonalOneMore(Skip(at, n), m - 1);
    }
  }

  lemma {:induction false} ShiftedDiagonal(at: At, n: nat)
    ensures Shifted(Diagonal(At(0, 0), n), at) == Diagonal(at, n)
  {
    if n > 0 {
      ShiftedDiagonal(at, n - 1);
      DiagonalOneMore(At(0, 0), n - 1);
      DiagonalOneMore(at, n - 1);
      ShiftedOneMore(Diagonal(At(0, 0), n - 1), At(n - 1, n - 1), at);
    }
  }

  /** A printed hunk with the matches it skipped and the context it began with keeps the places of the
      script's matches, and ends where the script has come to. */
  lemma PrintedKeeps(h: PrintedHunk, at: At, gap: nat, prefix: nat, to: At, c: Content, matched: seq<At>)
    requires prefix <= gap && ContentOf(h.lines) == c && at.l + gap <= to.l && at.r + gap <= to.r
    requires |c.left| == prefix + to.l - at.l - gap && |c.right| == prefix + to.r - at.r - gap
    requires h.left == if c.removes > 0 then Some(Range(at.l + gap - prefix + 1, |c.left|)) else None
    requires h.right == if c.adds > 0 then Some(Range(at.r + gap - prefix + 1, |c.right|)) else None
    requires c.removes > 0 || c.adds > 0
    requires Shifted(c.kept, Skip(at, gap - prefix))
          == Shifted(Diagonal(At(0, 0), prefix), Skip(at, gap - prefix)) + matched
    ensures Gap(h, at) == gap - prefix && End(h, Skip(at, gap - prefix)) == to
    ensures PlacesTo(h, at) == Diagonal(at, gap) + matched
  {
    hide Diagonal, Shifted;
    JoinDiagonals(at, gap - prefix, prefix);
    ShiftedDiagonal(Skip(at, gap - prefix), prefix);
    var first, second := Diagonal(at, gap - prefix), Diagonal(Skip(at, gap - prefix), prefix);
    assert first + (second + matched) == first + second + matched;
  }

  /** Skipping the matches before a hunk, and the hunk with the context before its first edit. */
  method StartHunk(ghost path: seq<At>, edits: seq<EditType>, left: seq<string>, right: seq<string>, context: nat,
      l0: nat, r0: nat, edit0: nat)
    returns (hunk: Hunk, l: nat, r: nat, edit: nat, ghost prefix: nat)
    requires IsPath(path, edits, left, right) && edit0 < |edits| && path[edit0] == At(l0, r0)
    requires l0 <= |left| && r0 <= |right|
    requires (edit0 == 0 && l0 == r0 == 0) || MayStop(edits, edit0, At(l0, r0), context)
    ensures edit0 <= edit <= |edits| && path[edit] == At(l, r) == Skip(At(l0, r0), edit - edit0)
    ensures SameLines(left, right, At(l0, r0), edit - edit0)
    ensures if edit == |edits| then At(l, r) == At(|left|, |right|) else !edits[edit].Match? && prefix <= edit - edit0
    ensures fresh(hunk) && hunk.Valid() && !hunk.HasEdits() && hunk.contents.inner == 0
    ensures prefix <= l && prefix <= r && hunk.leftStart == l - prefix + 1 && hunk.rightStart == r - prefix + 1
    ensures hunk.contents.left == hunk.contents.right == left[l - prefix..l] && hunk.contents.leading == prefix
    ensures prefix == context || (prefix < context && l == r == prefix)
    ensures |hunk.contents.left| == |hunk.contents.right| == prefix && hunk.contents.kept == Diagonal(At(0, 0), prefix)
    ensures MatchedIn(path, edits, edit0, edit) == Diagonal(At(l0, r0), edit - edit0)
  {
    l, r, edit := SkipMatches(path, edits, left, right, l0, r0, edit0);
    MatchedDiagonal(path, edits, left, right, edit0, edit);
    EnoughMatches(edits, edit0, edit, At(l0, r0), context);
    var prefixContext := Min(l, context);
    prefix := prefixContext;
    hunk := new Hunk(l - prefixContext + 1, r - prefixContext + 1);
    PushPrefix(hunk, left, l, prefixContext);
  }

  /** One round of the outer loop; no hunk if there are no edits left, or none will be shown. */
  method NextHunk(ghost hunks: seq<PrintedHunk>, ghost path: seq<At>, edits: seq<EditType>,
      left: seq<string>, right: seq<string>, context: nat, l0: nat, r0: nat, edit0: nat)
    returns (printed: Option<PrintedHunk>, l: nat, r: nat, edit: nat)
    requires IsPath(path, edits, left, right) && edit0 < |edits| && path[edit0] == At(l0, r0)
    requires l0 <= |left| && r0 <= |right|
    requires (edit0 == 0 && l0 == r0 == 0) || MayStop(edits, edit0, At(l0, r0), context)
    ensures edit0 <= edit <= |edits| && path[edit] == At(l, r) && l <= |left| && r <= |right|
    ensures edit == |edits| || MayStop(edits, edit, At(l, r), context)
    ensures context == 0 ==> printed.None?
    ensures context > 0 && printed.None? ==> SameFrom(left, right, At(l0, r0))
    ensures printed.Some? ==> edit0 < edit
    ensures printed.Some? && Hunks(hunks, left, right, context, At(0, 0), At(l0, r0)) ==>
      Hunks(hunks + [printed.value], left, right, context, At(0, 0), At(l, r))
    ensures printed.Some? ==> PlacesTo(printed.value, At(l0, r0)) == MatchedIn(path, edits, edit0, edit)
    ensures printed.Some? ==>
      var gap := Gap(printed.value, At(l0, r0));
      gap >= 0 && End(printed.value, Skip(At(l0, r0), gap)) == At(l, r)
    ensures printed.Some? ==> exists i :: 0 <= i < |edits| && !edits[i].Match?
    ensures context > 0 && printed.None? ==>
      MatchedIn(path, edits, edit0, |edits|) == Diagonal(At(l0, r0), |left| - l0)
  {
    hide Hunk.Valid, Hunk.HasEdits, Hunk.Lines, Hunks, ContentOf, Grouped, IsPath, MayStop, SameFrom, SameLines,
         Diagonal, Shifted, MatchedIn, PlacesTo, Gap, End, AllMatch, Content.NextInner;
    var hunk, l1, r1, edit1, prefix := StartHunk(path, edits, left, right, context, l0, r0, edit0);
    ghost var gap := edit1 - edit0;
    PathLength(path, edits, left, right);
    ghost var start := At(l1 - prefix, r1 - prefix);
    l, r, edit := FillHunk(hunk, path, edits, left, right, context, l1, r1, edit1, start);
    MatchedSplit(path, edits, edit0, edit1, edit);
    hunk.EditsAreCounted();
    if !hunk.HasEdits() {
      if context > 0 {
        RestIsSame(left, right, At(l0, r0), gap);
      }
      return None, l, r, edit;
    }
    ghost var c := hunk.contents;
    var h := hunk.PrintTo();
    printed := Some(h);
    assert !edits[edit1].Match?;
    ghost var at, next, matched := At(l0, r0), At(l, r), MatchedIn(path, edits, edit1, edit);
    PrintedKeeps(h, at, gap, prefix, next, c, matched);
    if Hunks(hunks, left, right, context, At(0, 0), at) {
      PrintedExtends(hunks, h, left, right, context, at, gap, prefix, next, c);
    }
  }

  lemma NoHunksYet(path: seq<At>, edits: seq<EditType>, left: seq<string>, right: seq<string>, context: nat)
    requires |edits| < |path|
    ensures Hunks([], left, right, context, At(0, 0), At(0, 0))
    ensures KeptPairs([], At(0, 0), At(0, 0)) == MatchedIn(path, edits, 0, 0)
  {
  }

  lemma KeptByOneMore(hunks: seq<PrintedHunk>, h: PrintedHunk, path: seq<At>, edits: seq<EditType>,
      left: seq<string>, right: seq<string>, context: nat, at: At, to: At, i: nat, j: nat)
    requires Hunks(hunks, left, right, context, At(0, 0), at) && i <= j <= |edits| < |path|
    requires KeptPairs(hunks, At(0, 0), at) == MatchedIn(path, edits, 0, i)
    requires PlacesTo(h, at) == MatchedIn(path, edits, i, j)
    requires Gap(h, at) >= 0 && End(h, Skip(at, Gap(h, at))) == to
    ensures KeptPairs(hunks + [h], At(0, 0), to) == MatchedIn(path, edits, 0, j)
  {
    hide Hunks, MatchedIn, PlacesTo, Gap, End, Diagonal;
    MatchedSplit(path, edits, 0, i, j);
    KeptPairsOneMore(hunks, h, left, right, context, At(0, 0), at, to);
    NoDiagonal(to);
  }

  lemma KeptToEnd(hunks: seq<PrintedHunk>, path: seq<At>, edits: seq<EditType>,
      left: seq<string>, right: seq<string>, context: nat, at: At, i: nat)
    requires Hunks(hunks, left, right, context, At(0, 0), at) && i <= |edits| < |path|
    requires KeptPairs(hunks, At(0, 0), at) == MatchedIn(path, edits, 0, i)
    requires MatchedIn(path, edits, i, |edits|) == Diagonal(at, |left| - at.l)
    ensures KeptPairs(hunks, At(0, 0), At(|left|, |right|)) == MatchedIn(path, edits, 0, |edits|)
  {
    hide Hunks, MatchedIn, KeptPairs, Diagonal;
    MatchedSplit(path, edits, 0, i, |edits|);
    KeptPairsToEnd(hunks, left, right, context, At(0, 0), at, At(|left|, |right|));
  }

  /** From the beginning of the texts to their ends, hunk by hunk. */
  method PrintHunks(ghost path: seq<At>, edits: seq<EditType>, left: seq<string>, right: seq<string>, context: nat)
    returns (hunks: seq<PrintedHunk>)
    requires IsPath(path, edits, left, right)
    ensures context > 0 ==> IsUnifiedDiff(hunks, left, right, context)
    ensures context == 0 ==> hunks == []
    ensures context > 0 ==> KeptPairs(hunks, At(0, 0), At(|left|, |right|)) == MatchedIn(path, edits, 0, |edits|)
    ensures hunks != [] ==> exists i :: 0 <= i < |edits| && !edits[i].Match?
  {
    hide Hunks, KeptPairs, PlacesTo, Gap, End, SameFrom, MayStop, MatchedIn;
    hunks := [];
    var l: nat, r: nat, edit: nat := 0, 0, 0;
    NoHunksYet(path, edits, left, right, context);
    while edit < |edits|
      invariant edit <= |edits| && l <= |left| && r <= |right| && path[edit] == At(l, r)
      invariant context == 0 ==> hunks == []
      invariant context > 0 ==> Hunks(hunks, left, right, context, At(0, 0), At(l, r))
      invariant context > 0 ==> KeptPairs(hunks, At(0, 0), At(l, r)) == MatchedIn(path, edits, 0, edit)
      invariant hunks != [] ==> exists i :: 0 <= i < |edits| && !edits[i].Match?
      invariant edit == |edits| || (edit == 0 && l == r == 0) || MayStop(edits, edit, At(l, r), context)
      decreases |edits| - edit
    {
      ghost var at := At(l, r);
      var printed, l', r', edit' := NextHunk(hunks, path, edits, left, right, context, l, r, edit);
      if printed.None? {
        if context > 0 {
          KeptToEnd(hunks, path, edits, left, right, context, at, edit);
          assert SameFrom(left, right, at);
        }
        return;
      }
      if context > 0 {
        KeptByOneMore(hunks, printed.value, path, edits, left, right, context, at, At(l', r'), edit, edit');
      }
      hunks := hunks + [printed.value];
      l, r, edit := l', r', edit';
    }
    AtTheEnd(left, right);
  }

  /** The script of a text and itself keeps every line. */
  lemma {:induction false} SameTextsMatch(text: seq<string>, n: nat)
    requires n <= |text|
    ensures forall i :: 0 <= i < |Script(Matches(text, text), n, n)| ==> Script(Matches(text, text), n, n)[i].Match?
  {
    if n > 0 {
      SameTextsMatch(text, n - 1);
      assert (n - 1, n - 1) in Matches(text, text);
    }
  }

  lemma DiffKeepsScript(hunks: seq<PrintedHunk>, script: seq<EditType>, left: seq<string>, right: seq<string>,
      context: nat)
    requires IsUnifiedDiff(hunks, left, right, context)
    requires KeptPairs(hunks, At(0, 0), At(|left|, |right|)) == MatchedPairs(script)
    requires LeftLen(script) == |left| && RightLen(script) == |right|
    ensures Total(hunks, '-') == Moves(script, Remove) + Moves(script, Replace)
    ensures Total(hunks, '+') == Moves(script, Add) + Moves(script, Replace)
  {
    hide Hunks, KeptPairs, Total, MatchedPairs;
    var end: At :| Hunks(hunks, left, right, context, At(0, 0), end) && SameFrom(left, right, end);
    assert |left[end.l..]| == |right[end.r..]|;
    KeptOrMarked(hunks, left, right, context, At(0, 0), end, At(|left|, |right|));
    MovesOfSides(script);
  }

  /** Whoever has the left text and the diff can make the right text from it, unless no context was
      asked for: then the diff is empty.  A diff with context keeps the pairs of lines that the edit
      script matches and no others, so it removes and adds as many lines as the script, and there is
      none for equal texts only. */
  method CreateUnifiedDiff(left: seq<string>, right: seq<string>, context: nat) returns (hunks: seq<PrintedHunk>)
    ensures context > 0 ==> IsUnifiedDiff(hunks, left, right, context)
    ensures context == 0 ==> hunks == []
    ensures ApplyPatch(left, hunks, At(0, 0)) == Some(right) <==> context > 0 || left == right
    ensures context > 0 ==>
      var script := Script(Matches(left, right), |left|, |right|);
      && KeptPairs(hunks, At(0, 0), At(|left|, |right|)) == MatchedPairs(script)
      && Total(hunks, '-') == Moves(script, Remove) + Moves(script, Replace)
      && Total(hunks, '+') == Moves(script, Add) + Moves(script, Replace)
    ensures context > 0 ==> (hunks == [] <==> left == right)
  {
    hide Hunks, KeptPairs, MatchedPairs, Total, Moves, Script, IsPath, MatchedIn;
    var edits := CalculateOptimalEditsOfLines(left, right);
    ghost var path := ScriptIsPath(edits, left, right);
    hunks := PrintHunks(path, edits, left, right, context);
    if left == right {
      SameTextsMatch(left, |left|);
    }
    if context > 0 {
      ghost var end :| Hunks(hunks, left, right, context, At(0, 0), end) && SameFrom(left, right, end);
      HunksPatch(hunks, left, right, context, At(0, 0), end);
      DiffKeepsScript(hunks, edits, left, right, context);
    }
  }
}
