/** `applyFormatting`: split every segment that overlaps the selection into
    prefix, selected part and suffix, change the selected part's attributes,
    then drop empty segments and merge equally styled neighbours.  */
module Formatting {
  import opened Segments

  /** The four buttons: a foreground or background swatch overwrites the
      colour, Bold and Line flip the flag of each segment separately. */
  datatype Format = SetColor(value: string) | SetBg(value: string) | ToggleBold | ToggleUnderline

  /** The style a selected character ends up with. */
  function Restyle(st: Style, f: Format): Style {
    match f
    case SetColor(v) => st.(color := Some(v))
    case SetBg(v) => st.(bg := Some(v))
    case ToggleBold => st.(bold := !st.bold)
    case ToggleUnderline => st.(underline := !st.underline)
  }

  /** The attribute update applied to the selected part of `seg`. */
  function Retouch(seg: Segment, f: Format): (r: Segment)
    ensures f.SetColor? ==> r == seg.(color := Some(f.value))
    ensures f.SetBg? ==> r == seg.(bg := Some(f.value))
    ensures f.ToggleBold? ==> r == seg.(bold := !seg.bold)
    ensures f.ToggleUnderline? ==> r == seg.(underline := !seg.underline)
  {
    var st := Restyle(seg.Attrs(), f);
    Segment(seg.text, st.color, st.bg, st.bold, st.underline)
  }

  /** What one segment starting at offset `segStart` contributes to
      `newSegments`. */
  function Pieces(seg: Segment, segStart: nat, start: nat, end: nat, f: Format): (r: seq<Segment>)
    ensures 1 <= |r| <= 3
    ensures forall i :: 0 <= i < |r| ==> |r[i].text| <= |seg.text|
    ensures forall i :: 0 <= i < |r| ==>
      r[i].Attrs() == seg.Attrs() || r[i].Attrs() == Restyle(seg.Attrs(), f)
  {
    var segEnd := segStart + |seg.text|;
    if segEnd <= start then [seg]
    else if segStart >= end then [seg]
    else
      var before := if segStart < start then [seg.(text := Substring(seg.text, 0, start - segStart))] else [];
      var selected := seg.(text := Substring(seg.text, Max(0, start - segStart), Min(|seg.text|, end - segStart)));
      var after := if segEnd > end then [seg.(text := Substring(seg.text, end - segStart, |seg.text|))] else [];
      before + [Retouch(selected, f)] + after
  }

  function Max(a: int, b: int): int { if a < b then b else a }
  function Min(a: int, b: int): int { if a < b then a else b }

  /** `newSegments` after the `forEach` pass over `segs`; each segment's offset
      is the length of the text before it. */
  function Split(segs: seq<Segment>, start: nat, end: nat, f: Format): (r: seq<Segment>)
    ensures |segs| <= |r| <= 3 * |segs|
  {
    if segs == [] then []
    else
      var init := segs[..|segs| - 1];
      Split(init, start, end, f) + Pieces(segs[|segs| - 1], |Concat(init)|, start, end, f)
  }

  /** One iteration of the merge loop at index `i` with `current == cur`. */
  function MergeStep(merged: seq<Segment>, cur: Segment, i: nat): (r: seq<Segment>)
    requires i > 0 && cur.text != "" ==> |merged| > 0
    ensures |merged| <= |r| <= |merged| + 1
    ensures forall k :: 0 <= k < |merged| - 1 ==> r[k] == merged[k]
    ensures |r| == |merged| + 1 ==> r[..|merged|] == merged && r[|merged|] == cur && cur.text != ""
    ensures |r| == |merged| + 1 && i > 0 ==> merged[|merged| - 1].Attrs() != cur.Attrs()
    ensures |r| == |merged| && cur.text != "" ==>
      |merged| > 0 && merged[|merged| - 1].Attrs() == cur.Attrs() &&
      r[|r| - 1] == merged[|merged| - 1].(text := merged[|merged| - 1].text + cur.text)
    ensures cur.text == "" ==> r == merged
  {
    if cur.text == "" then merged
    else if i > 0 && merged[|merged| - 1].Attrs() == cur.Attrs() then
      var prev := merged[|merged| - 1];
      merged[|merged| - 1 := prev.(text := prev.text + cur.text)]
    else merged + [cur]
  }

  /** `mergedSegments` after the merge loop has run over all of `ns`. */
  function MergeOf(ns: seq<Segment>): (r: seq<Segment>)
    requires MergeGuardSafe(ns)
    ensures (|r| > 0) == (exists j :: 0 <= j < |ns| && ns[j].text != "")
    ensures Normal(r)
  {
    if ns == [] then []
    else
      var init := ns[..|ns| - 1];
      var cur := ns[|ns| - 1];
      assert MergeGuardSafe(init);
      assert |ns| - 1 > 0 && cur.text != "" ==> init[0].text != "";
      MergeStep(MergeOf(init), cur, |ns| - 1)
  }

  /** The segment list `applyFormatting` installs. */
  function Apply(segs: seq<Segment>, start: nat, end: nat, f: Format): (r: seq<Segment>)
    requires start <= end && (start < end ==> MergeGuardSafe(segs))
    ensures start == end ==> r == segs
    ensures start < end ==> Normal(r)
  {
    if start == end then segs
    else
      SplitSafe(segs, start, end, f);
      MergeOf(Split(segs, start, end, f))
  }

  /** Reference semantics: cell `k` of `cells` sits at buffer offset
      `off + k`; a cell inside `[start, end)` gets its style changed by `f`,
      every other cell is kept. */
  function RestyledFrom(cells: seq<Cell>, off: nat, start: nat, end: nat, f: Format): seq<Cell> {
    seq(|cells|, k requires 0 <= k < |cells| =>
      if start <= off + k < end then cells[k].(style := Restyle(cells[k].style, f)) else cells[k])
  }

  // ---------------------------------------------------------------- split pass

  /** A segment that is not empty yields only non-empty pieces; an empty one
      yields a single empty piece. */
  lemma PiecesShape(seg: Segment, segStart: nat, start: nat, end: nat, f: Format)
    requires start < end
    ensures seg.text == "" ==> |Pieces(seg, segStart, start, end, f)| == 1 && Pieces(seg, segStart, start, end, f)[0].text == ""
    ensures seg.text != "" ==> |Pieces(seg, segStart, start, end, f)| > 0 && NoEmpty(Pieces(seg, segStart, start, end, f))
  {
  }

  lemma {:induction false} SplitFirst(segs: seq<Segment>, start: nat, end: nat, f: Format)
    requires |segs| > 0
    ensures |Split(segs, start, end, f)| >= |Pieces(segs[0], 0, start, end, f)|
    ensures Split(segs, start, end, f)[..|Pieces(segs[0], 0, start, end, f)|] == Pieces(segs[0], 0, start, end, f)
  {
    var init := segs[..|segs| - 1];
    if |segs| == 1 {
      assert init == [];
    } else {
      assert init[0] == segs[0];
      SplitFirst(init, start, end, f);
    }
  }

  lemma {:induction false} SplitAllEmpty(segs: seq<Segment>, start: nat, end: nat, f: Format)
    requires start < end
    requires forall j :: 0 <= j < |segs| ==> segs[j].text == ""
    ensures forall j :: 0 <= j < |Split(segs, start, end, f)| ==> Split(segs, start, end, f)[j].text == ""
  {
    if segs != [] {
      var init := segs[..|segs| - 1];
      SplitAllEmpty(init, start, end, f);
      PiecesShape(segs[|segs| - 1], |Concat(init)|, start, end, f);
    }
  }

  /** The split pass never produces the list on which the merge loop would
      read past the start of `mergedSegments`. */
  lemma SplitSafe(segs: seq<Segment>, start: nat, end: nat, f: Format)
    requires start < end && MergeGuardSafe(segs)
    ensures MergeGuardSafe(Split(segs, start, end, f))
  {
    if segs != [] {
      if segs[0].text == "" {
        SplitAllEmpty(segs, start, end, f);
      } else {
        SplitFirst(segs, start, end, f);
        PiecesShape(segs[0], 0, start, end, f);
        var p := Pieces(segs[0], 0, start, end, f);
        assert Split(segs, start, end, f)[0] == p[0];
      }
    }
  }

  lemma RestyledFromAppend(a: seq<Cell>, b: seq<Cell>, off: nat, start: nat, end: nat, f: Format)
    ensures RestyledFrom(a + b, off, start, end, f)
         == RestyledFrom(a, off, start, end, f) + RestyledFrom(b, off + |a|, start, end, f)
  {
  }

  lemma CellsOfSlices(t: string, i: nat, j: nat, st: Style, st': Style)
    requires i <= j <= |t|
    ensures |CellsOf(t[..i], st) + CellsOf(t[i..j], st') + CellsOf(t[j..], st)| == |t|
    ensures forall k :: 0 <= k < |t| ==>
      (CellsOf(t[..i], st) + CellsOf(t[i..j], st') + CellsOf(t[j..], st))[k]
        == Cell(t[k], if i <= k < j then st' else st)
  {
  }

  /** The pieces of an overlapping segment, written with slices: the
      prefix if the segment starts before the selection, the retouched middle,
      the suffix if it ends after the selection. */
  lemma OverlapSlices(seg: Segment, segStart: nat, start: nat, end: nat, f: Format, i: nat, j: nat)
    requires start <= end
    requires start < segStart + |seg.text| && segStart < end
    requires i == Max(0, start - segStart) && j == Min(|seg.text|, end - segStart)
    ensures i <= j <= |seg.text|
    ensures Pieces(seg, segStart, start, end, f)
         == (if segStart < start then [seg.(text := seg.text[..i])] else [])
          + [Retouch(seg.(text := seg.text[i..j]), f)]
          + (if segStart + |seg.text| > end then [seg.(text := seg.text[j..])] else [])
  {
    var t := seg.text;
    assert segStart < start ==> Substring(t, 0, start - segStart) == t[..i];
    assert Substring(t, Max(0, start - segStart), Min(|t|, end - segStart)) == t[i..j];
    assert segStart + |t| > end ==> Substring(t, end - segStart, |t|) == t[j..];
  }

  /** An overlapping segment is cut at the selection's offsets `i` and `j`
      inside its text: prefix, retouched middle, suffix. */
  lemma OverlapPieces(seg: Segment, segStart: nat, start: nat, end: nat, f: Format, i: nat, j: nat)
    requires start <= end
    requires start < segStart + |seg.text| && segStart < end
    requires i == Max(0, start - segStart) && j == Min(|seg.text|, end - segStart)
    ensures i <= j <= |seg.text|
    ensures Flat(Pieces(seg, segStart, start, end, f))
         == CellsOf(seg.text[..i], seg.Attrs()) + CellsOf(seg.text[i..j], Restyle(seg.Attrs(), f))
          + CellsOf(seg.text[j..], seg.Attrs())
  {
    var t, st := seg.text, seg.Attrs();
    var before := if segStart < start then [seg.(text := t[..i])] else [];
    var after := if segStart + |t| > end then [seg.(text := t[j..])] else [];
    var mid := Retouch(seg.(text := t[i..j]), f);
    OverlapSlices(seg, segStart, start, end, f, i, j);
    FlatAppend(before + [mid], after);
    FlatAppend(before, [mid]);
    FlatSingle(mid);
    FlatPart(seg, segStart < start, t[..i]);
    FlatPart(seg, segStart + |t| > end, t[j..]);
  }

  lemma FlatPart(seg: Segment, keep: bool, x: string)
    requires !keep ==> x == []
    ensures Flat(if keep then [seg.(text := x)] else []) == CellsOf(x, seg.Attrs())
  {
    if keep {
      FlatSingle(seg.(text := x));
    }
  }

  /** Character by character, one segment's pieces are the segment with the
      style of the selected characters changed. */
  lemma PiecesCells(seg: Segment, segStart: nat, start: nat, end: nat, f: Format)
    requires start <= end
    ensures Flat(Pieces(seg, segStart, start, end, f)) == RestyledFrom(Cells(seg), segStart, start, end, f)
  {
    var t, st := seg.text, seg.Attrs();
    if segStart + |t| <= start || segStart >= end {
      FlatSingle(seg);
    } else {
      var i := Max(0, start - segStart);
      var j := Min(|t|, end - segStart);
      OverlapPieces(seg, segStart, start, end, f, i, j);
      CellsOfSlices(t, i, j, st, Restyle(st, f));
    }
  }

  /** The split pass changes exactly the selected characters' styles. */
  lemma {:induction false} SplitCells(segs: seq<Segment>, start: nat, end: nat, f: Format)
    requires start <= end
    ensures Flat(Split(segs, start, end, f)) == RestyledFrom(Flat(segs), 0, start, end, f)
  {
    if segs != [] {
      var init := segs[..|segs| - 1];
      var last := segs[|segs| - 1];
      assert segs == init + [last];
      SplitCells(init, start, end, f);
      SplitCellsStep(init, last, start, end, f);
    }
  }

  lemma SplitSnoc(init: seq<Segment>, last: Segment, start: nat, end: nat, f: Format)
    ensures Split(init + [last], start, end, f)
         == Split(init, start, end, f) + Pieces(last, |Concat(init)|, start, end, f)
  {
    assert (init + [last])[..|init + [last]| - 1] == init;
  }

  lemma SplitCellsStep(init: seq<Segment>, last: Segment, start: nat, end: nat, f: Format)
    requires start <= end
    requires Flat(Split(init, start, end, f)) == RestyledFrom(Flat(init), 0, start, end, f)
    ensures Flat(Split(init + [last], start, end, f)) == RestyledFrom(Flat(init + [last]), 0, start, end, f)
  {
    var off := |Concat(init)|;
    SplitSnoc(init, last, start, end, f);
    FlatAppend(init, [last]);
    FlatSingle(last);
    FlatChars(init);
    PiecesCells(last, off, start, end, f);
    FlatAppend(Split(init, start, end, f), Pieces(last, off, start, end, f));
    RestyledFromAppend(Flat(init), Cells(last), 0, start, end, f);
  }

  // ---------------------------------------------------------------- merge pass

  /** Merging drops empty segments and joins neighbours, so it keeps every
      character with its style. */
  lemma {:induction false} MergeCells(ns: seq<Segment>)
    requires MergeGuardSafe(ns)
    ensures Flat(MergeOf(ns)) == Flat(ns)
  {
    if ns != [] {
      var n := |ns| - 1;
      MergeOfSnoc(ns, n);
      MergeCells(ns[..n]);
      assert ns[..n + 1] == ns;
      assert ns == ns[..n] + [ns[n]];
      FlatAppend(ns[..n], [ns[n]]);
      FlatSingle(ns[n]);
      MergeStepCells(MergeOf(ns[..n]), ns[n], n);
    }
  }

  /** The merge loop's `i`-th iteration, on the prefix it has seen so far. */
  lemma MergeOfSnoc(ns: seq<Segment>, i: nat)
    requires MergeGuardSafe(ns) && i < |ns|
    ensures MergeGuardSafe(ns[..i]) && MergeGuardSafe(ns[..i + 1])
    ensures i > 0 && ns[i].text != "" ==> |MergeOf(ns[..i])| > 0
    ensures MergeOf(ns[..i + 1]) == MergeStep(MergeOf(ns[..i]), ns[i], i)
  {
    assert ns[..i + 1][..i] == ns[..i];
    assert MergeGuardSafe(ns[..i + 1]);
    if i > 0 && ns[i].text != "" {
      assert ns[..i][0].text != "";
    }
  }

  /** One step of the merge loop appends exactly `current`'s cells. */
  lemma MergeStepCells(m: seq<Segment>, cur: Segment, i: nat)
    requires i > 0 && cur.text != "" ==> |m| > 0
    ensures Flat(MergeStep(m, cur, i)) == Flat(m) + Cells(cur)
  {
    if cur.text == "" {
      assert Cells(cur) == [];
      assert Flat(m) + Cells(cur) == Flat(m);
    } else if i > 0 && m[|m| - 1].Attrs() == cur.Attrs() {
      JoinCells(m, cur);
    } else {
      FlatAppend(m, [cur]);
      FlatSingle(cur);
    }
  }

  /** Appending `cur.text` to the last segment, whose attributes equal
      `cur`'s, gives the same cells as keeping `cur` apart. */
  lemma JoinCells(m: seq<Segment>, cur: Segment)
    requires |m| > 0 && m[|m| - 1].Attrs() == cur.Attrs()
    ensures Flat(m[|m| - 1 := m[|m| - 1].(text := m[|m| - 1].text + cur.text)]) == Flat(m) + Cells(cur)
  {
    var prev := m[|m| - 1];
    var prev' := prev.(text := prev.text + cur.text);
    var m' := m[..|m| - 1];
    assert m == m' + [prev];
    assert m[|m| - 1 := prev'] == m' + [prev'];
    FlatAppend(m', [prev]);
    FlatAppend(m', [prev']);
    FlatSingle(prev);
    FlatSingle(prev');
    CellsOfAppend(prev.text, cur.text, prev.Attrs());
  }

  // ---------------------------------------------------------------- applyFormatting

  /** Per character: a character inside `[start, end)` has its colour or
      background overwritten, or its own bold/underline flag flipped; every
      other character keeps its style; no character is added or lost.  This
      holds also for a selection running past the end of the buffer. */
  lemma ApplyCells(segs: seq<Segment>, start: nat, end: nat, f: Format)
    requires start <= end && (start < end ==> MergeGuardSafe(segs))
    ensures Flat(Apply(segs, start, end, f)) == RestyledFrom(Flat(segs), 0, start, end, f)
  {
    if start < end {
      SplitCells(segs, start, end, f);
      SplitSafe(segs, start, end, f);
      MergeCells(Split(segs, start, end, f));
    }
  }

  /** Content preservation: the segment texts still spell the same buffer. */
  lemma ApplyKeepsText(segs: seq<Segment>, start: nat, end: nat, f: Format)
    requires start <= end && (start < end ==> MergeGuardSafe(segs))
    ensures Concat(Apply(segs, start, end, f)) == Concat(segs)
  {
    ApplyCells(segs, start, end, f);
    var r := Apply(segs, start, end, f);
    FlatChars(r);
    FlatChars(segs);
    assert |Concat(r)| == |Concat(segs)|;
    forall k | 0 <= k < |Concat(r)| ensures Concat(r)[k] == Concat(segs)[k] {
      assert Flat(r)[k].ch == Flat(segs)[k].ch;
    }
  }

  lemma RestyleTwiceColor(cells: seq<Cell>, start: nat, end: nat, f: Format)
    requires f.SetColor? || f.SetBg?
    ensures RestyledFrom(RestyledFrom(cells, 0, start, end, f), 0, start, end, f)
         == RestyledFrom(cells, 0, start, end, f)
  {
  }

  lemma RestyleTwiceToggle(cells: seq<Cell>, start: nat, end: nat, f: Format)
    requires f.ToggleBold? || f.ToggleUnderline?
    ensures RestyledFrom(RestyledFrom(cells, 0, start, end, f), 0, start, end, f) == cells
  {
  }

  /** Picking the same foreground (or background) swatch twice for the same
      selection gives the same segment list as picking it once. */
  lemma ApplyColorIdempotent(segs: seq<Segment>, start: nat, end: nat, f: Format)
    requires start <= end && (start < end ==> MergeGuardSafe(segs))
    requires f.SetColor? || f.SetBg?
    ensures Apply(Apply(segs, start, end, f), start, end, f) == Apply(segs, start, end, f)
  {
    if start < end {
      var once := Apply(segs, start, end, f);
      var twice := Apply(once, start, end, f);
      ApplyCells(segs, start, end, f);
      ApplyCells(once, start, end, f);
      RestyleTwiceColor(Flat(segs), start, end, f);
      NormalUnique(twice, once);
    }
  }

  /** Pressing Bold (or Line) twice on the same selection restores every
      character's original flag; on a normal list it restores the list. */
  lemma ApplyToggleTwice(segs: seq<Segment>, start: nat, end: nat, f: Format)
    requires start <= end && (start < end ==> MergeGuardSafe(segs))
    requires f.ToggleBold? || f.ToggleUnderline?
    ensures Flat(Apply(Apply(segs, start, end, f), start, end, f)) == Flat(segs)
    ensures Normal(segs) ==> Apply(Apply(segs, start, end, f), start, end, f) == segs
  {
    if start < end {
      var once := Apply(segs, start, end, f);
      var twice := Apply(once, start, end, f);
      ApplyCells(segs, start, end, f);
      ApplyCells(once, start, end, f);
      RestyleTwiceToggle(Flat(segs), start, end, f);
      if Normal(segs) {
        NormalUnique(twice, segs);
      }
    }
  }

  /** A selection that starts at or after the end of the buffer (left over
      from a longer text) changes no character, so a merged list comes back
      unchanged. */
  lemma ApplyPastEnd(segs: seq<Segment>, start: nat, end: nat, f: Format)
    requires start <= end && (start < end ==> MergeGuardSafe(segs))
    requires start >= |Concat(segs)| && Normal(segs)
    ensures Apply(segs, start, end, f) == segs
  {
    ApplyCells(segs, start, end, f);
    FlatChars(segs);
    assert RestyledFrom(Flat(segs), 0, start, end, f) == Flat(segs);
    if start < end {
      NormalUnique(Apply(segs, start, end, f), segs);
    }
  }

  /** The result of `applyFormatting` on a non-empty selection is the one
      merged list that shows the restyled characters. */
  lemma ApplyCharacterised(segs: seq<Segment>, start: nat, end: nat, f: Format, want: seq<Segment>)
    requires start < end && MergeGuardSafe(segs)
    requires Normal(want)
    ensures Apply(segs, start, end, f) == want <==> Flat(want) == RestyledFrom(Flat(segs), 0, start, end, f)
  {
    ApplyCells(segs, start, end, f);
    if Flat(want) == RestyledFrom(Flat(segs), 0, start, end, f) {
      NormalUnique(Apply(segs, start, end, f), want);
    }
  }

  // ---------------------------------------------------------------- scenarios

  /** Bold on the "b" of a plain "abc" splits it into three runs. */
  lemma BoldMiddle()
    ensures Apply([Plain("abc")], 1, 2, ToggleBold)
         == [Plain("a"), Segment("b", None, None, true, false), Plain("c")]
  {
    var want := [Plain("a"), Segment("b", None, None, true, false), Plain("c")];
    var input := [Plain("abc")];
    assert MergeGuardSafe(input);
    BoldMiddleCells();
    assert Normal(want) by {
      assert want[0].Attrs() != want[1].Attrs() && want[1].Attrs() != want[2].Attrs();
    }
    ApplyCharacterised(input, 1, 2, ToggleBold, want);
  }

  lemma BoldMiddleCells()
    ensures RestyledFrom(Flat([Plain("abc")]), 0, 1, 2, ToggleBold)
         == Flat([Plain("a"), Segment("b", None, None, true, false), Plain("c")])
  {
    var st := Plain("a").Attrs();
    var a, b, c := Plain("a"), Segment("b", None, None, true, false), Plain("c");
    FlatSingle(Plain("abc"));
    assert Cells(Plain("abc")) == [Cell('a', st), Cell('b', st), Cell('c', st)];
    assert [a, b, c] == [a, b] + [c];
    assert [a, b] == [a] + [b];
    FlatAppend([a, b], [c]);
    FlatAppend([a], [b]);
    FlatSingle(a);
    FlatSingle(b);
    FlatSingle(c);
    assert Cells(a) == [Cell('a', st)];
    assert Cells(b) == [Cell('b', st.(bold := true))];
    assert Cells(c) == [Cell('c', st)];
  }

  /** The single empty segment left by clearing the textarea: a non-empty
      recorded selection turns it into the empty list, the initial empty
      selection `{0, 0}` leaves it as it is. */
  lemma ApplyEmptyText(start: nat, end: nat, f: Format)
    requires start <= end
    ensures start < end ==> Apply([Plain("")], start, end, f) == []
    ensures start == end ==> Apply([Plain("")], start, end, f) == [Plain("")]
  {
    if start < end {
      var split := Split([Plain("")], start, end, f);
      assert [Plain("")][..0] == [];
      assert split == Pieces(Plain(""), 0, start, end, f);
      assert split == [Plain("")];
      assert split[..0] == [];
    }
  }

  /** Two neighbouring bold runs are joined by any merge pass, here one run
      for a selection past the end of the text. */
  lemma JoinEqualNeighbours()
    ensures Apply([Segment("ab", None, None, true, false), Segment("cd", None, None, true, false)], 4, 5, ToggleBold)
         == [Segment("abcd", None, None, true, false)]
  {
    var ab, cd := Segment("ab", None, None, true, false), Segment("cd", None, None, true, false);
    var want := [Segment("abcd", None, None, true, false)];
    ApplyCells([ab, cd], 4, 5, ToggleBold);
    assert [ab, cd] == [ab] + [cd];
    FlatAppend([ab], [cd]);
    FlatSingle(ab);
    FlatSingle(cd);
    FlatSingle(want[0]);
    assert |Flat([ab, cd])| == 4;
    assert RestyledFrom(Flat([ab, cd]), 0, 4, 5, ToggleBold) == Flat([ab, cd]);
    assert Flat([ab, cd]) == Flat(want);
    NormalUnique(Apply([ab, cd], 4, 5, ToggleBold), want);
  }

  // ---------------------------------------------------------------- the loops

  /** One more segment of the `forEach`: `Split` of a prefix grows by that
      segment's pieces, and the running offset by its length. */
  lemma SplitStep(segs: seq<Segment>, i: nat, start: nat, end: nat, f: Format)
    requires i < |segs|
    ensures Split(segs[..i + 1], start, end, f)
         == Split(segs[..i], start, end, f) + Pieces(segs[i], |Concat(segs[..i])|, start, end, f)
    ensures |Concat(segs[..i + 1])| == |Concat(segs[..i])| + |segs[i].text|
  {
    assert segs[..i + 1][..i] == segs[..i];
    assert segs[..i + 1] == segs[..i] + [segs[i]];
    ConcatAppend(segs[..i], [segs[i]]);
    assert Concat([segs[i]]) == segs[i].text;
  }

  /** The `forEach` over `formattedSegments` that pushes onto `newSegments`
      while accumulating `currentPosition`. */
  method SplitPass(segs: seq<Segment>, start: nat, end: nat, f: Format) returns (newSegments: seq<Segment>)
    ensures newSegments == Split(segs, start, end, f)
  {
    newSegments := [];
    var currentPosition := 0;
    var i := 0;
    while i < |segs|
      invariant 0 <= i <= |segs|
      invariant currentPosition == |Concat(segs[..i])|
      invariant newSegments == Split(segs[..i], start, end, f)
    {
      var segment := segs[i];
      var pushed := SegmentPieces(segment, currentPosition, start, end, f);
      SplitStep(segs, i, start, end, f);
      newSegments := newSegments + pushed;
      currentPosition := currentPosition + |segment.text|;
      i := i + 1;
    }
    assert segs[..|segs|] == segs;
  }

  /** The body of the `forEach` for one segment: what it pushes. */
  method SegmentPieces(segment: Segment, segmentStart: nat, start: nat, end: nat, f: Format) returns (pushed: seq<Segment>)
    ensures pushed == Pieces(segment, segmentStart, start, end, f)
  {
    var segmentEnd := segmentStart + |segment.text|;
    pushed := [];
    if segmentEnd <= start {
      pushed := pushed + [segment];
    } else if segmentStart >= end {
      pushed := pushed + [segment];
    } else {
      if segmentStart < start {
        pushed := pushed + [segment.(text := Substring(segment.text, 0, start - segmentStart))];
      }
      var newSegment := segment.(text := Substring(segment.text, Max(0, start - segmentStart), Min(|segment.text|, end - segmentStart)));
      match f {
        case SetColor(v) => newSegment := newSegment.(color := Some(v));
        case SetBg(v) => newSegment := newSegment.(bg := Some(v));
        case ToggleBold => newSegment := newSegment.(bold := !segment.bold);
        case ToggleUnderline => newSegment := newSegment.(underline := !segment.underline);
      }
      pushed := pushed + [newSegment];
      if segmentEnd > end {
        pushed := pushed + [segment.(text := Substring(segment.text, end - segmentStart, |segment.text|))];
      }
    }
  }

  /** The merge loop: skip empty segments, append `current.text` to the last
      merged segment when all four attributes agree, push a copy otherwise. */
  method MergePass(newSegments: seq<Segment>) returns (mergedSegments: seq<Segment>)
    requires MergeGuardSafe(newSegments)
    ensures mergedSegments == MergeOf(newSegments)
    ensures Normal(mergedSegments) && Flat(mergedSegments) == Flat(newSegments)
  {
    mergedSegments := [];
    for i := 0 to |newSegments|
      invariant mergedSegments == MergeOf(newSegments[..i])
    {
      MergeOfSnoc(newSegments, i);
      var current := newSegments[i];
      if |current.text| == 0 {
        continue;
      }
      if i > 0 {
        var prev := mergedSegments[|mergedSegments| - 1];
        if prev.color == current.color && prev.bg == current.bg
           && prev.bold == current.bold && prev.underline == current.underline {
          mergedSegments := mergedSegments[|mergedSegments| - 1 := prev.(text := prev.text + current.text)];
          continue;
        }
      }
      mergedSegments := mergedSegments + [current];
    }
    assert newSegments[..|newSegments|] == newSegments;
    MergeCells(newSegments);
  }

  /** `applyFormatting(type, value)` on the current segments and selection. */
  method ApplyFormatting(segs: seq<Segment>, start: nat, end: nat, f: Format) returns (r: seq<Segment>)
    requires start <= end && (start < end ==> MergeGuardSafe(segs))
    ensures r == Apply(segs, start, end, f)
    ensures Concat(r) == Concat(segs)
    ensures Flat(r) == RestyledFrom(Flat(segs), 0, start, end, f)
    ensures start < end ==> Normal(r)
  {
    ApplyKeepsText(segs, start, end, f);
    ApplyCells(segs, start, end, f);
    if start == end {
      return segs;
    }
    var newSegments := SplitPass(segs, start, end, f);
    SplitSafe(segs, start, end, f);
    r := MergePass(newSegments);
  }
}
