/** The segment store's data model: a styled segment, the document as an
    ordered list of segments, and the character-level view of a document
    (one cell per character, carrying that character's style).  */
module Segments {

  datatype Option<T> = None | Some(value: T)

  /** The four attributes that the merge pass compares. */
  datatype Style = Style(color: Option<string>, bg: Option<string>, bold: bool, underline: bool)

  /** One entry of `formattedSegments`: `{ text, color, bg, bold, underline }`. */
  datatype Segment = Segment(text: string, color: Option<string>, bg: Option<string>, bold: bool, underline: bool)
  {
    function Attrs(): Style {
      Style(color, bg, bold, underline)
    }
  }

  /** The unstyled segment that `handleTextChange` and `resetAll` install. */
  function Plain(t: string): Segment {
    Segment(t, None, None, false, false)
  }

  /** One character of the buffer together with the style it is shown in. */
  datatype Cell = Cell(ch: char, style: Style)

  /** The buffer text that a segment list stands for. */
  function Concat(segs: seq<Segment>): string {
    if segs == [] then "" else segs[0].text + Concat(segs[1..])
  }

  function CellsOf(t: string, st: Style): seq<Cell> {
    seq(|t|, k requires 0 <= k < |t| => Cell(t[k], st))
  }

  function Cells(seg: Segment): seq<Cell> {
    CellsOf(seg.text, seg.Attrs())
  }

  /** The character-level view: every character with its own style. */
  function Flat(segs: seq<Segment>): seq<Cell> {
    if segs == [] then [] else Cells(segs[0]) + Flat(segs[1..])
  }

  predicate NoEmpty(segs: seq<Segment>) {
    forall i :: 0 <= i < |segs| ==> segs[i].text != ""
  }

  /** No two neighbours carry the same four attributes. */
  predicate Maximal(segs: seq<Segment>) {
    forall i :: 0 < i < |segs| ==> segs[i - 1].Attrs() != segs[i].Attrs()
  }

  /** What the merge pass establishes: the runs are non-empty and maximal. */
  predicate Normal(segs: seq<Segment>) {
    NoEmpty(segs) && Maximal(segs)
  }

  /** The merge loop reads the last merged segment as soon as it meets a
      non-empty segment at a position `i > 0`.  That read is defined exactly
      when an earlier segment was non-empty, i.e. when the list does not start
      with an empty segment followed by a non-empty one. */
  predicate MergeGuardSafe(segs: seq<Segment>) {
    forall i :: 0 < i < |segs| && segs[i].text != "" ==> segs[0].text != ""
  }

  /** JavaScript's `String.prototype.substring`: both indices are clamped to
      `[0, |s|]` and swapped when the first exceeds the second. */
  function Clamp(i: int, n: nat): (r: nat)
    ensures r <= n
    ensures 0 <= i <= n ==> r == i
  {
    if i < 0 then 0 else if i > n then n else i
  }

  function Substring(s: string, a: int, b: int): (r: string)
    ensures 0 <= a <= b <= |s| ==> r == s[a..b]
    ensures |r| <= |s|
  {
    var x, y := Clamp(a, |s|), Clamp(b, |s|);
    if x <= y then s[x..y] else s[y..x]
  }

  lemma {:induction false} ConcatAppend(a: seq<Segment>, b: seq<Segment>)
    ensures Concat(a + b) == Concat(a) + Concat(b)
  {
    if a == [] {
      assert a + b == b;
    } else {
      assert (a + b)[1..] == a[1..] + b;
      ConcatAppend(a[1..], b);
    }
  }

  lemma {:induction false} FlatAppend(a: seq<Segment>, b: seq<Segment>)
    ensures Flat(a + b) == Flat(a) + Flat(b)
  {
    if a == [] {
      assert a + b == b;
    } else {
      assert (a + b)[1..] == a[1..] + b;
      FlatAppend(a[1..], b);
    }
  }

  lemma FlatSingle(s: Segment)
    ensures Flat([s]) == Cells(s)
  {
    assert [s][1..] == [];
  }

  lemma CellsOfAppend(x: string, y: string, st: Style)
    ensures CellsOf(x + y, st) == CellsOf(x, st) + CellsOf(y, st)
  {
  }

  /** The characters of the cell view spell the buffer text. */
  lemma {:induction false} FlatChars(segs: seq<Segment>)
    ensures |Flat(segs)| == |Concat(segs)|
    ensures forall k :: 0 <= k < |Flat(segs)| ==> Flat(segs)[k].ch == Concat(segs)[k]
  {
    if segs != [] {
      FlatChars(segs[1..]);
    }
  }

  lemma {:induction false} FirstCell(segs: seq<Segment>)
    requires |segs| > 0 && segs[0].text != ""
    ensures |Flat(segs)| > 0 && Flat(segs)[0] == Cell(segs[0].text[0], segs[0].Attrs())
  {
  }

  /** A document without empty segments has an empty cell view only when it
      has no segments at all. */
  lemma FlatEmpty(segs: seq<Segment>)
    requires NoEmpty(segs)
    ensures (Flat(segs) == []) == (segs == [])
  {
    if segs != [] {
      FirstCell(segs);
    }
  }

  /** Length of the leading stretch of cells shown in style `st`. */
  function RunLen(cells: seq<Cell>, st: Style): (r: nat)
    ensures r <= |cells|
    ensures forall k :: 0 <= k < r ==> cells[k].style == st
    ensures r < |cells| ==> cells[r].style != st
  {
    if cells == [] || cells[0].style != st then 0 else 1 + RunLen(cells[1..], st)
  }

  lemma {:induction false} RunLenCells(t: string, st: Style, rest: seq<Cell>)
    ensures RunLen(CellsOf(t, st) + rest, st) == |t| + RunLen(rest, st)
  {
    if t != [] {
      assert (CellsOf(t, st) + rest)[1..] == CellsOf(t[1..], st) + rest;
      RunLenCells(t[1..], st, rest);
    } else {
      assert CellsOf(t, st) + rest == rest;
    }
  }

  /** In a normal document the first segment is exactly the first run of
      equally styled cells. */
  lemma FirstRun(segs: seq<Segment>)
    requires Normal(segs) && |segs| > 0
    ensures RunLen(Flat(segs), segs[0].Attrs()) == |segs[0].text|
  {
    RunLenCells(segs[0].text, segs[0].Attrs(), Flat(segs[1..]));
    if |segs| > 1 {
      FirstCell(segs[1..]);
    } else {
      assert segs[1..] == [];
    }
  }

  /** A normal document is determined by its cell view: there is exactly one
      way to cut a styled character sequence into maximal non-empty runs. */
  lemma {:induction false} NormalUnique(a: seq<Segment>, b: seq<Segment>)
    requires Normal(a) && Normal(b)
    requires Flat(a) == Flat(b)
    ensures a == b
  {
    FlatEmpty(a);
    FlatEmpty(b);
    if a != [] {
      FirstCell(a);
      FirstCell(b);
      FirstRun(a);
      FirstRun(b);
      var n := |a[0].text|;
      assert |b[0].text| == n;
      assert Flat(a) == Cells(a[0]) + Flat(a[1..]);
      assert Flat(b) == Cells(b[0]) + Flat(b[1..]);
      assert a[0].text == b[0].text by {
        forall k | 0 <= k < n ensures a[0].text[k] == b[0].text[k] {
          assert Flat(a)[k] == Cells(a[0])[k];
          assert Flat(b)[k] == Cells(b[0])[k];
        }
      }
      assert a[0] == b[0];
      assert Flat(a[1..]) == Flat(b[1..]) by {
        assert Flat(a[1..]) == Flat(a)[n..];
        assert Flat(b[1..]) == Flat(b)[n..];
      }
      NormalUnique(a[1..], b[1..]);
    }
  }
}
