/** The `App` component's editor state: the buffer `text`, the recorded
    `selectedRange` and `formattedSegments`, with the handlers that replace
    them.  The textarea's DOM selection read is passed in as parameters. */
module App {
  import opened Segments
  import opened Formatting
  import Serializer

  const INITIAL_TEXT: string := "Welcome to Discord Colored Text Generator!"

  const INITIAL_SEGMENTS: seq<Segment> := [
    Plain("Welcome to "),
    Segment("Discord", Some("#7289da"), None, false, false),
    Plain(" "),
    Segment("Colored", Some("#00aaff"), None, false, false),
    Plain(" Text Generator!")
  ]

  /** What the editor keeps true of `formattedSegments`: they spell `text`,
      and they are either the list the merge pass leaves or the single plain
      segment a text edit or Reset All installs. */
  predicate Coherent(text: string, segs: seq<Segment>) {
    Concat(segs) == text && (Normal(segs) || segs == [Plain(text)])
  }

  lemma ConcatFive(a: Segment, b: Segment, c: Segment, d: Segment, e: Segment)
    ensures Concat([a, b, c, d, e]) == a.text + (b.text + (c.text + (d.text + e.text)))
  {
    assert [e][1..] == [];
    assert Concat([e]) == e.text;
    assert [d, e][1..] == [e];
    assert Concat([d, e]) == d.text + e.text;
    assert [c, d, e][1..] == [d, e];
    assert Concat([c, d, e]) == c.text + (d.text + e.text);
    assert [b, c, d, e][1..] == [c, d, e];
    assert Concat([b, c, d, e]) == b.text + (c.text + (d.text + e.text));
    assert [a, b, c, d, e][1..] == [b, c, d, e];
  }

  /** The initial segments spell the initial text and are already merged. */
  lemma InitialCoherent()
    ensures Concat(INITIAL_SEGMENTS) == INITIAL_TEXT
    ensures Normal(INITIAL_SEGMENTS)
  {
    var s := INITIAL_SEGMENTS;
    ConcatFive(s[0], s[1], s[2], s[3], s[4]);
    assert s[0].text == "Welcome to " && s[1].text == "Discord" && s[2].text == " ";
    assert s[3].text == "Colored" && s[4].text == " Text Generator!";
    InitialText();
    InitialNormal();
  }

  lemma InitialText()
    ensures "Welcome to " + ("Discord" + (" " + ("Colored" + " Text Generator!"))) == INITIAL_TEXT
  {
  }

  lemma InitialNormal()
    ensures Normal(INITIAL_SEGMENTS)
  {
  }

  /** Every list the editor holds is one the merge loop can run on. */
  lemma CoherentIsSafe(text: string, segs: seq<Segment>)
    requires Coherent(text, segs)
    ensures MergeGuardSafe(segs)
  {
  }

  class Editor {
    var text: string
    var selStart: nat
    var selEnd: nat
    var formattedSegments: seq<Segment>

    ghost predicate Valid()
      reads this
    {
      selStart <= selEnd && Coherent(text, formattedSegments)
    }

    constructor ()
      ensures Valid()
      ensures text == INITIAL_TEXT && formattedSegments == INITIAL_SEGMENTS
      ensures selStart == 0 && selEnd == 0
    {
      text := INITIAL_TEXT;
      selStart, selEnd := 0, 0;
      formattedSegments := INITIAL_SEGMENTS;
      InitialCoherent();
    }

    /** `handleTextChange`: the new text replaces the buffer and all styling
        collapses to one plain segment; the selection is kept as it was. */
    method HandleTextChange(value: string)
      requires Valid()
      modifies this
      ensures Valid()
      ensures text == value && formattedSegments == [Plain(value)]
      ensures selStart == old(selStart) && selEnd == old(selEnd)
    {
      text := value;
      formattedSegments := [Plain(value)];
      assert Concat([Plain(value)]) == value;
    }

    /** `handleTextSelect` with the textarea's `selectionStart` and
        `selectionEnd` (which the textarea keeps ordered): a non-empty
        selection is recorded, an empty one leaves the previous selection. */
    method HandleTextSelect(start: nat, end: nat)
      requires Valid() && start <= end
      modifies this
      ensures Valid()
      ensures start != end ==> selStart == start && selEnd == end
      ensures start == end ==> selStart == old(selStart) && selEnd == old(selEnd)
      ensures text == old(text) && formattedSegments == old(formattedSegments)
    {
      if start != end {
        selStart, selEnd := start, end;
      }
    }

    /** `applyFormatting(type, value)` on the recorded selection. */
    method ApplyFormatting(f: Format)
      requires Valid()
      modifies this
      ensures Valid()
      ensures formattedSegments == Apply(old(formattedSegments), selStart, selEnd, f)
      ensures Flat(formattedSegments) == RestyledFrom(old(Flat(formattedSegments)), 0, selStart, selEnd, f)
      ensures selStart == old(selStart) && selEnd == old(selEnd) && text == old(text)
      ensures selStart == selEnd ==> formattedSegments == old(formattedSegments)
    {
      CoherentIsSafe(text, formattedSegments);
      if selStart == selEnd {
        return;
      }
      formattedSegments := Formatting.ApplyFormatting(formattedSegments, selStart, selEnd, f);
    }

    /** `applyFgColor(color)`: a foreground swatch. */
    method ApplyFgColor(color: string)
      requires Valid()
      modifies this
      ensures Valid()
      ensures formattedSegments == Apply(old(formattedSegments), selStart, selEnd, SetColor(color))
      ensures selStart == old(selStart) && selEnd == old(selEnd) && text == old(text)
    {
      ApplyFormatting(SetColor(color));
    }

    /** `applyBgColor(color)`: a background swatch. */
    method ApplyBgColor(color: string)
      requires Valid()
      modifies this
      ensures Valid()
      ensures formattedSegments == Apply(old(formattedSegments), selStart, selEnd, SetBg(color))
      ensures selStart == old(selStart) && selEnd == old(selEnd) && text == old(text)
    {
      ApplyFormatting(SetBg(color));
    }

    /** `resetAll`: all styling is dropped, the buffer stays. */
    method ResetAll()
      requires Valid()
      modifies this
      ensures Valid()
      ensures formattedSegments == [Plain(text)]
      ensures text == old(text) && selStart == old(selStart) && selEnd == old(selEnd)
    {
      formattedSegments := [Plain(text)];
      assert Concat([Plain(text)]) == text;
    }

    /** The text `copyToClipboard` hands to the clipboard. */
    method CopyToClipboard() returns (discordText: string)
      requires Valid()
      ensures discordText == Serializer.Export(formattedSegments)
    {
      discordText := Serializer.BuildDiscordText(formattedSegments);
    }
  }
}
