/** The string-building part of `copyToClipboard`: every segment is wrapped
    in colour tags, bold and underline delimiters, and the wrapped segments
    are concatenated with no separator.  */
module Serializer {
  import opened Segments

  /** The foreground swatches. */
  const FG_COLORS: seq<string> :=
    ["#5c5c5c", "#ff3232", "#90b414", "#e6a226", "#3498db", "#e84393", "#1abc9c", "#ffffff"]

  /** The background swatches. */
  const BG_COLORS: seq<string> :=
    ["#001e2d", "#d35400", "#627680", "#718b93", "#8c9aa3", "#7167c9", "#9eadb5", "#fffbe6"]

  predicate IsHexDigit(c: char) {
    '0' <= c <= '9' || 'a' <= c <= 'f'
  }

  /** A `#rrggbb` colour as the palettes write them. */
  predicate IsHexColor(c: string) {
    |c| == 7 && c[0] == '#' && forall k :: 1 <= k < 7 ==> IsHexDigit(c[k])
  }

  /** JavaScript's truthiness of `segment.color` / `segment.bg`: `null` and
      the empty string are false. */
  predicate Truthy(c: Option<string>) {
    c.Some? && c.value != ""
  }

  /** Position of the first `x` in `s`. */
  function FirstIndex(s: string, x: char): (r: nat)
    requires x in s
    ensures r < |s| && s[r] == x && x !in s[..r]
  {
    if s[0] == x then 0
    else
      assert x in s[1..];
      var r := 1 + FirstIndex(s[1..], x);
      assert s[..r] == [s[0]] + s[1..][..r - 1];
      r
  }

  /** `s.replace(x, '')` with a string pattern: only the first occurrence is
      removed. */
  function RemoveFirst(s: string, x: char): string {
    if x in s then
      var i := FirstIndex(s, x);
      s[..i] + s[i + 1..]
    else s
  }

  /** When `x` occurs, exactly one `x` is removed and nothing else. */
  lemma RemoveFirstDrops(s: string, x: char)
    requires x in s
    ensures |RemoveFirst(s, x)| + 1 == |s|
    ensures multiset(RemoveFirst(s, x)) + multiset{x} == multiset(s)
    ensures s[..FirstIndex(s, x)] <= RemoveFirst(s, x)
    ensures RemoveFirst(s, x)[FirstIndex(s, x)..] == s[FirstIndex(s, x) + 1..]
  {
    var i := FirstIndex(s, x);
    var pre, post := s[..i], s[i + 1..];
    assert s == pre + [x] + post;
    assert RemoveFirst(s, x) == pre + post;
    assert multiset(s) == multiset(pre) + multiset{x} + multiset(post);
  }

  /** The tag name a colour is written with: the colour without its `#`. */
  function Code(c: Option<string>): string
    requires c.Some?
  {
    RemoveFirst(c.value, '#')
  }

  /** `[code]t[/code]` when the foreground colour is set. */
  function ColorLayer(t: string, c: Option<string>): string {
    if Truthy(c) then "[" + Code(c) + "]" + t + "[/" + Code(c) + "]" else t
  }

  /** `[@code]t[/@code]` when the background colour is set. */
  function BgLayer(t: string, c: Option<string>): string {
    if Truthy(c) then "[@" + Code(c) + "]" + t + "[/@" + Code(c) + "]" else t
  }

  function BoldLayer(t: string, bold: bool): string {
    if bold then "**" + t + "**" else t
  }

  function UnderlineLayer(t: string, underline: bool): string {
    if underline then "__" + t + "__" else t
  }

  /** One segment as the loop body rebinds `formattedText`: colour first,
      then background, bold and underline. */
  function Wrap(seg: Segment): string {
    UnderlineLayer(BoldLayer(BgLayer(ColorLayer(seg.text, seg.color), seg.bg), seg.bold), seg.underline)
  }

  function FgOpen(c: Option<string>): string { if Truthy(c) then "[" + Code(c) + "]" else "" }
  function FgClose(c: Option<string>): string { if Truthy(c) then "[/" + Code(c) + "]" else "" }
  function BgOpen(c: Option<string>): string { if Truthy(c) then "[@" + Code(c) + "]" else "" }
  function BgClose(c: Option<string>): string { if Truthy(c) then "[/@" + Code(c) + "]" else "" }
  function Delim(on: bool, d: string): string { if on then d else "" }

  /** The tokens in front of a segment's text, outermost first. */
  function Opening(seg: Segment): string {
    Delim(seg.underline, "__") + Delim(seg.bold, "**") + BgOpen(seg.bg) + FgOpen(seg.color)
  }

  /** The tokens after a segment's text, innermost first. */
  function Closing(seg: Segment): string {
    FgClose(seg.color) + BgClose(seg.bg) + Delim(seg.bold, "**") + Delim(seg.underline, "__")
  }

  /** `discordText`: the wrapped segments, in order, with no separator. */
  function Export(segs: seq<Segment>): string {
    if segs == [] then "" else Export(segs[..|segs| - 1]) + Wrap(segs[|segs| - 1])
  }

  lemma Tag(p: string, k: string, q: string, t: string, p': string, q': string)
    ensures p + k + q + t + p' + k + q' == (p + k + q) + t + (p' + k + q')
  {
  }

  lemma Nest(u: string, b: string, bo: string, fo: string, t: string, fc: string, bc: string)
    ensures u + (b + (bo + (fo + t + fc) + bc) + b) + u == u + b + bo + fo + t + (fc + bc + b + u)
  {
  }

  lemma ColorLayerShape(t: string, c: Option<string>)
    ensures ColorLayer(t, c) == FgOpen(c) + t + FgClose(c)
  {
    if Truthy(c) {
      Tag("[", Code(c), "]", t, "[/", "]");
    }
  }

  lemma BgLayerShape(t: string, c: Option<string>)
    ensures BgLayer(t, c) == BgOpen(c) + t + BgClose(c)
  {
    if Truthy(c) {
      Tag("[@", Code(c), "]", t, "[/@", "]");
    }
  }

  /** The nesting order: underline outermost, then bold, then the background
      tag, then the foreground tag around the untouched text; every wrapper is
      present exactly when its attribute is set. */
  lemma WrapNesting(seg: Segment)
    ensures Wrap(seg) == Opening(seg) + seg.text + Closing(seg)
  {
    var t := seg.text;
    var fo, fc := FgOpen(seg.color), FgClose(seg.color);
    var bo, bc := BgOpen(seg.bg), BgClose(seg.bg);
    var b, u := Delim(seg.bold, "**"), Delim(seg.underline, "__");
    ColorLayerShape(t, seg.color);
    var t1 := ColorLayer(t, seg.color);
    BgLayerShape(t1, seg.bg);
    var t2 := BgLayer(t1, seg.bg);
    var t3 := BoldLayer(t2, seg.bold);
    assert t3 == b + t2 + b;
    assert Wrap(seg) == u + t3 + u;
    Nest(u, b, bo, fo, t, fc, bc);
  }

  /** A segment without attributes is exported as its bare text. */
  lemma WrapPlain(t: string)
    ensures Wrap(Plain(t)) == t
  {
  }

  /** A `#rrggbb` colour is written as its six hex digits. */
  lemma HexCode(c: string)
    requires IsHexColor(c)
    ensures Code(Some(c)) == c[1..] && |Code(Some(c))| == 6 && '#' !in Code(Some(c))
  {
    assert FirstIndex(c, '#') == 0;
    assert c[..0] + c[1..] == c[1..];
    forall k | 0 <= k < 6 ensures c[1..][k] != '#' {
      assert IsHexDigit(c[k + 1]);
    }
  }

  /** Every swatch of both palettes is a `#rrggbb` colour. */
  lemma PaletteIsHex(c: string)
    requires c in FG_COLORS || c in BG_COLORS
    ensures IsHexColor(c)
  {
  }

  /** Only the first `#` is stripped from a colour value. */
  lemma RemoveFirstHead(s: string)
    requires |s| > 0 && s[0] == '#'
    ensures RemoveFirst(s, '#') == s[1..]
  {
    assert FirstIndex(s, '#') == 0;
    assert s[..0] + s[1..] == s[1..];
  }

  /** Exporting two lists one after the other is exporting their
      concatenation. */
  lemma {:induction false} ExportAppend(a: seq<Segment>, b: seq<Segment>)
    ensures Export(a + b) == Export(a) + Export(b)
  {
    if b == [] {
      assert a + b == a;
    } else {
      var b' := b[..|b| - 1];
      assert (a + b)[..|a + b| - 1] == a + b';
      ExportAppend(a, b');
    }
  }

  /** Unstyled segments export to exactly the buffer text. */
  lemma {:induction false} ExportPlainText(segs: seq<Segment>)
    requires forall i :: 0 <= i < |segs| ==> segs[i] == Plain(segs[i].text)
    ensures Export(segs) == Concat(segs)
  {
    if segs != [] {
      var init := segs[..|segs| - 1];
      var last := segs[|segs| - 1];
      ExportPlainText(init);
      assert segs == init + [last];
      ConcatAppend(init, [last]);
      assert Concat([last]) == last.text;
      WrapPlain(last.text);
    }
  }

  lemma ExportTwo(a: Segment, b: Segment)
    ensures Export([a, b]) == Wrap(a) + Wrap(b)
  {
    assert [a][..0] == [];
    assert Export([a]) == Wrap(a);
    assert [a, b][..1] == [a];
  }

  lemma RedCode()
    ensures Code(Some("#ff3232")) == "ff3232"
  {
    RemoveFirstHead("#ff3232");
  }

  /** "Hello" in red followed by an unstyled " World". */
  lemma ExportHelloWorld()
    ensures Export([Segment("Hello", Some("#ff3232"), None, false, false), Plain(" World")])
         == "[ff3232]Hello[/ff3232] World"
  {
    var red := Segment("Hello", Some("#ff3232"), None, false, false);
    ExportTwo(red, Plain(" World"));
    WrapPlain(" World");
    RedCode();
    var w := "[" + "ff3232" + "]" + "Hello" + "[/" + "ff3232" + "]";
    assert Wrap(red) == w;
    HelloWorldLiteral(w);
  }

  lemma HelloWorldLiteral(w: string)
    requires w == "[" + "ff3232" + "]" + "Hello" + "[/" + "ff3232" + "]"
    ensures w + " World" == "[ff3232]Hello[/ff3232] World"
  {
  }

  /** A run with a palette colour and bold puts the bold delimiters outside
      the colour tag. */
  lemma WrapBoldColor(t: string, c: string)
    requires IsHexColor(c)
    ensures Wrap(Segment(t, Some(c), None, true, false))
         == "**" + ("[" + c[1..] + "]") + t + ("[/" + c[1..] + "]" + "**")
  {
    var seg := Segment(t, Some(c), None, true, false);
    HexCode(c);
    WrapNesting(seg);
  }

  /** The loop that accumulates `discordText`. */
  method BuildDiscordText(segs: seq<Segment>) returns (discordText: string)
    ensures discordText == Export(segs)
  {
    discordText := "";
    for i := 0 to |segs|
      invariant discordText == Export(segs[..i])
    {
      var segment := segs[i];
      var formattedText := segment.text;
      if Truthy(segment.color) {
        var colorCode := RemoveFirst(segment.color.value, '#');
        formattedText := "[" + colorCode + "]" + formattedText + "[/" + colorCode + "]";
      }
      if Truthy(segment.bg) {
        var bgColorCode := RemoveFirst(segment.bg.value, '#');
        formattedText := "[@" + bgColorCode + "]" + formattedText + "[/@" + bgColorCode + "]";
      }
      if segment.bold {
        formattedText := "**" + formattedText + "**";
      }
      if segment.underline {
        formattedText := "__" + formattedText + "__";
      }
      assert segs[..i + 1][..i] == segs[..i];
      discordText := discordText + formattedText;
    }
    assert segs[..|segs|] == segs;
  }
}
