/** `renderToHtml`: the collected blocks as one inline-styled HTML
    fragment, numbering runs of ordered items and stripping typed list
    markers from list items. */
module Render {

  import opened Wrappers
  import opened Strings
  import opened Blocks
  import opened Styles

  // ---------------------------------------------------------------------
  // List-marker stripping

  /** The bullet glyphs a typed list item may start with: U+2022, U+00B7 and U+25CF. */
  predicate IsBulletGlyph(c: char) {
    c == '\U{2022}' || c == '\U{00B7}' || c == '\U{25CF}'
  }

  /** The length of the run of decimal digits `s` starts with. */
  function DigitRun(s: string): (n: nat)
    ensures n <= |s|
    ensures forall k :: 0 <= k < n ==> IsDigit(s[k])
    ensures n < |s| ==> !IsDigit(s[n])
  {
    if |s| > 0 && IsDigit(s[0]) then 1 + DigitRun(s[1..]) else 0
  }

  /** The length of the marker token `s` starts with: the entity
      `&nbsp;`, one white-space character, digits followed by '.', or a
      bullet glyph; 0 when `s` starts with none of them. The alternatives
      start with different characters, so at most one applies. */
  function MarkerLen(s: string): (n: nat)
    ensures n <= |s|
    ensures n == 0 ==> s == [] || !IsJsSpace(s[0])
  {
    if IsPrefix("&nbsp;", s) then 6
    else if |s| > 0 && IsJsSpace(s[0]) then 1
    else if 0 < DigitRun(s) < |s| && s[DigitRun(s)] == '.' then DigitRun(s) + 1
    else if |s| > 0 && IsBulletGlyph(s[0]) then 1
    else 0
  }

  /** One token of the list-marker pattern, stated without `MarkerLen`:
      the entity `&nbsp;`, one white-space character, one or more digits
      followed by '.', or one bullet glyph. */
  predicate IsMarkerToken(t: string) {
    t == "&nbsp;"
    || (|t| == 1 && (IsJsSpace(t[0]) || IsBulletGlyph(t[0])))
    || (|t| >= 2 && t[|t| - 1] == '.' && forall k :: 0 <= k < |t| - 1 ==> IsDigit(t[k]))
  }

  /** A digit run that ends before a non-digit has exactly that length. */
  lemma {:induction false} DigitRunExact(s: string, m: nat)
    requires m < |s| && !IsDigit(s[m])
    requires forall j :: 0 <= j < m ==> IsDigit(s[j])
    ensures DigitRun(s) == m
  {
    if m > 0 {
      DigitRunExact(s[1..], m - 1);
    }
  }

  /** `MarkerLen` measures a marker token. */
  lemma MarkerLenToken(s: string)
    requires MarkerLen(s) > 0
    ensures IsMarkerToken(s[..MarkerLen(s)])
  {
    var n := MarkerLen(s);
    var d := DigitRun(s);
    if !IsPrefix("&nbsp;", s) && !IsJsSpace(s[0]) && 0 < d < |s| && s[d] == '.' {
      assert n == d + 1;
      assert s[..n][n - 1] == '.';
      assert forall k :: 0 <= k < n - 1 ==> s[..n][k] == s[k];
    }
  }

  /** A text that starts with a marker token has a positive `MarkerLen`. */
  lemma MarkerTokenStarts(s: string, k: nat)
    requires 0 < k <= |s|
    ensures IsMarkerToken(s[..k]) ==> MarkerLen(s) > 0
  {
    var t := s[..k];
    if IsMarkerToken(t) {
      if t == "&nbsp;" {
        assert IsPrefix("&nbsp;", s);
      } else if |t| == 1 && (IsJsSpace(t[0]) || IsBulletGlyph(t[0])) {
        assert s[0] == t[0];
      } else {
        assert forall j :: 0 <= j < k - 1 ==> s[j] == t[j];
        assert s[k - 1] == t[k - 1];
        DigitRunExact(s, k - 1);
      }
    }
  }

  /** A text with `MarkerLen` zero starts with no marker token. */
  lemma NoLeadingToken(s: string)
    requires MarkerLen(s) == 0
    ensures forall k :: 0 < k <= |s| ==> !IsMarkerToken(s[..k])
  {
    forall k | 0 < k <= |s| ensures !IsMarkerToken(s[..k]) {
      MarkerTokenStarts(s, k);
    }
  }

  /** Removes the longest run of marker tokens at the start of `s`: the
      anchored, repeated pattern of the list branch of `renderToHtml`. What
      is left is a suffix of `s` that starts with no marker. */
  function StripMarkers(s: string): (r: string)
    ensures |r| <= |s| && r == s[|s| - |r|..]
    ensures MarkerLen(r) == 0
  {
    s[RunEnd(MarkerLen, s, 0)..]
  }

  /** Where the run of tokens from position `i` of `s` ends, for the
      pattern `(token)+`: `len(t)` is the length of the token `t` starts
      with, 0 when it starts with none. */
  function RunEnd(len: string -> nat, s: string, i: nat): (j: nat)
    requires i <= |s| && forall t :: len(t) <= |t|
    ensures i <= j <= |s| && len(s[j..]) == 0
    decreases |s| - i
  {
    var n := len(s[i..]);
    if n == 0 then i else RunEnd(len, s, i + n)
  }

  /** The end of a run does not depend on the text in front of it. */
  lemma {:induction false} RunEndShift(len: string -> nat, s: string, i: nat, k: nat)
    requires k <= i <= |s| && forall t :: len(t) <= |t|
    ensures RunEnd(len, s, i) == k + RunEnd(len, s[k..], i - k)
    decreases |s| - i
  {
    assert s[k..][i - k..] == s[i..];
    var n := len(s[i..]);
    if n > 0 {
      RunEndShift(len, s, i + n, k);
    }
  }

  /** Stripping one token at a time: text that starts with no token is
      kept, and otherwise the first token is dropped and stripping goes on. */
  lemma {:induction false} StripMarkersStep(s: string)
    ensures MarkerLen(s) == 0 ==> StripMarkers(s) == s
    ensures MarkerLen(s) > 0 ==> StripMarkers(s) == StripMarkers(s[MarkerLen(s)..])
  {
    RunEndStep(MarkerLen, s);
  }

  /** The text a run of tokens leaves, one token at a time. */
  lemma {:induction false} RunEndStep(len: string -> nat, s: string)
    requires forall t :: len(t) <= |t|
    ensures len(s) == 0 ==> RunEnd(len, s, 0) == 0
    ensures len(s) > 0 ==> s[RunEnd(len, s, 0)..] == s[len(s)..][RunEnd(len, s[len(s)..], 0)..]
  {
    var n := len(s);
    assert s[0..] == s;
    if n > 0 {
      RunEndShift(len, s, n, n);
      var m := RunEnd(len, s[n..], 0);
      assert s[n..][m..] == s[n + m..];
    }
  }

  /** The stripped text starts with no marker token: the pattern matched
      as many tokens as it could. */
  lemma StripMarkersMaximal(s: string)
    ensures forall k :: 0 < k <= |StripMarkers(s)| ==> !IsMarkerToken(StripMarkers(s)[..k])
  {
    NoLeadingToken(StripMarkers(s));
  }

  /** Every string of `ts` is a marker token. */
  predicate MarkerTokens(ts: seq<string>) {
    ts == [] || (IsMarkerToken(ts[0]) && MarkerTokens(ts[1..]))
  }

  /** Gluing a prefix back onto a split of the rest gives the whole. */
  lemma SplitGlue(s: string, n: nat, j: string, r: string)
    requires n <= |s| && j + r == s[n..]
    ensures s[..n] + j + r == s
  {
    assert s[..n] + (j + r) == s;
  }

  /** What `StripMarkers` drops splits into marker tokens: these tokens,
      in order, followed by the stripped text, make up the text. */
  function MarkerSplit(s: string): (ts: seq<string>)
    ensures MarkerTokens(ts)
    ensures Join(ts) + StripMarkers(s) == s
    decreases |s|
  {
    var n := MarkerLen(s);
    if n == 0 then []
    else
      var t := s[..n];
      var rest := MarkerSplit(s[n..]);
      var ts := [t] + rest;
      MarkerLenToken(s);
      assert ts[0] == t && ts[1..] == rest;
      JoinCons(t, rest);
      StripMarkersStep(s);
      SplitGlue(s, n, Join(rest), StripMarkers(s[n..]));
      ts
  }

  /** The content of a list item as rendered: markers stripped, then
      trimmed. */
  function CleanListText(s: string): string {
    Trim(StripMarkers(s))
  }

  /** The cleaned text is the stripped text less its trailing white space:
      it starts with no marker and neither starts nor ends with white
      space. */
  lemma CleanListTextShape(s: string)
    ensures IsPrefix(CleanListText(s), StripMarkers(s))
    ensures MarkerLen(CleanListText(s)) == 0
    ensures forall k :: 0 < k <= |CleanListText(s)| ==> !IsMarkerToken(CleanListText(s)[..k])
    ensures NoEdgeSpace(CleanListText(s))
  {
    var stripped := StripMarkers(s);
    LeadingTextTrim(stripped);
    var r := TrimEnd(stripped);
    MarkerLenPrefix(r, stripped);
    NoLeadingToken(r);
  }

  /** Trimming text that starts with no white space only removes its
      trailing white space, and leaves white space at neither end. */
  lemma LeadingTextTrim(t: string)
    requires t == [] || !IsJsSpace(t[0])
    ensures Trim(t) == TrimEnd(t)
    ensures IsPrefix(TrimEnd(t), t)
    ensures NoEdgeSpace(TrimEnd(t))
  {
    assert TrimStart(t) == t;
    var r := TrimEnd(t);
    if r != [] {
      assert r[0] == t[0];
    }
  }

  /** A text and a longer one that continues it start with the same digits
      when the shorter one has a non-digit after them. */
  lemma {:induction false} DigitRunPrefix(t: string, s: string)
    requires IsPrefix(t, s) && DigitRun(t) < |t|
    ensures DigitRun(s) == DigitRun(t)
  {
    if |t| > 0 && IsDigit(t[0]) {
      assert IsPrefix(t[1..], s[1..]);
      DigitRunPrefix(t[1..], s[1..]);
    }
  }

  /** A prefix of a marker-free text starts with no marker either. */
  lemma MarkerLenPrefix(t: string, s: string)
    requires IsPrefix(t, s) && MarkerLen(s) == 0
    ensures MarkerLen(t) == 0
  {
    if |t| >= 6 {
      assert s[..6] == t[..6];
    }
    if 0 < DigitRun(t) < |t| {
      DigitRunPrefix(t, s);
      assert s[DigitRun(t)] == t[DigitRun(t)];
    }
  }

  /** Cleaning list text twice changes nothing more. */
  lemma CleanListTextIdempotent(s: string)
    ensures CleanListText(CleanListText(s)) == CleanListText(s)
  {
    var t := CleanListText(s);
    CleanListTextShape(s);
    assert StripMarkers(t) == t;
    TrimClean(t);
  }

  /** Text without white space at either end is its own trim. */
  lemma TrimClean(t: string)
    requires NoEdgeSpace(t)
    ensures Trim(t) == t
  {
    assert TrimStart(t) == t;
  }

  /** A typed marker sequence in front of the text is removed. */
  lemma CleanListTextExample()
    ensures CleanListText("1.\U{2022} Go") == "Go"
  {
    StripExampleNumber();
    StripExampleRest();
    assert NoEdgeSpace("Go");
    TrimClean("Go");
  }

  lemma StripExampleNumber()
    ensures StripMarkers("1.\U{2022} Go") == StripMarkers("\U{2022} Go")
  {
    var s := "1.\U{2022} Go";
    assert DigitRun(s[1..]) == 0;
    assert DigitRun(s) == 1;
    assert MarkerLen(s) == 2;
    assert s[2..] == "\U{2022} Go";
    StripMarkersStep(s);
  }

  lemma StripExampleRest()
    ensures StripMarkers("\U{2022} Go") == "Go"
  {
    StripExampleBullet();
    StripExampleSpace();
    NoMarkerAtGo();
    StripMarkersStep("Go");
  }

  lemma StripExampleBullet()
    ensures StripMarkers("\U{2022} Go") == StripMarkers(" Go")
  {
    assert MarkerLen("\U{2022} Go") == 1;
    assert "\U{2022} Go"[1..] == " Go";
    StripMarkersStep("\U{2022} Go");
  }

  lemma StripExampleSpace()
    ensures StripMarkers(" Go") == StripMarkers("Go")
  {
    assert MarkerLen(" Go") == 1;
    assert " Go"[1..] == "Go";
    StripMarkersStep(" Go");
  }

  lemma NoMarkerAtGo()
    ensures MarkerLen("Go") == 0
  {
    assert DigitRun("Go") == 0;
  }

  // ---------------------------------------------------------------------
  // One block

  function ContainerOpen(st: StyleTable): string {
    "<div style=\"" + st.container + "\">"
  }
  const ContainerClose: string := "</div>"

  /** The line breaks and indentation inside a list-item template. */
  const Indent: string := "\n                            "
  const CloseIndent: string := "\n                         "

  /** h1 and h2 have their own styles; every other level shares h3's. */
  function HeadingStyle(st: StyleTable, level: nat): string {
    if level == 1 then st.h1 else if level == 2 then st.h2 else st.h3
  }

  /** The text a block's markup carries: list items without their markers,
      all other blocks their content as it is. */
  function ShownText(b: Block): string {
    if b.kind == Ul || b.kind == Ol then CleanListText(b.content) else b.content
  }

  /** What a block's markup must display: the address for an image, the
      shown text otherwise. */
  function Shown(b: Block): string {
    if b.kind == Image then (if Truthy(b.src) then b.src.value else "") else ShownText(b)
  }

  /** A block that produces markup: every block except an image without an
      address and a paragraph or divider with empty text. */
  predicate Renders(b: Block) {
    if b.kind == Image then Truthy(b.src)
    else if b.kind == P || b.kind == Divider then ShownText(b) != ""
    else true
  }

  function Wrap(open: string, inner: string, close: string): string {
    open + inner + close
  }

  const SectionOpen: string := Indent + "<section style=\"" + Styles.ListSection + "\">"

  function ListItemOpen(itemStyle: string, marker: string): string {
    Wrap("<div style=\"" + itemStyle + "\">" + Indent, marker, SectionOpen)
  }

  /** The number span of an ordered item. */
  function OlMarker(st: StyleTable, index: Option<nat>): string {
    Wrap("<span style=\"" + st.olNum + "\">", IndexText(index), ".</span>")
  }

  const ListItemClose: string := "</section>" + CloseIndent + "</div>"

  /** How a template literal shows `block.index`. */
  function IndexText(index: Option<nat>): string {
    match index
    case Some(k) => NatToString(k)
    case None => "undefined"
  }

  /** The markup of one block, following its type. */
  function BlockHtml(st: StyleTable, b: Block): string {
    Markup(st, b, ShownText(b))
  }

  /** The markup of a block of `b`'s type around the text `text`. */
  function Markup(st: StyleTable, b: Block, text: string): string {
    match b.kind
    case Heading =>
      var level := NatToString(b.level);
      Wrap("<h" + level + " style=\"" + HeadingStyle(st, b.level) + "\">", text, "</h" + level + ">")
    case Ul =>
      Wrap(ListItemOpen(st.ulItem, "<span style=\"" + st.ulBullet + "\"></span>"), text, ListItemClose)
    case Ol =>
      Wrap(ListItemOpen(st.olItem, OlMarker(st, b.index)), text, ListItemClose)
    case Quote => Wrap("<blockquote style=\"" + st.quote + "\">", text, "</blockquote>")
    case Callout => Wrap("<div style=\"" + st.callout + "\">", text, "</div>")
    case Code => Wrap("<div style=\"" + st.code + "\">", text, "</div>")
    case Image =>
      if Truthy(b.src) then Wrap("<img src=\"", b.src.value, "\" style=\"" + st.image + "\" />") else ""
    case _ => if text != "" then Wrap("<p style=\"" + st.p + "\">", text, "</p>") else ""
  }

  /** A non-empty opening tag makes the wrapped markup non-empty. */
  lemma WrapNonEmpty(open: string, inner: string, close: string)
    requires open != ""
    ensures Wrap(open, inner, close) != ""
  {
    assert Wrap(open, inner, close)[0] == open[0];
  }

  /** A block produces markup exactly when it renders: an image without an
      address and an empty paragraph produce nothing; every other block
      produces at least its opening tag. */
  lemma BlockHtmlEmpty(st: StyleTable, b: Block)
    ensures BlockHtml(st, b) == "" <==> !Renders(b)
  {
    MarkupEmpty(st, b, ShownText(b));
  }

  /** The emptiness of a block's markup, for any text. */
  lemma MarkupEmpty(st: StyleTable, b: Block, text: string)
    ensures Markup(st, b, text) == "" <==>
      if b.kind == Image then !Truthy(b.src)
      else (b.kind == P || b.kind == Divider) && text == ""
  {
    match b.kind
    case Heading =>
      var level := NatToString(b.level);
      WrapNonEmpty("<h" + level + " style=\"" + HeadingStyle(st, b.level) + "\">", text, "</h" + level + ">");
    case Ul =>
      WrapNonEmpty(ListItemOpen(st.ulItem, "<span style=\"" + st.ulBullet + "\"></span>"), text, ListItemClose);
    case Ol =>
      WrapNonEmpty(ListItemOpen(st.olItem, OlMarker(st, b.index)), text, ListItemClose);
    case Quote => WrapNonEmpty("<blockquote style=\"" + st.quote + "\">", text, "</blockquote>");
    case Callout => WrapNonEmpty("<div style=\"" + st.callout + "\">", text, "</div>");
    case Code => WrapNonEmpty("<div style=\"" + st.code + "\">", text, "</div>");
    case Image =>
      if Truthy(b.src) {
        WrapNonEmpty("<img src=\"", b.src.value, "\" style=\"" + st.image + "\" />");
      }
    case _ =>
      if text != "" {
        WrapNonEmpty("<p style=\"" + st.p + "\">", text, "</p>");
      }
  }

  /** A block's markup displays its text, or its address for an image. */
  lemma BlockHtmlShows(st: StyleTable, b: Block)
    ensures Contains(BlockHtml(st, b), Shown(b))
  {
    MarkupShows(st, b, ShownText(b));
  }

  /** The markup of a block around any text displays that text, or the
      address for an image. */
  lemma MarkupShows(st: StyleTable, b: Block, text: string)
    ensures Contains(Markup(st, b, text),
      if b.kind == Image then (if Truthy(b.src) then b.src.value else "") else text)
  {
    ContainsSelf(if b.kind == Image then (if Truthy(b.src) then b.src.value else "") else text);
    match b.kind
    case Heading =>
      var level := NatToString(b.level);
      ContainsInfix("<h" + level + " style=\"" + HeadingStyle(st, b.level) + "\">", text, "</h" + level + ">", text);
    case Ul =>
      ContainsInfix(ListItemOpen(st.ulItem, "<span style=\"" + st.ulBullet + "\"></span>"), text, ListItemClose, text);
    case Ol =>
      ContainsInfix(ListItemOpen(st.olItem, OlMarker(st, b.index)), text, ListItemClose, text);
    case Quote => ContainsInfix("<blockquote style=\"" + st.quote + "\">", text, "</blockquote>", text);
    case Callout => ContainsInfix("<div style=\"" + st.callout + "\">", text, "</div>", text);
    case Code => ContainsInfix("<div style=\"" + st.code + "\">", text, "</div>", text);
    case Image =>
      if Truthy(b.src) {
        ContainsInfix("<img src=\"", b.src.value, "\" style=\"" + st.image + "\" />", b.src.value);
      }
    case _ =>
      if text != "" {
        ContainsInfix("<p style=\"" + st.p + "\">", text, "</p>", text);
      }
  }

  /** A heading opens a tag named after its raw level, styled h1 for level
      1, h2 for level 2 and h3 for every other level, and closes the same
      tag. */
  lemma HeadingMarkup(st: StyleTable, b: Block)
    requires b.kind == Heading
    ensures var h := BlockHtml(st, b);
      var open := "<h" + NatToString(b.level) + " style=\"";
      (b.level == 1 ==> IsPrefix(open + st.h1, h))
      && (b.level == 2 ==> IsPrefix(open + st.h2, h))
      && (b.level != 1 && b.level != 2 ==> IsPrefix(open + st.h3, h))
    ensures var h := BlockHtml(st, b);
      var close := "</h" + NatToString(b.level) + ">";
      |close| <= |h| && h[|h| - |close|..] == close
  {
    var level := NatToString(b.level);
    var open := "<h" + level + " style=\"";
    var style := HeadingStyle(st, b.level);
    var close := "</h" + level + ">";
    var h := BlockHtml(st, b);
    assert h == open + style + "\">" + ShownText(b) + close;
    assert h[..|open + style|] == open + style;
    assert h[|h| - |close|..] == close;
  }

  /** An ordered item shows its number, in its number span, before its
      text. */
  lemma OlItemShowsNumber(st: StyleTable, b: Block, k: nat)
    requires b.kind == Ol && b.index == Some(k)
    ensures Contains(BlockHtml(st, b), "<span style=\"" + st.olNum + "\">" + NatToString(k) + ".</span>")
  {
    var marker := OlMarker(st, b.index);
    var open := ListItemOpen(st.olItem, marker);
    ContainsSelf(marker);
    ContainsInfix("<div style=\"" + st.olItem + "\">" + Indent, marker, SectionOpen, marker);
    ContainsLeft(open, ShownText(b), marker);
    ContainsLeft(open + ShownText(b), ListItemClose, marker);
  }

  // ---------------------------------------------------------------------
  // Ordered-list numbering

  /** The number of ordered items directly before position `i`. */
  function RunBefore(bs: seq<Block>, i: nat): (n: nat)
    requires i <= |bs|
    ensures n <= i
  {
    if i == 0 || bs[i - 1].kind != Ol then 0 else 1 + RunBefore(bs, i - 1)
  }

  /** `RunBefore` counts the maximal run of ordered items ending just
      before `i`. */
  lemma {:induction false} RunBeforeSpec(bs: seq<Block>, i: nat)
    requires i <= |bs|
    ensures forall j :: i - RunBefore(bs, i) <= j < i ==> bs[j].kind == Ol
    ensures RunBefore(bs, i) < i ==> bs[i - RunBefore(bs, i) - 1].kind != Ol
  {
    if i > 0 && bs[i - 1].kind == Ol {
      RunBeforeSpec(bs, i - 1);
    }
  }

  /** The blocks after numbering: every ordered item gets its position in
      the run of consecutive ordered items it belongs to, counting from 1;
      nothing else changes. */
  function Numbered(bs: seq<Block>): (r: seq<Block>)
    ensures |r| == |bs|
    ensures forall i {:trigger r[i]} :: 0 <= i < |bs| ==>
      (r[i].kind == bs[i].kind && r[i].content == bs[i].content
       && r[i].src == bs[i].src && r[i].level == bs[i].level && r[i].id == bs[i].id)
    ensures forall i {:trigger r[i]} :: 0 <= i < |bs| ==>
      r[i].index == if bs[i].kind == Ol then Some(RunBefore(bs, i) + 1) else bs[i].index
  {
    seq(|bs|, i requires 0 <= i < |bs| => NumberedBlock(bs, i))
  }

  /** The block at position `i` after numbering. */
  function NumberedBlock(bs: seq<Block>, i: nat): Block
    requires i < |bs|
  {
    if bs[i].kind == Ol then bs[i].(index := Some(RunBefore(bs, i) + 1)) else bs[i]
  }

  /** Each ordered item is numbered with its position in its maximal run:
      the `k` blocks before it are ordered items and the one before those
      is not. Numbering restarts at 1 after any other block and goes up by
      one along a run. */
  lemma OlNumbering(bs: seq<Block>, i: nat)
    requires i < |bs| && bs[i].kind == Ol
    ensures Numbered(bs)[i].index.Some?
    ensures var k := Numbered(bs)[i].index.value;
      1 <= k <= i + 1
      && (forall j :: i - k < j <= i ==> bs[j].kind == Ol)
      && (k <= i ==> bs[i - k].kind != Ol)
    ensures (i == 0 || bs[i - 1].kind != Ol) ==> Numbered(bs)[i].index == Some(1)
    ensures i > 0 && bs[i - 1].kind == Ol ==>
      Numbered(bs)[i].index == Some(Numbered(bs)[i - 1].index.value + 1)
  {
    var nb := Numbered(bs);
    var n := RunBefore(bs, i);
    assert nb[i].index == Some(n + 1);
    RunBeforeSpec(bs, i);
    if i > 0 && bs[i - 1].kind == Ol {
      assert nb[i - 1].index == Some(RunBefore(bs, i - 1) + 1);
      assert n == RunBefore(bs, i - 1) + 1;
    }
  }

  // ---------------------------------------------------------------------
  // The whole fragment

  /** The markups of the blocks, in order. */
  function Markups(st: StyleTable, bs: seq<Block>): (ms: seq<string>)
    ensures |ms| == |bs| && forall i {:trigger ms[i]} :: 0 <= i < |bs| ==> ms[i] == BlockHtml(st, bs[i])
  {
    seq(|bs|, i requires 0 <= i < |bs| => BlockHtml(st, bs[i]))
  }

  /** The fragment `renderToHtml` returns: the container `div` holding the
      markup of every numbered block, in order. */
  function RenderSpec(st: StyleTable, bs: seq<Block>): string {
    ContainerOpen(st) + Join(Markups(st, Numbered(bs))) + ContainerClose
  }

  /** The fragment is one container `div` and displays every block's text
      (for an image, its address). */
  lemma RenderShowsEveryBlock(st: StyleTable, bs: seq<Block>, i: nat)
    requires i < |bs|
    ensures IsPrefix(ContainerOpen(st), RenderSpec(st, bs))
    ensures RenderSpec(st, bs)[|RenderSpec(st, bs)| - |ContainerClose|..] == ContainerClose
    ensures Contains(RenderSpec(st, bs), Shown(bs[i]))
  {
    var nb := Numbered(bs);
    var ms := Markups(st, nb);
    var html := RenderSpec(st, bs);
    assert html[..|ContainerOpen(st)|] == ContainerOpen(st);
    assert Shown(nb[i]) == Shown(bs[i]);
    BlockHtmlShows(st, nb[i]);
    JoinSplit(ms, i);
    ContainsInfix(Join(ms[..i]), ms[i], Join(ms[i + 1..]), Shown(bs[i]));
    ContainsRight(ContainerOpen(st), Join(ms), Shown(bs[i]));
    ContainsLeft(ContainerOpen(st) + Join(ms), ContainerClose, Shown(bs[i]));
  }

  /** Block `j`'s markup comes before block `k`'s markup when `j < k`,
      with the markup of the blocks between them in between. */
  lemma RenderKeepsOrder(st: StyleTable, bs: seq<Block>, j: nat, k: nat)
    requires j < k < |bs|
    ensures var ms := Markups(st, Numbered(bs));
      RenderSpec(st, bs) == ContainerOpen(st)
        + (Join(ms[..j]) + ms[j] + Join(ms[j + 1..k]) + ms[k] + Join(ms[k + 1..]))
        + ContainerClose
  {
    JoinSplit2(Markups(st, Numbered(bs)), j, k);
  }

  /** An empty block list renders as an empty container. */
  lemma RenderEmpty(st: StyleTable)
    ensures RenderSpec(st, []) == ContainerOpen(st) + ContainerClose
  {
    assert Markups(st, Numbered([])) == [];
  }

  /** One step of the numbering pass: the block at `i` as numbered, with
      the counter that follows it. */
  lemma NumberStep(bs: seq<Block>, i: nat)
    requires i < |bs|
    ensures bs[i].kind == Ol ==>
      Numbered(bs)[i] == bs[i].(index := Some(RunBefore(bs, i) + 1))
      && RunBefore(bs, i + 1) == RunBefore(bs, i) + 1
    ensures bs[i].kind != Ol ==> Numbered(bs)[i] == bs[i] && RunBefore(bs, i + 1) == 0
    ensures Numbered(bs)[..i + 1] == Numbered(bs)[..i] + [Numbered(bs)[i]]
  {
    NumberedAt(bs, i);
    assert RunBefore(bs, i + 1) == if bs[i].kind != Ol then 0 else 1 + RunBefore(bs, i);
    PrefixStep(Numbered(bs), i);
  }

  /** The block at `i` after numbering. */
  lemma NumberedAt(bs: seq<Block>, i: nat)
    requires i < |bs|
    ensures Numbered(bs)[i] == NumberedBlock(bs, i)
  {
    assert Numbered(bs)[i] == NumberedBlock(bs, i);
  }

  lemma PrefixStep<T>(s: seq<T>, i: nat)
    requires i < |s|
    ensures s[..i + 1] == s[..i] + [s[i]]
  {
  }

  /** One step of the markup pass. */
  lemma RenderStep(st: StyleTable, bs: seq<Block>, i: nat)
    requires i < |bs|
    ensures Join(Markups(st, Numbered(bs))[..i + 1])
      == Join(Markups(st, Numbered(bs))[..i]) + BlockHtml(st, Numbered(bs)[i])
  {
    JoinPrefixStep(Markups(st, Numbered(bs)), i);
  }

  /** The blocks in front of position `i` of the pass: those before `i`
      numbered, the rest untouched. */
  ghost predicate NumberedUpTo(bs: seq<Block>, cur: seq<Block>, i: nat) {
    i <= |bs| == |cur| && cur[..i] == Numbered(bs)[..i] && cur[i..] == bs[i..]
  }

  /** The numbering half of one `forEach` step of `renderToHtml`: writes
      the ordinal into an ordered item and advances the counter and the
      last type. */
  method NumberBlock(blocks: array<Block>, i: nat, olCounter: nat, lastType: Option<BlockType>,
                     ghost bs: seq<Block>)
    returns (block: Block, olCounter': nat, lastType': Option<BlockType>)
    requires i < blocks.Length
    requires NumberedUpTo(bs, blocks[..], i)
    requires olCounter == RunBefore(bs, i) + 1
    requires lastType == (if i == 0 then None else Some(bs[i - 1].kind))
    modifies blocks
    ensures NumberedUpTo(bs, blocks[..], i + 1)
    ensures block == Numbered(bs)[i]
    ensures olCounter' == RunBefore(bs, i + 1) + 1
    ensures lastType' == Some(bs[i].kind)
  {
    NumberStep(bs, i);
    block := blocks[i];
    assert block == bs[i] by {
      assert blocks[i..][0] == bs[i..][0];
    }
    olCounter' := olCounter;
    if block.kind == Ol {
      if lastType != Some(Ol) {
        olCounter' := 1;
      }
      block := block.(index := Some(olCounter'));
      blocks[i] := block;
      olCounter' := olCounter' + 1;
    } else {
      olCounter' := 1;
    }
    lastType' := Some(block.kind);
    assert blocks[..i + 1] == old(blocks[..])[..i] + [block];
    assert blocks[i + 1..] == old(blocks[..])[i + 1..];
  }

  /** `renderToHtml(blocks)`: one pass over the blocks that writes each
      ordered item's number into the block and appends each block's
      markup. */
  method RenderToHtml(st: StyleTable, blocks: array<Block>) returns (html: string)
    modifies blocks
    ensures blocks[..] == Numbered(old(blocks[..]))
    ensures html == RenderSpec(st, old(blocks[..]))
  {
    ghost var bs := blocks[..];
    html := ContainerOpen(st);
    var olCounter: nat := 1;
    var lastType: Option<BlockType> := None;
    assert Markups(st, Numbered(bs))[..0] == [];
    for i := 0 to blocks.Length
      invariant NumberedUpTo(bs, blocks[..], i)
      invariant olCounter == RunBefore(bs, i) + 1
      invariant lastType == (if i == 0 then None else Some(bs[i - 1].kind))
      invariant html == ContainerOpen(st) + Join(Markups(st, Numbered(bs))[..i])
    {
      var block;
      block, olCounter, lastType := NumberBlock(blocks, i, olCounter, lastType, bs);
      RenderStep(st, bs, i);
      ConcatAssoc(ContainerOpen(st), Join(Markups(st, Numbered(bs))[..i]), BlockHtml(st, block));
      html := html + BlockHtml(st, block);
    }
    assert Markups(st, Numbered(bs))[..blocks.Length] == Markups(st, Numbered(bs));
    assert blocks[..] == blocks[..blocks.Length];
    html := html + ContainerClose;
  }
}
