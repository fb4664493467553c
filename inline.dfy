/** `extractFormattedText`: the recursive walk that turns a node's inline
    content into the inline markup of the block. */
module InlineText {

  import opened Strings
  import Styles

  /** A DOM node below the text root: a text node, an element (lower- or
      upper-case tag name, `style` attribute or "", class list, resolved
      `href` or "", child nodes), or any other kind of node (comments). */
  datatype Inline =
    | Text(text: string)
    | Element(tagName: string, style: string, classes: seq<string>, href: string, children: seq<Inline>)
    | Other

  /** An element is bold when it is `b`/`strong`, or its style mentions
      'font-weight' together with 'bold' or '700'. */
  predicate IsBold(n: Inline)
    requires n.Element?
  {
    var tag := ToLower(n.tagName);
    tag == "b" || tag == "strong"
    || (Contains(n.style, "font-weight") && (Contains(n.style, "bold") || Contains(n.style, "700")))
  }

  predicate IsCode(n: Inline)
    requires n.Element?
  {
    "inline-code" in n.classes
  }

  predicate IsLink(n: Inline)
    requires n.Element?
  {
    ToLower(n.tagName) == "a"
  }

  const BoldOpen: string := "<span style=\"" + Styles.Bold + "\">"
  const CodeOpen: string := "<span style=\"" + Styles.InlineCode + "\">"
  const SpanClose: string := "</span>"
  const LinkClose: string := "</a>"

  function LinkOpen(href: string): string {
    "<a href=\"" + href + "\" style=\"" + Styles.Link + "\">"
  }

  /** Wraps a non-empty inner string: bold first, then inline code, then
      link, each only when the element has that formatting. */
  function Decorate(n: Inline, inner: string): (r: string)
    requires n.Element?
    ensures |r| >= |inner|
  {
    var bold := if IsBold(n) then BoldOpen + inner + SpanClose else inner;
    var code := if IsCode(n) then CodeOpen + bold + SpanClose else bold;
    if IsLink(n) then LinkOpen(n.href) + code + LinkClose else code
  }

  /** The text a node shows, without any markup: the reference the
      flattened markup is compared with. */
  function PlainText(n: Inline): string
    decreases n, 1
  {
    match n
    case Text(t) => StripZeroWidth(t)
    case Element(_, _, _, _, cs) => PlainTextAll(cs)
    case Other => ""
  }

  function PlainTextAll(cs: seq<Inline>): string
    decreases cs, 0
  {
    if cs == [] then "" else PlainTextAll(cs[..|cs| - 1]) + PlainText(cs[|cs| - 1])
  }

  /** What `traverse(node)` contributes: a text node its text without
      zero-width characters, an element its flattened children wrapped in
      its formatting, or nothing when those children flatten to "". A node
      contributes nothing exactly when it shows no text. */
  function Flatten(n: Inline): (r: string)
    ensures r == "" <==> PlainText(n) == ""
    decreases n, 1
  {
    match n
    case Text(t) => StripZeroWidth(t)
    case Element(_, _, _, _, cs) =>
      var inner := FlattenAll(cs);
      if inner == "" then "" else Decorate(n, inner)
    case Other => ""
  }

  /** The in-order concatenation of the children's contributions. */
  function FlattenAll(cs: seq<Inline>): (r: string)
    ensures r == "" <==> PlainTextAll(cs) == ""
    decreases cs, 0
  {
    if cs == [] then "" else FlattenAll(cs[..|cs| - 1]) + Flatten(cs[|cs| - 1])
  }

  /** One more child appends its contribution. */
  lemma FlattenAllSnoc(cs: seq<Inline>, c: Inline)
    ensures FlattenAll(cs + [c]) == FlattenAll(cs) + Flatten(c)
  {
    assert (cs + [c])[..|cs|] == cs;
  }

  /** Flattening is the in-order concatenation: splitting the child list
      splits the result. */
  lemma {:induction false} FlattenAllAppend(cs: seq<Inline>, ds: seq<Inline>)
    ensures FlattenAll(cs + ds) == FlattenAll(cs) + FlattenAll(ds)
    decreases |ds|
  {
    if ds == [] {
      assert cs + ds == cs;
    } else {
      var ds', c := ds[..|ds| - 1], ds[|ds| - 1];
      assert ds == ds' + [c];
      ConcatAssoc(cs, ds', [c]);
      FlattenAllSnoc(cs + ds', c);
      FlattenAllSnoc(ds', c);
      FlattenAllAppend(cs, ds');
      ConcatAssoc(FlattenAll(cs), FlattenAll(ds'), Flatten(c));
    }
  }

  /** No element anywhere in the tree carries formatting. */
  predicate Unformatted(n: Inline)
    decreases n
  {
    match n
    case Element(_, _, _, _, cs) =>
      !IsBold(n) && !IsCode(n) && !IsLink(n) && forall k :: 0 <= k < |cs| ==> Unformatted(cs[k])
    case _ => true
  }

  /** Without formatting, flattening yields exactly the shown text. */
  lemma {:induction false} FlattenUnformatted(n: Inline)
    requires Unformatted(n)
    ensures Flatten(n) == PlainText(n)
    decreases n, 1
  {
    match n
    case Element(_, _, _, _, cs) => FlattenAllUnformatted(cs);
    case _ =>
  }

  lemma {:induction false} FlattenAllUnformatted(cs: seq<Inline>)
    requires forall k :: 0 <= k < |cs| ==> Unformatted(cs[k])
    ensures FlattenAll(cs) == PlainTextAll(cs)
    decreases cs, 0
  {
    if cs != [] {
      FlattenAllUnformatted(cs[..|cs| - 1]);
      FlattenUnformatted(cs[|cs| - 1]);
    }
  }

  /** Wrapping keeps the wrapped string inside and puts the opening tag first. */
  lemma Wrapped(open: string, inner: string, close: string, sub: string)
    requires Contains(inner, sub)
    ensures Contains(open + inner + close, sub) && IsPrefix(open, open + inner + close)
  {
    ContainsInfix(open, inner, close, sub);
    assert (open + inner + close)[..|open|] == open;
  }

  /** The outermost wrapper of an element that shows text is its link when
      it is a link, else its inline code, else its bold; the inner markup
      is kept inside. */
  lemma ElementWrapping(n: Inline)
    requires n.Element? && FlattenAll(n.children) != ""
    ensures Contains(Flatten(n), FlattenAll(n.children))
    ensures IsLink(n) ==> IsPrefix(LinkOpen(n.href), Flatten(n))
    ensures !IsLink(n) && IsCode(n) ==> IsPrefix(CodeOpen, Flatten(n))
    ensures !IsLink(n) && !IsCode(n) && IsBold(n) ==> IsPrefix(BoldOpen, Flatten(n))
    ensures !IsLink(n) && !IsCode(n) && !IsBold(n) ==> Flatten(n) == FlattenAll(n.children)
  {
    var inner := FlattenAll(n.children);
    assert Flatten(n) == Decorate(n, inner);
    ContainsSelf(inner);
    var bold := if IsBold(n) then BoldOpen + inner + SpanClose else inner;
    if IsBold(n) {
      Wrapped(BoldOpen, inner, SpanClose, inner);
    }
    assert Contains(bold, inner);
    var code := if IsCode(n) then CodeOpen + bold + SpanClose else bold;
    if IsCode(n) {
      Wrapped(CodeOpen, bold, SpanClose, inner);
    }
    assert Contains(code, inner);
    assert !IsCode(n) && IsBold(n) ==> IsPrefix(BoldOpen, code);
    if IsLink(n) {
      Wrapped(LinkOpen(n.href), code, LinkClose, inner);
    }
  }

  /** Two opening tags, the second inside the first, start the markup. */
  lemma NestedPrefix(outer: string, inner: string, mid: string, close: string)
    ensures IsPrefix(outer + inner, outer + (inner + mid) + close)
  {
    assert (outer + (inner + mid) + close)[..|outer| + |inner|] == outer + inner;
  }

  /** How the wrappers of one element nest: the bold span sits directly
      around the children's markup and the inline-code span directly
      around the bold span. */
  lemma ElementNesting(n: Inline)
    requires n.Element? && FlattenAll(n.children) != ""
    ensures IsBold(n) ==> Contains(Flatten(n), BoldOpen + FlattenAll(n.children) + SpanClose)
    ensures IsCode(n) && IsBold(n) ==>
      Contains(Flatten(n), CodeOpen + (BoldOpen + FlattenAll(n.children) + SpanClose) + SpanClose)
  {
    var inner := FlattenAll(n.children);
    assert Flatten(n) == Decorate(n, inner);
    var bold := if IsBold(n) then BoldOpen + inner + SpanClose else inner;
    var code := if IsCode(n) then CodeOpen + bold + SpanClose else bold;
    ContainsSelf(bold);
    ContainsSelf(code);
    if IsCode(n) {
      Wrapped(CodeOpen, bold, SpanClose, bold);
    }
    if IsLink(n) {
      Wrapped(LinkOpen(n.href), code, LinkClose, bold);
      Wrapped(LinkOpen(n.href), code, LinkClose, code);
    }
  }

  /** The opening tags of a formatted element, outermost first: the link,
      then the inline-code span, then the bold span. */
  lemma ElementOpeningTags(n: Inline)
    requires n.Element? && FlattenAll(n.children) != ""
    ensures IsLink(n) && IsCode(n) ==> IsPrefix(LinkOpen(n.href) + CodeOpen, Flatten(n))
    ensures IsLink(n) && !IsCode(n) && IsBold(n) ==> IsPrefix(LinkOpen(n.href) + BoldOpen, Flatten(n))
    ensures !IsLink(n) && IsCode(n) && IsBold(n) ==> IsPrefix(CodeOpen + BoldOpen, Flatten(n))
  {
    var inner := FlattenAll(n.children);
    assert Flatten(n) == Decorate(n, inner);
    var bold := if IsBold(n) then BoldOpen + inner + SpanClose else inner;
    if IsLink(n) && IsCode(n) {
      ConcatAssoc(CodeOpen, bold, SpanClose);
      NestedPrefix(LinkOpen(n.href), CodeOpen, bold + SpanClose, LinkClose);
    } else if IsLink(n) && IsBold(n) {
      ConcatAssoc(BoldOpen, inner, SpanClose);
      NestedPrefix(LinkOpen(n.href), BoldOpen, inner + SpanClose, LinkClose);
    } else if !IsLink(n) && IsCode(n) && IsBold(n) {
      ConcatAssoc(BoldOpen, inner, SpanClose);
      NestedPrefix(CodeOpen, BoldOpen, inner + SpanClose, SpanClose);
    }
  }

  // ---------------------------------------------------------------------
  // The walk as content.js performs it

  /** `traverse(node)`: pushes the node's contribution onto `result`
      unless it is empty. An element collects its children's contributions
      in a list of its own, joins them and wraps the non-empty join. */
  method Traverse(n: Inline, result: seq<string>) returns (result': seq<string>)
    ensures Join(result') == Join(result) + Flatten(n)
    ensures result' == if Flatten(n) == "" then result else result + [Flatten(n)]
    decreases n, 1
  {
    match n {
      case Text(t) =>
        var text := StripZeroWidth(t);
        if text != "" {
          result' := result + [text];
          JoinAppend(result, text);
        } else {
          result' := result;
        }
      case Element(_, _, _, _, cs) =>
        var temp := TraverseChildren(cs);
        var inner := Join(temp);
        if inner == "" {
          result' := result;
        } else {
          var bold := if IsBold(n) then BoldOpen + inner + SpanClose else inner;
          var code := if IsCode(n) then CodeOpen + bold + SpanClose else bold;
          var link := if IsLink(n) then LinkOpen(n.href) + code + LinkClose else code;
          assert link == Decorate(n, inner);
          result' := result + [link];
          JoinAppend(result, link);
        }
      case Other =>
        result' := result;
    }
  }

  /** The loop of `traverse` over an element's child nodes, collecting
      into a fresh list. */
  method TraverseChildren(cs: seq<Inline>) returns (temp: seq<string>)
    ensures Join(temp) == FlattenAll(cs)
    decreases cs, 0
  {
    temp := [];
    var i := 0;
    while i < |cs|
      invariant 0 <= i <= |cs|
      invariant Join(temp) == FlattenAll(cs[..i])
    {
      assert cs[..i + 1][..i] == cs[..i];
      temp := Traverse(cs[i], temp);
      i := i + 1;
    }
    assert cs[..i] == cs;
  }

  /** `extractFormattedText(root)`: the joined contributions of the root's
      child nodes. */
  method ExtractFormattedText(root: seq<Inline>) returns (s: string)
    ensures s == FlattenAll(root)
    ensures s == "" <==> PlainTextAll(root) == ""
  {
    var result: seq<string> := [];
    var i := 0;
    while i < |root|
      invariant 0 <= i <= |root|
      invariant Join(result) == FlattenAll(root[..i])
    {
      assert root[..i + 1][..i] == root[..i];
      result := Traverse(root[i], result);
      i := i + 1;
    }
    assert root[..i] == root;
    s := Join(result);
  }
}
