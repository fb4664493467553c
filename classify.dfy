/** Block classification by class-name markers (`identifyType` for the
    wiki editor, the inline rules of `extractAceLines` for the older ace
    editor) and the garbage filter `isGarbageContent`. */
module Classify {

  import opened Wrappers
  import opened Strings
  import opened Blocks

  /** What classification yields for one node: its type, heading level
      (0 where the source leaves it unset) and image address. */
  datatype TypeInfo = TypeInfo(kind: BlockType, level: nat, src: Option<string>)

  // ---------------------------------------------------------------------
  // Ordered first-match rules

  /** A rule list: the first marker contained in the class name decides. */
  type Rules = seq<(string, BlockType)>

  function FirstMatch(rules: Rules, cls: string): Option<BlockType> {
    if rules == [] then None
    else if Contains(cls, rules[0].0) then Some(rules[0].1)
    else FirstMatch(rules[1..], cls)
  }

  /** Rule `i` fires: its marker is in `cls` and no earlier rule's is. */
  ghost predicate FiresFirst(rules: Rules, cls: string, i: int) {
    0 <= i < |rules| && Contains(cls, rules[i].0)
    && forall j :: 0 <= j < i ==> !Contains(cls, rules[j].0)
  }

  /** `FirstMatch` picks the earliest rule whose marker occurs, and nothing
      only when no marker occurs. */
  lemma {:induction false} FirstMatchSpec(rules: Rules, cls: string)
    ensures FirstMatch(rules, cls).None? <==> forall i :: 0 <= i < |rules| ==> !Contains(cls, rules[i].0)
    ensures FirstMatch(rules, cls).Some? ==>
      exists i :: FiresFirst(rules, cls, i) && FirstMatch(rules, cls).value == rules[i].1
  {
    if rules == [] {
    } else if Contains(cls, rules[0].0) {
      assert FiresFirst(rules, cls, 0);
    } else {
      FirstMatchSpec(rules[1..], cls);
      forall i | 0 < i < |rules| ensures rules[1..][i - 1] == rules[i] { }
      if FirstMatch(rules[1..], cls).Some? {
        var i :| FiresFirst(rules[1..], cls, i) && FirstMatch(rules[1..], cls).value == rules[1..][i].1;
        forall j | 0 <= j < i + 1 ensures !Contains(cls, rules[j].0) {
          if j > 0 { assert rules[1..][j - 1] == rules[j]; }
        }
        assert FiresFirst(rules, cls, i + 1);
      } else {
        forall i | 0 <= i < |rules| ensures !Contains(cls, rules[i].0) {
          if i > 0 { assert rules[1..][i - 1] == rules[i]; }
        }
      }
    }
  }

  // ---------------------------------------------------------------------
  // Wiki editor: identifyType

  /** The markers `identifyType` tests after 'heading' and 'image',
      in order. */
  const WikiRules: Rules := [("bullet", Ul), ("list", Ul), ("ordered", Ol),
                             ("quote", Quote), ("callout", Callout), ("code", Code)]

  /** The level of a wiki heading: the digit of the first match of
      `/heading(\d)/`, or 1 when there is none. */
  function WikiHeadingLevel(cls: string): (level: nat)
    ensures level <= 9
    ensures FirstDigitAfter(cls, "heading").None? ==> level == 1
    ensures FirstDigitAfter(cls, "heading").Some? ==> level == FirstDigitAfter(cls, "heading").value
  {
    FirstDigitAfter(cls, "heading").GetOr(1)
  }

  /** `identifyType(node)`, over the node's class name and the address of
      the first `img` below it (`None` when there is no `img`). */
  function IdentifyType(cls: string, img: Option<string>): (r: Option<TypeInfo>)
    ensures r.None? <==> !Contains(cls, "heading") && Contains(cls, "image") && img.None?
    ensures r.Some? ==> r.value.kind != Divider
    ensures r.Some? && r.value.kind == Image ==> img.Some? && r.value.src == img
    ensures r.Some? && r.value.kind != Image ==> r.value.src.None?
    ensures Contains(cls, "heading") ==> r == Some(TypeInfo(Heading, WikiHeadingLevel(cls), None))
    ensures !Contains(cls, "heading") && Contains(cls, "image") && img.Some? ==> r == Some(TypeInfo(Image, 0, img))
  {
    if Contains(cls, "heading") then
      Some(TypeInfo(Heading, WikiHeadingLevel(cls), None))
    else if Contains(cls, "image") then
      if img.Some? then Some(TypeInfo(Image, 0, img)) else None
    else if Contains(cls, "bullet") || Contains(cls, "list") then Some(TypeInfo(Ul, 0, None))
    else if Contains(cls, "ordered") then Some(TypeInfo(Ol, 0, None))
    else if Contains(cls, "quote") then Some(TypeInfo(Quote, 0, None))
    else if Contains(cls, "callout") then Some(TypeInfo(Callout, 0, None))
    else if Contains(cls, "code") then Some(TypeInfo(Code, 0, None))
    else Some(TypeInfo(P, 0, None))
  }

  /** Below 'heading' and 'image', `identifyType` is the first-match rule
      list `WikiRules` with 'p' as the default. */
  lemma IdentifyTypeByRules(cls: string, img: Option<string>)
    requires !Contains(cls, "heading") && !Contains(cls, "image")
    ensures IdentifyType(cls, img) == Some(TypeInfo(FirstMatch(WikiRules, cls).GetOr(P), 0, None))
  {
    var r := WikiRules;
    assert r[1..] == [("list", Ul), ("ordered", Ol), ("quote", Quote), ("callout", Callout), ("code", Code)];
    assert r[1..][1..] == [("ordered", Ol), ("quote", Quote), ("callout", Callout), ("code", Code)];
    assert r[1..][1..][1..] == [("quote", Quote), ("callout", Callout), ("code", Code)];
    assert r[1..][1..][1..][1..] == [("callout", Callout), ("code", Code)];
    assert r[1..][1..][1..][1..][1..] == [("code", Code)];
    assert r[1..][1..][1..][1..][1..][1..] == [];
    assert FirstMatch(r[1..][1..][1..][1..][1..], cls) == if Contains(cls, "code") then Some(Code) else None;
    assert FirstMatch(r[1..][1..][1..][1..], cls)
      == if Contains(cls, "callout") then Some(Callout) else FirstMatch(r[1..][1..][1..][1..][1..], cls);
    assert FirstMatch(r[1..][1..][1..], cls)
      == if Contains(cls, "quote") then Some(Quote) else FirstMatch(r[1..][1..][1..][1..], cls);
    assert FirstMatch(r[1..][1..], cls)
      == if Contains(cls, "ordered") then Some(Ol) else FirstMatch(r[1..][1..][1..], cls);
    assert FirstMatch(r[1..], cls)
      == if Contains(cls, "list") then Some(Ul) else FirstMatch(r[1..][1..], cls);
    assert FirstMatch(r, cls)
      == if Contains(cls, "bullet") then Some(Ul) else FirstMatch(r[1..], cls);
  }

  /** 'bullet'/'list' is tested before 'ordered': a class name with both
      markers is an unordered item, and an ordered item never has 'list'. */
  lemma ListBeforeOrdered(cls: string, img: Option<string>)
    ensures IdentifyType(cls, img) == Some(TypeInfo(Ol, 0, None)) ==>
      Contains(cls, "ordered") && !Contains(cls, "list") && !Contains(cls, "bullet")
  {
  }

  // ---------------------------------------------------------------------
  // Ace editor: the rules inside extractAceLines

  /** The type of an ace line: 'heading-h' followed by a digit gives a
      heading of that level, then 'list-' (ordered when 'ordered' occurs
      too), 'quote', 'gallery' (an image with the address of its `img`,
      `None` without one), and 'p' otherwise. */
  function AceType(cls: string, img: Option<string>): (r: TypeInfo)
    ensures r.kind != Divider
    ensures r.kind == Heading <==> FirstDigitAfter(cls, "heading-h").Some?
    ensures r.kind == Heading ==> r.level == FirstDigitAfter(cls, "heading-h").value && r.level <= 9
    ensures r.kind != Heading ==> r.level == 0
    ensures r.kind == Image ==> r.src == img
    ensures r.kind != Image ==> r.src.None?
    ensures r.kind == Ol ==> Contains(cls, "list-") && Contains(cls, "ordered")
  {
    var heading := FirstDigitAfter(cls, "heading-h");
    if heading.Some? then TypeInfo(Heading, heading.value, None)
    else if Contains(cls, "list-") then
      TypeInfo(if Contains(cls, "ordered") then Ol else Ul, 0, None)
    else if Contains(cls, "quote") then TypeInfo(Quote, 0, None)
    else if Contains(cls, "gallery") then TypeInfo(Image, 0, img)
    else TypeInfo(P, 0, None)
  }

  /** The ace rules after the heading test, as a first-match rule list. */
  const AceRules: Rules := [("list-", Ul), ("quote", Quote), ("gallery", Image)]

  lemma AceTypeByRules(cls: string, img: Option<string>)
    requires FirstDigitAfter(cls, "heading-h").None?
    ensures FirstMatch(AceRules, cls).None? ==> AceType(cls, img) == TypeInfo(P, 0, None)
    ensures FirstMatch(AceRules, cls) == Some(Ul) ==>
      AceType(cls, img).kind == (if Contains(cls, "ordered") then Ol else Ul)
    ensures FirstMatch(AceRules, cls) == Some(Quote) ==> AceType(cls, img) == TypeInfo(Quote, 0, None)
    ensures FirstMatch(AceRules, cls) == Some(Image) ==> AceType(cls, img) == TypeInfo(Image, 0, img)
  {
    var r := AceRules;
    assert r[1..] == [("quote", Quote), ("gallery", Image)];
    assert r[1..][1..] == [("gallery", Image)];
    assert r[1..][1..][1..] == [];
    assert FirstMatch(r[1..][1..], cls) == if Contains(cls, "gallery") then Some(Image) else None;
    assert FirstMatch(r[1..], cls) == if Contains(cls, "quote") then Some(Quote) else FirstMatch(r[1..][1..], cls);
    assert FirstMatch(r, cls) == if Contains(cls, "list-") then Some(Ul) else FirstMatch(r[1..], cls);
  }

  // ---------------------------------------------------------------------
  // Garbage filter

  /** `GARBAGE_TEXTS`: interface text of the document page that is never
      document content. */
  const GarbageTexts: seq<string> := [
    "本文暂未被其它文档引用",
    "本文被以下文档引用",
    "No references to this document",
    "References to this document",
    "添加评论",
    "分享",
    "复制链接"
  ]

  /** `isGarbageContent(text)`: some denylisted phrase occurs in `text`
      (empty text is never garbage). */
  predicate IsGarbageContent(text: string) {
    text != "" && exists g | g in GarbageTexts :: Contains(text, g)
  }

  /** The filter is a substring test: garbage exactly when some phrase
      occurs at some position. */
  lemma GarbageIffOccurs(text: string)
    ensures IsGarbageContent(text) <==> exists g, i :: g in GarbageTexts && OccursAt(text, g, i)
  {
    forall g | g in GarbageTexts ensures Contains(text, g) <==> exists i :: OccursAt(text, g, i) {
      ContainsIff(text, g);
    }
    if exists g, i :: g in GarbageTexts && OccursAt(text, g, i) {
      var g, i :| g in GarbageTexts && OccursAt(text, g, i);
      assert |g| > 0;
      assert text != "";
    }
  }

  /** Each denylisted phrase on its own is garbage, and so is any text that
      contains garbage. */
  lemma GarbageClosedUnderExtension(a: string, text: string, b: string)
    requires IsGarbageContent(text)
    ensures IsGarbageContent(a + text + b)
  {
    var g :| g in GarbageTexts && Contains(text, g);
    ContainsInfix(a, text, b, g);
  }

  lemma GarbagePhrases()
    ensures forall g | g in GarbageTexts :: IsGarbageContent(g)
  {
    forall g | g in GarbageTexts ensures IsGarbageContent(g) {
      ContainsSelf(g);
    }
  }
}
