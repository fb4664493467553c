/** The `convert_and_copy` message handler of content.js: collect, check
    for an empty result, convert images, render, copy, and answer with the
    block count or an error message. */
module Pipeline {

  import opened Wrappers
  import opened Strings
  import opened Blocks
  import opened Store
  import opened Scroll
  import opened Render
  import opened Images
  import opened Styles

  const ConvertAction: string := "convert_and_copy"

  /** The message the handler answers an empty collection with. */
  const EmptyMessage: string := "未提取到内容，请确保页面已完全加载"

  /** The handler's answer: none for other actions, the number of blocks
      copied, or an error message. */
  datatype Response = NoResponse | Success(count: nat) | Failure(msg: string)

  /** The blocks a run collects, in first-seen order. */
  function CollectedBlocks(page: Page, initTop: int, view: int -> Snapshot): seq<Block>
    requires CanScan(MainContainer(page).element)
  {
    var ps := ScrollPlan(MainContainer(page).element, initTop);
    GatheredIsCollectAll(view, ps);
    CollectAllValid(EmptyPool, Views(view, ps));
    Values(CollectedPool(page, initTop, view))
  }

  /** The content script's module state: the style table `WX_STYLES` and
      the block store `CONTENT_POOL`. */
  class ContentScript {
    const styles: StyleTable
    const pool: BlockStore

    constructor ()
      ensures styles == WxStyles && pool.State() == EmptyPool && fresh(pool)
    {
      styles := WxStyles;
      pool := new BlockStore();
    }

    /** The message listener for one message. `clipboard` is the HTML
        placed on the clipboard, `None` when nothing is copied. */
    method HandleMessage(action: string, page: Page, initTop: int,
                         view: int -> Snapshot, convert: Converter)
      returns (response: Response, clipboard: Option<string>)
      requires action == ConvertAction ==> CanScan(MainContainer(page).element)
      modifies pool
      ensures action != ConvertAction ==> response == NoResponse && clipboard.None? && pool.State() == old(pool.State())
      ensures action == ConvertAction ==> pool.State() == CollectedPool(page, initTop, view)
      ensures action == ConvertAction && |CollectedBlocks(page, initTop, view)| == 0 ==>
        response == Failure(EmptyMessage) && clipboard.None?
      ensures action == ConvertAction && |CollectedBlocks(page, initTop, view)| > 0 ==>
        response == Success(|CollectedBlocks(page, initTop, view)|)
        && clipboard == Some(RenderSpec(styles, ProcessedAll(CollectedBlocks(page, initTop, view), convert)))
    {
      if action != ConvertAction {
        return NoResponse, None;
      }
      var blockData, _, _, _ := ScrollAndCollect(pool, page, initTop, view);
      if |blockData| == 0 {
        return Failure(EmptyMessage), None;
      }
      var blocks := new Block[|blockData|](i requires 0 <= i < |blockData| => blockData[i]);
      assert blocks[..] == blockData;
      ProcessImages(blocks, convert);
      var html := RenderToHtml(styles, blocks);
      response := Success(blocks.Length);
      clipboard := Some(html);
    }
  }

  /** Converting images never adds nor drops a block's markup: an image
      shows exactly when it did before, and every other block is rendered
      as it was. */
  lemma ConversionKeepsRendering(st: StyleTable, b: Block, convert: Converter)
    ensures Renders(Converted(b, convert)) == Renders(b)
    ensures b.kind != Image ==> BlockHtml(st, Converted(b, convert)) == BlockHtml(st, b)
  {
  }

  /** Every collected block shows up on the clipboard: its text, or for an
      image the address it has after conversion. */
  lemma ClipboardShowsEveryBlock(st: StyleTable, page: Page, initTop: int, view: int -> Snapshot, convert: Converter, i: nat)
    requires CanScan(MainContainer(page).element)
    requires i < |CollectedBlocks(page, initTop, view)|
    ensures Contains(RenderSpec(st, ProcessedAll(CollectedBlocks(page, initTop, view), convert)),
                     Shown(Converted(CollectedBlocks(page, initTop, view)[i], convert)))
  {
    var bs := ProcessedAll(CollectedBlocks(page, initTop, view), convert);
    RenderShowsEveryBlock(st, bs, i);
  }
}
