/** `processImages`: replaces the address of each image block by the data
    URL its content converts to. The conversion itself (`urlToBase64`, a
    CORS `fetch` read back as a data URL, `null` on failure) is a
    parameter. */
module Images {

  import opened Wrappers
  import opened Blocks

  /** The conversion of `url` to a data URL: `None` for `null`. */
  type Converter = string -> Option<string>

  /** One block after conversion: an image with a truthy address takes the
      converted address when the conversion gives a truthy one; every other
      block, and every other field, stays as it was. */
  function Converted(b: Block, convert: Converter): (r: Block)
    ensures r.id == b.id && r.kind == b.kind && r.level == b.level
      && r.content == b.content && r.index == b.index
    ensures !(b.kind == Image && Truthy(b.src)) ==> r == b
    ensures r.src != b.src ==>
      b.kind == Image && Truthy(b.src) && r.src == convert(b.src.value) && Truthy(r.src)
    ensures Truthy(r.src) <==> Truthy(b.src)
    ensures b.kind == Image && Truthy(b.src) && Truthy(convert(b.src.value)) ==> r.src == convert(b.src.value)
  {
    if b.kind == Image && Truthy(b.src) then
      var base64 := convert(b.src.value);
      if Truthy(base64) then b.(src := base64) else b
    else b
  }

  /** The blocks after conversion, in the same order. */
  function ProcessedAll(bs: seq<Block>, convert: Converter): (r: seq<Block>)
    ensures |r| == |bs| && forall i {:trigger r[i]} :: 0 <= i < |bs| ==> r[i] == Converted(bs[i], convert)
  {
    seq(|bs|, i requires 0 <= i < |bs| => Converted(bs[i], convert))
  }

  /** `processImages(blocks)`: converts every image block in place. The
      source starts one conversion per block and waits for all of them;
      each task touches only its own block, so they are taken one after
      another here. */
  method ProcessImages(blocks: array<Block>, convert: Converter)
    modifies blocks
    ensures blocks[..] == ProcessedAll(old(blocks[..]), convert)
  {
    ghost var bs := blocks[..];
    for i := 0 to blocks.Length
      invariant blocks[..i] == ProcessedAll(bs, convert)[..i]
      invariant blocks[i..] == bs[i..]
    {
      var block := blocks[i];
      assert block == bs[i] by {
        assert blocks[i..][0] == bs[i..][0];
      }
      if block.kind == Image && Truthy(block.src) {
        var base64 := convert(block.src.value);
        if Truthy(base64) {
          blocks[i] := block.(src := base64);
        }
      }
      assert blocks[..i + 1] == blocks[..i] + [blocks[i]];
      assert blocks[i + 1..] == bs[i + 1..];
    }
    assert blocks[..] == blocks[..blocks.Length];
  }
}
