/** The block record that content.js stores in `CONTENT_POOL` and hands to
    `processImages` and `renderToHtml`. */
module Blocks {

  import opened Wrappers

  /** The `type` strings of content.js: 'heading', 'p', 'ul', 'ol', 'quote',
      'callout', 'code', 'image' and 'divider'. */
  datatype BlockType = Heading | P | Ul | Ol | Quote | Callout | Code | Image | Divider

  /** One extracted block. `level` is the heading level (0 where content.js
      leaves it undefined or sets 0); `src` is the image address (`None` for
      `undefined` and `null`); `index` is the ordinal that the renderer
      writes onto `ol` blocks (`None` until then). */
  datatype Block = Block(
    id: string,
    kind: BlockType,
    level: nat,
    content: string,
    src: Option<string>,
    index: Option<nat>)

  /** JavaScript truthiness of an optional string: present and non-empty. */
  predicate Truthy(s: Option<string>) {
    s.Some? && s.value != ""
  }
}
