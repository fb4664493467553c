/** The `WX_STYLES` table of content.js: one inline style string per slot.
    The renderer is stated for any table of this shape and is given
    `WxStyles`; the flattener of inline markup uses the last three slots
    directly. */
module Styles {

  /** The slots of `WX_STYLES`, under the source's key names. */
  datatype StyleTable = StyleTable(
    container: string,
    h1: string, h2: string, h3: string,
    p: string, quote: string, code: string, callout: string, image: string,
    ulItem: string, ulBullet: string, olItem: string, olNum: string,
    link: string, bold: string, inlineCode: string)

  const Link: string := "color: #576b95; text-decoration: none; border-bottom: 1px dashed #576b95;"
  const Bold: string := "font-weight: bold; color: #000;"
  const InlineCode: string := "background: #f0f0f0; padding: 2px 5px; border-radius: 3px; font-family: monospace; color: #d63384; font-size: 14px;"

  /** `WX_STYLES` itself. */
  const WxStyles: StyleTable := StyleTable(
    container := "font-family: -apple-system, BlinkMacSystemFont, 'Helvetica Neue', 'PingFang SC', 'Hiragino Sans GB', 'Microsoft YaHei', Arial, sans-serif; font-size: 16px; line-height: 1.8; color: #333; letter-spacing: 0.05em; padding: 20px 10px;",
    h1 := "font-size: 24px; font-weight: bold; color: #000; margin: 30px 0 16px 0; text-align: center;",
    h2 := "font-size: 20px; font-weight: bold; color: #00d6b9; margin: 24px 0 14px 0; padding-bottom: 5px; border-bottom: 2px solid #00d6b9; display: inline-block;",
    h3 := "font-size: 17px; font-weight: bold; color: #333; margin: 20px 0 10px 0; padding-left: 8px; border-left: 4px solid #00d6b9;",
    p := "margin-bottom: 16px; text-align: justify; word-break: break-all;",
    quote := "margin: 20px 0; padding: 15px; background: #f7f7f7; border: none; border-left: 5px solid #d0d0d0; color: #666; font-size: 15px; border-radius: 4px;",
    code := "margin: 16px 0; padding: 15px; background: #f5f5f5; color: #333; font-family: monospace; font-size: 14px; line-height: 1.5; border-radius: 4px; overflow-x: auto; white-space: pre-wrap;",
    callout := "margin: 20px 0; padding: 15px; background: #e8f4ff; border: 1px solid #4a90d9; border-radius: 4px; color: #333;",
    image := "max-width: 100%; height: auto; border-radius: 6px; box-shadow: 0 2px 8px rgba(0,0,0,0.1); display: block; margin: 20px auto;",
    ulItem := "margin-bottom: 10px; display: flex; align-items: flex-start;",
    ulBullet := "display: inline-block; width: 6px; height: 6px; background: #00d6b9; border-radius: 50%; margin-right: 10px; flex-shrink: 0; margin-top: 11px;",
    olItem := "margin-bottom: 10px; display: flex; align-items: flex-start;",
    olNum := "margin-right: 8px; color: #00d6b9; font-weight: bold; font-family: sans-serif; flex-shrink: 0; margin-top: 0px;",
    link := Link, bold := Bold, inlineCode := InlineCode)

  /** The style of the content cell inside a list item, written into the
      list-item templates rather than taken from the table. */
  const ListSection: string := "flex:1; margin:0; padding:0; min-width:0;"
}
