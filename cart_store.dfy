/**
 * The cart as it lives in the browser's local storage under the key "cart":
 * the raw entries that pages append, the canonical line item the cart page
 * writes back, and what the stored value can be.
 */
module CartStore {
  import opened Wrappers

  /** A raw `title`: absent (or `null`), a plain string, or an object `{ value }`. */
  datatype RawTitle = NoTitle | TitleText(text: string) | TitleObject(value: string)

  /**
   * A raw price field: a JSON number, or any other JSON value, given by the
   * text `String(value)` makes of it (a string as it is, `null` as "null").
   */
  datatype RawPrice = PriceNumber(amount: real) | PriceText(text: string)

  /**
   * A stored entry as read back. `None` is an absent field; for `id`,
   * `field_brands_name` and `field_course_image_url` a `null` reads the same
   * way. A `null` price is present: it is `Some(PriceText("null"))`.
   */
  datatype RawItem = RawItem(
    id: Option<string>,
    nid: string,
    title: RawTitle,
    brandName: Option<string>,     // field_brands_name
    imageUrl: Option<string>,      // field_course_image_url when it is a string
    coursePrice: Option<RawPrice>, // field_course_price
    price: Option<RawPrice>)

  /** The canonical line item; `imageUrl == None` is the stored `null`. */
  datatype CartItem = CartItem(
    id: string,
    nid: string,
    title: string,
    brandName: string,
    imageUrl: Option<string>,
    price: real)

  /**
   * The value under the "cart" key: nothing (or the empty string), text that
   * does not parse as an array of entries, or the parsed entries.
   */
  datatype StoredCart = Absent | Unparseable | Saved(entries: seq<RawItem>)

  /** A canonical item after `JSON.stringify` and `JSON.parse`. */
  function ToRaw(c: CartItem): RawItem {
    RawItem(Some(c.id), c.nid, TitleText(c.title), Some(c.brandName), c.imageUrl, None, Some(PriceNumber(c.price)))
  }

  /** The entries a page reads back after writing `items`. */
  function Serialize(items: seq<CartItem>): (entries: seq<RawItem>)
    ensures |entries| == |items|
  {
    seq(|items|, i requires 0 <= i < |items| => ToRaw(items[i]))
  }
}
