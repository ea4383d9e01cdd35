/**
 * The few pieces of the browser's document model the HUD reads and writes: an element
 * attribute, an inline style value and a bounding box. Pixels are real numbers.
 */
module Dom {
  /** An element attribute: absent (`getAttribute` gives null) or present with a value. */
  datatype Attr = Absent | Value(s: string)

  /** An inline style property: unset (""), "auto", "absolute", or a length in pixels. */
  datatype Css = Unset | Auto | Absolute | Px(v: real)

  /** What `getBoundingClientRect` reports that the HUD uses. */
  datatype Rect = Rect(left: real, top: real, width: real)

  /** The horizontal centre of a box: `left + width / 2`. */
  function CenterX(r: Rect): real {
    r.left + r.width / 2.0
  }

  function Abs(x: real): (r: real)
    ensures r >= 0.0 && (r == x || r == -x)
  {
    if x < 0.0 then -x else x
  }
}
