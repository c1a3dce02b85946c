/**
 * The document elements of a whiteboard room: the values that the server
 * stores in a room's stroke list and that the client draws and erases.
 */
module Drawables {
  import opened Wrappers

  /**
   * One straight piece of ink. `color` and `lineWidth` are optional because
   * an object spread with an absent property sets them to `undefined`;
   * `roundCap` records the `lineCap = 'round'` the eraser puts on the first
   * segment of each piece it produces.
   */
  datatype Segment = Segment(
    x0: real, y0: real, x1: real, y1: real,
    color: Option<string>, lineWidth: Option<real>, roundCap: bool)

  /**
   * A drawable, as a closed tagged union. A freehand stroke is a bare array of
   * segments on the wire: it has no id, colour or width of its own. Rectangles
   * and circles are created without an id; lines and text carry one.
   */
  datatype Drawable =
    | Freehand(segs: seq<Segment>)
    | Rect(x: real, y: real, width: real, height: real, color: string, lineWidth: real)
    | Circle(cx: real, cy: real, rx: real, ry: real, color: string, lineWidth: real)
    | Line(id: string, lx0: real, ly0: real, lx1: real, ly1: real, color: string, lineWidth: real)
    | Text(id: string, x: real, y: real, value: string, color: string, fontSize: real)

  /** The colour and width the eraser copies onto every segment of a split piece. */
  datatype Style = Style(color: Option<string>, lineWidth: Option<real>)

  /** The `id` property of a drawable; `None` where the object has none. */
  function IdOf(d: Drawable): Option<string>
  {
    match d
    case Line(id, _, _, _, _, _, _) => Some(id)
    case Text(id, _, _, _, _, _) => Some(id)
    case _ => None
  }
}
