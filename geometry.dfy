/**
 * The plain value types of `utils.rs`. The source's `u32` fields are modelled
 * as `nat`; every subtraction that could wrap is guarded where it is used.
 */
module Geometry {
  /** An axis-aligned rectangle on the screen. */
  datatype Rectangle = Rectangle(x: nat, y: nat, width: nat, height: nat)

  /** Space reserved by a dock at each edge of a screen (a strut). */
  datatype Reserved = Reserved(left: nat, right: nat, bottom: nat, top: nat)

  /** What the display server reports about one screen; `id` is a `u8`. */
  datatype ScreenInfo = ScreenInfo(id: nat, width: nat, height: nat)
}
