/**
 The paste position of `resize_and_pad` in the shorts video generator.

 The resized image is pasted onto a canvas of the target size at
 `((tw - nw) // 2, (th - nh) // 2)`. The resized size is taken as an input:
 its floating-point derivation from the scale factor is not modelled.
 Python's `//` rounds towards negative infinity; Dafny's `/` is Euclidean,
 which for the positive divisor 2 is the same floor division, also when the
 resized image is larger than the canvas and the numerator is negative.
 */
module Compositor {

  datatype Size = Size(width: int, height: int)

  /** Top-left corner of the pasted image, in canvas coordinates. */
  datatype Position = Position(x: int, y: int)

  /** The offset that centres a span of length `scaled` on a span of length
      `target`. The pasted span's middle lies on the canvas's middle, or half
      a pixel before it when the two lengths differ in parity. A span at least
      as long as the target covers it, overhanging the near side by as much as
      the far side or one pixel more. A shorter span leaves a near margin of
      the floor and a far margin of the ceiling of half the spare length. */
  function CentreOffset(target: int, scaled: int): (offset: int)
    ensures target - 1 <= 2 * offset + scaled <= target
    ensures scaled == target ==> offset == 0
    ensures scaled >= target ==>
              var cutBefore, cutAfter := -offset, offset + scaled - target;
              && offset <= 0
              && offset + scaled >= target
              && 0 <= cutBefore - cutAfter <= 1
    ensures scaled <= target ==>
              var before, after := offset, target - (offset + scaled);
              && 0 <= before
              && 0 <= after
              && before + after == target - scaled
              && 2 * before <= target - scaled <= 2 * before + 1
              && target - scaled <= 2 * after <= target - scaled + 1
              && 0 <= after - before <= 1
  {
    (target - scaled) / 2
  }

  /** Canvas pixel (x, y) lies under an image of size `scaled` pasted at `p`. */
  predicate Covered(p: Position, scaled: Size, x: int, y: int) {
    p.x <= x < p.x + scaled.width && p.y <= y < p.y + scaled.height
  }

  /** The position at which `resize_and_pad` pastes the resized image. An
      image of exactly the target size goes to the origin; one at least as
      large as the canvas on both axes covers every canvas pixel, so no black
      padding remains; one no larger than the canvas lies wholly on it, with
      opposite margins differing by at most one pixel. */
  function PastePosition(target: Size, scaled: Size): (p: Position)
    ensures target.width - 1 <= 2 * p.x + scaled.width <= target.width
    ensures target.height - 1 <= 2 * p.y + scaled.height <= target.height
    ensures scaled == target ==> p == Position(0, 0)
    ensures scaled.width >= target.width && scaled.height >= target.height ==>
              forall x, y :: 0 <= x < target.width && 0 <= y < target.height ==> Covered(p, scaled, x, y)
    ensures scaled.width <= target.width && scaled.height <= target.height ==>
              && 0 <= p.x && p.x + scaled.width <= target.width
              && 0 <= p.y && p.y + scaled.height <= target.height
              && 0 <= (target.width - (p.x + scaled.width)) - p.x <= 1
              && 0 <= (target.height - (p.y + scaled.height)) - p.y <= 1
  {
    Position(CentreOffset(target.width, scaled.width), CentreOffset(target.height, scaled.height))
  }
}
