/**
 * Row-major pixel grids: every image stores its `width * height` pixels in
 * one buffer, pixel (h, w) at index `h * width + w`.
 */
module Grid {

  lemma {:induction false} MulLe(a: nat, b: nat, c: nat)
    requires a <= b
    ensures a * c <= b * c
  {
    if a < b {
      MulLe(a, b - 1, c);
    }
  }

  /** The buffer index of pixel (h, w) in a grid W pixels wide and H high. */
  function Idx(W: nat, H: nat, h: nat, w: nat): (i: nat)
    requires h < H && w < W
    ensures i < W * H
    ensures i / W == h && i % W == w
  {
    MulLe(h + 1, H, W);
    DivModUnique(W, h, w);
    h * W + w
  }

  lemma DivModUnique(W: nat, h: nat, w: nat)
    requires w < W
    ensures (h * W + w) / W == h && (h * W + w) % W == w
  {
    var i := h * W + w;
    var q, r := i / W, i % W;
    assert i == q * W + r;
    if q < h {
      MulLe(q + 1, h, W);
    } else if q > h {
      MulLe(h + 1, q, W);
    }
  }

  /** Every buffer index is the index of exactly the pixel its quotient and remainder name. */
  lemma IdxCover(W: nat, H: nat, i: nat)
    requires i < W * H
    ensures W > 0 && i / W < H && i % W < W
    ensures Idx(W, H, i / W, i % W) == i
  {
    if i / W >= H {
      MulLe(H, i / W, W);
    }
  }

  /** Two grids that agree pixel by pixel are the same buffer contents. */
  lemma GridExt<T>(W: nat, H: nat, a: seq<T>, b: seq<T>)
    requires |a| == W * H && |b| == W * H
    requires forall h, w | 0 <= h < H && 0 <= w < W :: a[Idx(W, H, h, w)] == b[Idx(W, H, h, w)]
    ensures a == b
  {
    forall i | 0 <= i < |a|
      ensures a[i] == b[i]
    {
      IdxCover(W, H, i);
    }
  }
}
