# imagedisplay: Hilbert curve and pixel buffer, in Dafny

imagedisplay reads a binary file and turns it into a pixel grid, three bytes
per RGB colour and a chosen number of pixels per row. It can reorder the
pixels along a Hilbert space-filling curve (`hilbertify`) or undo that
ordering (`unhilbertify`), and it then either shows the grid in a window or
writes the bytes back to a file. This project models the core of that
program, src/main.rs:

- `HilbertCurve`, in `hilbert.dfy`, module `Hilbert`. The curve maps an
  index in [0, 4^order) to a point of the 2^order by 2^order grid and back.
  `new` derives the order from a side length, `rotate` reflects or swaps a
  point inside a sub-square, and `value_to_point` and `point_to_value` are
  the two loops. Both loops are proved equal to recursive definitions on
  the order (`CurvePoint`, `CurveIndex`). Those definitions are proved
  inverse to each other in both directions.
- `Image`, in `pixels.dfy`, module `Pixels`. It has a row-major buffer of
  colours with a width and a height.
  - `parse` trims the input bytes, chunks them into colours and pads the
    last row with a fill colour.
  - `save` flattens the colours back into bytes.
  - `remap_positions` scatters the buffer through an index map.
  - `hilbertify` and `unhilbertify` are that scatter through the two curve
    maps.
  - `to_index_assoc` and `index_to_pos_assoc` convert between positions
    and row-major indices.
- `arith.dfy` (module `Arith`) holds division and remainder facts over the
  natural numbers. `outcomes.dfy` (module `Outcomes`) holds the error kinds
  and the `Result`/`Outcome` wrappers.

Failures that the source signals by panicking are modelled as follows:
- The slice of `parse` panics when the trims are longer than the file. The
  model returns `Err(InvalidRange)`.
- `parse` divides by the width. A width of 0 is excluded by its precondition.
- The `assert_eq!(width, height)` of `hilbertify` and `unhilbertify` panics
  on a grid that is not square. The model returns `Fail(InvalidDimensions)`
  and leaves the buffer alone.
- The out-of-bounds write of `remap_positions` is excluded by its
  precondition.
- The panics that cannot fire are `assert false` in dead branches. These are
  the `total < len` check in `parse` and the `current != 0` check in `new`.

`HilbertCurve::new` as written accepts every size of at least one and uses
the order floor(log2 size). The panic message `size must be a power of 2`
(src/main.rs:276-279) shows that such sizes were meant to be rejected, but
the halving loop always ends with `current == 0`, so that check is never
reached. `Hilbert.New` follows the code.
The curve passes of `Image` use `Hilbert.NewChecked`, which performs the
intended check (see Findings).

## Model

| member | source | states |
|---|---|---|
| Hilbert.Rotate | src/main.rs:284-298 | rotating a point of the square of side `value` leaves it inside that square |
| Hilbert.RotateInvolution | src/main.rs:284-298 | rotating twice with the same check gives the point back |
| Hilbert.DigitCheck | src/main.rs:325-326 | the two bits `rx = (v/2) & 1`, `ry = (v ^ rx) & 1` are each 0 or 1 |
| Hilbert.QuadrantTable | src/main.rs:309-315 | the digit `(3*rx) ^ ry` of a pair of bits is below 4, and the bit pair `value_to_point` reads from that digit is the same pair |
| Hilbert.DigitTable | src/main.rs:325-326 | each base-4 digit is recovered as `(3*rx) ^ ry` from the bits `value_to_point` takes from it: the two digit encodings are inverse |
| Hilbert.DigitCheckLowDigit | src/main.rs:325-326 | the bits read from the running value depend only on its lowest base-4 digit |
| Hilbert.TopBit | src/main.rs:309-310 | for a coordinate below `2^(b+1)`, the test `(x & 2^b) > 0` gives its top bit, which is 0 or 1, and the coordinate is that bit times `2^b` plus its lower bits |
| Hilbert.CurvePoint | src/main.rs:318-338 | the point of an index below `4^order` lies on the `2^order` grid |
| Hilbert.CurveIndex | src/main.rs:301-316 | the index of a point of the `2^order` grid is below `4^order` |
| Hilbert.Log2 | src/main.rs:262-282 | the order is the floor of log2: `2^order <= n < 2^(order+1)` |
| Hilbert.New | src/main.rs:262-282 | the halving loop yields `Log2(size)`, the exponent of the largest power of two not above the size; every size of at least 1 is accepted |
| Hilbert.NewChecked | src/main.rs:262-282 | succeeds exactly when the size is a power of two, with `2^order == size`; otherwise fails with `InvalidDimensions` |
| Hilbert.PowerOfTwoOrder | src/main.rs:262-282 | for `n == 2^k` the computed order is exactly `k` |
| Hilbert.PowerOfTwoLog | src/main.rs:262-282 | a power of two is positive and equals 2 to its computed order |
| Hilbert.ValueToPoint | src/main.rs:318-338 | the loop over `s = 2^k`, k ascending, returns `CurvePoint` of the index modulo `4^order`, a point on the grid |
| Hilbert.ValuePointStep | src/main.rs:320-336 | one iteration extends the point of the low `2k` bits of the index to the point of its low `2k+2` bits, and the running value divided by 4 is the index divided by `4^(k+1)` |
| Hilbert.PointToValue | src/main.rs:301-316 | the loop over `s = 2^k`, k descending, with reflection in the full side `n`, returns `CurveIndex` of the point, below `4^order` |
| Hilbert.PointValueStep | src/main.rs:305-315 | one iteration, rotating in `n = 2^order`, adds the same digit and leaves the same rest as one level of `CurveIndex` on the low bits |
| Hilbert.RotateMod | src/main.rs:284-298 | reflecting inside a multiple `n` of `s` and then taking remainders modulo `s` is reflecting inside `s` |
| Hilbert.LowBitsKeep | src/main.rs:309-310 | dropping the bits from `k` up keeps bit `k-1` and all bits below it |
| Hilbert.PointOfIndexRoundTrip | src/main.rs:383-397 | `point_to_value(value_to_point(i)) == i` for every `i < 4^order` and every order |
| Hilbert.IndexOfPointRoundTrip | src/main.rs:301-338 | `value_to_point(point_to_value(p)) == p` for every point of the grid |
| Pixels.Chunks | src/main.rs:114-123 | ceil(n/3) colours; channel `c` of colour `k` is byte `3k+c` when present, else the fill colour's channel |
| Pixels.CeilDiv | src/main.rs:125-136 | the height is the least `h` with `h * width >= len` |
| Pixels.Flatten | src/main.rs:157-160 | three bytes per colour; byte `i` is channel `i % 3` of colour `i / 3` |
| Pixels.SaveRestoresTrimmedBytes | src/main.rs:104-163 | saving what was parsed starts with exactly the trimmed input bytes, whatever the padding |
| Pixels.IndexToPosAssoc | src/main.rs:219-225 | the column is below the width and `to_index_assoc` of the position is the index |
| Pixels.PosIndexRoundTrip | src/main.rs:214-225 | a position with `x < width` converts to an index and back unchanged |
| Pixels.GridIndexBound | src/main.rs:214-217 | a position of the `size` by `size` grid has its index inside the grid |
| Pixels.GridRowBound | src/main.rs:219-225 | an index of the `size` by `size` grid lies in one of its rows |
| Pixels.UnhilbertTarget | src/main.rs:169-177 | the target of every index under `unhilbertify` lies inside the grid |
| Pixels.HilbertTarget | src/main.rs:184-192 | the target of every cell under `hilbertify` lies inside the grid |
| Pixels.TargetsInverse | src/main.rs:165-193 | on a power-of-two square the two index maps are inverse in both directions |
| Pixels.Scatter | src/main.rs:195-207 | the scattered buffer keeps the length of the original |
| Pixels.ScatterLastWrite | src/main.rs:195-207 | position `f(i)` ends up holding element `i` when no later element is written to it |
| Pixels.ScatterKeeps | src/main.rs:195-207 | a position that no element is written to keeps the value of the copied buffer |
| Pixels.ScatterPlaces | src/main.rs:195-207 | under an injective map every element ends at its own target |
| Pixels.Image.Parse | src/main.rs:104-153 | `InvalidRange` exactly when the trims exceed the input; otherwise the width is kept, the height is the ceiling of pixels/width, the buffer is the chunked colours followed by fill padding, and saving it gives back the trimmed bytes first |
| Pixels.Image.Save | src/main.rs:155-163 | three bytes per pixel, channel by channel in buffer order |
| Pixels.Image.ToIndex | src/main.rs:209-212 | the index of a position inside a row converts back to that position |
| Pixels.Image.RemapPositions | src/main.rs:195-207 | the new buffer is the old one scattered through `f`; width and height are unchanged |
| Pixels.Image.Hilbertify | src/main.rs:180-193 | fails with `InvalidDimensions` and leaves the buffer alone unless the grid is a power-of-two square; otherwise moves every pixel `i` to `point_to_value` of its position |
| Pixels.Image.Unhilbertify | src/main.rs:165-178 | fails with `InvalidDimensions` and leaves the buffer alone unless the grid is a power-of-two square; otherwise moves the pixel at index `i` to the row-major index of `value_to_point(i)` |
| Pixels.UnhilbertifyThenHilbertify | src/main.rs:165-193 | `unhilbertify` then `hilbertify`, as `main` and then `resave` run them, restores every pixel |
| Pixels.HilbertifyThenUnhilbertify | src/main.rs:165-193 | `hilbertify` then `unhilbertify` restores every pixel |
| Pixels.UnhilbertifyThenHilbertifyImage | src/main.rs:165-193 | on one `Image`, `unhilbertify` then `hilbertify` pass exactly on a power-of-two square and leave the buffer, width and height as they were |
| Pixels.HilbertifyThenUnhilbertifyImage | src/main.rs:165-193 | on one `Image`, `hilbertify` then `unhilbertify` pass exactly on a power-of-two square and leave the buffer, width and height as they were |
| Pixels.SixBySixUnhilbertifyCollides | src/main.rs:262-282 | as written, size 6 is accepted with order 2, although 6 is not a power of two, and unhilbertify sends pixels 0 and 16 to the same cell |

## Left out

- The window (`DrawerWindow`, src/main.rs:33-93) and its event loop are display glue over SDL.
- `fs::read` and `fs::write` are left out. `Parse` starts from the bytes read, and `Save` yields the bytes to write.
- The `eprintln!` of the pixel count is left out.
- `complain` and process exit are left out.
- `main`, `resave` and the command-line `Config` are left out. Only their call order appears, in `Pixels.UnhilbertifyThenHilbertify`.
- The `Index`/`IndexMut` implementations of `Image` and the SDL `Color` type are not part of this model. Colours are three channels of 0..255.
- `usize` overflow is not modelled; all integers are unbounded. `Pixels.Image.Parse` does not model an overflowing `width * height`.
- `Pixels.Image.RemapPositions` takes the `FnMut` closure as a pure partial function `nat --> nat`. The source's closures keep no state.
- `Hilbert.PointToValue` requires a point on the grid. The source also computes a value for some points off the grid when no reflection underflows; that value is not modelled.
- `Pixels.Image.Hilbertify` rejects a square whose side is not a power of two. The code as written goes on with order floor(log2 side). There a point beyond `2^order` reaches the reflection `n - 1 - y` of `rotate`, which can underflow. This path is not modelled.
- `Pixels.Image.Unhilbertify` rejects a square whose side is not a power of two. The code as written goes on with order floor(log2 side) and overwrites pixels. Only `Pixels.SixBySixUnhilbertifyCollides` captures that behaviour.

## Findings

| source | as written | input that shows it | evidently intended | confidence | as-written member | corrected member |
|---|---|---|---|---|---|---|
| src/main.rs:262-282 | `new` halves `current` down to 0 and only then checks `current != 0`, which is always false. So every size of at least 1 is accepted, with order floor(log2 size) | size 6 gives order 2; `unhilbertify` on a 6 by 6 image then sends pixels 0 and 16 to the same cell | reject a size that is not a power of two | not executed | Hilbert.New; Pixels.SixBySixUnhilbertifyCollides | Hilbert.NewChecked |
