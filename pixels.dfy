/**
 * The `Image` of src/main.rs: a row-major buffer of colours built from a byte
 * stream, written back as bytes, and reordered along the Hilbert curve.
 *
 * Reading the file and writing it are not part of the model: `Parse` starts
 * from the bytes `fs::read` returned and `Save` yields the bytes `fs::write`
 * is given.
 */
module Pixels {
  import opened Outcomes
  import opened Arith
  import opened Hilbert

  type byte = b: int | 0 <= b < 256

  /** An RGB colour: three independent 8-bit channels. */
  datatype Color = Color(r: byte, g: byte, b: byte)

  /** Channel 0, 1 or 2 of a colour, in the order they are stored. */
  function Channel(c: Color, i: nat): byte
    requires i < 3
  {
    if i == 0 then c.r else if i == 1 then c.g else c.b
  }

  // ---------------------------------------------------------------------
  // Bytes to colours and back

  /** The colour of one chunk of one to three bytes: red from the chunk, green
      and blue from the chunk when present, otherwise from the fill colour. */
  function ChunkColor(chunk: seq<byte>, fill: Color): Color
    requires 1 <= |chunk| <= 3
  {
    Color(chunk[0],
          if |chunk| > 1 then chunk[1] else fill.g,
          if |chunk| > 2 then chunk[2] else fill.b)
  }

  /** Channel `c` of colour `k` comes from byte `3k + c` when there is one,
      otherwise from the fill colour. */
  ghost predicate ChunkLayout(colors: seq<Color>, bytes: seq<byte>, fill: Color)
  {
    forall k, c {:trigger Channel(colors[k], c)} :: 0 <= k < |colors| && 0 <= c < 3 ==>
      Channel(colors[k], c) == if 3 * k + c < |bytes| then bytes[3 * k + c] else Channel(fill, c)
  }

  /** `chunks(3).map(...)`: one colour per three bytes, the last chunk possibly
      shorter, so there are ceil(|bytes| / 3) colours laid out as `ChunkLayout` says. */
  function Chunks(bytes: seq<byte>, fill: Color): (colors: seq<Color>)
    ensures 3 * |colors| >= |bytes| && 3 * |colors| < |bytes| + 3
    ensures ChunkLayout(colors, bytes, fill)
    decreases |bytes|
  {
    if |bytes| == 0 then []
    else
      var n := if |bytes| < 3 then |bytes| else 3;
      var rest := Chunks(bytes[n..], fill);
      ChunkLayoutCons(bytes, n, rest, fill);
      [ChunkColor(bytes[..n], fill)] + rest
  }

  /** The first chunk followed by the chunks of the rest is laid out over the
      whole input. */
  lemma ChunkLayoutCons(bytes: seq<byte>, n: nat, rest: seq<Color>, fill: Color)
    requires 1 <= n <= 3 && n <= |bytes| && (n < 3 ==> n == |bytes|)
    requires 3 * |rest| < |bytes| - n + 3
    requires ChunkLayout(rest, bytes[n..], fill)
    ensures ChunkLayout([ChunkColor(bytes[..n], fill)] + rest, bytes, fill)
  {
    var colors := [ChunkColor(bytes[..n], fill)] + rest;
    forall k, c | 0 <= k < |colors| && 0 <= c < 3
      ensures Channel(colors[k], c) == if 3 * k + c < |bytes| then bytes[3 * k + c] else Channel(fill, c)
    {
      if k > 0 {
        var tail := bytes[n..];
        assert colors[k] == rest[k - 1];
        assert n == 3;
        assert Channel(rest[k - 1], c) ==
          if 3 * (k - 1) + c < |tail| then tail[3 * (k - 1) + c] else Channel(fill, c);
        assert 3 * (k - 1) + c < |tail| <==> 3 * k + c < |bytes|;
        if 3 * k + c < |bytes| {
          assert tail[3 * (k - 1) + c] == bytes[3 * k + c];
        }
      } else {
        assert colors[0] == ChunkColor(bytes[..n], fill);
        assert c < n <==> c < |bytes|;
      }
    }
  }

  /** The ceiling division of `parse`: `l / width`, plus one when there is a
      remainder. The result is the least `h` with `h * width >= l`. */
  function CeilDiv(l: nat, width: nat): (h: nat)
    requires width > 0
    ensures h * width >= l && h * width < l + width
  {
    var value := l / width;
    DivMod(l, width);
    if l % width != 0 then value + 1 else value
  }

  /** The `flat_map` of `save`: the three channels of every colour, in order. */
  function Flatten(colors: seq<Color>): (bytes: seq<byte>)
    ensures |bytes| == 3 * |colors|
    ensures forall i :: 0 <= i < |bytes| ==> bytes[i] == Channel(colors[i / 3], i % 3)
  {
    if colors == [] then []
    else [colors[0].r, colors[0].g, colors[0].b] + Flatten(colors[1..])
  }

  /** Saving what was parsed gives back the trimmed input first: whatever
      padding follows the chunked colours, the first |slice| bytes of the
      flattened buffer are the slice. */
  lemma SaveRestoresTrimmedBytes(slice: seq<byte>, fill: Color, pad: seq<Color>)
    ensures |Flatten(Chunks(slice, fill) + pad)| >= |slice|
    ensures Flatten(Chunks(slice, fill) + pad)[..|slice|] == slice
  {
    var colors := Chunks(slice, fill);
    var out := Flatten(colors + pad);
    forall i | 0 <= i < |slice|
      ensures out[i] == slice[i]
    {
      SavedByte(slice, fill, pad, i);
    }
  }

  /** Byte `i` of the saved buffer, for `i` inside the parsed slice. */
  lemma SavedByte(slice: seq<byte>, fill: Color, pad: seq<Color>, i: nat)
    requires i < |slice|
    ensures i < |Flatten(Chunks(slice, fill) + pad)|
    ensures Flatten(Chunks(slice, fill) + pad)[i] == slice[i]
  {
    var colors := Chunks(slice, fill);
    var k, c := i / 3, i % 3;
    assert 3 * k + c == i;
    assert k < |colors|;
    assert (colors + pad)[k] == colors[k];
    assert Channel(colors[k], c) == slice[3 * k + c];
  }

  // ---------------------------------------------------------------------
  // Row-major conversions

  /** `to_index_assoc`. */
  function ToIndexAssoc(width: nat, pos: Pos): nat
  {
    pos.y * width + pos.x
  }

  /** `index_to_pos_assoc`: column and row of a row-major index. */
  function IndexToPosAssoc(width: nat, index: nat): (pos: Pos)
    requires width > 0
    ensures pos.x < width && ToIndexAssoc(width, pos) == index
  {
    DivMod(index, width);
    Pos(index % width, index / width)
  }

  /** A position inside the row converts to an index and back unchanged. */
  lemma PosIndexRoundTrip(width: nat, pos: Pos)
    requires pos.x < width
    ensures IndexToPosAssoc(width, ToIndexAssoc(width, pos)) == pos
  {
    DivModUnique(ToIndexAssoc(width, pos), width, pos.y, pos.x);
  }

  /** A position of the `size` by `size` grid has its index inside the grid. */
  lemma GridIndexBound(size: nat, pos: Pos)
    requires pos.x < size && pos.y < size
    ensures ToIndexAssoc(size, pos) < size * size
  {
    MulMonotone(pos.y, size - 1, size);
  }

  /** An index inside the `size` by `size` grid lies in one of its rows. */
  lemma GridRowBound(size: nat, index: nat)
    requires size > 0 && index < size * size
    ensures IndexToPosAssoc(size, index).y < size
  {
    var y := index / size;
    DivMod(index, size);
    if y >= size {
      MulMonotone(size, y, size);
    }
  }

  // ---------------------------------------------------------------------
  // The two curve maps used by `hilbertify` and `unhilbertify`

  /** Where `unhilbertify` sends index `i` on a grid of side `size`: the point
      `value_to_point(i)` of the curve of order floor(log2 size), as a
      row-major index. */
  function UnhilbertTarget(size: nat, i: nat): (j: nat)
    requires size >= 1
    ensures j < size * size
  {
    var order := Log2(size);
    var p := CurvePoint(order, i % Pow4(order));
    GridIndexBound(size, p);
    ToIndexAssoc(size, p)
  }

  /** Where `hilbertify` sends index `i` of a `size` by `size` grid, `size` a
      power of two: `point_to_value` of its row-major position. */
  function HilbertTarget(size: nat, i: nat): (j: nat)
    requires IsPowerOfTwo(size) && i < size * size
    ensures j < size * size
  {
    PowerOfTwoLog(size);
    var order := Log2(size);
    GridRowBound(size, i);
    Pow4Square(order);
    CurveIndex(order, IndexToPosAssoc(size, i))
  }

  /** On a power-of-two square the two maps are inverse permutations of the cells. */
  lemma TargetsInverse(size: nat, i: nat)
    requires IsPowerOfTwo(size) && i < size * size
    ensures HilbertTarget(size, UnhilbertTarget(size, i)) == i
    ensures UnhilbertTarget(size, HilbertTarget(size, i)) == i
  {
    PowerOfTwoLog(size);
    var order := Log2(size);
    Pow4Square(order);
    ModBelow(i, Pow4(order));
    var p := CurvePoint(order, i);
    PosIndexRoundTrip(size, p);
    PointOfIndexRoundTrip(order, i);
    var h := HilbertTarget(size, i);
    var q := IndexToPosAssoc(size, i);
    GridRowBound(size, i);
    ModBelow(h, Pow4(order));
    IndexOfPointRoundTrip(order, q);
  }

  // ---------------------------------------------------------------------
  // The scatter of `remap_positions`

  /** The buffer after the first `k` writes of `remap_positions`: a copy of
      `src` in which `src[i]` has been written to position `f(i)`, for i < k
      in increasing order. */
  function Scatter<T>(src: seq<T>, f: nat --> nat, k: nat): (out: seq<T>)
    requires k <= |src|
    requires forall i: nat :: i < |src| ==> f.requires(i) && f(i) < |src|
    ensures |out| == |src|
  {
    if k == 0 then src else Scatter(src, f, k - 1)[f(k - 1) := src[k - 1]]
  }

  /** The last write wins: position `f(i)` holds `src[i]` when no later write
      of the first `k` hits the same position. */
  lemma {:induction false} ScatterLastWrite<T>(src: seq<T>, f: nat --> nat, k: nat, i: nat)
    requires k <= |src|
    requires forall i: nat :: i < |src| ==> f.requires(i) && f(i) < |src|
    requires i < k && forall i': nat :: i < i' < k ==> f(i') != f(i)
    ensures Scatter(src, f, k)[f(i)] == src[i]
  {
    if i < k - 1 {
      assert f(k - 1) != f(i);
      ScatterLastWrite(src, f, k - 1, i);
    }
  }

  /** A position that none of the first `k` writes hits keeps its old value. */
  lemma {:induction false} ScatterKeeps<T>(src: seq<T>, f: nat --> nat, k: nat, j: nat)
    requires k <= |src|
    requires forall i: nat :: i < |src| ==> f.requires(i) && f(i) < |src|
    requires j < |src| && forall i: nat :: i < k ==> f(i) != j
    ensures Scatter(src, f, k)[j] == src[j]
  {
    if k > 0 {
      assert f(k - 1) != j;
      ScatterKeeps(src, f, k - 1, j);
    }
  }

  /** With an injective map every element lands at its own target. */
  lemma ScatterPlaces<T>(src: seq<T>, f: nat --> nat)
    requires forall i: nat :: i < |src| ==> f.requires(i) && f(i) < |src|
    requires forall i: nat, j: nat :: i < |src| && j < |src| && f(i) == f(j) ==> i == j
    ensures forall i: nat :: i < |src| ==> Scatter(src, f, |src|)[f(i)] == src[i]
  {
    forall i: nat | i < |src|
      ensures Scatter(src, f, |src|)[f(i)] == src[i]
    {
      ScatterLastWrite(src, f, |src|, i);
    }
  }

  // ---------------------------------------------------------------------
  // The image

  class Image {
    var data: seq<Color>
    var width: nat
    var height: nat

    /** The buffer holds exactly `width * height` colours. */
    ghost predicate Valid()
      reads this
    {
      width > 0 && |data| == width * height
    }

    /** The struct literal `Self { data, width, height }` of `parse`. */
    constructor (data: seq<Color>, width: nat, height: nat)
      requires width > 0 && |data| == width * height
      ensures Valid()
      ensures this.data == data && this.width == width && this.height == height
    {
      this.data := data;
      this.width := width;
      this.height := height;
    }

    /** `Image::parse` after the file is read: drop `trimStart` bytes from the
        front and `trimEnd` from the back, chunk the rest into colours, size the
        image to ceil(pixels / width) rows and pad the last row with the fill
        colour. Trims longer than the input are a range error; a width of 0
        would divide by zero. */
    static method Parse(bytes: seq<byte>, width: nat, fill: Color, trimStart: nat, trimEnd: nat)
      returns (r: Result<Image>)
      requires width > 0
      ensures r.Err? <==> trimStart + trimEnd > |bytes|
      ensures r.Err? ==> r.error == InvalidRange
      ensures r.Ok? ==> fresh(r.value) && r.value.Valid() && r.value.width == width
      ensures r.Ok? ==>
                var pixels := Chunks(bytes[trimStart..|bytes| - trimEnd], fill);
                && r.value.height == CeilDiv(|pixels|, width)
                && r.value.data[..|pixels|] == pixels
                && (forall k :: |pixels| <= k < |r.value.data| ==> r.value.data[k] == fill)
      ensures r.Ok? ==>
                r.value.Save()[..|bytes| - trimStart - trimEnd] == bytes[trimStart..|bytes| - trimEnd]
    {
      if trimStart + trimEnd > |bytes| {
        return Err(InvalidRange);
      }
      var slice := bytes[trimStart..|bytes| - trimEnd];
      var data := Chunks(slice, fill);
      var pixels := |data|;
      var height := CeilDiv(pixels, width);
      var total := width * height;
      if total < pixels {
        assert false;
      }
      data := data + seq(total - pixels, _ => fill);
      SaveRestoresTrimmedBytes(slice, fill, seq(total - pixels, _ => fill));
      assert data[..pixels] == Chunks(slice, fill);
      var image := new Image(data, width, height);
      return Ok(image);
    }

    /** `Image::save` before the write: every colour as its three channel bytes. */
    function Save(): (bytes: seq<byte>)
      reads this
      ensures |bytes| == 3 * |data|
      ensures forall i :: 0 <= i < |bytes| ==> bytes[i] == Channel(data[i / 3], i % 3)
    {
      Flatten(data)
    }

    /** `to_index`: the row-major index of a position of this image; a position
        inside a row is found again from its index. */
    function ToIndex(pos: Pos): (i: nat)
      reads this
      ensures pos.x < width ==> IndexToPosAssoc(width, i) == pos
    {
      if pos.x < width then PosIndexRoundTrip(width, pos); ToIndexAssoc(width, pos)
      else ToIndexAssoc(width, pos)
    }

    /** `remap_positions`: copy the buffer, write every element `i` of the
        original to position `f(i)` of the copy, and keep the copy. */
    method RemapPositions(f: nat --> nat)
      requires forall i: nat :: i < |data| ==> f.requires(i) && f(i) < |data|
      modifies this
      ensures width == old(width) && height == old(height)
      ensures data == Scatter(old(data), f, |old(data)|)
    {
      var output := data;
      var i := 0;
      while i < |data|
        invariant i <= |data|
        invariant output == Scatter(data, f, i)
      {
        output := output[f(i) := data[i]];
        i := i + 1;
      }
      data := output;
    }

    /** `hilbertify`: on a power-of-two square, move the colour at row-major
        index `i` to the curve index of its position. A grid that is not
        square, or whose side is not a power of two, is left as it is. */
    method Hilbertify() returns (r: Outcome)
      requires Valid()
      modifies this
      ensures Valid() && width == old(width) && height == old(height)
      ensures r.Pass? <==> width == height && IsPowerOfTwo(width)
      ensures r.Fail? ==> r.error == InvalidDimensions && data == old(data)
      ensures r.Pass? ==> |data| == |old(data)|
      ensures r.Pass? ==> forall i :: 0 <= i < |data| ==> data[HilbertTarget(width, i)] == old(data)[i]
    {
      if width != height {
        return Fail(InvalidDimensions);
      }
      var size := width;
      var curve := NewChecked(size);
      if curve.Err? {
        return Fail(InvalidDimensions);
      }
      ghost var before := data;
      var f := (i: nat) requires i < size * size => HilbertTarget(size, i);
      RemapPositions(f);
      forall i: nat, j: nat | i < |before| && j < |before| && f(i) == f(j)
        ensures i == j
      {
        TargetsInverse(size, i);
        TargetsInverse(size, j);
      }
      ScatterPlaces(before, f);
      return Pass;
    }

    /** `unhilbertify`: on a power-of-two square, move the colour at curve index
        `i` to the row-major index of the curve's point `i`. A grid that is not
        square, or whose side is not a power of two, is left as it is. */
    method Unhilbertify() returns (r: Outcome)
      requires Valid()
      modifies this
      ensures Valid() && width == old(width) && height == old(height)
      ensures r.Pass? <==> width == height && IsPowerOfTwo(width)
      ensures r.Fail? ==> r.error == InvalidDimensions && data == old(data)
      ensures r.Pass? ==> |data| == |old(data)|
      ensures r.Pass? ==> forall i :: 0 <= i < |data| ==> data[UnhilbertTarget(width, i)] == old(data)[i]
    {
      if width != height {
        return Fail(InvalidDimensions);
      }
      var size := width;
      var curve := NewChecked(size);
      if curve.Err? {
        return Fail(InvalidDimensions);
      }
      ghost var before := data;
      var f := (i: nat) => UnhilbertTarget(size, i);
      RemapPositions(f);
      forall i: nat, j: nat | i < |before| && j < |before| && f(i) == f(j)
        ensures i == j
      {
        TargetsInverse(size, i);
        TargetsInverse(size, j);
      }
      ScatterPlaces(before, f);
      return Pass;
    }
  }

  // ---------------------------------------------------------------------
  // Round trips of the permutation pass

  /** `unhilbertify` followed by `hilbertify` (what `main` and then `resave`
      do when both are asked for) restores the buffer. The requires are what
      the two methods promise about their results. */
  lemma UnhilbertifyThenHilbertify(size: nat, d0: seq<Color>, d1: seq<Color>, d2: seq<Color>)
    requires IsPowerOfTwo(size) && |d0| == size * size && |d1| == |d0| && |d2| == |d0|
    requires forall i :: 0 <= i < |d0| ==> d1[UnhilbertTarget(size, i)] == d0[i]
    requires forall i :: 0 <= i < |d1| ==> d2[HilbertTarget(size, i)] == d1[i]
    ensures d2 == d0
  {
    forall i | 0 <= i < |d0|
      ensures d2[i] == d0[i]
    {
      TargetsInverse(size, i);
    }
  }

  /** `hilbertify` followed by `unhilbertify` restores the buffer too. */
  lemma HilbertifyThenUnhilbertify(size: nat, d0: seq<Color>, d1: seq<Color>, d2: seq<Color>)
    requires IsPowerOfTwo(size) && |d0| == size * size && |d1| == |d0| && |d2| == |d0|
    requires forall i :: 0 <= i < |d0| ==> d1[HilbertTarget(size, i)] == d0[i]
    requires forall i :: 0 <= i < |d1| ==> d2[UnhilbertTarget(size, i)] == d1[i]
    ensures d2 == d0
  {
    forall i | 0 <= i < |d0|
      ensures d2[i] == d0[i]
    {
      TargetsInverse(size, i);
    }
  }

  /** `unhilbertify` and then `hilbertify` on the same image: both pass or
      both fail together, and the image ends as it started. */
  method UnhilbertifyThenHilbertifyImage(img: Image) returns (r: Outcome)
    requires img.Valid()
    modifies img
    ensures img.Valid() && img.width == old(img.width) && img.height == old(img.height)
    ensures r.Pass? <==> img.width == img.height && IsPowerOfTwo(img.width)
    ensures img.data == old(img.data)
  {
    ghost var d0 := img.data;
    r := img.Unhilbertify();
    if r.Pass? {
      ghost var d1 := img.data;
      var again := img.Hilbertify();
      UnhilbertifyThenHilbertify(img.width, d0, d1, img.data);
    }
  }

  /** `hilbertify` and then `unhilbertify` on the same image restores it too. */
  method HilbertifyThenUnhilbertifyImage(img: Image) returns (r: Outcome)
    requires img.Valid()
    modifies img
    ensures img.Valid() && img.width == old(img.width) && img.height == old(img.height)
    ensures r.Pass? <==> img.width == img.height && IsPowerOfTwo(img.width)
    ensures img.data == old(img.data)
  {
    ghost var d0 := img.data;
    r := img.Hilbertify();
    if r.Pass? {
      ghost var d1 := img.data;
      var again := img.Unhilbertify();
      HilbertifyThenUnhilbertify(img.width, d0, d1, img.data);
    }
  }

  /** As written, `HilbertCurve::new(6)` accepts the size with order 2, and
      `unhilbertify` on a 6 by 6 image then sends pixels 0 and 16 to the same
      cell, so pixel 0 is lost. */
  lemma SixBySixUnhilbertifyCollides()
    ensures Log2(6) == 2 && !IsPowerOfTwo(6)
    ensures UnhilbertTarget(6, 16) == UnhilbertTarget(6, 0)
  {
    assert Log2(6) == 2 by {
      assert Log2(3) == 1;
    }
    assert Pow4(2) == 16;
    forall k: nat
      ensures Pow2(k) != 6
    {
      if Pow2(k) == 6 {
        PowerOfTwoOrder(6, k);
      }
    }
  }
}
