/**
 * `split_string`: cut a text into slices of `len(text) // count` characters,
 * starting at offsets 0, L, 2L, ... (the last slice may be shorter).
 */
module Utils {
  import opened Frames

  /** The two ways `split_string` fails before yielding anything. */
  datatype SplitError =
    | ZeroDivision  // `len(str) // 0`
    | ZeroStep      // `range(0, len(str), 0)` when the slice length is 0

  /** Python's `//`: division rounding toward negative infinity. */
  function FloorDiv(a: int, b: int): (q: int)
    requires b != 0
    ensures b * q <= a < b * q + b || b * q + b < a <= b * q
  {
    if b > 0 then a / b
    else if a % (-b) == 0 then -(a / (-b))
    else -(a / (-b)) - 1
  }

  function Min(a: int, b: int): int
  {
    if a <= b then a else b
  }

  /** The slices `text[i : i + size]` for i in range(0, len(text), size). */
  function Chunks(text: string, size: nat): (r: seq<string>)
    requires size > 0
    decreases |text|
  {
    if |text| == 0 then []
    else [text[..Min(size, |text|)]] + Chunks(text[Min(size, |text|)..], size)
  }

  /** Concatenation of a list of strings (how the receiver's caller rebuilds the text). */
  function Concat(parts: seq<string>): string
  {
    if parts == [] then "" else parts[0] + Concat(parts[1..])
  }

  /**
   * `list(split_string(text, count))`, with the two exceptions the source raises
   * as errors. A negative `count` gives a negative step and so an empty range.
   */
  function SplitString(text: string, count: int): (r: Result<seq<string>, SplitError>)
    ensures count == 0 <==> r == Err(ZeroDivision)
    ensures r == Err(ZeroStep) <==> count != 0 && FloorDiv(|text|, count) == 0
    ensures count < 0 && |text| > 0 ==> r == Ok([])
    ensures 1 <= count <= |text| ==> r.Ok? && |text| / count >= 1
  {
    if count == 0 then Err(ZeroDivision)
    else
      var size := FloorDiv(|text|, count);
      if size == 0 then Err(ZeroStep)
      else if size < 0 then Ok([])
      else Ok(Chunks(text, size))
  }

  /** Joining the slices gives back the text. */
  lemma {:induction false} ChunksRoundTrip(text: string, size: nat)
    requires size > 0
    ensures Concat(Chunks(text, size)) == text
    decreases |text|
  {
    if |text| > 0 {
      var m := Min(size, |text|);
      ChunksRoundTrip(text[m..], size);
      assert text[..m] + text[m..] == text;
    }
  }

  /** There are ceil(len / size) slices: the last one starts before the end, and they cover the text. */
  lemma {:induction false} ChunksCount(text: string, size: nat)
    requires size > 0
    ensures (|Chunks(text, size)| - 1) * size < |text| <= |Chunks(text, size)| * size
            || (|text| == 0 && Chunks(text, size) == [])
    decreases |text|
  {
    if |text| > size {
      ChunksCount(text[size..], size);
      var c := |Chunks(text[size..], size)|;
      assert |Chunks(text, size)| == c + 1;
      assert (c + 1) * size == c * size + size;
    } else if |text| > 0 {
      assert Chunks(text[Min(size, |text|)..], size) == [];
    }
  }

  /** Slice k starts at offset k * size and runs for size characters, clipped at the end. */
  lemma ChunkAt(text: string, size: nat, k: nat)
    requires size > 0
    requires k < |Chunks(text, size)|
    ensures k * size < |text|
    ensures Chunks(text, size)[k] == text[k * size .. Min(k * size + size, |text|)]
  {
    ChunkAtOffset(text, size, k);
    OffsetIsProduct(k, size);
  }

  /** k * size, written as repeated addition so that the slice proof stays linear. */
  function Offset(k: nat, size: nat): nat
  {
    if k == 0 then 0 else Offset(k - 1, size) + size
  }

  lemma {:induction false} OffsetIsProduct(k: nat, size: nat)
    ensures Offset(k, size) == k * size
  {
    if k > 0 {
      OffsetIsProduct(k - 1, size);
      assert k * size == (k - 1) * size + size;
    }
  }

  lemma {:induction false} ChunkAtOffset(text: string, size: nat, k: nat)
    requires size > 0
    requires k < |Chunks(text, size)|
    ensures Offset(k, size) < |text|
    ensures Chunks(text, size)[k] == text[Offset(k, size) .. Min(Offset(k, size) + size, |text|)]
    decreases k
  {
    if k > 0 {
      ChunksTail(text, size, k);
      ChunkAtOffset(text[size..], size, k - 1);
      var o := Offset(k - 1, size);
      SliceShift(text, size, o, Min(o + size, |text| - size));
    }
  }

  /** A slice of the text after its first `size` characters is a slice of the text, shifted by `size`. */
  lemma SliceShift(text: string, size: nat, o: nat, e: nat)
    requires size <= |text| && o <= e <= |text| - size
    ensures text[size..][o .. e] == text[size + o .. size + e]
  {
    assert forall i :: 0 <= i < e - o ==> text[size..][o .. e][i] == text[size + o + i];
  }

  /** Past the first slice, the slices are those of the text after it. */
  lemma ChunksTail(text: string, size: nat, k: nat)
    requires size > 0
    requires 0 < k < |Chunks(text, size)|
    ensures |text| > size
    ensures Chunks(text, size)[k] == Chunks(text[size..], size)[k - 1]
  {
    var m := Min(size, |text|);
    assert Chunks(text, size) == [text[..m]] + Chunks(text[m..], size);
    assert |text[m..]| > 0;
  }

  /** Every slice but the last has exactly `size` characters; the last has 1 to `size`. */
  lemma {:induction false} ChunkLengths(text: string, size: nat)
    requires size > 0
    ensures forall k :: 0 <= k < |Chunks(text, size)| - 1 ==> |Chunks(text, size)[k]| == size
    ensures |Chunks(text, size)| > 0 ==> 1 <= |Chunks(text, size)[|Chunks(text, size)| - 1]| <= size
    decreases |text|
  {
    if |text| > 0 {
      var m := Min(size, |text|);
      ChunkLengths(text[m..], size);
      if m < size { assert Chunks(text[m..], size) == []; }
    }
  }

  /**
   * With 1 <= count <= len(text), `split_string` succeeds, the slices join back to the
   * text, and their number n is ceil(len / L) for L = len // count.
   */
  lemma SplitStringRoundTrip(text: string, count: int)
    requires 1 <= count <= |text|
    ensures SplitString(text, count).Ok?
    ensures Concat(SplitString(text, count).value) == text
    ensures var n, size := |SplitString(text, count).value|, |text| / count;
            (n - 1) * size < |text| <= n * size
  {
    ChunksRoundTrip(text, |text| / count);
    ChunksCount(text, |text| / count);
  }

  /** The number of slices can exceed the requested count: 11 characters, count 10, give 11 slices. */
  lemma SplitStringOvershoots()
    ensures SplitString("abcdefghijk", 10).Ok?
    ensures |SplitString("abcdefghijk", 10).value| == 11
  {
    ChunksCount("abcdefghijk", 1);
    assert FloorDiv(11, 10) == 1;
  }
}
