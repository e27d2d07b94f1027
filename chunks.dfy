/**
 * `chunked(into:)` and the length of `movingAverage`.  Only the slicing is
 * modelled, so the element type is a parameter; the average of a chunk is
 * a parameter `mean` of `MovingAverage`.
 */
module Chunks {
  import opened NetCDF
  import opened Arith

  function Min(a: int, b: int): int
  {
    if a <= b then a else b
  }

  /**
   * `stride(from: from, to: count, by: size).map { self[$0 ..< min($0 + size, count)] }`
   * for a positive `size`: one slice per stride position.
   */
  function StridedFrom<T>(s: seq<T>, size: nat, from: nat): seq<seq<T>>
    requires size > 0
    decreases |s| - from
  {
    if from >= |s| then []
    else [s[from..Min(from + size, |s|)]] + StridedFrom(s, size, from + size)
  }

  /**
   * `chunked(into: size)`: None where the stride traps on a zero size; a
   * negative size strides away from `count` and yields no chunk.
   */
  function Chunked<T>(s: seq<T>, size: int): (r: Option<seq<seq<T>>>)
    ensures r.None? <==> size == 0
    ensures size < 0 ==> r == Some([])
  {
    if size == 0 then None
    else if size < 0 then Some([])
    else Some(StridedFrom(s, size, 0))
  }

  function Flatten<T>(xs: seq<seq<T>>): seq<T>
  {
    if xs == [] then [] else xs[0] + Flatten(xs[1..])
  }

  /** Concatenating the chunks from `from` on gives back the rest of the array. */
  lemma {:induction false} StridedFromFlatten<T>(s: seq<T>, size: nat, from: nat)
    requires size > 0 && from <= |s|
    ensures Flatten(StridedFrom(s, size, from)) == s[from..]
    decreases |s| - from
  {
    if from < |s| {
      var next := Min(from + size, |s|);
      var rest := StridedFrom(s, size, from + size);
      assert StridedFrom(s, size, from) == [s[from..next]] + rest;
      assert ([s[from..next]] + rest)[1..] == rest;
      if from + size <= |s| {
        StridedFromFlatten(s, size, from + size);
        assert s[from..next] + s[from + size..] == s[from..];
      } else {
        assert rest == [];
        assert s[from..next] == s[from..];
      }
    }
  }

  /** Every chunk from `from` on but the last has exactly `size` elements; the last is non-empty and has at most `size`. */
  lemma {:induction false} StridedFromSizes<T>(s: seq<T>, size: nat, from: nat)
    requires size > 0
    ensures var cs := StridedFrom(s, size, from);
      && (forall j :: 0 <= j < |cs| - 1 ==> |cs[j]| == size)
      && (cs != [] ==> 0 < |cs[|cs| - 1]| <= size)
    decreases |s| - from
  {
    if from < |s| {
      StridedFromSizes(s, size, from + size);
      var rest := StridedFrom(s, size, from + size);
      var cs := StridedFrom(s, size, from);
      assert cs == [s[from..Min(from + size, |s|)]] + rest;
      if rest != [] {
        assert from + size < |s|;
      }
      assert forall j :: 1 <= j < |cs| ==> cs[j] == rest[j - 1];
    }
  }

  /** The number of chunks from `from` on is the remaining length divided by `size`, rounded up. */
  lemma {:induction false} StridedFromCount<T>(s: seq<T>, size: nat, from: nat)
    requires size > 0 && from <= |s|
    ensures |StridedFrom(s, size, from)| == (|s| - from + size - 1) / size
    decreases |s| - from
  {
    if from < |s| {
      var x := |s| - from + size - 1;
      var rest := StridedFrom(s, size, from + size);
      assert |StridedFrom(s, size, from)| == 1 + |rest|;
      if from + size <= |s| {
        StridedFromCount(s, size, from + size);
        assert |s| - (from + size) + size - 1 == x - size;
        DivShift(x, size);
      } else {
        assert rest == [];
        DivOne(x, size);
      }
    }
  }

  lemma DivShift(x: int, size: nat)
    requires size > 0 && x >= size - 1
    ensures (x - size) / size + 1 == x / size
  {
    var q, r := (x - size) / size, (x - size) % size;
    assert x - size == q * size + r;
    DivUnique(x, q + 1, size, r);
  }

  lemma DivOne(x: int, size: nat)
    requires size > 0 && size <= x < 2 * size
    ensures x / size == 1
  {
    DivUnique(x, 1, size, x - size);
  }

  /**
   * For a positive size: the chunks concatenate back to the array, all
   * but the last have exactly `size` elements, the last is non-empty and
   * at most `size` long, and there are ceil(count / size) of them; an
   * empty array has no chunk.
   */
  lemma ChunkedMeaning<T>(s: seq<T>, size: int)
    requires size > 0
    ensures Chunked(s, size).Some?
    ensures var cs := Chunked(s, size).value;
      && Flatten(cs) == s
      && (forall j :: 0 <= j < |cs| - 1 ==> |cs[j]| == size)
      && (cs != [] ==> 0 < |cs[|cs| - 1]| <= size)
      && |cs| == (|s| + size - 1) / size
      && (s == [] <==> cs == [])
  {
    StridedFromFlatten(s, size, 0);
    StridedFromSizes(s, size, 0);
    StridedFromCount(s, size, 0);
  }

  /**
   * `movingAverage(sectionSize:)`: one value per chunk, the chunk's mean.
   * A zero section size traps in `chunked` (`ok` false).
   */
  method MovingAverage<T>(s: seq<T>, sectionSize: int, mean: seq<T> -> T) returns (result: seq<T>, ok: bool)
    ensures ok <==> sectionSize != 0
    ensures ok ==> |result| == |Chunked(s, sectionSize).value|
    ensures ok ==> forall j :: 0 <= j < |result| ==> result[j] == mean(Chunked(s, sectionSize).value[j])
  {
    var chunks := Chunked(s, sectionSize);
    if chunks.None? {
      return [], false;
    }
    result := [];
    var i := 0;
    while i < |chunks.value|
      invariant 0 <= i <= |chunks.value|
      invariant |result| == i
      invariant forall j :: 0 <= j < i ==> result[j] == mean(chunks.value[j])
    {
      result := result + [mean(chunks.value[i])];
      i := i + 1;
    }
    ok := true;
  }
}
