/**
 * `split_into_chunks`: a fixed-width character split of the document text,
 * `[text[i:i + max_chars] for i in range(0, len(text), max_chars)]`.
 */
module Chunking {
  import opened Wrappers
  import opened Text

  function Min(a: int, b: int): int
  {
    if a <= b then a else b
  }

  /** The chunks the comprehension yields for the indices `start, start + k, ...`
      below `|text|`; the slice end is clamped to `|text|` as Python's slicing does. */
  function ChunksFrom(text: string, start: nat, k: nat): seq<string>
    requires k >= 1
    decreases |text| - start
  {
    if start >= |text| then []
    else [text[start..Min(start + k, |text|)]] + ChunksFrom(text, start + k, k)
  }

  /** `split_into_chunks(text, max_chars)`. `range` raises `ValueError` for a
      step of 0 (`None` here) and yields nothing from 0 upwards for a negative step. */
  function SplitIntoChunks(text: string, maxChars: int): (r: Option<seq<string>>)
    ensures r.None? <==> maxChars == 0
    ensures maxChars < 0 ==> r == Some([])
    ensures maxChars > 0 ==> r.Some? && Flatten(r.value) == text
  {
    if maxChars == 0 then None
    else if maxChars < 0 then Some([])
    else
      ChunksLossless(text, 0, maxChars);
      assert text[0..] == text;
      Some(ChunksFrom(text, 0, maxChars))
  }

  /** Concatenating the chunks in order gives back the text from `start` on. */
  lemma {:induction false} ChunksLossless(text: string, start: nat, k: nat)
    requires k >= 1 && start <= |text|
    ensures Flatten(ChunksFrom(text, start, k)) == text[start..]
    decreases |text| - start
  {
    if start < |text| {
      var end := Min(start + k, |text|);
      ChunksLossless(text, end, k);
      if start + k < |text| {
        assert ChunksFrom(text, start + k, k) == ChunksFrom(text, end, k);
      } else {
        assert ChunksFrom(text, start + k, k) == [] == ChunksFrom(text, end, k);
      }
      FlattenCons(text[start..end], ChunksFrom(text, end, k));
      assert text[start..end] + text[end..] == text[start..];
    }
  }

  /** `n` is the number of chunks of `k` characters that `len` characters need. */
  ghost predicate IsCeilCount(len: nat, k: nat, n: nat)
    requires k >= 1
  {
    (n - 1) * k < len <= n * k
  }

  lemma {:induction false} ChunkCountFrom(text: string, start: nat, k: nat)
    requires k >= 1 && start <= |text|
    ensures IsCeilCount(|text| - start, k, |ChunksFrom(text, start, k)|)
    decreases |text| - start
  {
    if start < |text| {
      var n := |ChunksFrom(text, start, k)|;
      if start + k < |text| {
        ChunkCountFrom(text, start + k, k);
        assert n * k == (n - 1) * k + k;
      } else {
        assert ChunksFrom(text, start + k, k) == [];
      }
    }
  }

  lemma CeilDivision(len: nat, k: nat, n: nat)
    requires k >= 1 && IsCeilCount(len, k, n)
    ensures n == (len + k - 1) / k
  {
    var x := len + k - 1;
    var q := x / k;
    assert q * k <= x < q * k + k;
    assert n * k <= x < n * k + k;
    StepBetweenMultiples(q, n, k);
    StepBetweenMultiples(n, q, k);
  }

  /** Distinct multiples of `k` are at least `k` apart. */
  lemma {:induction false} StepBetweenMultiples(a: int, b: int, k: int)
    requires k >= 1
    ensures a > b ==> a * k >= b * k + k
    decreases if a > b then a - b else 0
  {
    if a > b + 1 {
      StepBetweenMultiples(a - 1, b, k);
      assert a * k == (a - 1) * k + k;
    } else if a == b + 1 {
      assert a * k == b * k + k;
    }
  }

  /** The number of chunks is `ceil(len(text) / max_chars)`. */
  lemma ChunkCount(text: string, k: nat)
    requires k >= 1
    ensures |SplitIntoChunks(text, k).value| == (|text| + k - 1) / k
    ensures IsCeilCount(|text|, k, |SplitIntoChunks(text, k).value|)
  {
    ChunkCountFrom(text, 0, k);
    CeilDivision(|text|, k, |ChunksFrom(text, 0, k)|);
  }

  /** Every chunk but the last holds exactly `k` characters; the last holds 1 to `k`. */
  lemma {:induction false} ChunkSizesFrom(text: string, start: nat, k: nat)
    requires k >= 1
    ensures var cs := ChunksFrom(text, start, k);
      (forall j :: 0 <= j < |cs| - 1 ==> |cs[j]| == k)
      && (cs != [] ==> 1 <= |cs[|cs| - 1]| <= k)
    decreases |text| - start
  {
    if start < |text| {
      ChunkSizesFrom(text, start + k, k);
    }
  }

  lemma ChunkSizes(text: string, k: nat)
    requires k >= 1
    ensures var cs := SplitIntoChunks(text, k).value;
      (forall j :: 0 <= j < |cs| - 1 ==> |cs[j]| == k)
      && (cs != [] ==> 1 <= |cs[|cs| - 1]| <= k)
      && (cs == [] <==> text == [])
  {
    ChunkSizesFrom(text, 0, k);
  }

  /** Chunk `j` is the slice `text[j*k : j*k + k]`, the comprehension's element for index `j*k`. */
  lemma {:induction false} ChunkAtFrom(text: string, start: nat, k: nat, j: nat)
    requires k >= 1 && j < |ChunksFrom(text, start, k)|
    ensures start + j * k < |text|
    ensures ChunksFrom(text, start, k)[j] == text[start + j * k..Min(start + j * k + k, |text|)]
    decreases j
  {
    if j > 0 {
      ChunkAtFrom(text, start + k, k, j - 1);
      assert start + k + (j - 1) * k == start + j * k;
    }
  }

  lemma ChunkAt(text: string, k: nat, j: nat)
    requires k >= 1 && j < |SplitIntoChunks(text, k).value|
    ensures j * k < |text|
    ensures SplitIntoChunks(text, k).value[j] == text[j * k..Min(j * k + k, |text|)]
  {
    ChunkAtFrom(text, 0, k, j);
  }

  /** Chunks of normalised text are never blank once chunks hold at least two
      characters: a blank chunk would need two adjacent whitespace characters,
      or the text would have to end in whitespace. */
  lemma {:induction false} NormalizedChunksNotBlankFrom(text: string, start: nat, k: nat)
    requires k >= 2 && Normalized(text)
    ensures forall c :: c in ChunksFrom(text, start, k) ==> !Blank(c)
    decreases |text| - start
  {
    if start < |text| {
      NormalizedChunksNotBlankFrom(text, start + k, k);
      var end := Min(start + k, |text|);
      var c := text[start..end];
      if end == |text| {
        assert c[|c| - 1] == text[|text| - 1];
      } else {
        assert c[0] == text[start] && c[1] == text[start + 1];
      }
    }
  }

  lemma NormalizedChunksNotBlank(text: string, k: nat)
    requires k >= 2 && Normalized(text)
    ensures forall c :: c in SplitIntoChunks(text, k).value ==> !Blank(c)
  {
    NormalizedChunksNotBlankFrom(text, 0, k);
  }

  /** With one-character chunks the blank case does arise: the space between two words. */
  lemma SingleCharChunksCanBeBlank()
    ensures Normalized("a b")
    ensures SplitIntoChunks("a b", 1) == Some(["a", " ", "b"]) && Blank(" ")
  {
    var t := "a b";
    assert t[2..3] == "b" && t[1..2] == " " && t[0..1] == "a";
    assert ChunksFrom("a b", 3, 1) == [];
    assert ChunksFrom("a b", 2, 1) == ["b"];
    assert ChunksFrom("a b", 1, 1) == [" ", "b"];
    assert ChunksFrom("a b", 0, 1) == ["a", " ", "b"];
    assert !IsSpace('a') && !IsSpace('b') && IsSpace(' ');
  }
}
