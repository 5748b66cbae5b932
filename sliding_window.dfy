/** `sliding_window_chunker`: overlapping windows of whitespace-separated words. */
module SlidingWindow {
  import opened Text

  /** A value, or the exception Python raises instead. */
  datatype Result<T> = Ok(value: T) | Err(message: string)

  /** The `ValueError` text of Python's `range()` when its step is zero. */
  const RangeZeroStep: string := "range() arg 3 must not be zero"

  /** The source's default window size and overlap, in words. */
  const DefaultChunkSize: int := 150
  const DefaultOverlap: int := 30

  // ---------------------------------------------------------------------------------------
  // Arithmetic of window starts
  // ---------------------------------------------------------------------------------------

  /** ceil(n / step) for a positive step. */
  function CeilDiv(n: nat, step: nat): nat
    requires step > 0
  {
    (n + step - 1) / step
  }

  lemma MulMonotone(a: int, b: int, step: int)
    requires step > 0 && a <= b
    ensures a * step <= b * step
  {
    assert b * step - a * step == (b - a) * step;
  }

  /** `CeilDiv(n, step)` is the number of starts `0, step, 2*step, ...` below `n`: the
      last of them is below `n` and the next one is not. */
  lemma CeilDivIsCount(n: nat, step: nat)
    requires step > 0
    ensures CeilDiv(n, step) * step >= n
    ensures CeilDiv(n, step) * step - step < n
  {
    var m := n + step - 1;
    var q, r := m / step, m % step;
    assert m == q * step + r && 0 <= r < step;
    assert q * step - step == (q - 1) * step;
  }

  /** No other count has that property. */
  lemma {:induction false} CeilDivUnique(n: nat, step: nat, c: nat)
    requires step > 0
    requires c * step >= n && c * step - step < n
    ensures c == CeilDiv(n, step)
  {
    var q := CeilDiv(n, step);
    CeilDivIsCount(n, step);
    if c < q {
      MulMonotone(c + 1, q, step);
      assert false;
    } else if c > q {
      MulMonotone(q + 1, c, step);
      assert false;
    }
  }

  /** Every counted start lies below `n`. */
  lemma StartBelowEnd(n: nat, step: nat, k: nat)
    requires step > 0 && k < CeilDiv(n, step)
    ensures k * step < n
  {
    CeilDivIsCount(n, step);
    var c := CeilDiv(n, step);
    MulMonotone(k + 1, c, step);
    assert (k + 1) * step == k * step + step;
  }

  // ---------------------------------------------------------------------------------------
  // Specification
  // ---------------------------------------------------------------------------------------

  /** Window `k`: Python's `words[k*step : k*step + chunkSize]`. */
  function Window(words: seq<string>, k: int, chunkSize: int, step: nat): seq<string> {
    PySlice(words, k * step, k * step + chunkSize)
  }

  /** One chunk per window start below the word count, each window joined with single spaces. */
  function WindowChunks(words: seq<string>, chunkSize: int, step: nat): seq<string>
    requires step > 0
  {
    seq(CeilDiv(|words|, step), k => Join(" ", Window(words, k, chunkSize, step)))
  }

  /** What `sliding_window_chunker(text, chunkSize, overlap)` returns or raises. */
  function WindowResult(text: string, chunkSize: int, overlap: int): Result<seq<string>> {
    var step := chunkSize - overlap;
    if step == 0 then Err(RangeZeroStep)
    else if step < 0 then Ok([])
    else Ok(WindowChunks(Words(text), chunkSize, step))
  }

  // ---------------------------------------------------------------------------------------
  // The loop
  // ---------------------------------------------------------------------------------------

  method SlidingWindowChunker(text: string, chunkSize: int, overlap: int) returns (r: Result<seq<string>>)
    ensures r == WindowResult(text, chunkSize, overlap)
  {
    var words := Words(text);
    var step := chunkSize - overlap;
    if step == 0 {
      return Err(RangeZeroStep);
    }
    var chunks: seq<string> := [];
    var i := 0;
    // One pass per window start 0, step, 2*step, ... below the word count; none for a
    // negative step.
    while (step > 0 && i < |words|) || (step < 0 && i > |words|)
      invariant step < 0 ==> i == 0 && chunks == []
      invariant step > 0 ==> i == |chunks| * step && i - step < |words|
      invariant step > 0 ==> forall j :: 0 <= j < |chunks| ==>
                  chunks[j] == Join(" ", Window(words, j, chunkSize, step))
      decreases if step > 0 then |words| - i else 0
    {
      chunks := chunks + [Join(" ", PySlice(words, i, i + chunkSize))];
      i := i + step;
    }
    if step > 0 {
      CeilDivUnique(|words|, step, |chunks|);
      assert chunks == WindowChunks(words, chunkSize, step);
    }
    r := Ok(chunks);
  }

  // ---------------------------------------------------------------------------------------
  // Properties
  // ---------------------------------------------------------------------------------------

  /** A zero step raises; a negative step gives no chunks; otherwise there are
      ceil(n / step) chunks for `n` words: every start below `n`, and no more. */
  lemma ChunkCount(text: string, chunkSize: int, overlap: int)
    ensures WindowResult(text, chunkSize, overlap).Err? <==> chunkSize == overlap
    ensures chunkSize < overlap ==> WindowResult(text, chunkSize, overlap) == Ok([])
    ensures chunkSize > overlap ==>
              var n, step := |Words(text)|, chunkSize - overlap;
              var c := |WindowResult(text, chunkSize, overlap).value|;
              c * step >= n && c * step - step < n
  {
    if chunkSize > overlap {
      CeilDivIsCount(|Words(text)|, chunkSize - overlap);
    }
  }

  /** Text that is empty or whitespace only gives no chunks, and any other text gives some. */
  lemma BlankTextGivesNoChunks(text: string, chunkSize: int, overlap: int)
    requires chunkSize > overlap
    ensures (WindowResult(text, chunkSize, overlap) == Ok([]))
              <==> (forall j :: 0 <= j < |text| ==> IsSpace(text[j]))
  {
    NoWordsIffBlank(text);
    var n, step := |Words(text)|, chunkSize - overlap;
    CeilDivIsCount(n, step);
    if n > 0 {
      StartBelowEnd(n, step, 0);
      assert CeilDiv(n, step) > 0;
    } else {
      assert WindowChunks(Words(text), chunkSize, step) == [];
    }
  }

  /** A window of words, joined with single spaces, splits back into that window. */
  lemma WindowSplitsBack(words: seq<string>, k: nat, chunkSize: int, step: nat)
    requires forall i :: 0 <= i < |words| ==> IsWord(words[i])
    requires chunkSize >= 1 && step > 0 && k * step < |words|
    ensures var w := Window(words, k, chunkSize, step);
            Words(Join(" ", w)) == w && 1 <= |w| <= chunkSize
  {
    var lo := k * step;
    var w := Window(words, k, chunkSize, step);
    assert w == words[lo..Min(lo + chunkSize, |words|)];
    assert forall i :: 0 <= i < |w| ==> w[i] == words[lo + i];
    WordsOfJoin(w);
  }

  /** Chunk `k` splits back into exactly the words of window `k`: between 1 and `chunkSize`
      words starting at word `k * step`. */
  lemma ChunkWords(text: string, chunkSize: int, overlap: int, k: nat)
    requires chunkSize > overlap && chunkSize >= 1
    requires k < |WindowResult(text, chunkSize, overlap).value|
    ensures var words, step := Words(text), chunkSize - overlap;
            var chunk := WindowResult(text, chunkSize, overlap).value[k];
            k * step < |words| &&
            Words(chunk) == Window(words, k, chunkSize, step) &&
            1 <= |Words(chunk)| <= chunkSize
  {
    var words, step := Words(text), chunkSize - overlap;
    var chunks := WindowChunks(words, chunkSize, step);
    assert WindowResult(text, chunkSize, overlap).value == chunks;
    StartBelowEnd(|words|, step, k);
    assert chunks[k] == Join(" ", Window(words, k, chunkSize, step));
    WindowSplitsBack(words, k, chunkSize, step);
  }

  /** Word `j` of the text is word `j - k*step` of window `k` when the window spans it. */
  lemma WindowAt(words: seq<string>, k: nat, step: nat, size: int, j: nat)
    requires k * step <= j < k * step + size && j < |words|
    ensures j - k * step < |Window(words, k, size, step)|
    ensures Window(words, k, size, step)[j - k * step] == words[j]
  {
    var lo := k * step;
    assert Window(words, k, size, step) == words[lo..Min(lo + size, |words|)];
  }

  /** Window `k` and window `k + 1` share `size - step` words, when window `k` is full. */
  lemma WindowOverlap(words: seq<string>, k: nat, step: nat, size: int)
    requires 0 < step <= size && k * step + size <= |words|
    ensures var a, b := Window(words, k, size, step), Window(words, k + 1, size, step);
            |a| == size && |b| >= size - step && a[step..] == b[..size - step]
  {
    var lo := k * step;
    NextStart(k, step);
    var a, b := Window(words, k, size, step), Window(words, k + 1, size, step);
    assert a == words[lo..lo + size];
    assert b == words[lo + step..Min(lo + step + size, |words|)];
  }

  lemma NextStart(k: nat, step: nat)
    ensures (k + 1) * step == k * step + step
  {
  }

  /** Word `j` lies in window `j / step`, which is one of the counted windows. */
  lemma CoveringWindow(n: nat, step: nat, size: int, j: nat)
    requires 0 < step <= size && j < n
    ensures j / step < CeilDiv(n, step)
    ensures (j / step) * step <= j < (j / step) * step + size
  {
    var k := j / step;
    assert j == k * step + j % step;
    CeilDivIsCount(n, step);
    if k >= CeilDiv(n, step) {
      MulMonotone(CeilDiv(n, step), k, step);
      assert false;
    }
  }

  /** Every word lies in some chunk: word `j` is word `j - k*step` of chunk `k = j / step`
      (a non-negative overlap leaves no gaps between windows). */
  lemma WordCovered(text: string, chunkSize: int, overlap: int, j: nat)
    requires 0 <= overlap < chunkSize
    requires j < |Words(text)|
    ensures var words, step := Words(text), chunkSize - overlap;
            var chunks := WindowResult(text, chunkSize, overlap).value;
            var k := j / step;
            k < |chunks| && k * step <= j < k * step + chunkSize &&
            j - k * step < |Words(chunks[k])| && Words(chunks[k])[j - k * step] == words[j]
  {
    var words, step := Words(text), chunkSize - overlap;
    var k := j / step;
    CoveringWindow(|words|, step, chunkSize, j);
    ChunkWords(text, chunkSize, overlap, k);
    WindowAt(words, k, step, chunkSize, j);
  }

  /** Consecutive windows share exactly `overlap` words when the earlier one is full: its last
      `overlap` words are the first `overlap` words of the next chunk. */
  lemma ConsecutiveOverlap(text: string, chunkSize: int, overlap: int, k: nat)
    requires 0 <= overlap < chunkSize
    requires k + 1 < |WindowResult(text, chunkSize, overlap).value|
    requires k * (chunkSize - overlap) + chunkSize <= |Words(text)|
    ensures var chunks, step := WindowResult(text, chunkSize, overlap).value, chunkSize - overlap;
            var a, b := Words(chunks[k]), Words(chunks[k + 1]);
            |a| == chunkSize && |b| >= overlap && a[step..] == b[..overlap]
  {
    var words, step := Words(text), chunkSize - overlap;
    WindowOverlap(words, k, step, chunkSize);
    ChunkWords(text, chunkSize, overlap, k);
    ChunkWords(text, chunkSize, overlap, k + 1);
  }

  /** With the default sizes, 130 words give two chunks: all 130 words, then words 120..129
      again, a window that lies inside the first one. */
  lemma DefaultWindowsOf130Words(text: string)
    requires |Words(text)| == 130
    ensures var chunks := WindowResult(text, DefaultChunkSize, DefaultOverlap).value;
            |chunks| == 2 &&
            Words(chunks[0]) == Words(text) &&
            Words(chunks[1]) == Words(text)[120..] == Words(chunks[0])[120..]
  {
    ChunkWords(text, DefaultChunkSize, DefaultOverlap, 0);
    ChunkWords(text, DefaultChunkSize, DefaultOverlap, 1);
  }
}
