/** The two loops that cut time into windows: the change log of the day in hourly chunks, and the changed
    keys of the last minutes in windows of a configured size. */
module TimeWindows {
  // ---- change log of the day, in nanoseconds since midnight

  const STEP := 60 * 60 * 1000 * 1000000
  const DAY := 24 * STEP

  datatype Chunk = Chunk(start: int, end: int)

  /** The intervals asked for: hours since midnight, the last one open to an hour past now. */
  method ChangeLogChunks(now: int) returns (chunks: seq<Chunk>)
    requires 0 <= now < DAY
    ensures |chunks| == now / STEP + 1 <= 24
    ensures forall i | 0 <= i < |chunks| :: chunks[i].start == i * STEP
    ensures forall i | 0 <= i < |chunks| - 1 :: chunks[i].end == chunks[i + 1].start
    ensures chunks[|chunks| - 1].end == now + STEP
  {
    chunks := [];
    var start, end, last := 0, 0, false;
    while !last
      invariant end == |chunks| * STEP || last
      invariant forall i | 0 <= i < |chunks| :: chunks[i].start == i * STEP
      invariant forall i | 0 <= i < |chunks| - 1 :: chunks[i].end == chunks[i + 1].start
      invariant !last ==> (|chunks| > 0 ==> chunks[|chunks| - 1].end == end) && end <= now
      invariant last ==> |chunks| > 0 && chunks[|chunks| - 1].end == now + STEP
      invariant last ==> (|chunks| - 1) * STEP <= now < |chunks| * STEP
      decreases !last, now - end
    {
      start := end;
      end := start + STEP;
      if end > now {
        end := now + STEP;
        last := true;
      }
      chunks := chunks + [Chunk(start, end)];
    }
    DivisionNames(now, |chunks| - 1);
  }

  lemma DivisionNames(now: int, q: int)
    requires q * STEP <= now < (q + 1) * STEP
    ensures now / STEP == q
  {
  }

  /** Every moment of the day so far lies in exactly one chunk: the one its hour names. */
  lemma MomentInOneChunk(chunks: seq<Chunk>, now: int, t: int, i: nat)
    requires 0 <= t <= now < DAY && |chunks| == now / STEP + 1 && i < |chunks|
    requires forall k | 0 <= k < |chunks| :: chunks[k].start == k * STEP
    requires forall k | 0 <= k < |chunks| - 1 :: chunks[k].end == chunks[k + 1].start
    requires chunks[|chunks| - 1].end == now + STEP
    ensures 0 <= t / STEP < |chunks|
    ensures chunks[i].start <= t < chunks[i].end <==> i == t / STEP
  {
    if i < |chunks| - 1 {
      assert chunks[i].end == chunks[i + 1].start == (i + 1) * STEP;
    }
  }

  // ---- changed keys, in milliseconds

  /** The row keys visited from one moment to the other: consecutive multiples of the window size, from the
      window that holds the first moment to the one that holds the last. */
  method ChangedKeyWindows(startTS: int, endTS: int, size: int) returns (keys: seq<int>)
    requires size >= 1 && 0 <= startTS <= endTS
    ensures |keys| == endTS / size - startTS / size + 1 >= 1
    ensures forall i | 0 <= i < |keys| :: keys[i] == Window(startTS / size + i, size)
  {
    var endKey := endTS - endTS % size;
    var key := startTS - startTS % size;
    ghost var first, last := startTS / size, endTS / size;
    StartOfWindow(startTS, size);
    StartOfWindow(endTS, size);
    QuotientsOrdered(startTS, endTS, size);
    keys := [key];
    NextWindow(first, size);
    key := key + size;
    while key <= endKey
      invariant 1 <= |keys| <= last - first + 1
      invariant key == Window(first + |keys|, size)
      invariant forall i | 0 <= i < |keys| :: keys[i] == Window(first + i, size)
    {
      WindowsOrdered(first + |keys|, last, size);
      NextWindow(first + |keys|, size);
      keys := keys + [key];
      key := key + size;
    }
    WindowsOrdered(first + |keys|, last, size);
  }

  /** Where the window with this number starts. */
  function Window(number: int, size: int): int {
    number * size
  }

  /** Every moment between the two lies in exactly one visited window: the one division names. */
  lemma MomentInOneWindow(keys: seq<int>, startTS: int, endTS: int, size: int, t: int, i: nat)
    requires size >= 1 && 0 <= startTS <= t <= endTS
    requires |keys| == endTS / size - startTS / size + 1 && i < |keys|
    requires forall k | 0 <= k < |keys| :: keys[k] == Window(startTS / size + k, size)
    ensures 0 <= t / size - startTS / size < |keys|
    ensures keys[i] <= t < keys[i] + size <==> i == t / size - startTS / size
  {
    var number, own := startTS / size + i, t / size;
    QuotientsOrdered(startTS, t, size);
    QuotientsOrdered(t, endTS, size);
    StartOfWindow(t, size);
    NextWindow(number, size);
    NextWindow(own, size);
    WindowsOrdered(number + 1, own, size);
    WindowsOrdered(own + 1, number, size);
  }

  lemma StartOfWindow(t: int, size: int)
    requires size >= 1
    ensures t - t % size == Window(t / size, size) <= t < Window(t / size, size) + size
  {
    assert t == t / size * size + t % size;
  }

  lemma NextWindow(number: int, size: int)
    ensures Window(number, size) + size == Window(number + 1, size)
  {
  }

  lemma WindowsOrdered(a: int, b: int, size: int)
    requires size >= 1
    ensures a <= b <==> Window(a, size) <= Window(b, size)
  {
    assert Window(b, size) - Window(a, size) == (b - a) * size;
    if a <= b {
      Product(b - a, size);
    } else {
      Product(a - b - 1, size);
    }
  }

  lemma Product(a: int, b: int)
    requires a >= 0 && b >= 0
    ensures a * b >= 0
  {
  }

  lemma QuotientsOrdered(a: int, b: int, size: int)
    requires size >= 1 && a <= b
    ensures a / size <= b / size
  {
    StartOfWindow(a, size);
    StartOfWindow(b, size);
    NextWindow(b / size, size);
    WindowsOrdered(a / size, b / size + 1, size);
    WindowsOrdered(b / size + 1, a / size, size);
  }
}
