/**
 * The chunker of the manuscript service: a window of `size` characters slides
 * over the text with stride `size - overlap`; a window is kept when its trimmed
 * length is at least 200, and the scan stops at the window that reaches the end.
 */
module Chunker {
  import opened Text

  const CHUNK_SIZE: nat := 1800
  const CHUNK_OVERLAP: int := 250
  const MIN_CHUNK_LENGTH: nat := 200

  function Min(a: int, b: int): int {
    if a <= b then a else b
  }

  /** The window that starts at `start`: `size` characters, cut at the end of the text. */
  function Window(text: string, size: nat, start: nat): string {
    if start <= |text| then text[start..Min(start + size, |text|)] else []
  }

  /** The filter applied to every window. */
  predicate Keep(chunk: string) {
    |Trim(chunk)| >= MIN_CHUNK_LENGTH
  }

  /**
   * The scan from `start` on, with `acc` the chunks collected so far: the window at
   * `start` is appended when kept, and the scan stops once a window reaches the end.
   */
  function Scan(text: string, size: nat, stride: nat, start: nat, acc: seq<string>, keep: string -> bool): seq<string>
    requires stride > 0
    decreases |text| - start
  {
    if start >= |text| then acc
    else
      var chunk := text[start..Min(start + size, |text|)];
      var acc' := if keep(chunk) then acc + [chunk] else acc;
      if start + size >= |text| then acc' else Scan(text, size, stride, start + stride, acc', keep)
  }

  /** What `chunkText(text, size, overlap)` returns. */
  function Chunks(text: string, size: nat, overlap: int): (r: seq<string>)
    requires overlap < size
    ensures forall k :: 0 <= k < |r| ==> |r[k]| <= size && Keep(r[k])
  {
    ScanKeepsWindows(text, size, size - overlap, Keep);
    Scan(text, size, size - overlap, 0, [], Keep)
  }

  /** `chunkText`: the scanning loop. */
  method ChunkText(text: string, size: nat, overlap: int) returns (chunks: seq<string>)
    requires overlap < size
    ensures chunks == Chunks(text, size, overlap)
  {
    var stride := size - overlap;
    chunks := [];
    var start: nat := 0;
    while start < |text|
      invariant Scan(text, size, stride, start, chunks, Keep) == Chunks(text, size, overlap)
      decreases |text| - start
    {
      var end := Min(start + size, |text|);
      var chunk := text[start..end];
      if Keep(chunk) {
        chunks := chunks + [chunk];
      }
      if end == |text| {
        break;
      }
      start := start + stride;
    }
  }

  // ---------------------------------------------------------------- windows

  /** The starts of the kept windows, from the window at `start` on, in scan order. */
  ghost function KeptFrom(text: string, size: nat, stride: nat, start: nat, keep: string -> bool): seq<nat>
    requires stride > 0
    decreases |text| - start
  {
    if start >= |text| then []
    else
      var kept := if keep(text[start..Min(start + size, |text|)]) then [start] else [];
      if start + size >= |text| then kept else kept + KeptFrom(text, size, stride, start + stride, keep)
  }

  /** The kept starts lie in the text, from `start` on. */
  lemma {:induction false} KeptFromBounds(text: string, size: nat, stride: nat, start: nat, keep: string -> bool)
    requires stride > 0
    ensures forall k :: 0 <= k < |KeptFrom(text, size, stride, start, keep)| ==>
              start <= KeptFrom(text, size, stride, start, keep)[k] < |text|
    decreases |text| - start
  {
    if start < |text| {
      var w := text[start..Min(start + size, |text|)];
      var kept := if keep(w) then [start] else [];
      if start + size < |text| {
        var later := KeptFrom(text, size, stride, start + stride, keep);
        KeptFromBounds(text, size, stride, start + stride, keep);
        assert KeptFrom(text, size, stride, start, keep) == kept + later;
        forall k | 0 <= k < |kept + later|
          ensures start <= (kept + later)[k] < |text|
        {
          if k >= |kept| {
            assert (kept + later)[k] == later[k - |kept|];
          }
        }
      } else {
        assert KeptFrom(text, size, stride, start, keep) == kept;
      }
    }
  }

  /** The kept starts strictly increase. */
  lemma {:induction false} KeptFromIncreasing(text: string, size: nat, stride: nat, start: nat, keep: string -> bool)
    requires stride > 0
    ensures forall k, l :: 0 <= k < l < |KeptFrom(text, size, stride, start, keep)| ==>
              KeptFrom(text, size, stride, start, keep)[k] < KeptFrom(text, size, stride, start, keep)[l]
    decreases |text| - start
  {
    if start < |text| {
      var w := text[start..Min(start + size, |text|)];
      var kept := if keep(w) then [start] else [];
      if start + size < |text| {
        var later := KeptFrom(text, size, stride, start + stride, keep);
        KeptFromIncreasing(text, size, stride, start + stride, keep);
        KeptFromBounds(text, size, stride, start + stride, keep);
        assert KeptFrom(text, size, stride, start, keep) == kept + later;
        forall k, l | 0 <= k < l < |kept + later|
          ensures (kept + later)[k] < (kept + later)[l]
        {
          assert (kept + later)[l] == later[l - |kept|];
          if k >= |kept| {
            assert (kept + later)[k] == later[k - |kept|];
          }
        }
      } else {
        assert KeptFrom(text, size, stride, start, keep) == kept;
      }
    }
  }

  /** The windows at the starts `ps`, in that order. */
  ghost function WindowsAt(text: string, size: nat, ps: seq<nat>): (cs: seq<string>)
    ensures |cs| == |ps|
  {
    if ps == [] then [] else [Window(text, size, ps[0])] + WindowsAt(text, size, ps[1..])
  }

  lemma {:induction false} WindowsAtIndex(text: string, size: nat, ps: seq<nat>, k: nat)
    requires k < |ps|
    ensures WindowsAt(text, size, ps)[k] == Window(text, size, ps[k])
    decreases k
  {
    if k > 0 {
      WindowsAtIndex(text, size, ps[1..], k - 1);
    }
  }

  lemma WindowsAtCons(text: string, size: nat, p: nat, ps: seq<nat>)
    ensures WindowsAt(text, size, [p] + ps) == [Window(text, size, p)] + WindowsAt(text, size, ps)
  {
    assert ([p] + ps)[1..] == ps;
  }

  lemma AppendAssoc<T>(a: seq<T>, b: seq<T>, c: seq<T>)
    ensures (a + b) + c == a + (b + c)
  {
  }

  /** The chunks collected so far stay in front of what the rest of the scan appends. */
  lemma {:induction false} ScanAccumulates(text: string, size: nat, stride: nat, start: nat, acc: seq<string>, keep: string -> bool)
    requires stride > 0
    ensures Scan(text, size, stride, start, acc, keep) == acc + Scan(text, size, stride, start, [], keep)
    decreases |text| - start
  {
    if start >= |text| {
      assert acc + [] == acc;
    } else {
      var w := text[start..Min(start + size, |text|)];
      if !keep(w) {
        if start + size >= |text| {
          assert acc + [] == acc;
        } else {
          ScanAccumulates(text, size, stride, start + stride, acc, keep);
        }
      } else if start + size < |text| {
        var rest := Scan(text, size, stride, start + stride, [], keep);
        ScanAccumulates(text, size, stride, start + stride, acc + [w], keep);
        ScanAccumulates(text, size, stride, start + stride, [w], keep);
        assert [] + [w] == [w];
        AppendAssoc(acc, [w], rest);
      } else {
        assert [] + [w] == [w];
      }
    }
  }

  /** The scan from `start` on appends exactly the windows at the kept starts. */
  lemma {:induction false} ScanAppendsKeptWindows(text: string, size: nat, stride: nat, start: nat, keep: string -> bool)
    requires stride > 0
    ensures Scan(text, size, stride, start, [], keep) == WindowsAt(text, size, KeptFrom(text, size, stride, start, keep))
    decreases |text| - start
  {
    if start < |text| {
      var w := text[start..Min(start + size, |text|)];
      if start + size >= |text| {
        if keep(w) {
          assert [] + [w] == [w];
          assert WindowsAt(text, size, [start]) == [w];
        }
      } else {
        var later := KeptFrom(text, size, stride, start + stride, keep);
        ScanAppendsKeptWindows(text, size, stride, start + stride, keep);
        if keep(w) {
          assert [] + [w] == [w];
          assert Scan(text, size, stride, start, [], keep) == Scan(text, size, stride, start + stride, [w], keep);
          ScanAccumulates(text, size, stride, start + stride, [w], keep);
          assert KeptFrom(text, size, stride, start, keep) == [start] + later;
          assert Window(text, size, start) == w;
          WindowsAtCons(text, size, start, later);
        } else {
          assert KeptFrom(text, size, stride, start, keep) == [] + later;
          assert [] + later == later;
        }
      }
    }
  }

  /**
   * The scan from `start` reaches `p` when `p` is inside the text, lies a whole number
   * of strides after `start`, and the window one stride before it did not reach the end.
   */
  predicate ReachedFrom(n: nat, size: nat, stride: nat, start: nat, p: nat)
    requires stride > 0
  {
    start <= p < n && (p - start) % stride == 0 && (p == start || p - stride + size < n)
  }

  lemma MulMonotone(a: nat, b: nat, c: nat)
    requires a <= b
    ensures a * c <= b * c
  {
  }

  /** `x == q * m + r` with `0 <= r < m` determines the remainder. */
  lemma ModUnique(x: nat, m: nat, q: nat, r: nat)
    requires m > 0 && r < m && x == q * m + r
    ensures x % m == r
  {
    var q' := x / m;
    if q' < q {
      MulMonotone(q' + 1, q, m);
      assert false;
    }
    if q' > q {
      MulMonotone(q + 1, q', m);
      assert false;
    }
  }

  /** Adding one stride keeps the remainder modulo the stride. */
  lemma StrideRemainder(d: nat, stride: nat)
    requires stride > 0
    ensures (d + stride) % stride == d % stride
  {
    var q := d / stride;
    var r := d % stride;
    assert d + stride == (q + 1) * stride + r;
    ModUnique(d + stride, stride, q + 1, r);
  }

  /** The first window of a scan is kept exactly when it passes the filter. */
  lemma KeptFromHead(text: string, size: nat, stride: nat, start: nat, keep: string -> bool)
    requires stride > 0 && start < |text|
    ensures start in KeptFrom(text, size, stride, start, keep) <==> keep(Window(text, size, start))
  {
    var w := text[start..Min(start + size, |text|)];
    var kept := if keep(w) then [start] else [];
    if start + size < |text| {
      var later := KeptFrom(text, size, stride, start + stride, keep);
      KeptFromBounds(text, size, stride, start + stride, keep);
      assert KeptFrom(text, size, stride, start, keep) == kept + later;
      assert start !in later;
    }
  }

  /** Past its first window, a scan keeps what the scan one stride later keeps, if there is one. */
  lemma KeptFromTail(text: string, size: nat, stride: nat, start: nat, p: nat, keep: string -> bool)
    requires stride > 0 && start < |text| && start < p
    ensures p in KeptFrom(text, size, stride, start, keep) <==>
            start + size < |text| && p in KeptFrom(text, size, stride, start + stride, keep)
  {
    var w := text[start..Min(start + size, |text|)];
    var kept := if keep(w) then [start] else [];
    if start + size < |text| {
      assert KeptFrom(text, size, stride, start, keep) == kept + KeptFrom(text, size, stride, start + stride, keep);
    }
  }

  /** Past `start`, the scan from `start` reaches what the scan one stride later reaches, if there is one. */
  lemma ReachedFromTail(n: nat, size: nat, stride: nat, start: nat, p: nat)
    requires stride > 0 && start < n && start < p
    ensures ReachedFrom(n, size, stride, start, p) <==>
            start + size < n && ReachedFrom(n, size, stride, start + stride, p)
  {
    if p < start + stride {
      ModUnique(p - start, stride, 0, p - start);
    } else {
      StrideRemainder(p - (start + stride), stride);
      assert p - (start + stride) + stride == p - start;
    }
  }

  /** A start is kept exactly when the scan reaches it and its window passes the filter. */
  lemma {:induction false} KeptFromMembers(text: string, size: nat, stride: nat, start: nat, p: nat, keep: string -> bool)
    requires stride > 0
    ensures p in KeptFrom(text, size, stride, start, keep) <==>
            ReachedFrom(|text|, size, stride, start, p) && keep(Window(text, size, p))
    decreases |text| - start
  {
    var n := |text|;
    if start >= n || p < start {
      KeptFromBounds(text, size, stride, start, keep);
      assert p !in KeptFrom(text, size, stride, start, keep);
    } else if p == start {
      KeptFromHead(text, size, stride, start, keep);
      assert ReachedFrom(n, size, stride, start, p);
    } else {
      KeptFromTail(text, size, stride, start, p, keep);
      ReachedFromTail(n, size, stride, start, p);
      if start + size < n {
        KeptFromMembers(text, size, stride, start + stride, p, keep);
      }
    }
  }

  /** The starts of the windows `chunkText` keeps. */
  ghost function KeptStarts(text: string, size: nat, overlap: int): seq<nat>
    requires overlap < size
  {
    KeptFrom(text, size, size - overlap, 0, Keep)
  }

  /** `ChunksAreWindows` for a scan with any filter `keep`. */
  lemma ScanKeepsWindows(text: string, size: nat, stride: nat, keep: string -> bool)
    requires stride > 0
    ensures var cs := Scan(text, size, stride, 0, [], keep);
            var ps := KeptFrom(text, size, stride, 0, keep);
            |cs| == |ps| &&
            (forall k :: 0 <= k < |cs| ==>
               ps[k] < |text| && ps[k] % stride == 0 && cs[k] == Window(text, size, ps[k]) &&
               |cs[k]| <= size && keep(cs[k]))
  {
    var ps := KeptFrom(text, size, stride, 0, keep);
    var cs := Scan(text, size, stride, 0, [], keep);
    ScanAppendsKeptWindows(text, size, stride, 0, keep);
    KeptFromBounds(text, size, stride, 0, keep);
    assert cs == WindowsAt(text, size, ps);
    forall k | 0 <= k < |ps|
      ensures cs[k] == Window(text, size, ps[k]) && ps[k] % stride == 0 && keep(cs[k])
    {
      WindowsAtIndex(text, size, ps, k);
      KeptFromMembers(text, size, stride, 0, ps[k], keep);
    }
  }

  /**
   * Every chunk is the window `text[s..min(s + size, |text|)]` for a start `s` inside
   * the text that is a multiple of the stride; the starts strictly increase; and each
   * chunk is at most `size` long and trims to at least 200 characters.
   */
  lemma ChunksAreWindows(text: string, size: nat, overlap: int)
    requires overlap < size
    ensures var cs := Chunks(text, size, overlap);
            var ps := KeptStarts(text, size, overlap);
            |cs| == |ps| &&
            (forall k :: 0 <= k < |cs| ==>
               ps[k] < |text| && ps[k] % (size - overlap) == 0 && cs[k] == Window(text, size, ps[k]) &&
               |cs[k]| <= size && Keep(cs[k])) &&
            (forall k, l :: 0 <= k < l < |cs| ==> ps[k] < ps[l])
  {
    ScanKeepsWindows(text, size, size - overlap, Keep);
    KeptFromIncreasing(text, size, size - overlap, 0, Keep);
  }

  /**
   * A start is used exactly when the scan reaches it (it is a multiple of the stride
   * inside the text, and the window one stride before it did not reach the end of the
   * text) and its window trims to at least 200 characters.
   */
  lemma KeptStartsExactly(text: string, size: nat, overlap: int, p: nat)
    requires overlap < size
    ensures var stride := size - overlap;
            p in KeptStarts(text, size, overlap) <==>
            p < |text| && p % stride == 0 && (p == 0 || p - stride + size < |text|) &&
            Keep(Window(text, size, p))
  {
    KeptFromMembers(text, size, size - overlap, 0, p, Keep);
  }

  /** A scan over a text shorter than 200 characters appends nothing. */
  lemma {:induction false} ShortScanKeepsNothing(text: string, size: nat, stride: nat, start: nat, acc: seq<string>)
    requires stride > 0 && |text| < MIN_CHUNK_LENGTH
    ensures Scan(text, size, stride, start, acc, Keep) == acc
    decreases |text| - start
  {
    if start < |text| {
      var w := text[start..Min(start + size, |text|)];
      assert |Trim(w)| <= |w| < MIN_CHUNK_LENGTH;
      if start + size < |text| {
        ShortScanKeepsNothing(text, size, stride, start + stride, acc);
      }
    }
  }

  /** A text shorter than 200 characters has no window long enough to keep. */
  lemma ShortTextHasNoChunks(text: string, size: nat, overlap: int)
    requires overlap < size
    requires |text| < MIN_CHUNK_LENGTH
    ensures Chunks(text, size, overlap) == []
  {
    ShortScanKeepsNothing(text, size, size - overlap, 0, []);
  }

  /** With the defaults, 2000 letters give the windows [0, 1800) and [1550, 2000). */
  lemma DefaultChunksOfTwoThousandLetters()
    ensures var text := seq(2000, _ => 'A');
            Chunks(text, CHUNK_SIZE, CHUNK_OVERLAP) == [text[0..1800], text[1550..2000]]
  {
    var text := seq(2000, _ => 'A');
    var first := text[0..1800];
    var second := text[1550..2000];
    TrimNoWhitespace(first);
    TrimNoWhitespace(second);
    assert Keep(first) && Keep(second);
    assert Scan(text, 1800, 1550, 1550, [first], Keep) == [first, second];
    assert Scan(text, 1800, 1550, 0, [], Keep) == Scan(text, 1800, 1550, 1550, [first], Keep);
  }
}
