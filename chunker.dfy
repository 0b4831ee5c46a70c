/** `chunk_text` (chatbot_main.py): a fixed-size sliding window over the text,
    advanced by `chunk_size - overlap` characters per step, each window passed
    through `str.strip()` and the empty ones dropped. */
module Chunker {
  import opened PySeq

  /** Defaults of `chunk_text`'s keyword parameters. */
  const DefaultChunkSize: int := 400
  const DefaultOverlap: int := 50

  // ---------------------------------------------------------------------------
  // str.strip()
  // ---------------------------------------------------------------------------

  /** The characters for which Python's `str.isspace()` holds; `str.strip()`
      without an argument removes exactly these from both ends. */
  predicate IsSpace(c: char)
    ensures ('\t' <= c <= '\r') || c == ' ' ==> IsSpace(c)
    ensures ('0' <= c <= '9') || ('A' <= c <= 'Z') || ('a' <= c <= 'z') ==> !IsSpace(c)
  {
    || ('\t' <= c <= '\r')
    || ('\U{1C}' <= c <= ' ')
    || c == '\U{85}' || c == '\U{A0}' || c == '\U{1680}'
    || ('\U{2000}' <= c <= '\U{200A}')
    || c == '\U{2028}' || c == '\U{2029}' || c == '\U{202F}' || c == '\U{205F}'
    || c == '\U{3000}'
  }

  ghost predicate AllSpace(s: string) {
    forall i :: 0 <= i < |s| ==> IsSpace(s[i])
  }

  /** Every character of `s` at a position in `lo..hi` is whitespace. */
  ghost predicate SpaceBetween(s: string, lo: int, hi: int) {
    forall i :: lo <= i < hi && 0 <= i < |s| ==> IsSpace(s[i])
  }

  /** No leading and no trailing whitespace. */
  ghost predicate Stripped(s: string) {
    s == [] || (!IsSpace(s[0]) && !IsSpace(s[|s| - 1]))
  }

  /** `r` is `s` with a run of whitespace removed before position `lo` and
      another one after `lo + |r|`. */
  ghost predicate TrimmedAt(s: string, r: string, lo: nat) {
    OccursAt(r, s, lo) && SpaceBetween(s, 0, lo) && SpaceBetween(s, lo + |r|, |s|)
  }

  /** The left scan of `str.strip()`: the first position at or after `i` that
      holds no whitespace, or `|s|` when there is none. */
  function SkipSpace(s: string, i: nat): (k: nat)
    requires i <= |s|
    ensures i <= k <= |s| && SpaceBetween(s, i, k)
    ensures k == |s| || !IsSpace(s[k])
    decreases |s| - i
  {
    if i < |s| && IsSpace(s[i]) then SkipSpace(s, i + 1) else i
  }

  /** The right scan of `str.strip()`: moving `hi` left past whitespace, but
      never below `lo`. */
  function SkipSpaceBack(s: string, lo: nat, hi: nat): (k: nat)
    requires lo <= hi <= |s|
    ensures lo <= k <= hi && SpaceBetween(s, k, hi)
    ensures k == lo || !IsSpace(s[k - 1])
    decreases hi
  {
    if lo < hi && IsSpace(s[hi - 1]) then SkipSpaceBack(s, lo, hi - 1) else hi
  }

  /** `s.strip()` */
  function Strip(s: string): (r: string)
    ensures Stripped(r)
    ensures |r| <= |s|
  {
    var lo := SkipSpace(s, 0);
    s[lo..SkipSpaceBack(s, lo, |s|)]
  }

  /** What `Strip` removes is whitespace, from the two ends only; it removes
      everything exactly when the string is all whitespace. */
  lemma StripTrims(s: string)
    ensures TrimmedAt(s, Strip(s), SkipSpace(s, 0))
    ensures Strip(s) == [] <==> AllSpace(s)
  {
    var lo := SkipSpace(s, 0);
    var hi := SkipSpaceBack(s, lo, |s|);
    assert OccursAt(Strip(s), s, lo);
    if hi > lo {
      assert Strip(s)[0] == s[lo];
    }
  }

  lemma {:induction false} SkipSpaceAt(s: string, i: nat, lo: nat)
    requires i <= lo < |s| && SpaceBetween(s, i, lo) && !IsSpace(s[lo])
    ensures SkipSpace(s, i) == lo
    decreases lo - i
  {
    if i < lo {
      SkipSpaceAt(s, i + 1, lo);
    }
  }

  lemma {:induction false} SkipSpaceBackAt(s: string, lo: nat, hi: nat, e: nat)
    requires lo < e <= hi <= |s| && SpaceBetween(s, e, hi) && !IsSpace(s[e - 1])
    ensures SkipSpaceBack(s, lo, hi) == e
    decreases hi - e
  {
    if e < hi {
      SkipSpaceBackAt(s, lo, hi - 1, e);
    }
  }

  /** `str.strip()` has the independent description "the stripped string left
      after removing whitespace from both ends": any such string is `Strip(s)`. */
  lemma StripUnique(s: string, r: string, lo: nat)
    requires Stripped(r) && TrimmedAt(s, r, lo)
    ensures r == Strip(s)
  {
    StripTrims(s);
    if r != [] {
      assert s[lo] == r[0] && s[lo + |r| - 1] == r[|r| - 1];
      SkipSpaceAt(s, 0, lo);
      SkipSpaceBackAt(s, lo, |s|, lo + |r|);
    }
  }

  /** Stripping is idempotent. */
  lemma StripIdempotent(s: string)
    ensures Strip(Strip(s)) == Strip(s)
  {
    var r := Strip(s);
    assert r[0..|r|] == r;
    StripUnique(r, r, 0);
  }

  // ---------------------------------------------------------------------------
  // The window loop
  // ---------------------------------------------------------------------------

  /** The values `start` takes inside the loop when it is entered with `start`:
      `start`, `start + step`, ... while below `n`. */
  function WindowStarts(n: nat, chunkSize: int, overlap: int, start: nat): seq<nat>
    requires overlap < chunkSize
    decreases n - start
  {
    if start < n then [start] + WindowStarts(n, chunkSize, overlap, start + chunkSize - overlap) else []
  }

  /** The value of `start` after `j` runs of `end = start + chunk_size;
      start = end - overlap`, whether or not the loop guard holds. */
  function StartAfter(j: nat, chunkSize: int, overlap: int): int {
    if j == 0 then 0 else StartAfter(j - 1, chunkSize, overlap) + chunkSize - overlap
  }

  /** The raw windows `text[start:start + chunk_size]` for the given starts. */
  function Windows(text: string, chunkSize: int, starts: seq<nat>): (ws: seq<string>)
    ensures |ws| == |starts|
  {
    seq(|starts|, k requires 0 <= k < |starts| => Slice(text, starts[k], starts[k] + chunkSize))
  }

  lemma WindowsSnoc(text: string, chunkSize: int, starts: seq<nat>, start: nat)
    ensures Windows(text, chunkSize, starts + [start])
         == Windows(text, chunkSize, starts) + [Slice(text, start, start + chunkSize)]
  {
    var ws, pre := Windows(text, chunkSize, starts + [start]), Windows(text, chunkSize, starts);
    assert ws[|starts|] == Slice(text, start, start + chunkSize);
    forall k | 0 <= k < |starts| ensures ws[k] == pre[k] {
      assert (starts + [start])[k] == starts[k];
    }
  }

  /** The list `chunks` holds when the loop exits. */
  function RawWindows(text: string, chunkSize: int, overlap: int): seq<string>
    requires overlap < chunkSize
  {
    Windows(text, chunkSize, WindowStarts(|text|, chunkSize, overlap, 0))
  }

  /** `[c.strip() for c in raw if c.strip()]` */
  function KeepStripped(raw: seq<string>): (r: seq<string>)
    ensures |r| <= |raw|
    ensures forall j :: 0 <= j < |r| ==> r[j] != [] && Stripped(r[j])
  {
    if raw == [] then []
    else
      var s := Strip(raw[0]);
      if s == [] then KeepStripped(raw[1..]) else [s] + KeepStripped(raw[1..])
  }

  /** Every kept chunk is the strip of one of the windows. */
  lemma {:induction false} KeepStrippedOrigin(raw: seq<string>, c: string) returns (k: nat)
    requires c in KeepStripped(raw)
    ensures k < |raw| && c == Strip(raw[k])
  {
    var rest := KeepStripped(raw[1..]);
    if c == Strip(raw[0]) {
      k := 0;
    } else {
      assert KeepStripped(raw) == rest || KeepStripped(raw) == [Strip(raw[0])] + rest;
      assert c in rest;
      var k' := KeepStrippedOrigin(raw[1..], c);
      assert raw[k' + 1] == raw[1..][k'];
      k := k' + 1;
    }
  }

  /** What `chunk_text(text, chunk_size, overlap)` returns. */
  function Chunks(text: string, chunkSize: int, overlap: int): (chunks: seq<string>)
    requires overlap < chunkSize
    ensures text == [] ==> chunks == []
    ensures forall j :: 0 <= j < |chunks| ==> chunks[j] != [] && Stripped(chunks[j])
  {
    KeepStripped(RawWindows(text, chunkSize, overlap))
  }

  /** `chunk_text`. The source never checks `overlap < chunk_size`; without it
      the loop does not terminate on a non-empty text (see LoopTerminatesIff),
      so the model makes it the caller's obligation. */
  method ChunkText(text: string, chunkSize: int := DefaultChunkSize, overlap: int := DefaultOverlap)
    returns (chunks: seq<string>)
    requires overlap < chunkSize
    ensures chunks == Chunks(text, chunkSize, overlap)
    ensures text == [] ==> chunks == []
  {
    ghost var visited: seq<nat> := [];
    var raw: seq<string> := [];
    var start: nat := 0;
    while start < |text|
      invariant WindowStarts(|text|, chunkSize, overlap, 0) == visited + WindowStarts(|text|, chunkSize, overlap, start)
      invariant raw == Windows(text, chunkSize, visited)
      decreases |text| - start
    {
      var end := start + chunkSize;
      WindowsSnoc(text, chunkSize, visited, start);
      raw := raw + [Slice(text, start, end)];
      visited := visited + [start];
      start := end - overlap;
    }
    assert visited == WindowStarts(|text|, chunkSize, overlap, 0);
    chunks := KeepStripped(raw);
  }

  // ---------------------------------------------------------------------------
  // Properties of the window loop
  // ---------------------------------------------------------------------------

  function Min(a: int, b: int): int { if a <= b then a else b }

  lemma {:induction false} StartAfterIsMultiple(j: nat, chunkSize: int, overlap: int)
    ensures StartAfter(j, chunkSize, overlap) == j * (chunkSize - overlap)
  {
    if j > 0 {
      StartAfterIsMultiple(j - 1, chunkSize, overlap);
      assert (j - 1) * (chunkSize - overlap) + (chunkSize - overlap) == j * (chunkSize - overlap);
    }
  }

  lemma {:induction false} StartAdvances(j: nat, chunkSize: int, overlap: int)
    requires overlap < chunkSize
    ensures j <= StartAfter(j, chunkSize, overlap)
  {
    if j > 0 { StartAdvances(j - 1, chunkSize, overlap); }
  }

  lemma {:induction false} StartNeverAdvances(j: nat, chunkSize: int, overlap: int)
    requires chunkSize <= overlap
    ensures StartAfter(j, chunkSize, overlap) <= 0
  {
    if j > 0 { StartNeverAdvances(j - 1, chunkSize, overlap); }
  }

  /** On a non-empty text, `start` eventually reaches `len(text)` (so the loop
      exits) exactly when `overlap < chunk_size`; otherwise `start` never rises
      above 0 and the loop runs forever. */
  lemma LoopTerminatesIff(n: nat, chunkSize: int, overlap: int)
    requires 0 < n
    ensures (exists j: nat :: n <= StartAfter(j, chunkSize, overlap)) <==> overlap < chunkSize
  {
    if overlap < chunkSize {
      StartAdvances(n, chunkSize, overlap);
    } else {
      forall j: nat ensures StartAfter(j, chunkSize, overlap) < n {
        StartNeverAdvances(j, chunkSize, overlap);
      }
    }
  }

  lemma {:induction false} WindowStartsFrom(n: nat, chunkSize: int, overlap: int, start: nat, k: nat)
    requires overlap < chunkSize
    ensures k < |WindowStarts(n, chunkSize, overlap, start)| <==> start + StartAfter(k, chunkSize, overlap) < n
    ensures k < |WindowStarts(n, chunkSize, overlap, start)| ==>
      WindowStarts(n, chunkSize, overlap, start)[k] == start + StartAfter(k, chunkSize, overlap)
    decreases k
  {
    if start < n {
      if k > 0 {
        WindowStartsFrom(n, chunkSize, overlap, start + chunkSize - overlap, k - 1);
      }
    } else {
      StartAdvances(k, chunkSize, overlap);
    }
  }

  /** The raw windows start exactly at 0, s, 2s, ... (s = chunk_size - overlap),
      at every such offset below `len(text)` and at no other. */
  lemma RawWindowStarts(text: string, chunkSize: int, overlap: int, k: nat)
    requires overlap < chunkSize
    ensures k < |RawWindows(text, chunkSize, overlap)| <==> k * (chunkSize - overlap) < |text|
    ensures k < |RawWindows(text, chunkSize, overlap)| ==>
      RawWindows(text, chunkSize, overlap)[k]
        == Slice(text, k * (chunkSize - overlap), k * (chunkSize - overlap) + chunkSize)
  {
    WindowStartsFrom(|text|, chunkSize, overlap, 0, k);
    StartAfterIsMultiple(k, chunkSize, overlap);
  }

  /** Window k + 1 begins with the last `overlap` characters of window k
      (fewer when the text ends first). */
  lemma ConsecutiveWindowsOverlap(text: string, chunkSize: int, overlap: int, k: nat)
    requires 0 <= overlap < chunkSize
    requires k + 1 < |RawWindows(text, chunkSize, overlap)|
    ensures var raw, step := RawWindows(text, chunkSize, overlap), chunkSize - overlap;
      && step <= |raw[k]|
      && |raw[k]| - step == Min(overlap, |text| - StartAfter(k + 1, chunkSize, overlap))
      && |raw[k]| - step <= |raw[k + 1]|
      && raw[k][step..] == raw[k + 1][..|raw[k]| - step]
  {
    var raw, step, n := RawWindows(text, chunkSize, overlap), chunkSize - overlap, |text|;
    WindowStartsFrom(n, chunkSize, overlap, 0, k);
    WindowStartsFrom(n, chunkSize, overlap, 0, k + 1);
    var a := StartAfter(k, chunkSize, overlap);
    var b := StartAfter(k + 1, chunkSize, overlap);
    assert b == a + step;
    StartAdvances(k, chunkSize, overlap);
    var aEnd := Min(a + chunkSize, n);
    var bEnd := Min(b + chunkSize, n);
    assert raw[k] == text[a..aEnd];
    assert raw[k + 1] == text[b..bEnd];
    assert raw[k][step..] == text[b..aEnd];
    assert raw[k + 1][..aEnd - b] == text[b..aEnd];
  }

  /** The text rebuilt from the first `step` characters of every window. */
  function Reassemble(raw: seq<string>, step: nat): string {
    if raw == [] then [] else raw[0][..Min(step, |raw[0]|)] + Reassemble(raw[1..], step)
  }

  lemma WindowsCons(text: string, chunkSize: int, start: nat, rest: seq<nat>)
    ensures Windows(text, chunkSize, [start] + rest)
         == [Slice(text, start, start + chunkSize)] + Windows(text, chunkSize, rest)
  {
    var ws := Windows(text, chunkSize, [start] + rest);
    assert forall k :: 0 < k < |ws| ==> ws[k] == Windows(text, chunkSize, rest)[k - 1];
  }

  lemma ReassembleCons(w: string, ws: seq<string>, step: nat)
    ensures Reassemble([w] + ws, step) == w[..Min(step, |w|)] + Reassemble(ws, step)
  {
    assert ([w] + ws)[0] == w && ([w] + ws)[1..] == ws;
  }

  lemma {:induction false} ReassembleFrom(text: string, chunkSize: int, overlap: int, start: nat)
    requires 0 <= overlap < chunkSize && start <= |text|
    ensures Reassemble(Windows(text, chunkSize, WindowStarts(|text|, chunkSize, overlap, start)),
                       chunkSize - overlap) == text[start..]
    decreases |text| - start
  {
    var n, step := |text|, chunkSize - overlap;
    if start < n {
      var next := start + chunkSize - overlap;
      var rest := WindowStarts(n, chunkSize, overlap, next);
      assert WindowStarts(n, chunkSize, overlap, start) == [start] + rest;
      WindowsCons(text, chunkSize, start, rest);
      var w := Slice(text, start, start + chunkSize);
      ReassembleCons(w, Windows(text, chunkSize, rest), step);
      ReassembleStep(text, chunkSize, overlap, start, w);
      if next <= n {
        ReassembleFrom(text, chunkSize, overlap, next);
      }
    }
  }

  /** The part window `w` at `start` contributes: up to the next start, or
      the rest of the text when the loop ends after it. */
  lemma ReassembleStep(text: string, chunkSize: int, overlap: int, start: nat, w: string)
    requires 0 <= overlap < chunkSize && start < |text| && w == Slice(text, start, start + chunkSize)
    ensures var next := start + chunkSize - overlap;
      && (next <= |text| ==> w[..Min(chunkSize - overlap, |w|)] + text[next..] == text[start..])
      && (next > |text| ==> w[..Min(chunkSize - overlap, |w|)] == text[start..]
                            && WindowStarts(|text|, chunkSize, overlap, next) == [])
  {
    var n, step, next := |text|, chunkSize - overlap, start + chunkSize - overlap;
    assert w == text[start..Min(start + chunkSize, n)];
    if next <= n {
      assert w[..Min(step, |w|)] == text[start..next];
      assert text[start..] == text[start..next] + text[next..];
    } else {
      assert w[..Min(step, |w|)] == text[start..];
    }
  }

  /** Dropping each window's `overlap` tail and concatenating gives back the
      text: the windows cover it, in order, without gaps. */
  lemma WindowsReassemble(text: string, chunkSize: int, overlap: int)
    requires 0 <= overlap < chunkSize
    ensures Reassemble(RawWindows(text, chunkSize, overlap), chunkSize - overlap) == text
  {
    ReassembleFrom(text, chunkSize, overlap, 0);
  }

  // ---------------------------------------------------------------------------
  // Properties of the returned chunks
  // ---------------------------------------------------------------------------

  /** The filter keeps the order of the windows: it distributes over `+`. */
  lemma {:induction false} KeepStrippedAppend(a: seq<string>, b: seq<string>)
    ensures KeepStripped(a + b) == KeepStripped(a) + KeepStripped(b)
  {
    if a == [] {
      assert a + b == b;
    } else {
      assert (a + b)[0] == a[0];
      assert (a + b)[1..] == a[1..] + b;
      KeepStrippedAppend(a[1..], b);
    }
  }

  /** Every chunk is non-empty, has no surrounding whitespace, is a
      contiguous piece of the text and is at most `chunk_size` long. */
  lemma ChunkBounds(text: string, chunkSize: int, overlap: int)
    requires 0 <= chunkSize && overlap < chunkSize
    ensures forall c :: c in Chunks(text, chunkSize, overlap) ==>
      c != [] && Stripped(c) && |c| <= chunkSize && IsInfix(c, text)
  {
    StrippedWindowsBounds(text, chunkSize, WindowStarts(|text|, chunkSize, overlap, 0));
  }

  lemma StrippedWindowsBounds(text: string, chunkSize: int, starts: seq<nat>)
    requires 0 <= chunkSize
    ensures forall c :: c in KeepStripped(Windows(text, chunkSize, starts)) ==>
      c != [] && Stripped(c) && |c| <= chunkSize && IsInfix(c, text)
  {
    var raw := Windows(text, chunkSize, starts);
    forall c | c in KeepStripped(raw)
      ensures c != [] && Stripped(c) && |c| <= chunkSize && IsInfix(c, text)
    {
      KeptChunkShape(raw, c);
      var k := KeepStrippedOrigin(raw, c);
      StrippedWindowAt(text, chunkSize, starts, k);
    }
  }

  lemma KeptChunkShape(raw: seq<string>, c: string)
    requires c in KeepStripped(raw)
    ensures c != [] && Stripped(c)
  {
    var chunks := KeepStripped(raw);
    var j :| 0 <= j < |chunks| && chunks[j] == c;
  }

  lemma StrippedWindowAt(text: string, chunkSize: int, starts: seq<nat>, k: nat)
    requires 0 <= chunkSize && k < |starts|
    ensures |Strip(Windows(text, chunkSize, starts)[k])| <= chunkSize
    ensures IsInfix(Strip(Windows(text, chunkSize, starts)[k]), text)
  {
    var w := Windows(text, chunkSize, starts)[k];
    WindowAt(text, chunkSize, starts, k);
    StrippedWindow(text, w, starts[k], chunkSize);
  }

  lemma WindowAt(text: string, chunkSize: int, starts: seq<nat>, k: nat)
    requires k < |starts|
    ensures Windows(text, chunkSize, starts)[k] == Slice(text, starts[k], starts[k] + chunkSize)
  {
  }

  lemma StrippedWindow(text: string, w: string, start: nat, chunkSize: int)
    requires 0 <= chunkSize && w == Slice(text, start, start + chunkSize)
    ensures |Strip(w)| <= chunkSize
    ensures IsInfix(Strip(w), text)
  {
    SliceIsInfix(text, start, start + chunkSize);
    StripOfInfix(w, text);
  }

  lemma StripOfInfix(w: string, text: string)
    requires IsInfix(w, text)
    ensures IsInfix(Strip(w), text)
  {
    StripIsInfix(w);
    InfixTransitive(Strip(w), w, text);
  }

  lemma StripIsInfix(s: string)
    ensures IsInfix(Strip(s), s)
  {
    StripTrims(s);
  }

  /** A text that fits in the first step gives one window, so at most one chunk. */
  lemma ShortTextSingleWindow(text: string, chunkSize: int, overlap: int)
    requires 0 <= overlap < chunkSize && |text| <= chunkSize - overlap
    ensures Chunks(text, chunkSize, overlap) == if Strip(text) == [] then [] else [Strip(text)]
  {
    var n := |text|;
    if n > 0 {
      assert WindowStarts(n, chunkSize, overlap, chunkSize - overlap) == [];
      assert WindowStarts(n, chunkSize, overlap, 0) == [0];
      assert Slice(text, 0, chunkSize) == text;
      assert RawWindows(text, chunkSize, overlap) == [text];
    }
  }

  /** A text no longer than `chunk_size` can still give two chunks: the second
      window starts at `chunk_size - overlap`, inside the text. */
  lemma ShortTextTwoChunks()
    ensures Chunks("abcd", 4, 1) == ["abcd", "d"]
  {
    assert WindowStarts(4, 4, 1, 6) == [];
    assert WindowStarts(4, 4, 1, 3) == [3];
    assert WindowStarts(4, 4, 1, 0) == [0, 3];
    assert Slice("abcd", 0, 4) == "abcd";
    assert Slice("abcd", 3, 7) == "d";
    assert RawWindows("abcd", 4, 1) == ["abcd", "d"];
    assert SkipSpace("abcd", 0) == 0 && SkipSpaceBack("abcd", 0, 4) == 4;
    assert SkipSpace("d", 0) == 0 && SkipSpaceBack("d", 0, 1) == 1;
    assert Strip("abcd") == "abcd" && Strip("d") == "d";
    KeepSingle("d");
    var raw: seq<string> := ["abcd", "d"];
    assert raw[0] == "abcd" && raw[1..] == ["d"];
  }

  lemma KeepSingle(w: string)
    requires Strip(w) == w && w != []
    ensures KeepStripped([w]) == [w]
  {
    assert [w][1..] == [];
  }

  /** The filter drops everything exactly when every window strips to nothing. */
  lemma {:induction false} KeepStrippedEmpty(raw: seq<string>)
    ensures KeepStripped(raw) == [] <==> forall k :: 0 <= k < |raw| ==> Strip(raw[k]) == []
  {
    if raw != [] {
      KeepStrippedEmpty(raw[1..]);
      assert forall k :: 1 <= k < |raw| ==> raw[k] == raw[1..][k - 1];
    }
  }

  /** `chunk_text` returns no chunk exactly when the text is all whitespace
      (the empty text included): the windows cover every character. */
  lemma ChunksEmptyIff(text: string, chunkSize: int, overlap: int)
    requires 0 <= overlap < chunkSize
    ensures Chunks(text, chunkSize, overlap) == [] <==> AllSpace(text)
  {
    var raw := RawWindows(text, chunkSize, overlap);
    KeepStrippedEmpty(raw);
    if AllSpace(text) {
      forall k | 0 <= k < |raw| ensures Strip(raw[k]) == [] {
        WindowAllSpace(text, chunkSize, overlap, k);
      }
    } else {
      var p :| 0 <= p < |text| && !IsSpace(text[p]);
      var k := WindowHolding(text, chunkSize, overlap, p);
      StripTrims(raw[k]);
    }
  }

  /** Every window of an all-whitespace text strips to nothing. */
  lemma WindowAllSpace(text: string, chunkSize: int, overlap: int, k: nat)
    requires overlap < chunkSize && AllSpace(text)
    requires k < |RawWindows(text, chunkSize, overlap)|
    ensures Strip(RawWindows(text, chunkSize, overlap)[k]) == []
  {
    var w := RawWindows(text, chunkSize, overlap)[k];
    var starts := WindowStarts(|text|, chunkSize, overlap, 0);
    assert w == Slice(text, starts[k], starts[k] + chunkSize);
    SliceIsInfix(text, starts[k], starts[k] + chunkSize);
    var lo: nat :| OccursAt(w, text, lo);
    assert forall i :: 0 <= i < |w| ==> w[i] == text[lo + i];
    StripTrims(w);
  }

  /** The window that starts at the last step not beyond `p` holds the
      character at `p`. */
  lemma WindowHolding(text: string, chunkSize: int, overlap: int, p: nat) returns (k: nat)
    requires 0 <= overlap < chunkSize && p < |text|
    ensures k < |RawWindows(text, chunkSize, overlap)|
    ensures !AllSpace(RawWindows(text, chunkSize, overlap)[k]) || IsSpace(text[p])
  {
    k := StepHolding(p, chunkSize, overlap, 0);
    var a := StartAfter(k, chunkSize, overlap);
    WindowStartsFrom(|text|, chunkSize, overlap, 0, k);
    var w := RawWindows(text, chunkSize, overlap)[k];
    assert w == Slice(text, a, a + chunkSize);
    assert w == text[a..if a + chunkSize < |text| then a + chunkSize else |text|];
    assert w[p - a] == text[p];
  }

  /** The step `k >= j` whose window start is the last one not beyond `p`. */
  lemma {:induction false} StepHolding(p: nat, chunkSize: int, overlap: int, j: nat) returns (k: nat)
    requires 0 <= overlap < chunkSize && StartAfter(j, chunkSize, overlap) <= p
    ensures StartAfter(k, chunkSize, overlap) <= p < StartAfter(k + 1, chunkSize, overlap)
    decreases p - StartAfter(j, chunkSize, overlap)
  {
    if p < StartAfter(j + 1, chunkSize, overlap) {
      k := j;
    } else {
      k := StepHolding(p, chunkSize, overlap, j + 1);
    }
  }

  lemma AllSpaceConcat(a: string, b: string)
    ensures AllSpace(a + b) <==> AllSpace(a) && AllSpace(b)
  {
    if AllSpace(a + b) {
      assert forall i :: 0 <= i < |a| ==> a[i] == (a + b)[i];
      assert forall i :: 0 <= i < |b| ==> b[i] == (a + b)[|a| + i];
    }
  }

  /** The newline-joined text of the uploaded files is all whitespace exactly
      when every file's text is: the separator itself is whitespace. */
  lemma {:induction false} JoinAllSpace(parts: seq<string>)
    ensures AllSpace(Join("\n", parts)) <==> forall i :: 0 <= i < |parts| ==> AllSpace(parts[i])
  {
    if |parts| > 1 {
      var rest := Join("\n", parts[1..]);
      JoinAllSpace(parts[1..]);
      AllSpaceConcat(parts[0] + "\n", rest);
      AllSpaceConcat(parts[0], "\n");
      assert forall i :: 1 <= i < |parts| ==> parts[i] == parts[1..][i - 1];
    }
  }
}
