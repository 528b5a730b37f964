/** The sliding-window chunker of `rag/chunker.py`. Fresh UUIDs are a supply `ids`: the i-th chunk of
    one `chunk` call is given `ids(i)`. */
module Chunker {
  import opened Prelude
  import opened Text
  import opened Parser

  const CHARS_PER_TOKEN := 4

  datatype Chunk = Chunk(
    chunkId: string,
    documentId: string,
    content: string,
    chunkIndex: nat,
    startChar: nat,
    endChar: int,
    metadata: map<string, string>)

  datatype ValueError = OverlapTooLarge

  datatype Window = Window(start: nat, end: int)

  /** Where the window that begins at `start` ends: `size` characters on, drawn back to the last space
      inside it unless it reaches the end of the text. */
  function Cut(text: string, start: nat, size: int): int {
    var end := MinInt(start + size, |text|);
    if end < |text| then
      var boundary := RFindSpace(text, SliceBound(start, |text|), SliceBound(end, |text|));
      if boundary > start then boundary else end
    else end
  }

  /** The windows from `start` on. The next one begins `step` further, wherever this one was cut. */
  function Windows(text: string, size: int, step: int, start: nat): seq<Window>
    requires step > 0
    decreases |text| - start
  {
    if start >= |text| then []
    else
      var end := Cut(text, start, size);
      [Window(start, end)] + if end >= |text| then [] else Windows(text, size, step, start + step)
  }

  function WindowText(text: string, w: Window): string {
    Slice(text, w.start, w.end)
  }

  /** One chunk for each window that is not blank, numbered from `index`. */
  function ChunksOf(doc: ParsedDocument, ws: seq<Window>, index: nat, ids: nat -> string): seq<Chunk> {
    if ws == [] then []
    else
      var content := Strip(WindowText(doc.content, ws[0]));
      if content == [] then ChunksOf(doc, ws[1..], index, ids)
      else [Chunk(ids(index), doc.documentId, content, index, ws[0].start, ws[0].end, doc.metadata)]
           + ChunksOf(doc, ws[1..], index + 1, ids)
  }

  function WindowsOf(text: string, chunkSize: int, overlap: int): seq<Window>
    requires overlap < chunkSize
  {
    var size := chunkSize * CHARS_PER_TOKEN;
    Windows(text, size, size - overlap * CHARS_PER_TOKEN, 0)
  }

  function Chunks(doc: ParsedDocument, chunkSize: int, overlap: int, ids: nat -> string): seq<Chunk>
    requires overlap < chunkSize
  {
    ChunksOf(doc, WindowsOf(doc.content, chunkSize, overlap), 0, ids)
  }

  class SlidingWindowChunker {
    const chunkSize: int
    const overlap: int

    predicate Valid() {
      overlap < chunkSize
    }

    constructor Unchecked(chunkSize: int, overlap: int)
      requires overlap < chunkSize
      ensures Valid() && this.chunkSize == chunkSize && this.overlap == overlap
    {
      this.chunkSize := chunkSize;
      this.overlap := overlap;
    }

    static method Create(chunkSize: int, overlap: int) returns (r: Result<SlidingWindowChunker, ValueError>)
      ensures r.Err? <==> overlap >= chunkSize
      ensures r.Ok? ==> r.value.Valid() && r.value.chunkSize == chunkSize && r.value.overlap == overlap
    {
      if overlap >= chunkSize { return Err(OverlapTooLarge); }
      var c := new SlidingWindowChunker.Unchecked(chunkSize, overlap);
      return Ok(c);
    }

    method ChunkDocument(document: ParsedDocument, ids: nat -> string) returns (chunks: seq<Chunk>)
      requires Valid()
      ensures chunks == Chunks(document, chunkSize, overlap, ids)
    {
      hide Strip, Slice, Cut, RFindSpace, ChunksFrom;
      var text := document.content;
      var chunkChars := chunkSize * CHARS_PER_TOKEN;
      var overlapChars := overlap * CHARS_PER_TOKEN;
      var step := chunkChars - overlapChars;
      chunks := [];
      ghost var all := ChunksFrom(document, chunkChars, step, 0, 0, ids);
      assert all == Chunks(document, chunkSize, overlap, ids) by { ChunksAreFrom(document, chunkSize, overlap, ids); }
      hide Chunks;
      if text == [] {
        ChunksEnd(document, chunkChars, step, 0, 0, ids);
        return;
      }
      var start, index := 0, 0;
      while start < |text|
        invariant 0 <= start && 0 <= index
        invariant all == chunks + ChunksFrom(document, chunkChars, step, start, index, ids)
      {
        var end := MinInt(start + chunkChars, |text|);
        if end < |text| {
          var boundary := RFindSpace(text, SliceBound(start, |text|), SliceBound(end, |text|));
          if boundary > start { end := boundary; }
        }
        CutMeans(text, start, chunkChars);
        ChunksStep(document, chunkChars, step, start, end, index, ids);
        var chunkText := Strip(Slice(text, start, end));
        if chunkText != [] {
          chunks := chunks + [Chunk(ids(index), document.documentId, chunkText, index, start, end, document.metadata)];
          index := index + 1;
        }
        if end >= |text| { return; }
        start := start + step;
      }
      ChunksEnd(document, chunkChars, step, start, index, ids);
    }
  }

  /** The chunks made of the windows from `start` on. */
  function ChunksFrom(doc: ParsedDocument, size: int, step: int, start: nat, index: nat, ids: nat -> string): seq<Chunk>
    requires step > 0
  {
    ChunksOf(doc, Windows(doc.content, size, step, start), index, ids)
  }

  lemma ChunksAreFrom(doc: ParsedDocument, chunkSize: int, overlap: int, ids: nat -> string)
    requires overlap < chunkSize
    ensures Chunks(doc, chunkSize, overlap, ids) ==
      ChunksFrom(doc, 4 * chunkSize, 4 * chunkSize - 4 * overlap, 0, 0, ids)
  {
    hide ChunksOf, Windows, Normal;
  }

  lemma ChunksEnd(doc: ParsedDocument, size: int, step: int, start: nat, index: nat, ids: nat -> string)
    requires step > 0 && start >= |doc.content|
    ensures ChunksFrom(doc, size, step, start, index, ids) == []
  {
    WindowsUnfold(doc.content, size, step, start);
    NoWindows(doc, ids);
  }

  /** One pass of the loop. */
  lemma ChunksStep(doc: ParsedDocument, size: int, step: int, start: nat, end: int, index: nat, ids: nat -> string)
    requires step > 0 && start < |doc.content| && end == Cut(doc.content, start, size)
    ensures var content := Strip(Slice(doc.content, start, end));
      var made := if content == [] then [] else
        [Chunk(ids(index), doc.documentId, content, index, start, end, doc.metadata)];
      ChunksFrom(doc, size, step, start, index, ids) ==
        made + if end >= |doc.content| then []
               else ChunksFrom(doc, size, step, start + step, index + |made|, ids)
  {
    hide Strip, Slice, Cut, ChunksOf, Windows;
    WindowsUnfold(doc.content, size, step, start);
    var rest := if end >= |doc.content| then [] else Windows(doc.content, size, step, start + step);
    ChunksOfCons(doc, Window(start, end), rest, index, ids);
    NoWindows(doc, ids);
  }

  // ---------------------------------------------------------------- the shape of the windows

  lemma WindowsUnfold(text: string, size: int, step: int, start: nat)
    requires step > 0
    ensures Windows(text, size, step, start) ==
      if start >= |text| then []
      else [Window(start, Cut(text, start, size))]
           + if Cut(text, start, size) >= |text| then [] else Windows(text, size, step, start + step)
  {
  }

  lemma NoWindows(doc: ParsedDocument, ids: nat -> string)
    ensures forall index :: ChunksOf(doc, [], index, ids) == []
  {
  }

  lemma ChunksOfCons(doc: ParsedDocument, w: Window, rest: seq<Window>, index: nat, ids: nat -> string)
    ensures var content := Strip(Slice(doc.content, w.start, w.end));
      ChunksOf(doc, [w] + rest, index, ids) ==
        if content == [] then ChunksOf(doc, rest, index, ids)
        else [Chunk(ids(index), doc.documentId, content, index, w.start, w.end, doc.metadata)] + ChunksOf(doc, rest, index + 1, ids)
  {
    hide Strip, Slice;
    assert ([w] + rest)[1..] == rest;
  }

  /** ceil(a / b) for positive b. */
  function CeilDiv(a: int, b: int): int
    requires b > 0
  {
    (a + b - 1) / b
  }

  /** The number of windows over n characters. */
  function WindowCount(n: int, size: int, step: int): int
    requires step > 0
  {
    if n <= size then 1 else 1 + CeilDiv(n - size, step)
  }

  lemma DivUnique(x: int, b: int, q: int, r: int)
    requires x == b * q + r && 0 <= r < b
    ensures x / b == q
  {
    var d := q - x / b;
    assert b * d == x % b - r;
    if d >= 1 { LessThanMultiple(b, d); }
    if d <= -1 { LessThanMultiple(b, -d); }
  }

  lemma LessThanMultiple(b: int, d: int)
    requires b > 0 && d >= 1
    ensures b * d >= b
  {
  }

  lemma CeilDivStep(a: int, b: int)
    requires b > 0
    ensures CeilDiv(a, b) == 1 + CeilDiv(a - b, b)
    ensures -b < a <= 0 ==> CeilDiv(a, b) == 0
  {
    var q, r := (a - 1) / b, (a - 1) % b;
    assert a - b + b - 1 == b * q + r;
    assert b * (q + 1) == b * q + b;
    DivUnique(a - b + b - 1, b, q, r);
    DivUnique(a + b - 1, b, q + 1, r);
    if -b < a <= 0 { DivUnique(a + b - 1, b, 0, a + b - 1); }
  }

  lemma CutMeans(text: string, start: nat, size: int)
    ensures var end := MinInt(start + size, |text|);
      Cut(text, start, size) ==
        if end < |text| && RFindSpace(text, SliceBound(start, |text|), SliceBound(end, |text|)) > start
        then RFindSpace(text, SliceBound(start, |text|), SliceBound(end, |text|)) else end
  {
  }

  /** A cut lies after its start; it is the end of the text exactly when the window reaches it; and
      between a cut and the full width of the window there is no further space. */
  lemma CutBounds(text: string, start: nat, size: int)
    requires start < |text| && size > 0
    ensures start < Cut(text, start, size) <= MinInt(start + size, |text|)
    ensures Cut(text, start, size) == |text| <==> start + size >= |text|
    ensures Cut(text, start, size) < MinInt(start + size, |text|) ==> text[Cut(text, start, size)] == ' '
    ensures Cut(text, start, size) < |text| ==>
      forall i :: Cut(text, start, size) < i < start + size ==> text[i] != ' '
  {
  }

  /** Two neighbouring windows. */
  predicate Adjacent(text: string, step: int, v: Window, w: Window) {
    w.start == v.start + step && v.end < |text|
  }

  /** The windows over `text` from `start` on form a chain that ends with the text. */
  ghost predicate Chain(text: string, size: int, step: int, start: nat, ws: seq<Window>) {
    && ws != [] && ws[0].start == start && ws[|ws| - 1].end == |text|
    && (forall i :: 0 <= i < |ws| ==> ws[i].start < |text| && ws[i].end == Cut(text, ws[i].start, size))
    && (forall i, j :: 0 <= i < |ws| && j == i + 1 < |ws| ==> Adjacent(text, step, ws[i], ws[j]))
  }

  lemma ChainCons(text: string, size: int, step: int, start: nat, rest: seq<Window>)
    requires start < |text| && Cut(text, start, size) < |text| && start + step >= 0
    requires Chain(text, size, step, start + step, rest)
    ensures Chain(text, size, step, start, [Window(start, Cut(text, start, size))] + rest)
  {
    hide Cut;
    var ws := [Window(start, Cut(text, start, size))] + rest;
    forall i | 0 <= i < |ws| ensures ws[i].start < |text| && ws[i].end == Cut(text, ws[i].start, size) {
      if i > 0 { assert ws[i] == rest[i - 1]; }
    }
    forall i, j | 0 <= i < |ws| && j == i + 1 < |ws| ensures Adjacent(text, step, ws[i], ws[j]) {
      if i > 0 { assert ws[i] == rest[i - 1] && ws[j] == rest[i]; }
    }
  }

  lemma {:induction false} WindowsChain(text: string, size: int, step: int, start: nat)
    requires start < |text| && 0 < step <= size
    ensures Chain(text, size, step, start, Windows(text, size, step, start))
    decreases |text| - start
  {
    hide Chain, Cut;
    CutBounds(text, start, size);
    var w := Window(start, Cut(text, start, size));
    if w.end < |text| {
      var rest := Windows(text, size, step, start + step);
      WindowsChain(text, size, step, start + step);
      ChainCons(text, size, step, start, rest);
      assert Windows(text, size, step, start) == [w] + rest;
    } else {
      ChainOne(text, size, step, start);
      assert Windows(text, size, step, start) == [w];
    }
  }

  lemma ChainOne(text: string, size: int, step: int, start: nat)
    requires start < |text| && Cut(text, start, size) == |text|
    ensures Chain(text, size, step, start, [Window(start, Cut(text, start, size))])
  {
    hide Cut;
  }

  /** Their number is the closed form. */
  lemma {:induction false} WindowsCounted(text: string, size: int, step: int, start: nat)
    requires start < |text| && 0 < step <= size
    ensures |Windows(text, size, step, start)| == WindowCount(|text| - start, size, step)
    decreases |text| - start
  {
    hide Cut, CeilDiv;
    CutBounds(text, start, size);
    if |text| - start > size {
      CeilDivStep(|text| - start - size, step);
      CeilDivStep(|text| - start - size - step, step);
      WindowsCounted(text, size, step, start + step);
      var rest := Windows(text, size, step, start + step);
      assert Windows(text, size, step, start) == [Window(start, Cut(text, start, size))] + rest;
    }
  }

  lemma NextStart(text: string, size: int, step: int, start: nat, ws: seq<Window>, i: nat)
    requires Chain(text, size, step, start, ws) && 0 < i < |ws|
    ensures ws[i].start == ws[i - 1].start + step
  {
    hide Cut;
    assert Adjacent(text, step, ws[i - 1], ws[i]);
  }

  /** Window i begins i steps after the first. */
  lemma {:induction false} StartsEvenly(text: string, size: int, step: int, start: nat, ws: seq<Window>, i: nat)
    requires Chain(text, size, step, start, ws) && i < |ws|
    ensures ws[i].start == start + i * step
  {
    if i > 0 {
      NextStart(text, size, step, start, ws, i);
      StartsEvenly(text, size, step, start, ws, i - 1);
      hide Chain;
      assert i * step == (i - 1) * step + step;
    }
  }

  lemma LastEnd(text: string, size: int, step: int, ws: seq<Window>)
    requires Chain(text, size, step, 0, ws)
    ensures ws != [] && ws[|ws| - 1].end == |text|
  {
  }

  /** Which windows there are: window i + 1 exists exactly when a window at i * step stops short of the
      end of the text. */
  lemma {:induction false} WindowExistsIff(text: string, size: int, step: int, ws: seq<Window>, i: nat)
    requires 0 < step <= size && Chain(text, size, step, 0, ws)
    ensures i + 1 < |ws| <==> i * step + size < |text|
    ensures i < |ws| ==> ws[i].start == i * step
  {
    hide Cut, Chain;
    LastEnd(text, size, step, ws);
    if i > 0 {
      WindowExistsIff(text, size, step, ws, i - 1);
      assert i * step == (i - 1) * step + step;
    }
    if i < |ws| {
      StartsEvenly(text, size, step, 0, ws, i);
      WindowReaches(text, size, step, ws, i);
    }
  }

  lemma WindowReaches(text: string, size: int, step: int, ws: seq<Window>, i: nat)
    requires 0 < step <= size && Chain(text, size, step, 0, ws) && i < |ws|
    ensures i + 1 < |ws| <==> ws[i].start + size < |text|
  {
    hide Cut;
    CutBounds(text, ws[i].start, size);
    if i + 1 < |ws| { assert Adjacent(text, step, ws[i], ws[i + 1]); }
  }

  lemma WindowIs(text: string, size: int, step: int, ws: seq<Window>, i: nat)
    requires 0 < step <= size && Chain(text, size, step, 0, ws) && i < |ws|
    ensures i * step >= 0 && ws[i] == Window(i * step, Cut(text, i * step, size))
  {
    StartsEvenly(text, size, step, 0, ws, i);
  }

  /** Cuts never move backwards from one window to the next. */
  lemma CutsMonotone(text: string, start: nat, size: int, step: int)
    requires 0 < step <= size && start + step < |text|
    ensures Cut(text, start, size) <= Cut(text, start + step, size)
  {
    CutBounds(text, start, size);
    CutBounds(text, start + step, size);
  }

  lemma {:induction false} EndsMonotone(text: string, size: int, step: int, start: nat, ws: seq<Window>, i: nat, j: nat)
    requires 0 < step <= size && Chain(text, size, step, start, ws)
    requires i <= j < |ws|
    ensures ws[i].end <= ws[j].end && ws[i].start <= ws[j].start
    decreases j
  {
    hide Cut;
    if i < j {
      EndsMonotone(text, size, step, start, ws, i, j - 1);
      assert Adjacent(text, step, ws[j - 1], ws[j]);
      CutsMonotone(text, ws[j - 1].start, size, step);
    }
  }

  // ---------------------------------------------------------------- coverage

  ghost predicate Covered(ws: seq<Window>, p: int) {
    exists i :: 0 <= i < |ws| && ws[i].start <= p < ws[i].end
  }

  /** `p` lies between the cut of window i and the start of the next window. */
  predicate InGap(ws: seq<Window>, i: nat, p: int) {
    i + 1 < |ws| && ws[i].end <= p < ws[i + 1].start
  }

  /** The last window that starts at or before p. */
  lemma {:induction false} LastStartBefore(ws: seq<Window>, p: int, k: nat) returns (i: nat)
    requires k < |ws| && ws[0].start <= p
    requires k + 1 < |ws| ==> p < ws[k + 1].start
    ensures i < |ws| && ws[i].start <= p && (i + 1 < |ws| ==> p < ws[i + 1].start)
  {
    if ws[k].start <= p { i := k; } else { i := LastStartBefore(ws, p, k - 1); }
  }

  /** The positions no window covers are exactly the gaps between a cut and the next start. */
  lemma UncoveredAreGaps(text: string, size: int, step: int, p: nat)
    requires p < |text| && 0 < step <= size
    ensures var ws := Windows(text, size, step, 0);
      !Covered(ws, p) <==> exists i: nat :: InGap(ws, i, p)
  {
    hide Windows, Cut;
    var ws := Windows(text, size, step, 0);
    WindowsChain(text, size, step, 0);
    if !Covered(ws, p) {
      var i := LastStartBefore(ws, p, |ws| - 1);
      assert InGap(ws, i, p);
    }
    if i: nat :| InGap(ws, i, p) {
      forall j | 0 <= j < |ws| ensures !(ws[j].start <= p < ws[j].end) {
        if j <= i { EndsMonotone(text, size, step, 0, ws, j, i); }
        else { EndsMonotone(text, size, step, 0, ws, i + 1, j); }
      }
    }
  }

  /** The cut of window w did not retreat further than to the space just before the next start. */
  predicate ShortRetreat(w: Window, step: int) {
    w.start + step <= w.end + 1
  }

  /** On normal text a gap begins with the space the cut retreated to. So part of a word is lost exactly
      when some cut retreats past the space just before the next window. */
  lemma LostIffLongRetreat(text: string, size: int, step: int)
    requires text != [] && Normal(text) && 0 < step <= size
    ensures var ws := Windows(text, size, step, 0);
      (forall p: nat :: p < |text| && !IsSpace(text[p]) ==> Covered(ws, p))
      <==> (forall i :: 0 <= i < |ws| - 1 ==> ShortRetreat(ws[i], step))
  {
    hide Windows, Cut, Normal, Covered;
    var ws := Windows(text, size, step, 0);
    if forall i :: 0 <= i < |ws| - 1 ==> ShortRetreat(ws[i], step) {
      forall p: nat | p < |text| && !IsSpace(text[p]) ensures Covered(ws, p) {
        ShortRetreatsCover(text, size, step, p);
      }
    } else {
      var i :| 0 <= i < |ws| - 1 && !ShortRetreat(ws[i], step);
      LongRetreatLoses(text, size, step, i);
    }
  }

  predicate SpaceIn(text: string, lo: nat, hi: int)
    requires hi <= |text|
  {
    exists q :: lo <= q < hi && text[q] == ' '
  }

  /** A window at s that stops short of the end of the text leaves no gap inside a word: there is no space
      to retreat to, or the last one is at the end of the step or later. */
  predicate NoLossAt(text: string, size: int, step: int, s: nat)
    requires 0 < step <= size && s + size <= |text|
  {
    SpaceIn(text, s + 1, s + size) ==> SpaceIn(text, MaxInt(s + 1, s + step - 1), s + size)
  }

  ghost predicate NoLossAnywhere(text: string, size: int, step: int)
    requires 0 < step <= size
  {
    forall i: nat :: i * step + size < |text| ==> NoLossAt(text, size, step, i * step)
  }

  lemma ShortRetreatIff(text: string, size: int, step: int, s: nat)
    requires 0 < step <= size && s + size < |text|
    ensures ShortRetreat(Window(s, Cut(text, s, size)), step) <==> NoLossAt(text, size, step, s)
  {
    hide Cut;
    CutBounds(text, s, size);
    var cut := Cut(text, s, size);
    if cut == s + size {
      NoSpaceToCut(text, s, size);
    } else {
      assert text[cut] == ' ';
      assert SpaceIn(text, s + 1, s + size);
    }
  }

  /** The cut keeps the full width only when there is no space to retreat to. */
  lemma NoSpaceToCut(text: string, s: nat, size: int)
    requires size > 0 && s + size < |text|
    ensures Cut(text, s, size) == s + size <==> !SpaceIn(text, s + 1, s + size)
  {
  }

  /** On normal text no character of a word is lost exactly when every window that stops short of the end
      finds no space to retreat to, or finds one at the end of its step or later. */
  lemma CharsLostIff(text: string, size: int, step: int)
    requires Normal(text) && 0 < step <= size
    ensures (forall p: nat :: p < |text| && !IsSpace(text[p]) ==> Covered(Windows(text, size, step, 0), p))
      <==> NoLossAnywhere(text, size, step)
  {
    hide Windows, Cut, Normal, Covered, NoLossAt, ShortRetreat, Chain;
    if text != [] {
      var ws := Windows(text, size, step, 0);
      WindowsChain(text, size, step, 0);
      LostIffLongRetreat(text, size, step);
      forall i: nat
        ensures i + 1 < |ws| <==> i * step + size < |text|
        ensures i + 1 < |ws| ==> (ShortRetreat(ws[i], step) <==> NoLossAt(text, size, step, i * step))
      {
        WindowExistsIff(text, size, step, ws, i);
        if i + 1 < |ws| {
          WindowIs(text, size, step, ws, i);
          ShortRetreatIff(text, size, step, i * step);
        }
      }
    }
  }

  lemma ShortRetreatsCover(text: string, size: int, step: int, p: nat)
    requires p < |text| && !IsSpace(text[p]) && 0 < step <= size
    requires var ws := Windows(text, size, step, 0); forall i :: 0 <= i < |ws| - 1 ==> ShortRetreat(ws[i], step)
    ensures Covered(Windows(text, size, step, 0), p)
  {
    hide Windows, Cut, Covered;
    var ws := Windows(text, size, step, 0);
    WindowsChain(text, size, step, 0);
    UncoveredAreGaps(text, size, step, p);
    if i: nat :| InGap(ws, i, p) {
      NextStart(text, size, step, 0, ws, i + 1);
      assert ShortRetreat(ws[i], step);
      CutBounds(text, ws[i].start, size);
    }
  }

  lemma LongRetreatLoses(text: string, size: int, step: int, i: nat)
    requires text != [] && Normal(text) && 0 < step <= size
    requires var ws := Windows(text, size, step, 0); i < |ws| - 1 && !ShortRetreat(ws[i], step)
    ensures var ws := Windows(text, size, step, 0); var p := ws[i].end + 1;
      0 <= p < |text| && !IsSpace(text[p]) && !Covered(ws, p)
  {
    hide Windows, Cut;
    var ws := Windows(text, size, step, 0);
    WindowsChain(text, size, step, 0);
    var p := ws[i].end + 1;
    assert Adjacent(text, step, ws[i], ws[i + 1]);
    CutBounds(text, ws[i].start, size);
    assert text[p - 1] == ' ';
    UncoveredAreGaps(text, size, step, p);
    assert InGap(ws, i, p);
  }

  /** When no word is longer than the overlap, every non-space character is covered. */
  lemma ShortWordsCovered(text: string, size: int, step: int, p: nat)
    requires Normal(text) && 0 < step <= size && RunsAtMost(text, size - step)
    requires p < |text| && !IsSpace(text[p])
    ensures Covered(Windows(text, size, step, 0), p)
  {
    hide Windows, Cut;
    var ws := Windows(text, size, step, 0);
    WindowsChain(text, size, step, 0);
    forall i | 0 <= i < |ws| - 1 ensures ShortRetreat(ws[i], step) {
      var start, end := ws[i].start, ws[i].end;
      assert Adjacent(text, step, ws[i], ws[i + 1]);
      CutBounds(text, start, size);
      if end < start + size {
        assert NoSpaceIn(text, end + 1, start + size);
      }
    }
    LostIffLongRetreat(text, size, step);
  }

  // ---------------------------------------------------------------- splitting words

  /** A boundary at p would fall between two characters of one word. */
  predicate InsideWord(text: string, p: int) {
    0 < p < |text| && !IsSpace(text[p - 1]) && !IsSpace(text[p])
  }

  /** No window starts or ends inside a word. */
  ghost predicate SplitsNoWord(text: string, ws: seq<Window>) {
    forall i :: 0 <= i < |ws| ==> !InsideWord(text, ws[i].start) && !InsideWord(text, ws[i].end)
  }

  /** A window at s that stops short of the end of the text splits no word by its cut, nor does the start
      of the next one. */
  predicate NoSplitAt(text: string, size: int, step: int, s: nat)
    requires s + size < |text|
  {
    !InsideWord(text, s + step) && SpaceIn(text, s + 1, s + size + 1)
  }

  ghost predicate NoSplitAnywhere(text: string, size: int, step: int)
    requires step > 0
  {
    forall i: nat :: i * step + size < |text| ==> NoSplitAt(text, size, step, i * step)
  }

  lemma CutInsideWordIff(text: string, size: int, s: nat)
    requires Normal(text) && size >= 2 && s + size < |text|
    ensures InsideWord(text, Cut(text, s, size)) <==> !SpaceIn(text, s + 1, s + size + 1)
  {
    hide Cut;
    CutBounds(text, s, size);
    NoSpaceToCut(text, s, size);
    var cut := Cut(text, s, size);
    if cut < s + size {
      assert text[cut] == ' ';
    } else {
      assert text[s + size - 1] != ' ';
      assert text[s + size] == ' ' ==> SpaceIn(text, s + 1, s + size + 1);
    }
  }

  /** On normal text no window starts or ends inside a word exactly when, for every window that stops
      short of the end, the next one starts at a word boundary and there is a space to cut at. */
  lemma NoWordSplitIff(text: string, size: int, step: int)
    requires Normal(text) && 0 < step <= size && size >= 2
    ensures SplitsNoWord(text, Windows(text, size, step, 0))
      <==> NoSplitAnywhere(text, size, step)
  {
    hide Windows, Cut, Normal, Chain, InsideWord, SpaceIn;
    if text != [] {
      var ws := Windows(text, size, step, 0);
      WindowsChain(text, size, step, 0);
      if SplitsNoWord(text, ws) {
        forall i: nat | i * step + size < |text| ensures NoSplitAt(text, size, step, i * step) {
          WindowExistsIff(text, size, step, ws, i);
          WindowIs(text, size, step, ws, i);
          NextStart(text, size, step, 0, ws, i + 1);
          CutInsideWordIff(text, size, i * step);
          assert !InsideWord(text, ws[i + 1].start);
        }
      }
      if NoSplitAnywhere(text, size, step) {
        forall i | 0 <= i < |ws| ensures !InsideWord(text, ws[i].start) && !InsideWord(text, ws[i].end) {
          NoSplitWindow(text, size, step, ws, i);
        }
      }
    } else {
      WindowsUnfold(text, size, step, 0);
      assert forall i: nat :: i * step >= 0;
    }
  }

  lemma NoSplitWindow(text: string, size: int, step: int, ws: seq<Window>, i: nat)
    requires Normal(text) && 0 < step <= size && size >= 2 && Chain(text, size, step, 0, ws) && i < |ws|
    requires NoSplitAnywhere(text, size, step)
    ensures !InsideWord(text, ws[i].start) && !InsideWord(text, ws[i].end)
  {
    hide Cut, Normal, SpaceIn, Chain;
    WindowIs(text, size, step, ws, i);
    WindowExistsIff(text, size, step, ws, i);
    if i > 0 {
      WindowExistsIff(text, size, step, ws, i - 1);
      assert NoSplitAt(text, size, step, (i - 1) * step);
      assert i * step == (i - 1) * step + step;
    }
    if i + 1 < |ws| {
      assert NoSplitAt(text, size, step, i * step);
      CutInsideWordIff(text, size, i * step);
    } else {
      assert ws[i].end == |text| by { LastEnd(text, size, step, ws); }
    }
  }

  /** A text of short words: two letters, then three at a time, one space between words. */
  function ShortWords(n: nat): (text: string)
    ensures |text| == n
  {
    seq(n, i requires 0 <= i < n => if i % 4 == 2 then ' ' else 'a')
  }

  lemma ShortWordsNormal(n: nat)
    requires n % 4 == 0
    ensures Normal(ShortWords(n)) && RunsAtMost(ShortWords(n), 3)
  {
    var text := ShortWords(n);
    forall lo, hi | 0 <= lo <= hi <= |text| && NoSpaceIn(text, lo, hi) ensures hi - lo <= 3 {
      var q := NextSpace(lo);
      assert q < |text| ==> IsSpace(text[q]);
    }
  }

  /** The first position at or after lo that is 2 modulo 4. */
  function NextSpace(lo: nat): (q: nat)
    ensures lo <= q <= lo + 3 && q % 4 == 2
  {
    if lo % 4 == 2 then lo
    else if lo % 4 == 1 then lo + 1
    else if lo % 4 == 0 then lo + 2
    else lo + 3
  }

  /** The text promises that chunks do not split words. Under every setting a text of words of at most
      three letters breaks that promise: its second window starts inside a word. */
  lemma ShortWordSplit(chunkSize: int, overlap: int) returns (text: string)
    requires 0 <= overlap < chunkSize
    ensures Normal(text) && RunsAtMost(text, 3)
    ensures var ws := WindowsOf(text, chunkSize, overlap); |ws| > 1 && InsideWord(text, ws[1].start)
  {
    hide Windows, Cut, Normal, RunsAtMost, Chain;
    var size, step := 4 * chunkSize, 4 * chunkSize - 4 * overlap;
    text := ShortWords(size + 4);
    ShortWordsNormal(size + 4);
    WindowsChain(text, size, step, 0);
    WindowExistsIff(text, size, step, WindowsOf(text, chunkSize, overlap), 0);
    WindowExistsIff(text, size, step, WindowsOf(text, chunkSize, overlap), 1);
    assert step % 4 == 0 && (step - 1) % 4 == 3;
    assert text[step] == 'a' && text[step - 1] == 'a';
  }

  /** Split or not, a word no longer than the overlap is whole in the last window that starts at or before
      its first letter. */
  lemma WordInWindow(text: string, size: int, step: int, a: nat, b: nat) returns (i: nat)
    requires Normal(text) && 2 <= step <= size && WordAt(text, a, b) && b - a <= size - step
    ensures var ws := Windows(text, size, step, 0); i < |ws| && ws[i].start <= a && b <= ws[i].end
  {
    hide Windows, Cut;
    var ws := Windows(text, size, step, 0);
    WindowsChain(text, size, step, 0);
    i := LastStartBefore(ws, a, |ws| - 1);
    var s, cut := ws[i].start, ws[i].end;
    CutBounds(text, s, size);
    if i + 1 < |ws| {
      assert Adjacent(text, step, ws[i], ws[i + 1]);
      assert a < s + step;
      assert b <= s + size;
    }
  }

  // ---------------------------------------------------------------- chunks of parser output

  /** On normal text no window is blank. */
  lemma WindowNotBlank(text: string, start: nat, size: int)
    requires Normal(text) && start < |text| && size >= 2
    ensures Strip(WindowText(text, Window(start, Cut(text, start, size)))) != []
  {
    CutBounds(text, start, size);
    var end := Cut(text, start, size);
    var s := WindowText(text, Window(start, end));
    assert s == text[start..end];
    StripEmptyIff(s);
    assert s[0] == text[start];
    if IsSpace(text[start]) {
      assert start + 1 < |text| && !IsSpace(text[start + 1]);
      assert end >= start + 2;
      assert s[1] == text[start + 1];
    }
  }

  predicate Solid(doc: ParsedDocument, w: Window) {
    Strip(WindowText(doc.content, w)) != []
  }

  /** The chunk made of window w with number k. */
  function ChunkFor(doc: ParsedDocument, w: Window, k: nat, ids: nat -> string): Chunk {
    Chunk(ids(k), doc.documentId, Strip(WindowText(doc.content, w)), k, w.start, w.end, doc.metadata)
  }

  lemma {:induction false} ChunksOfSolid(doc: ParsedDocument, ws: seq<Window>, index: nat, ids: nat -> string)
    requires forall w :: w in ws ==> Solid(doc, w)
    ensures |ChunksOf(doc, ws, index, ids)| == |ws|
    ensures forall i :: 0 <= i < |ws| ==> ChunksOf(doc, ws, index, ids)[i] == ChunkFor(doc, ws[i], index + i, ids)
  {
    hide Strip, WindowText;
    if ws != [] {
      assert Solid(doc, ws[0]);
      var rest := ChunksOf(doc, ws[1..], index + 1, ids);
      ChunksOfSolid(doc, ws[1..], index + 1, ids);
      forall i | 0 <= i < |ws| ensures ChunksOf(doc, ws, index, ids)[i] == ChunkFor(doc, ws[i], index + i, ids) {
        if i > 0 { assert rest[i - 1] == ChunkFor(doc, ws[1..][i - 1], index + 1 + (i - 1), ids); }
      }
    }
  }

  /** The chunk is the document's k-th and has the k-th id. */
  predicate Numbered(c: Chunk, doc: ParsedDocument, k: nat, ids: nat -> string) {
    c.chunkIndex == k && c.chunkId == ids(k) && c.documentId == doc.documentId
  }

  /** Chunks are numbered and take their ids in order, whatever the windows are. */
  lemma {:induction false} ChunksNumbered(doc: ParsedDocument, ws: seq<Window>, index: nat, ids: nat -> string)
    ensures var cs := ChunksOf(doc, ws, index, ids);
      forall i :: 0 <= i < |cs| ==> Numbered(cs[i], doc, index + i, ids)
  {
    hide Strip, WindowText;
    if ws != [] {
      ChunksNumbered(doc, ws[1..], index, ids);
      ChunksNumbered(doc, ws[1..], index + 1, ids);
      var cs, rest := ChunksOf(doc, ws, index, ids), ChunksOf(doc, ws[1..], index + 1, ids);
      if Strip(WindowText(doc.content, ws[0])) != [] {
        assert |cs| == 1 + |rest|;
        forall i | 0 <= i < |cs| ensures Numbered(cs[i], doc, index + i, ids) {
          if i > 0 {
            assert cs[i] == rest[i - 1] && rest == ChunksOf(doc, ws[1..], index + 1, ids);
            assert Numbered(rest[i - 1], doc, index + 1 + (i - 1), ids);
          }
        }
      } else {
        assert cs == ChunksOf(doc, ws[1..], index, ids);
      }
    }
  }

  /** On parser output there is one chunk per window, in order. */
  lemma ChunksAreWindows(doc: ParsedDocument, chunkSize: int, overlap: int, ids: nat -> string)
    requires doc.content != [] && Normal(doc.content) && 0 <= overlap < chunkSize
    ensures var cs := Chunks(doc, chunkSize, overlap, ids); var ws := WindowsOf(doc.content, chunkSize, overlap);
      && |cs| == |ws|
      && forall i :: 0 <= i < |ws| ==> cs[i] == ChunkFor(doc, ws[i], i, ids) && Solid(doc, ws[i])
  {
    hide Windows, Cut, Strip, WindowText;
    var size, step := 4 * chunkSize, 4 * chunkSize - 4 * overlap;
    var ws := WindowsOf(doc.content, chunkSize, overlap);
    WindowsChain(doc.content, size, step, 0);
    forall w | w in ws ensures Solid(doc, w) {
      var i :| 0 <= i < |ws| && ws[i] == w;
      WindowNotBlank(doc.content, w.start, size);
    }
    ChunksOfSolid(doc, ws, 0, ids);
  }

  /** On parser output: the number of chunks is 1 if the text fits one window and otherwise
      1 + ceil((n - size) / step), and the last one ends with the text. */
  lemma ChunkCount(doc: ParsedDocument, chunkSize: int, overlap: int, ids: nat -> string)
    requires doc.content != [] && Normal(doc.content) && 0 <= overlap < chunkSize
    ensures var cs := Chunks(doc, chunkSize, overlap, ids); var size := 4 * chunkSize; var step := size - 4 * overlap;
      && |cs| == WindowCount(|doc.content|, size, step)
      && cs != [] && cs[|cs| - 1].endChar == |doc.content|
  {
    hide Windows, Cut, WindowCount, ChunksOf, Strip, WindowText, Normal;
    var size, step := 4 * chunkSize, 4 * chunkSize - 4 * overlap;
    WindowsChain(doc.content, size, step, 0);
    WindowsCounted(doc.content, size, step, 0);
    ChunksAreWindows(doc, chunkSize, overlap, ids);
  }

  /** On parser output: chunk i has index i, the i-th fresh id and the start i * step, and its content is
      the stripped, non-blank text between its offsets. */
  lemma ChunkShape(doc: ParsedDocument, chunkSize: int, overlap: int, ids: nat -> string, i: nat)
    requires doc.content != [] && Normal(doc.content) && 0 <= overlap < chunkSize
    requires i < |Chunks(doc, chunkSize, overlap, ids)|
    ensures var c := Chunks(doc, chunkSize, overlap, ids)[i]; var step := 4 * chunkSize - 4 * overlap;
      && c.chunkIndex == i && c.chunkId == ids(i) && c.documentId == doc.documentId && c.metadata == doc.metadata
      && c.startChar == i * step && c.startChar < c.endChar <= |doc.content|
      && c.content == Strip(doc.content[c.startChar..c.endChar]) != []
  {
    hide Windows, Cut, ChunksOf, Strip, Normal;
    var size, step := 4 * chunkSize, 4 * chunkSize - 4 * overlap;
    var ws := WindowsOf(doc.content, chunkSize, overlap);
    WindowsChain(doc.content, size, step, 0);
    ChunksAreWindows(doc, chunkSize, overlap, ids);
    assert Chunks(doc, chunkSize, overlap, ids)[i] == ChunkFor(doc, ws[i], i, ids) && Solid(doc, ws[i]);
    StartsEvenly(doc.content, size, step, 0, ws, i);
    CutBounds(doc.content, ws[i].start, size);
  }

  /** Position p of the document is in the chunk: it is character k of the chunk's content. */
  predicate Holds(c: Chunk, text: string, p: nat, k: int) {
    && 0 <= k < |c.content| && p < |text| && c.content[k] == text[p]
    && 0 <= c.startChar <= c.endChar <= |text|
    && p == c.startChar + LeadingSpaces(text[c.startChar..c.endChar]) + k
  }

  /** On parser output no chunk starts or ends inside a word exactly when, for every window that stops
      short of the end, the next one starts at a word boundary and there is a space to cut at. */
  lemma ChunksSplitNoWordIff(doc: ParsedDocument, chunkSize: int, overlap: int, ids: nat -> string)
    requires doc.content != [] && Normal(doc.content) && 0 <= overlap < chunkSize
    ensures var cs := Chunks(doc, chunkSize, overlap, ids);
      var size := 4 * chunkSize; var step := size - 4 * overlap;
      (forall i :: 0 <= i < |cs| ==> !InsideWord(doc.content, cs[i].startChar) && !InsideWord(doc.content, cs[i].endChar))
      <==> NoSplitAnywhere(doc.content, size, step)
  {
    hide Windows, Cut, ChunksOf, Strip, WindowText, Normal, InsideWord, NoSplitAnywhere;
    NoWordSplitIff(doc.content, 4 * chunkSize, 4 * chunkSize - 4 * overlap);
    ChunksAreWindows(doc, chunkSize, overlap, ids);
  }

  /** On parser output whose words fit the overlap, no character of a word is lost: each lies in the
      content of some chunk. */
  lemma NoWordLost(doc: ParsedDocument, chunkSize: int, overlap: int, ids: nat -> string, p: nat) returns (i: nat, k: nat)
    requires Normal(doc.content) && 0 <= overlap < chunkSize && RunsAtMost(doc.content, 4 * overlap)
    requires p < |doc.content| && !IsSpace(doc.content[p])
    ensures var cs := Chunks(doc, chunkSize, overlap, ids); i < |cs| && Holds(cs[i], doc.content, p, k)
  {
    hide Windows, Cut, ChunksOf, Strip, LeadingSpaces, Normal, RunsAtMost;
    var text := doc.content;
    var size, step := 4 * chunkSize, 4 * chunkSize - 4 * overlap;
    var ws := WindowsOf(text, chunkSize, overlap);
    ShortWordsCovered(text, size, step, p);
    i :| 0 <= i < |ws| && ws[i].start <= p < ws[i].end;
    ChunksAreWindows(doc, chunkSize, overlap, ids);
    ChunkShape(doc, chunkSize, overlap, ids, i);
    var c := Chunks(doc, chunkSize, overlap, ids)[i];
    assert c == ChunkFor(doc, ws[i], i, ids);
    var s := text[c.startChar..c.endChar];
    assert s[p - c.startChar] == text[p];
    StripKeeps(s, p - c.startChar);
    k := p - c.startChar - LeadingSpaces(s);
  }

  /** A word no longer than the overlap is a word of some chunk. */
  lemma WordKeptWhole(doc: ParsedDocument, chunkSize: int, overlap: int, ids: nat -> string, a: nat, b: nat) returns (i: nat)
    requires Normal(doc.content) && 0 <= overlap < chunkSize
    requires WordAt(doc.content, a, b) && b - a <= 4 * overlap
    ensures var cs := Chunks(doc, chunkSize, overlap, ids); i < |cs| && doc.content[a..b] in Split(cs[i].content)
  {
    hide Windows, Cut, ChunksOf, Split, Strip, LeadingSpaces, Normal;
    var text := doc.content;
    i := WordInWindow(text, 4 * chunkSize, 4 * chunkSize - 4 * overlap, a, b);
    ChunksAreWindows(doc, chunkSize, overlap, ids);
    ChunkShape(doc, chunkSize, overlap, ids, i);
    var c := Chunks(doc, chunkSize, overlap, ids)[i];
    var x := text[c.startChar..c.endChar];
    WordInPart(text, c.startChar, c.endChar, a, b);
    StripKeepsWord(x, a - c.startChar, b - c.startChar);
  }

  lemma WordInPart(text: string, lo: nat, hi: nat, a: nat, b: nat)
    requires lo <= a && b <= hi <= |text| && WordAt(text, a, b)
    ensures WordAt(text[lo..hi], a - lo, b - lo) && text[lo..hi][a - lo..b - lo] == text[a..b]
  {
    CutSuffix(text, hi, a, b);
    DropPrefix(text[..hi], lo, a, b);
    assert text[..hi][lo..] == text[lo..hi] && text[..hi][a..b] == text[a..b];
  }

  /** From raw content to chunks: every word of at most 4 * overlap letters is, in one piece, a word of some
      chunk. */
  lemma RawWordKept(content: string, documentId: string, source: string, metadata: map<string, string>,
                    chunkSize: int, overlap: int, ids: nat -> string, j: nat) returns (i: nat)
    requires 0 <= overlap < chunkSize && j < |Split(content)| && |Split(content)[j]| <= 4 * overlap
    ensures var parsed := Parse(content, documentId, source, metadata);
      && parsed.Ok?
      && var cs := Chunks(parsed.value, chunkSize, overlap, ids);
      i < |cs| && Split(content)[j] in Split(cs[i].content)
  {
    hide Chunks, Normal, Strip, Split;
    ParseNormalises(content, documentId, source, metadata);
    SplitYieldsWords(content);
    var doc := Parse(content, documentId, source, metadata).value;
    var a := WordPlace(Split(content), j);
    i := WordKeptWhole(doc, chunkSize, overlap, ids, a, a + |Split(content)[j]|);
  }

  /** When all words of the raw content are that short, no character of the parsed text is lost either: each
      is in some chunk at its own place. */
  lemma RawTextKept(content: string, documentId: string, source: string, metadata: map<string, string>,
                    chunkSize: int, overlap: int, ids: nat -> string)
    requires 0 <= overlap < chunkSize
    requires forall j :: 0 <= j < |Split(content)| ==> |Split(content)[j]| <= 4 * overlap
    ensures var parsed := Parse(content, documentId, source, metadata);
      parsed.Ok? ==>
        var text := parsed.value.content; var cs := Chunks(parsed.value, chunkSize, overlap, ids);
        forall p: nat :: p < |text| && !IsSpace(text[p]) ==> exists i, k :: 0 <= i < |cs| && Holds(cs[i], text, p, k)
  {
    hide Chunks, Normal, Strip, Split, RunsAtMost, Holds;
    var parsed := Parse(content, documentId, source, metadata);
    if parsed.Ok? {
      ParseNormalises(content, documentId, source, metadata);
      SplitYieldsWords(content);
      JoinRuns(Split(content), 4 * overlap);
      var text := parsed.value.content;
      forall p: nat | p < |text| && !IsSpace(text[p])
        ensures exists i, k :: 0 <= i < |Chunks(parsed.value, chunkSize, overlap, ids)|
                            && Holds(Chunks(parsed.value, chunkSize, overlap, ids)[i], text, p, k)
      {
        var i, k := NoWordLost(parsed.value, chunkSize, overlap, ids, p);
      }
    }
  }

  // ---------------------------------------------------------------- the overlap is the exact bound

  /** Short words up to and including the space at `gap`, then one long word up to the space at `size`, and
      one more letter. */
  function LongWordText(gap: nat, size: nat): (text: string)
    ensures |text| == size + 2
  {
    seq(size + 2, i requires 0 <= i < size + 2 => if i == size || (i <= gap && i % 4 == 2) then ' ' else 'a')
  }

  lemma LongWordRuns(gap: nat, size: nat)
    requires gap % 4 == 2 && gap + 1 < size
    ensures Normal(LongWordText(gap, size)) && RunsAtMost(LongWordText(gap, size), MaxInt(3, size - gap - 1))
  {
    var text := LongWordText(gap, size);
    forall lo, hi | 0 <= lo <= hi <= |text| && NoSpaceIn(text, lo, hi) ensures hi - lo <= MaxInt(3, size - gap - 1) {
      var q := if lo <= gap then NextSpace(lo) else size;
      assert IsSpace(text[q]);
    }
  }

  /** One letter more than the overlap is too long: under every setting with an overlap some text whose
      words have at most 4 * overlap + 1 letters loses a letter. */
  lemma LongWordLost(chunkSize: int, overlap: int) returns (text: string, p: nat)
    requires 1 <= overlap < chunkSize
    ensures Normal(text) && RunsAtMost(text, 4 * overlap + 1)
    ensures p < |text| && !IsSpace(text[p]) && !Covered(WindowsOf(text, chunkSize, overlap), p)
  {
    hide Windows, Normal, RunsAtMost, Covered, Chain, NoLossAt;
    var size, step := 4 * chunkSize, 4 * chunkSize - 4 * overlap;
    text := LongWordText(step - 2, size);
    LongWordRuns(step - 2, size);
    WindowsChain(text, size, step, 0);
    var ws := WindowsOf(text, chunkSize, overlap);
    WindowExistsIff(text, size, step, ws, 0);
    WindowIs(text, size, step, ws, 0);
    assert text[step - 2] == ' ';
    CutBounds(text, 0, size);
    assert ws[0].end == step - 2;
    LongRetreatLoses(text, size, step, 0);
    p := step - 1;
  }
}
