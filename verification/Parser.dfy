/** Whitespace normalisation, `rag/parser.py`. */
module Parser {
  import opened Prelude
  import opened Text

  datatype ParsedDocument = ParsedDocument(documentId: string, content: string, source: string, metadata: map<string, string>)

  datatype ParseError = EmptyContent(documentId: string)

  function Parse(content: string, documentId: string, source: string, metadata: map<string, string>): Result<ParsedDocument, ParseError> {
    if content == [] || Strip(content) == [] then Err(EmptyContent(documentId))
    else Ok(ParsedDocument(documentId, Join(Split(content)), source, metadata))
  }

  /** No leading, trailing or adjacent whitespace, and no whitespace but the space character. */
  predicate Normal(s: string) {
    && (forall i :: 0 <= i < |s| && IsSpace(s[i]) ==> s[i] == ' ')
    && (forall i :: 0 < i < |s| && IsSpace(s[i]) ==> !IsSpace(s[i - 1]))
    && (s != [] ==> !IsSpace(s[0]) && !IsSpace(s[|s| - 1]))
  }

  predicate Words(ws: seq<string>) {
    forall i :: 0 <= i < |ws| ==> IsWord(ws[i])
  }

  lemma {:induction false} SplitYieldsWords(s: string)
    ensures Words(Split(s))
    ensures Split(s) == [] <==> Blank(s)
    decreases |s|
  {
    if s != [] {
      if IsSpace(s[0]) {
        SplitYieldsWords(s[1..]);
        if Blank(s[1..]) {
          forall i | 0 <= i < |s| ensures IsSpace(s[i]) { if i > 0 { assert s[i] == s[1..][i - 1]; } }
        }
      } else {
        assert WordLength(s) > 0;
        SplitYieldsWords(s[WordLength(s)..]);
      }
    }
  }

  function NonSpaces(s: string): string {
    if s == [] then [] else (if IsSpace(s[0]) then [] else [s[0]]) + NonSpaces(s[1..])
  }

  function Concat(ws: seq<string>): string {
    if ws == [] then [] else ws[0] + Concat(ws[1..])
  }

  lemma {:induction false} NonSpacesOfWord(w: string, rest: string)
    requires NoSpace(w)
    ensures NonSpaces(w + rest) == w + NonSpaces(rest)
  {
    if w == [] {
      assert w + rest == rest;
    } else {
      NonSpacesOfWord(w[1..], rest);
      assert (w + rest)[1..] == w[1..] + rest;
    }
  }

  /** `split` loses no character but whitespace: its words, run together, are the other characters. */
  lemma {:induction false} SplitKeepsCharacters(s: string)
    ensures Concat(Split(s)) == NonSpaces(s)
    decreases |s|
  {
    if s != [] {
      if IsSpace(s[0]) {
        SplitKeepsCharacters(s[1..]);
      } else {
        var n := WordLength(s);
        assert s == s[..n] + s[n..];
        SplitKeepsCharacters(s[n..]);
        NonSpacesOfWord(s[..n], s[n..]);
        assert Split(s)[1..] == Split(s[n..]);
      }
    }
  }

  lemma WordThenSpace(w: string, rest: string)
    requires IsWord(w)
    requires rest == [] || IsSpace(rest[0])
    ensures WordLength(w + rest) == |w|
  {
    var n := WordLength(w + rest);
    assert forall i :: 0 <= i < |w| ==> (w + rest)[i] == w[i];
    assert rest != [] ==> (w + rest)[|w|] == rest[0];
    assert forall i :: 0 <= i < n ==> (w + rest)[i] == (w + rest)[..n][i];
  }

  /** `split` undoes `join` on words. */
  lemma {:induction false} SplitJoin(ws: seq<string>)
    requires Words(ws)
    ensures Split(Join(ws)) == ws
  {
    if |ws| == 1 {
      WordThenSpace(ws[0], []);
      assert ws[0] + [] == ws[0];
    } else if |ws| > 1 {
      var w, tail := ws[0], Join(ws[1..]);
      var rest := " " + tail;
      assert Join(ws) == w + rest;
      WordThenSpace(w, rest);
      assert (w + rest)[..|w|] == w && (w + rest)[|w|..] == rest && rest[1..] == tail;
      SplitJoin(ws[1..]);
    }
  }

  lemma {:induction false} JoinNormal(ws: seq<string>)
    requires Words(ws)
    ensures Normal(Join(ws))
    ensures ws != [] ==> Join(ws) != [] && Join(ws)[0] == ws[0][0]
  {
    if |ws| > 1 {
      var w, tail := ws[0], Join(ws[1..]);
      JoinNormal(ws[1..]);
      assert ws[1..][0] == ws[1];
      var s := w + " " + tail;
      assert forall i :: 0 <= i < |w| ==> s[i] == w[i];
      forall i | 0 <= i < |s| && IsSpace(s[i]) ensures s[i] == ' ' && (i > 0 ==> !IsSpace(s[i - 1])) {
        if i > |w| {
          assert s[i] == tail[i - |w| - 1];
          if i > |w| + 1 { assert s[i - 1] == tail[i - |w| - 2]; }
        }
      }
      assert s[|s| - 1] == tail[|tail| - 1];
    }
  }

  /** `parse` raises exactly on content without words. Otherwise its output is normal, splits into
      exactly the words of the input, and is a fixed point of `parse`. */
  lemma ParseNormalises(content: string, id: string, source: string, metadata: map<string, string>)
    ensures Parse(content, id, source, metadata).Err? <==> Split(content) == []
    ensures Parse(content, id, source, metadata).Ok? ==>
      var doc := Parse(content, id, source, metadata).value;
      && doc.documentId == id && doc.source == source && doc.metadata == metadata
      && doc.content == Join(Split(content)) != [] && Normal(doc.content)
      && Split(doc.content) == Split(content)
      && Parse(doc.content, id, source, metadata) == Ok(doc)
  {
    SplitYieldsWords(content);
    StripEmptyIff(content);
    var out := Join(Split(content));
    SplitJoin(Split(content));
    JoinNormal(Split(content));
    SplitYieldsWords(out);
    StripEmptyIff(out);
  }

  lemma SplitWordSpace(w: string, tail: string)
    requires IsWord(w)
    ensures Split(w + " " + tail) == [w] + Split(tail)
  {
    var rest := " " + tail;
    var s := w + rest;
    assert w + " " + tail == s;
    WordThenSpace(w, rest);
    assert s[..|w|] == w && s[|w|..] == rest && rest[1..] == tail;
    assert s[0] == w[0];
    assert Split(rest) == Split(tail);
  }

  lemma SplitWord(w: string)
    requires IsWord(w)
    ensures Split(w) == [w]
  {
    WordThenSpace(w, []);
    assert w + [] == w;
    assert w[..|w|] == w && w[|w|..] == [];
    assert Split(w) == [w] + Split([]);
  }

  /** A normal text is its own normalisation. */
  lemma {:induction false} NormalIsFixed(s: string)
    requires Normal(s)
    ensures Join(Split(s)) == s
    decreases |s|
  {
    hide IsSpace, Split;
    if s == [] {
      SplitYieldsWords(s);
      assert Blank(s);
    } else {
      var n := WordLength(s);
      var w := s[..n];
      assert IsWord(w);
      if n == |s| {
        assert w == s;
        SplitWord(s);
      } else {
        var tail := s[n + 1..];
        TailNormal(s, n);
        NormalIsFixed(tail);
        SplitWordSpace(w, tail);
        SplitYieldsWords(tail);
        assert s == w + " " + tail;
        assert !Blank(tail) by { assert !IsSpace(tail[0]); }
        assert ([w] + Split(tail))[1..] == Split(tail);
      }
    }
  }

  lemma TailNormal(s: string, n: nat)
    requires Normal(s) && n < |s| && IsSpace(s[n])
    ensures n + 1 < |s| && s[n] == ' ' && Normal(s[n + 1..])
  {
    hide IsSpace;
    var tail := s[n + 1..];
    assert forall i :: 0 <= i < |tail| ==> tail[i] == s[n + 1 + i];
  }

  // ---------------------------------------------------------------- word lengths

  /** No whitespace at positions lo to hi - 1. */
  predicate NoSpaceIn(s: string, lo: nat, hi: nat)
    requires lo <= hi <= |s|
  {
    forall i :: lo <= i < hi ==> !IsSpace(s[i])
  }

  /** Every run of non-space characters in `s` is at most `n` long. */
  ghost predicate RunsAtMost(s: string, n: int) {
    forall lo, hi :: 0 <= lo <= hi <= |s| && NoSpaceIn(s, lo, hi) ==> hi - lo <= n
  }

  /** Joining words of length at most n gives a text whose runs are at most n long. */
  lemma {:induction false} JoinRuns(ws: seq<string>, n: nat)
    requires Words(ws) && forall i :: 0 <= i < |ws| ==> |ws[i]| <= n
    ensures RunsAtMost(Join(ws), n)
  {
    if |ws| > 1 {
      var w, tail := ws[0], Join(ws[1..]);
      JoinRuns(ws[1..], n);
      var s := w + " " + tail;
      assert s[|w|] == ' ';
      forall lo, hi | 0 <= lo <= hi <= |s| && NoSpaceIn(s, lo, hi) ensures hi - lo <= n {
        if lo > |w| {
          forall i | lo - |w| - 1 <= i < hi - |w| - 1 ensures !IsSpace(tail[i]) { assert tail[i] == s[i + |w| + 1]; }
          assert NoSpaceIn(tail, lo - |w| - 1, hi - |w| - 1);
        }
      }
    }
  }

  // ---------------------------------------------------------------- words and where they stand

  /** text[a..b] is a whole word. */
  predicate WordAt(text: string, a: nat, b: nat) {
    && a < b <= |text| && NoSpaceIn(text, a, b)
    && (a > 0 ==> IsSpace(text[a - 1])) && (b < |text| ==> IsSpace(text[b]))
  }

  /** Joined words stand whole in the result. */
  lemma {:induction false} WordPlace(ws: seq<string>, j: nat) returns (a: nat)
    requires Words(ws) && j < |ws|
    ensures WordAt(Join(ws), a, a + |ws[j]|) && Join(ws)[a..a + |ws[j]|] == ws[j]
  {
    hide WordAt, NoSpaceIn, IsWord;
    assert IsWord(ws[0]);
    if |ws| == 1 {
      a := 0;
      WholeText(ws[0]);
    } else {
      var w, tail := ws[0], Join(ws[1..]);
      var s := w + " " + tail;
      assert Join(ws) == s;
      if j == 0 {
        a := 0;
        HeadWord(w, tail);
      } else {
        var a' := WordPlace(ws[1..], j - 1);
        a := |w| + 1 + a';
        TailWord(w, tail, a', a' + |ws[j]|);
      }
    }
  }

  lemma WholeText(w: string)
    requires IsWord(w)
    ensures WordAt(w, 0, |w|) && w[0..|w|] == w
  {
  }

  lemma HeadWord(w: string, tail: string)
    requires IsWord(w)
    ensures var s := w + " " + tail; WordAt(s, 0, |w|) && s[0..|w|] == w
  {
    var s := w + " " + tail;
    assert forall i :: 0 <= i < |w| ==> s[i] == w[i];
  }

  lemma TailWord(w: string, tail: string, a: nat, b: nat)
    requires WordAt(tail, a, b)
    ensures var s := w + " " + tail; var n := |w| + 1; WordAt(s, n + a, n + b) && s[n + a..n + b] == tail[a..b]
  {
    var s := w + " " + tail;
    var n := |w| + 1;
    assert s[n - 1] == ' ' && s[n..] == tail;
    assert forall i :: 0 <= i < |tail| ==> s[n + i] == tail[i];
  }

  /** `split` finds every whole word. */
  lemma {:induction false} SplitFinds(s: string, a: nat, b: nat)
    requires WordAt(s, a, b)
    ensures s[a..b] in Split(s)
    decreases |s|
  {
    hide IsSpace, NoSpaceIn;
    if a == 0 {
      WordThenSpaceAt(s, b);
      assert Split(s) == [s[..b]] + Split(s[b..]);
    } else if IsSpace(s[0]) {
      DropPrefix(s, 1, a, b);
      SplitFinds(s[1..], a - 1, b - 1);
    } else {
      var n := WordLength(s);
      WordAfter(s, a, b);
      DropPrefix(s, n, a, b);
      SplitFinds(s[n..], a - n, b - n);
      assert Split(s) == [s[..n]] + Split(s[n..]);
    }
  }

  lemma WordAfter(s: string, a: nat, b: nat)
    requires WordAt(s, a, b) && a > 0 && !IsSpace(s[0])
    ensures 0 < WordLength(s) < a
  {
    hide IsSpace;
    var n := WordLength(s);
    assert forall i :: 0 <= i < n ==> s[i] == s[..n][i];
  }

  lemma WordThenSpaceAt(s: string, b: nat)
    requires WordAt(s, 0, b)
    ensures WordLength(s) == b && s != [] && !IsSpace(s[0])
  {
    hide IsSpace;
    var n := WordLength(s);
    assert forall i :: 0 <= i < n ==> s[i] == s[..n][i];
  }

  lemma DropPrefix(s: string, n: nat, a: nat, b: nat)
    requires WordAt(s, a, b) && n <= a
    ensures WordAt(s[n..], a - n, b - n) && s[n..][a - n..b - n] == s[a..b]
  {
    hide IsSpace;
  }

  /** `strip` leaves every whole word whole. */
  lemma StripKeepsWord(s: string, a: nat, b: nat)
    requires WordAt(s, a, b)
    ensures s[a..b] in Split(Strip(s))
  {
    hide IsSpace, Split, NoSpaceIn, WordAt;
    var lead := LeadingSpaces(s);
    StripAround(s, a, b);
    var t := s[lead..];
    DropPrefix(s, lead, a, b);
    CutSuffix(t, TrimmedEnd(t), a - lead, b - lead);
    SplitFinds(Strip(s), a - lead, b - lead);
  }

  /** A whole word lies between what `strip` removes. */
  lemma StripAround(s: string, a: nat, b: nat)
    requires WordAt(s, a, b)
    ensures LeadingSpaces(s) <= a < b <= |s| && b - LeadingSpaces(s) <= TrimmedEnd(s[LeadingSpaces(s)..])
  {
    hide IsSpace;
    assert !IsSpace(s[a]) && !IsSpace(s[b - 1]);
    assert s[LeadingSpaces(s)..][b - LeadingSpaces(s) - 1] == s[b - 1];
  }

  lemma CutSuffix(t: string, end: nat, a: nat, b: nat)
    requires WordAt(t, a, b) && b <= end <= |t|
    ensures WordAt(t[..end], a, b) && t[..end][a..b] == t[a..b]
  {
    hide IsSpace;
  }
}
