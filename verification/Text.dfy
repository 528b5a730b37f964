/** Whitespace as Python's `str` methods see it: `split`, `strip`, `join`, `rfind`. */
module Text {
  import opened Prelude

  /** The characters for which `str.isspace` holds. */
  predicate IsSpace(c: char) {
    var n := c as int;
    || 0x09 <= n <= 0x0D || 0x1C <= n <= 0x20 || n == 0x85 || n == 0xA0 || n == 0x1680
    || 0x2000 <= n <= 0x200A || n == 0x2028 || n == 0x2029 || n == 0x202F || n == 0x205F || n == 0x3000
  }

  predicate Blank(s: string) {
    forall i :: 0 <= i < |s| ==> IsSpace(s[i])
  }

  predicate NoSpace(s: string) {
    forall i :: 0 <= i < |s| ==> !IsSpace(s[i])
  }

  /** A word: what `split` yields. */
  predicate IsWord(s: string) {
    s != [] && NoSpace(s)
  }

  /** Length of the longest prefix of `s` without whitespace. */
  function WordLength(s: string): (n: nat)
    ensures n <= |s| && NoSpace(s[..n]) && (n < |s| ==> IsSpace(s[n]))
  {
    if s == [] || IsSpace(s[0]) then 0 else 1 + WordLength(s[1..])
  }

  /** `s.split()` */
  function Split(s: string): seq<string>
    decreases |s|
  {
    if s == [] then []
    else if IsSpace(s[0]) then Split(s[1..])
    else [s[..WordLength(s)]] + Split(s[WordLength(s)..])
  }

  /** `" ".join(words)` */
  function Join(words: seq<string>): string {
    if words == [] then []
    else if |words| == 1 then words[0]
    else words[0] + " " + Join(words[1..])
  }

  /** How many leading characters `strip` removes. */
  function LeadingSpaces(s: string): (n: nat)
    ensures n <= |s| && (forall i :: 0 <= i < n ==> IsSpace(s[i])) && (n < |s| ==> !IsSpace(s[n]))
  {
    if s == [] || !IsSpace(s[0]) then 0 else 1 + LeadingSpaces(s[1..])
  }

  /** Where the text ends once trailing whitespace is removed. */
  function TrimmedEnd(s: string): (n: nat)
    ensures n <= |s| && (forall i :: n <= i < |s| ==> IsSpace(s[i])) && (n > 0 ==> !IsSpace(s[n - 1]))
  {
    if s == [] || !IsSpace(s[|s| - 1]) then |s| else TrimmedEnd(s[..|s| - 1])
  }

  /** `s.strip()` */
  function Strip(s: string): string {
    var lead := LeadingSpaces(s);
    s[lead..][..TrimmedEnd(s[lead..])]
  }

  /** `strip` removes whitespace on both sides and nothing else. */
  lemma StripMeans(s: string) returns (before: string, after: string)
    ensures s == before + Strip(s) + after && Blank(before) && Blank(after)
    ensures Strip(s) != [] ==> !IsSpace(Strip(s)[0]) && !IsSpace(Strip(s)[|Strip(s)| - 1])
  {
    hide IsSpace, LeadingSpaces, TrimmedEnd;
    var lead := LeadingSpaces(s);
    var rest := s[lead..];
    var end := TrimmedEnd(rest);
    before, after := s[..lead], rest[end..];
    assert Strip(s) == rest[..end];
    assert before + rest[..end] + after == s by { assert before + rest == s && rest[..end] + after == rest; }
    if end > 0 { assert rest[..end][0] == s[lead]; }
  }

  /** `strip` empties exactly the blank strings. */
  lemma StripEmptyIff(s: string)
    ensures Strip(s) == [] <==> Blank(s)
  {
    var lead := LeadingSpaces(s);
    if lead < |s| { assert s[lead..][0] == s[lead]; }
  }

  /** What `strip` keeps: every non-space character stays, at the same distance from the first one. */
  lemma StripKeeps(s: string, p: nat)
    requires p < |s| && !IsSpace(s[p])
    ensures LeadingSpaces(s) <= p < LeadingSpaces(s) + |Strip(s)|
    ensures Strip(s)[p - LeadingSpaces(s)] == s[p]
  {
    hide IsSpace;
    var lead := LeadingSpaces(s);
    assert s[lead..][p - lead] == s[p];
  }

  /** `text.rfind(" ", lo, hi)` for 0 <= lo: the last space in text[lo..hi], or -1. */
  function RFindSpace(text: string, lo: nat, hi: nat): (k: int)
    requires hi <= |text|
    ensures k == -1 || (lo <= k < hi && text[k] == ' ')
    ensures forall i :: lo <= i < hi && i > k ==> text[i] != ' '
    decreases hi
  {
    if hi <= lo then -1
    else if text[hi - 1] == ' ' then hi - 1
    else RFindSpace(text, lo, hi - 1)
  }
}
