/** The UTF-8 side of the text box: the text buffer is a byte sequence, and
    backspace removes the trailing code point by scanning backward past
    continuation bytes. The byte classes are those of section 3 of RFC 3629. */
module Utf8 {

  type byte = bv8

  /** A continuation byte has the form 10xxxxxx. */
  predicate IsContinuation(b: byte) {
    b & 0xC0 == 0x80
  }

  /** The number of bytes of the encoded character that a lead byte starts:
      0xxxxxxx, 110xxxxx, 1110xxxx and 11110xxx start one to four bytes;
      any other byte (a continuation byte, or 11111xxx) starts none. */
  function SequenceLength(lead: byte): (n: nat)
    ensures n <= 4
    ensures IsContinuation(lead) ==> n == 0
  {
    if lead & 0x80 == 0 then 1
    else if lead & 0xE0 == 0xC0 then 2
    else if lead & 0xF0 == 0xE0 then 3
    else if lead & 0xF8 == 0xF0 then 4
    else 0
  }

  /** One encoded character: a lead byte followed by exactly as many
      continuation bytes as the lead byte announces. */
  predicate IsEncodedChar(c: seq<byte>) {
    |c| >= 1 && SequenceLength(c[0]) == |c| &&
    forall i :: 1 <= i < |c| ==> IsContinuation(c[i])
  }

  /** A byte sequence that splits into encoded characters, read from the front.
      This is the structural part of RFC 3629's syntax (lead-byte classes and
      continuation counts); its further exclusions (overlong forms, surrogates,
      values above U+10FFFF) only make the set of valid strings smaller. */
  predicate WellFormed(s: seq<byte>)
    decreases |s|
  {
    s == [] ||
    (var n := SequenceLength(s[0]);
     1 <= n <= |s| && IsEncodedChar(s[..n]) && WellFormed(s[n..]))
  }

  /** The backward scan of the backspace handler, from index n: step back while
      the index is positive and the byte there is a continuation byte. */
  function ScanBack(s: seq<byte>, n: nat): (r: nat)
    requires n < |s|
    ensures r <= n
    ensures r == 0 || !IsContinuation(s[r])
    ensures forall i :: r < i <= n ==> IsContinuation(s[i])
    decreases n
  {
    if n > 0 && IsContinuation(s[n]) then ScanBack(s, n - 1) else n
  }

  /** The text left after one backspace: empty text stays empty; otherwise the
      prefix before the point where the backward scan from the last byte stops. */
  function Backspace(s: seq<byte>): (r: seq<byte>)
    ensures s == [] ==> r == []
    ensures s != [] ==> |r| < |s| && r == s[..|r|]
    ensures s != [] ==> |r| == 0 || !IsContinuation(s[|r|])
    ensures forall i :: |r| < i < |s| ==> IsContinuation(s[i])
  {
    if s == [] then [] else s[..ScanBack(s, |s| - 1)]
  }

  /** The loop of the backspace handler as written: `n` starts at the last
      index, which for empty text is the size_t wrap-around cast back to -1,
      and `substr(0, n)` with that value keeps the whole (empty) text. */
  method DeleteLastCodePoint(text: seq<byte>) returns (r: seq<byte>)
    ensures r == Backspace(text)
  {
    var n: int := |text| - 1;
    while n > 0 && IsContinuation(text[n])
      invariant -1 <= n < |text|
      invariant n == -1 <==> text == []
      invariant n >= 0 ==> ScanBack(text, n) == ScanBack(text, |text| - 1)
      decreases n
    {
      n := n - 1;
    }
    if n < 0 {
      r := text;
    } else {
      r := text[..n];
    }
  }

  /** The scan stops at exactly one place: the last index at or before n that
      is 0 or holds a non-continuation byte, with only continuation bytes after it. */
  lemma ScanBackUnique(s: seq<byte>, n: nat, m: nat)
    requires m <= n < |s|
    requires m == 0 || !IsContinuation(s[m])
    requires forall i :: m < i <= n ==> IsContinuation(s[i])
    ensures ScanBack(s, n) == m
  {
  }

  /** Backspace undoes the append of one encoded character, whatever text
      precedes it. */
  lemma {:induction false} BackspaceAfterChar(p: seq<byte>, c: seq<byte>)
    requires IsEncodedChar(c)
    ensures Backspace(p + c) == p
  {
    var s := p + c;
    assert !IsContinuation(c[0]);
    assert s[|p|] == c[0];
    forall i | |p| < i <= |s| - 1
      ensures IsContinuation(s[i])
    {
      assert s[i] == c[i - |p|];
    }
    ScanBackUnique(s, |s| - 1, |p|);
    assert s[..|p|] == p;
  }

  /** An encoded character followed by a well-formed text is well-formed. */
  lemma WellFormedPrepend(c: seq<byte>, t: seq<byte>)
    requires IsEncodedChar(c) && WellFormed(t)
    ensures WellFormed(c + t)
  {
    var u := c + t;
    assert u[0] == c[0];
    assert u[..|c|] == c;
    assert u[|c|..] == t;
  }

  /** The step of LastCharStart: the split found in the text after the first
      character carries over to the whole text. */
  lemma LastCharAfterFirst(s: seq<byte>, n: nat, k: nat)
    requires WellFormed(s) && s != [] && n == SequenceLength(s[0]) < |s|
    requires k < |s[n..]| && WellFormed(s[n..][..k]) && IsEncodedChar(s[n..][k..])
    ensures n + k < |s| && WellFormed(s[..n + k]) && IsEncodedChar(s[n + k..])
  {
    var rest := s[n..];
    WellFormedPrepend(s[..n], rest[..k]);
    assert s[..n + k] == s[..n] + rest[..k];
    assert s[n + k..] == rest[k..];
  }

  /** A non-empty well-formed text ends with one encoded character preceded by
      a well-formed text; the result is where that last character starts. */
  function LastCharStart(s: seq<byte>): (r: nat)
    requires WellFormed(s) && s != []
    ensures r < |s|
    ensures WellFormed(s[..r]) && IsEncodedChar(s[r..])
    decreases |s|
  {
    var n := SequenceLength(s[0]);
    if n == |s| then
      OneChar(s);
      0
    else
      var k := LastCharStart(s[n..]);
      LastCharAfterFirst(s, n, k);
      n + k
  }

  /** A well-formed text whose first character fills it is that one character. */
  lemma OneChar(s: seq<byte>)
    requires WellFormed(s) && s != [] && SequenceLength(s[0]) == |s|
    ensures WellFormed(s[..0]) && IsEncodedChar(s[0..])
  {
    assert s[0..] == s[..|s|];
  }

  /** On a well-formed text, backspace removes exactly one code point: the
      removed suffix is one encoded character and what remains is well-formed. */
  lemma {:induction false} BackspaceRemovesOneCodePoint(s: seq<byte>)
    requires WellFormed(s) && s != []
    ensures WellFormed(Backspace(s))
    ensures s == Backspace(s) + s[|Backspace(s)|..]
    ensures IsEncodedChar(s[|Backspace(s)|..])
  {
    var k := LastCharStart(s);
    assert s == s[..k] + s[k..];
    BackspaceAfterChar(s[..k], s[k..]);
  }

  /** Backspace keeps well-formed text well-formed, for empty text as well. */
  lemma BackspaceKeepsWellFormed(s: seq<byte>)
    requires WellFormed(s)
    ensures WellFormed(Backspace(s))
  {
    if s != [] {
      BackspaceRemovesOneCodePoint(s);
    }
  }
}
