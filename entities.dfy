/**
 * The character-reference decoder nested in `convertPassage`: one left-to-right
 * pass of `replace(/&(nbsp|amp|quot|lt|gt);/g, ...)`.
 */
module Entities {
  import opened Text

  /** The character a reference at the head of s stands for, and the reference's length. */
  function HeadReference(s: string): (r: (char, nat))
    ensures r.1 == 0 || (4 <= r.1 <= |s| && s[0] == '&')
  {
    if |s| >= 6 && s[..6] == "&nbsp;" then (' ', 6)
    else if |s| >= 5 && s[..5] == "&amp;" then ('&', 5)
    else if |s| >= 6 && s[..6] == "&quot;" then ('"', 6)
    else if |s| >= 4 && s[..4] == "&lt;" then ('<', 4)
    else if |s| >= 4 && s[..4] == "&gt;" then ('>', 4)
    else (' ', 0)
  }

  /**
   * `decodeEntities`: every `&nbsp;`, `&amp;`, `&quot;`, `&lt;`, `&gt;` found scanning
   * left to right becomes its character (`&nbsp;` a plain space); the replacement is
   * not scanned again, and all other text is copied.
   */
  function Decode(s: string): (r: string)
    ensures |r| <= |s|
    ensures '&' !in s ==> r == s
    decreases |s|
  {
    if s == [] then []
    else
      var (c, n) := HeadReference(s);
      if n == 0 then [s[0]] + Decode(s[1..])
      else assert '&' in s; [c] + Decode(s[n..])
  }

  /**
   * The escaping a Twine export applies to passage text: `&`, `<`, `>` and `"` become
   * references. It is not part of the converter; it is here as the inverse `Decode` undoes.
   */
  function Encode(s: string): string {
    if s == [] then []
    else
      (match s[0]
       case '&' => "&amp;"
       case '<' => "&lt;"
       case '>' => "&gt;"
       case '"' => "&quot;"
       case _ => [s[0]])
      + Encode(s[1..])
  }

  /** Decoding undoes that escaping: the decoder recovers any text from its encoded form. */
  lemma {:induction false} DecodeEncode(s: string)
    ensures Decode(Encode(s)) == s
    decreases |s|
  {
    if s != [] {
      DecodeEncode(s[1..]);
      var tail := Encode(s[1..]);
      match s[0]
      case '&' => DecodeAfterReference("&amp;", '&', tail);
      case '<' => DecodeAfterReference("&lt;", '<', tail);
      case '>' => DecodeAfterReference("&gt;", '>', tail);
      case '"' => DecodeAfterReference("&quot;", '"', tail);
      case _ => DecodeAfterPlain(s[0], tail);
    }
  }

  /** A character other than `&` is copied, and decoding goes on just after it. */
  lemma DecodeAfterPlain(c: char, tail: string)
    requires c != '&'
    ensures Decode([c] + tail) == [c] + Decode(tail)
  {
    var e := [c] + tail;
    assert e[1..] == tail;
  }

  /** The character each of the five references stands for; `&nbsp;` is an ordinary space. */
  function ReferenceChar(ref: string): char {
    if ref == "&nbsp;" then ' '
    else if ref == "&amp;" then '&'
    else if ref == "&lt;" then '<'
    else if ref == "&gt;" then '>'
    else '"'
  }

  /** A recognised reference in front of some text decodes to its character, the rest decoded after it. */
  lemma DecodeAfterReference(ref: string, c: char, tail: string)
    requires ref in ["&nbsp;", "&amp;", "&lt;", "&gt;", "&quot;"]
    requires c == ReferenceChar(ref)
    ensures Decode(ref + tail) == [c] + Decode(tail)
  {
    var e := ref + tail;
    assert e[..|ref|] == ref && e[|ref|..] == tail;
    assert e[1] == ref[1];
    assert HeadReference(e) == (c, |ref|);
  }

  /** An `&` that does not begin one of the five references is copied, and decoding goes on just after it. */
  lemma DecodeKeepsOtherAmpersand(tail: string)
    requires !Contains(tail, 0, "nbsp;") && !Contains(tail, 0, "amp;") && !Contains(tail, 0, "quot;")
    requires !Contains(tail, 0, "lt;") && !Contains(tail, 0, "gt;")
    ensures Decode("&" + tail) == "&" + Decode(tail)
  {
    var s := "&" + tail;
    assert s[1..] == tail;
    if |s| >= 6 { assert s[..6][1..] == tail[..5]; }
    if |s| >= 5 { assert s[..5][1..] == tail[..4]; }
    if |s| >= 4 { assert s[..4][1..] == tail[..3]; }
    assert HeadReference(s).1 == 0;
  }

  /** One pass only: the `&lt;` that decoding `&amp;lt;` produces stays as it is. */
  lemma DecodeIsSinglePass()
    ensures Decode("&amp;lt;") == "&lt;"
  {
    assert "&amp;lt;" == "&amp;" + "lt;";
    DecodeAfterReference("&amp;", '&', "lt;");
    assert '&' !in "lt;";
  }

  /** `&nbsp;` between two words decodes to an ordinary space, not U+00A0. */
  lemma DecodeNbspIsSpace()
    ensures Decode("a&nbsp;b") == "a b"
  {
    assert "a&nbsp;b" == ['a'] + ("&nbsp;" + "b");
    DecodeAfterPlain('a', "&nbsp;" + "b");
    DecodeAfterReference("&nbsp;", ' ', "b");
    assert '&' !in "b";
  }
}
