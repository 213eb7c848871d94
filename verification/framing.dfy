/** The response framing of `handle_connection`: a status line, one
    `Content-Length` header, a blank line, then the body. The partner of the
    serialiser is a parser that splits a response at its first blank line and
    reads the header back. */
module Framing {
  import opened Wrappers
  import opened Bytes

  const CRLF: seq<byte> := [CR, LF]
  /** The blank line that ends the header block. */
  const Separator: seq<byte> := [CR, LF, CR, LF]
  const LengthField: seq<byte> := Ascii("Content-Length: ")

  /** `pat` occurs in `s` starting at index `i`. */
  predicate OccursAt(s: seq<byte>, pat: seq<byte>, i: nat) {
    i + |pat| <= |s| && s[i..i + |pat|] == pat
  }

  /** The first occurrence of `pat` in `s` at or after `from`. */
  function Find(s: seq<byte>, pat: seq<byte>, from: nat): (r: Option<nat>)
    requires |pat| > 0 && from <= |s|
    ensures r.Some? ==> from <= r.value && OccursAt(s, pat, r.value)
    ensures r.Some? ==> forall j :: from <= j < r.value ==> !OccursAt(s, pat, j)
    ensures r.None? ==> forall j :: from <= j <= |s| ==> !OccursAt(s, pat, j)
    decreases |s| - from
  {
    if from + |pat| > |s| then None
    else if s[from..from + |pat|] == pat then Some(from)
    else Find(s, pat, from + 1)
  }

  /** The response `handle_connection` writes for a status line and file
      contents: the length in the header is the byte length of the body. */
  function Response(status: seq<byte>, contents: seq<byte>): (r: seq<byte>)
    ensures |r| == |status| + |CRLF| + |LengthField| + |Decimal(|contents|)| + |Separator| + |contents|
    ensures r[..|status|] == status
    ensures r[|r| - |contents|..] == contents
  {
    status + CRLF + LengthField + Decimal(|contents|) + Separator + contents
  }

  /** A header block read back: the status line and the declared length. */
  datatype Header = Header(status: seq<byte>, length: nat)

  /** A response read back: status line, declared length, body. */
  datatype Parsed = Parsed(status: seq<byte>, length: nat, body: seq<byte>)

  /** Splits a header block at its first line break and reads the
      `Content-Length` value that follows. */
  function ParseHead(h: seq<byte>): (p: Option<Header>)
    ensures p.Some? ==> |p.value.status| <= |h| && h[..|p.value.status|] == p.value.status
  {
    match Find(h, CRLF, 0)
    case None => None
    case Some(eol) =>
      var field := h[eol + |CRLF|..];
      if |field| >= |LengthField| && field[..|LengthField|] == LengthField then
        match ParseDecimal(field[|LengthField|..])
        case None => None
        case Some(n) => Some(Header(h[..eol], n))
      else None
  }

  /** Splits `r` at its first blank line and reads the header block before
      it. */
  function ParseResponse(r: seq<byte>): (p: Option<Parsed>)
    ensures p.Some? ==> |p.value.status| <= |r| && r[..|p.value.status|] == p.value.status
    ensures p.Some? ==> |p.value.body| < |r| && r[|r| - |p.value.body|..] == p.value.body
  {
    match Find(r, Separator, 0)
    case None => None
    case Some(sep) =>
      match ParseHead(r[..sep])
      case None => None
      case Some(h) => Some(Parsed(h.status, h.length, r[sep + |Separator|..]))
  }

  /** A match with no earlier match is what `Find` returns. */
  lemma FindReturnsFirst(s: seq<byte>, pat: seq<byte>, k: nat)
    requires |pat| > 0
    requires OccursAt(s, pat, k)
    requires forall j :: 0 <= j < k ==> !OccursAt(s, pat, j)
    ensures Find(s, pat, 0) == Some(k)
  {
  }

  lemma LengthFieldHasNoBreak()
    ensures NoLineBreak(LengthField) && |LengthField| == 16
    ensures LengthField[0] != CR
  {
  }

  /** The header block of `Response(status, contents)`: everything before
      the blank line. */
  function Head(status: seq<byte>, contents: seq<byte>): seq<byte> {
    status + CRLF + LengthField + Decimal(|contents|)
  }

  /** The only CR in the header block is the one ending the status line,
      and it is followed by the header name, not by another line break. */
  lemma HeadBreaks(status: seq<byte>, contents: seq<byte>)
    requires NoLineBreak(status)
    ensures forall j :: 0 <= j < |Head(status, contents)| && j != |status| ==> Head(status, contents)[j] != CR
    ensures |status| + 2 < |Head(status, contents)| && Head(status, contents)[|status| + 2] != CR
  {
    var digits := Decimal(|contents|);
    var h := Head(status, contents);
    LengthFieldHasNoBreak();
    forall j | 0 <= j < |h| && j != |status|
      ensures h[j] != CR
    {
      if j < |status| {
        assert h[j] == status[j];
      } else if j == |status| + 1 {
        assert h[j] == LF;
      } else if j < |status| + 2 + |LengthField| {
        assert h[j] == LengthField[j - |status| - 2];
      } else {
        assert h[j] == digits[j - |status| - 2 - |LengthField|];
      }
    }
    assert h[|status| + 2] == LengthField[0];
  }

  /** The first blank line of a response is the header/body separator, even
      when the body itself contains blank lines. */
  lemma {:induction false} SeparatorIsFirstBlankLine(status: seq<byte>, contents: seq<byte>)
    requires NoLineBreak(status)
    ensures Find(Response(status, contents), Separator, 0) == Some(|Head(status, contents)|)
  {
    var r := Response(status, contents);
    var h := Head(status, contents);
    var k := |h|;
    assert r == h + Separator + contents;
    assert r[k..k + |Separator|] == Separator;
    HeadBreaks(status, contents);
    forall j | 0 <= j < k
      ensures !OccursAt(r, Separator, j)
    {
      if j == |status| {
        assert r[j..j + 4][2] == r[j + 2] == h[j + 2];
      } else {
        assert r[j..j + 4][0] == r[j] == h[j];
      }
    }
    FindReturnsFirst(r, Separator, k);
  }

  /** The first line break of the header block ends the status line. */
  lemma StatusLineIsFirstLine(status: seq<byte>, contents: seq<byte>)
    requires NoLineBreak(status)
    ensures Find(Head(status, contents), CRLF, 0) == Some(|status|)
    ensures Head(status, contents)[..|status|] == status
  {
    var h := Head(status, contents);
    assert h[|status|..|status| + 2] == CRLF;
    forall j | 0 <= j < |status|
      ensures !OccursAt(h, CRLF, j)
    {
      assert h[j] == h[j..j + 2][0] == status[j];
    }
    FindReturnsFirst(h, CRLF, |status|);
  }

  /** After the status line, the header block is the length header. */
  lemma LengthHeaderFollows(status: seq<byte>, contents: seq<byte>)
    ensures |status| + |CRLF| <= |Head(status, contents)|
    ensures var field := Head(status, contents)[|status| + |CRLF|..];
      && |field| >= |LengthField|
      && field[..|LengthField|] == LengthField
      && ParseDecimal(field[|LengthField|..]) == Some(|contents|)
  {
    var h := Head(status, contents);
    var digits := Decimal(|contents|);
    var field := h[|status| + |CRLF|..];
    assert field == LengthField + digits;
    assert field[..|LengthField|] == LengthField;
    assert field[|LengthField|..] == digits;
    DecimalRoundTrip(|contents|);
  }

  /** Parsing the header block of a response gives back its status line and
      the body's byte length. */
  lemma HeadRoundTrip(status: seq<byte>, contents: seq<byte>)
    requires NoLineBreak(status)
    ensures ParseHead(Head(status, contents)) == Some(Header(status, |contents|))
  {
    StatusLineIsFirstLine(status, contents);
    LengthHeaderFollows(status, contents);
  }

  /** Round trip: parsing a response gives back its status line, a declared
      length equal to the body's byte length, and the body itself. */
  lemma {:induction false} ResponseRoundTrip(status: seq<byte>, contents: seq<byte>)
    requires NoLineBreak(status)
    ensures ParseResponse(Response(status, contents)) == Some(Parsed(status, |contents|, contents))
  {
    var r := Response(status, contents);
    var h := Head(status, contents);
    assert r == h + Separator + contents;
    SeparatorIsFirstBlankLine(status, contents);
    assert r[..|h|] == h;
    assert r[|h| + |Separator|..] == contents;
    HeadRoundTrip(status, contents);
  }

  /** A sequence splits around an occurrence of a pattern. */
  lemma SplitAround(s: seq<byte>, pat: seq<byte>, i: nat)
    requires OccursAt(s, pat, i)
    ensures s == s[..i] + pat + s[i + |pat|..]
  {
    assert s == s[..i] + s[i..i + |pat|] + s[i + |pat|..];
  }

  /** A header block parses only if it is exactly the status line, a line
      break and the length header with the length formatted by `{}`. */
  lemma {:induction false} ParsedHeadIsHead(h: seq<byte>, hd: Header)
    requires ParseHead(h) == Some(hd)
    ensures h == hd.status + CRLF + LengthField + Decimal(hd.length)
  {
    var eol := Find(h, CRLF, 0).value;
    var field := h[eol + |CRLF|..];
    var digits := field[|LengthField|..];
    assert field[..|LengthField|] == LengthField;
    assert ParseDecimal(digits) == Some(hd.length);
    ParseDecimalCanonical(digits, hd.length);
    assert field == LengthField + digits;
    SplitAround(h, CRLF, eol);
  }

  /** The converse round trip: a response whose declared length matches its
      body parses only if it is exactly the response the serialiser writes
      for that status line and body. No other spelling of the header (a
      length with a leading zero, say) is accepted. */
  lemma {:induction false} ParsedIsResponse(r: seq<byte>, status: seq<byte>, body: seq<byte>)
    requires ParseResponse(r) == Some(Parsed(status, |body|, body))
    ensures r == Response(status, body)
  {
    var sep := Find(r, Separator, 0).value;
    SplitAround(r, Separator, sep);
    ParsedHeadIsHead(r[..sep], ParseHead(r[..sep]).value);
  }
}
