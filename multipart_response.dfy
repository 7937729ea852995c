/**
 * Oxygen_Http_MultipartResponse: a response whose content is a list of
 * parts, written between boundary delimiters, either as one string or as
 * an Append stream of sub-streams. Oxygen_Http_MultipartResponsePart is not
 * part of this model: a part is what the serialiser reads of it (headers,
 * body, encoding). `uniqid` and the base64-encoding stream are parameters.
 */
module MultipartResponse {

  import opened Wrappers
  import opened OxygenException
  import opened Util
  import opened Response
  import opened AppendStream
  import Php

  /** A part: its headers, its body and its transfer encoding. */
  datatype Part = Part(headers: Headers, body: string, encoding: string)

  const ContentLocation := "content-location"
  const TransferEncoding := "content-transfer-encoding"

  /** The fault of an encoding other than binary or base64: the constant is not defined, so PHP raises an Error. */
  const EncodingNotSupported := MissingConstant("MULTIPART_ENCODING_NOT_SUPPORTED")

  // ---------------------------------------------------------------------
  // urlencode
  // ---------------------------------------------------------------------

  /** The characters `urlencode` keeps as they are. */
  predicate Unreserved(c: char)
  {
    ('a' <= c <= 'z') || ('A' <= c <= 'Z') || ('0' <= c <= '9') || c == '-' || c == '_' || c == '.'
  }

  /** The upper-case hexadecimal digit of a nibble. */
  function HexDigit(n: nat): (c: char)
    requires n < 16
    ensures ('0' <= c <= '9') || ('A' <= c <= 'F')
  {
    if n < 10 then ('0' as int + n) as char else ('A' as int + n - 10) as char
  }

  /** The nibble a hexadecimal digit stands for. */
  function HexValue(c: char): Option<nat>
  {
    if '0' <= c <= '9' then Some(c as int - '0' as int)
    else if 'A' <= c <= 'F' then Some(c as int - 'A' as int + 10)
    else if 'a' <= c <= 'f' then Some(c as int - 'a' as int + 10)
    else None
  }

  /** One byte: itself, '+' for a space, `%XY` otherwise. */
  function EncodeChar(c: char): string
  {
    if Unreserved(c) then [c]
    else if c == ' ' then "+"
    else ['%', HexDigit((c as int / 16) % 16), HexDigit(c as int % 16)]
  }

  /**
   * `urlencode`: the result holds only unreserved characters, '+' and '%',
   * so in particular no line break.
   */
  function UrlEncode(s: string): (r: string)
    ensures forall i :: 0 <= i < |r| ==> Unreserved(r[i]) || r[i] == '+' || r[i] == '%'
  {
    if |s| == 0 then "" else EncodeChar(s[0]) + UrlEncode(s[1..])
  }

  /** `urldecode`: '+' is a space and `%XY` the byte it names. */
  function UrlDecode(s: string): string
  {
    if |s| == 0 then ""
    else if s[0] == '+' then " " + UrlDecode(s[1..])
    else if s[0] == '%' && |s| >= 3 && HexValue(s[1]).Some? && HexValue(s[2]).Some? then
      [(HexValue(s[1]).value * 16 + HexValue(s[2]).value) as char] + UrlDecode(s[3..])
    else [s[0]] + UrlDecode(s[1..])
  }

  /** A byte string: every character below 256. */
  predicate Bytes(s: string)
  {
    forall i :: 0 <= i < |s| ==> s[i] as int < 256
  }

  /** Decoding one encoded byte in front of more text gives the byte back. */
  lemma DecodeChar(c: char, t: string)
    requires c as int < 256
    ensures UrlDecode(EncodeChar(c) + t) == [c] + UrlDecode(t)
  {
    var e := EncodeChar(c) + t;
    if Unreserved(c) {
      assert e[1..] == t;
    } else if c == ' ' {
      assert e[1..] == t;
    } else {
      var hi, lo := (c as int / 16) % 16, c as int % 16;
      assert HexValue(HexDigit(hi)) == Some(hi);
      assert HexValue(HexDigit(lo)) == Some(lo);
      assert e[0] == '%' && e[1] == HexDigit(hi) && e[2] == HexDigit(lo) && e[3..] == t;
      assert hi * 16 + lo == c as int;
    }
  }

  /** `urldecode(urlencode(s)) == s` for every byte string. */
  lemma {:induction false} UrlRoundTrip(s: string)
    requires Bytes(s)
    ensures UrlDecode(UrlEncode(s)) == s
  {
    if |s| > 0 {
      DecodeChar(s[0], UrlEncode(s[1..]));
      UrlRoundTrip(s[1..]);
      assert [s[0]] + s[1..] == s;
    }
  }

  /** An encoded value has no line break, so it cannot end its header line early. */
  lemma NoLineBreak(s: string)
    ensures '\r' !in UrlEncode(s) && '\n' !in UrlEncode(s)
  {
  }

  // ---------------------------------------------------------------------
  // createPartResponse / getContentAsString
  // ---------------------------------------------------------------------

  /**
   * One header line of a part: the name lower-cased; the value URL-encoded
   * when the name is content-location in any case (`strcasecmp`).
   */
  function HeaderLine(name: string, value: string): string
  {
    var lower := LowerString(name);
    lower + ": " + (if lower == ContentLocation then UrlEncode(value) else value) + "\r\n"
  }

  /** The header lines of a part, in order. */
  function HeaderLines(hs: Headers): string
  {
    if |hs| == 0 then "" else HeaderLines(hs[..|hs| - 1]) + HeaderLine(hs[|hs| - 1].0, hs[|hs| - 1].1)
  }

  /** `createPartResponse`: the header lines, an empty line, the body and a line break. */
  function PartText(p: Part): string
  {
    HeaderLines(p.headers) + "\r\n" + p.body + "\r\n"
  }

  /** `getMultipartBoundary`. */
  function Delimiter(boundary: string): string
  {
    "--" + boundary
  }

  /** The parts as `getContentAsString` writes them: each part's text, then the delimiter. */
  function PartsAsWritten(boundary: string, parts: seq<Part>): string
  {
    if |parts| == 0 then "" else PartsAsWritten(boundary, parts[..|parts| - 1]) + PartText(parts[|parts| - 1]) + Delimiter(boundary)
  }

  /**
   * `getContentAsString` as written: a line break, the delimiter and a line
   * break, then the parts, then the closing "--". Between two parts the
   * delimiter is followed directly by the next part's first header line.
   */
  function ContentTextAsWritten(boundary: string, parts: seq<Part>): string
  {
    "\r\n" + Delimiter(boundary) + "\r\n" + PartsAsWritten(boundary, parts) + "--"
  }

  /** The parts with a line break after every delimiter, as the stream form writes them. */
  function PartsText(boundary: string, parts: seq<Part>): string
  {
    if |parts| == 0 then "" else PartsText(boundary, parts[..|parts| - 1]) + "\r\n" + PartText(parts[|parts| - 1]) + Delimiter(boundary)
  }

  /** `getContentAsString`, corrected: every delimiter line ends with a line break before a part. */
  function ContentText(boundary: string, parts: seq<Part>): string
  {
    "\r\n" + Delimiter(boundary) + PartsText(boundary, parts) + "--"
  }

  /** Appending a part to the text as written. */
  lemma PartsAsWrittenSnoc(boundary: string, parts: seq<Part>, p: Part)
    ensures PartsAsWritten(boundary, parts + [p]) == PartsAsWritten(boundary, parts) + PartText(p) + Delimiter(boundary)
  {
    assert (parts + [p])[..|parts|] == parts;
  }

  /** Appending a part to the corrected text. */
  lemma PartsTextSnoc(boundary: string, parts: seq<Part>, p: Part)
    ensures PartsText(boundary, parts + [p]) == PartsText(boundary, parts) + "\r\n" + PartText(p) + Delimiter(boundary)
  {
    assert (parts + [p])[..|parts|] == parts;
  }

  /** The corrected parts are two characters longer per part than the parts as written. */
  lemma {:induction false} PartsTextLonger(boundary: string, parts: seq<Part>)
    ensures |PartsText(boundary, parts)| == |PartsAsWritten(boundary, parts)| + 2 * |parts|
  {
    if |parts| > 0 {
      PartsTextLonger(boundary, parts[..|parts| - 1]);
    }
  }

  /**
   * The text as written lacks one line break per part after the first, so
   * the two forms differ as soon as there are two parts.
   */
  lemma ContentTextLonger(boundary: string, parts: seq<Part>)
    requires |parts| >= 1
    ensures |ContentText(boundary, parts)| == |ContentTextAsWritten(boundary, parts)| + 2 * (|parts| - 1)
  {
    PartsTextLonger(boundary, parts);
  }

  /** With one part the text as written and the corrected one agree. */
  lemma OnePartAgrees(boundary: string, p: Part)
    ensures ContentTextAsWritten(boundary, [p]) == ContentText(boundary, [p])
  {
    var d, a, n := Delimiter(boundary), PartText(p), "\r\n";
    PartsAsWrittenSnoc(boundary, [], p);
    PartsTextSnoc(boundary, [], p);
    assert [] + [p] == [p];
    assert PartsAsWritten(boundary, [p]) == a + d;
    assert PartsText(boundary, [p]) == n + a + d;
    Regroup3(n + d, n, a, d);
  }

  /**
   * With two parts the text as written glues the second part's text to the
   * delimiter before it, where the corrected text has a line break.
   */
  lemma TwoPartsGlued(boundary: string, p: Part, q: Part)
    ensures ContentTextAsWritten(boundary, [p, q])
              == "\r\n" + Delimiter(boundary) + "\r\n" + PartText(p) + Delimiter(boundary) + PartText(q) + Delimiter(boundary) + "--"
    ensures ContentText(boundary, [p, q])
              == "\r\n" + Delimiter(boundary) + "\r\n" + PartText(p) + Delimiter(boundary) + "\r\n" + PartText(q) + Delimiter(boundary) + "--"
  {
    var d, a, b, n := Delimiter(boundary), PartText(p), PartText(q), "\r\n";
    PartsAsWrittenSnoc(boundary, [], p);
    PartsAsWrittenSnoc(boundary, [p], q);
    PartsTextSnoc(boundary, [], p);
    PartsTextSnoc(boundary, [p], q);
    assert [] + [p] == [p] && [p] + [q] == [p, q];
    assert PartsAsWritten(boundary, [p, q]) == a + d + b + d;
    assert PartsText(boundary, [p, q]) == n + a + d + n + b + d;
    Regroup4(n + d + n, a, d, b, d);
    Regroup6(n + d, n, a, d, n, b, d);
  }

  lemma Regroup3(h: string, a: string, b: string, c: string)
    ensures h + (a + b + c) == h + a + b + c
  {
  }

  lemma Regroup4(h: string, a: string, b: string, c: string, e: string)
    ensures h + (a + b + c + e) == h + a + b + c + e
  {
  }

  lemma Regroup6(h: string, a: string, b: string, c: string, e: string, f: string, g: string)
    ensures h + (a + b + c + e + f + g) == h + a + b + c + e + f + g
  {
  }

  // ---------------------------------------------------------------------
  // createPartStream / createResponseStream
  // ---------------------------------------------------------------------

  /** The line the stream form adds for a part's encoding. */
  function EncodingLine(encoding: string): string
  {
    TransferEncoding + ": " + encoding + "\r\n"
  }

  /** The header sub-streams of a part: one line per header. */
  function HeaderStreams(hs: Headers): (ss: seq<string>)
    ensures |ss| == |hs|
    ensures Concat(ss) == HeaderLines(hs)
  {
    if |hs| == 0 then []
    else
      var init := HeaderStreams(hs[..|hs| - 1]);
      var last := HeaderLine(hs[|hs| - 1].0, hs[|hs| - 1].1);
      ConcatAppend(init, [last]);
      assert [last][1..] == [];
      init + [last]
  }

  /** A part has an encoding the stream form refuses. */
  predicate Unsupported(p: Part)
  {
    p.encoding != "binary" && p.encoding != "base64"
  }

  /**
   * `createPartStream`: the sub-streams of a part (its header lines, the
   * encoding line, an empty line, the body, base64-encoded for "base64");
   * any other encoding is refused.
   */
  function PartStream(p: Part, base64: string -> string): (r: Result<seq<string>, Fault>)
    ensures r.Failure? <==> Unsupported(p)
    ensures r.Failure? ==> r.error == EncodingNotSupported
  {
    if Unsupported(p) then Failure(EncodingNotSupported)
    else
      var body := if p.encoding == "base64" then base64(p.body) else p.body;
      Success(HeaderStreams(p.headers) + [EncodingLine(p.encoding), "\r\n", body])
  }

  /**
   * The loop of `createResponseStream`: the first delimiter, then per part
   * an empty line, the part's own Append stream (which reads as the
   * concatenation of its sub-streams) and a delimiter.
   */
  function BodyStreams(boundary: string, parts: seq<Part>, base64: string -> string): (r: Result<seq<string>, Fault>)
    ensures r.Failure? <==> exists i :: 0 <= i < |parts| && Unsupported(parts[i])
    ensures r.Failure? ==> r.error == EncodingNotSupported
  {
    if |parts| == 0 then Success(["\r\n" + Delimiter(boundary)])
    else
      var init := parts[..|parts| - 1];
      assert forall i :: 0 <= i < |init| ==> init[i] == parts[i];
      var before :- BodyStreams(boundary, init, base64);
      var part :- PartStream(parts[|parts| - 1], base64);
      Success(before + ["\r\n", Concat(part), "\r\n" + Delimiter(boundary)])
  }

  /** `createResponseStream`: the body's sub-streams, then the closing "--". */
  function ResponseStream(boundary: string, parts: seq<Part>, base64: string -> string): (r: Result<seq<string>, Fault>)
    ensures r.Failure? <==> exists i :: 0 <= i < |parts| && Unsupported(parts[i])
    ensures r.Failure? ==> r.error == EncodingNotSupported
    ensures r.Success? ==> |r.value| > 0 && r.value[|r.value| - 1] == "--"
  {
    var body :- BodyStreams(boundary, parts, base64);
    Success(body + ["--"])
  }

  /** The part as the stream form writes it: the encoding header added, the body encoded. */
  function Streamed(p: Part, base64: string -> string): Part
  {
    Part(p.headers + [(TransferEncoding, p.encoding)],
         if p.encoding == "base64" then base64(p.body) else p.body,
         p.encoding)
  }

  /** `Streamed` on every part. */
  function AllStreamed(parts: seq<Part>, base64: string -> string): (r: seq<Part>)
    ensures |r| == |parts| && forall i :: 0 <= i < |parts| ==> r[i] == Streamed(parts[i], base64)
  {
    seq(|parts|, i requires 0 <= i < |parts| => Streamed(parts[i], base64))
  }

  lemma AllStreamedSnoc(parts: seq<Part>, base64: string -> string)
    requires |parts| > 0
    ensures AllStreamed(parts, base64) == AllStreamed(parts[..|parts| - 1], base64) + [Streamed(parts[|parts| - 1], base64)]
  {
    var all, joined := AllStreamed(parts, base64), AllStreamed(parts[..|parts| - 1], base64) + [Streamed(parts[|parts| - 1], base64)];
    assert |all| == |joined|;
    forall i | 0 <= i < |all|
      ensures all[i] == joined[i]
    {
      if i < |parts| - 1 {
        assert joined[i] == AllStreamed(parts[..|parts| - 1], base64)[i];
      }
    }
  }

  /** The encoding header line is the line the stream form adds. */
  lemma EncodingHeaderLine(encoding: string)
    ensures HeaderLine(TransferEncoding, encoding) == EncodingLine(encoding)
  {
    LowerCaseKept(TransferEncoding);
    assert LowerString(TransferEncoding) != ContentLocation by {
      assert LowerString(TransferEncoding)[8] == 't' && ContentLocation[8] == 'l';
    }
  }

  /** A part's stream reads as the streamed part's text without its final line break. */
  lemma PartStreamText(p: Part, base64: string -> string)
    requires !Unsupported(p)
    ensures Concat(PartStream(p, base64).value) + "\r\n" == PartText(Streamed(p, base64))
  {
    var s := Streamed(p, base64);
    var h, e, n := HeaderLines(p.headers), EncodingLine(p.encoding), "\r\n";
    EncodingHeaderLine(p.encoding);
    assert s.headers[..|s.headers| - 1] == p.headers;
    assert HeaderLines(s.headers) == h + e;
    ConcatAppend(HeaderStreams(p.headers), [e, n, s.body]);
    ConcatThree(e, n, s.body);
    assert Concat(PartStream(p, base64).value) == h + (e + n + s.body);
    Regroup3(h, e, n, s.body);
  }

  lemma ConcatThree(a: string, b: string, c: string)
    ensures Concat([a, b, c]) == a + b + c
  {
    assert [a, b, c][1..] == [b, c] && [b, c][1..] == [c] && [c][1..] == [];
    assert Concat([c]) == c;
    assert Concat([b, c]) == b + c;
    Associative(a, b, c);
  }

  lemma JoinStep(h: string, p: string, n: string, c: string, d: string)
    ensures (h + p) + (n + c + (n + d)) == h + (p + n + (c + n) + d)
  {
    assert n + c + (n + d) == n + c + n + d;
    assert p + n + (c + n) + d == p + (n + c + n + d);
  }

  /** The body's sub-streams read as the opening delimiter and the corrected parts. */
  lemma {:induction false} BodyMatchesText(boundary: string, parts: seq<Part>, base64: string -> string)
    requires BodyStreams(boundary, parts, base64).Success?
    ensures Concat(BodyStreams(boundary, parts, base64).value)
              == "\r\n" + Delimiter(boundary) + PartsText(boundary, AllStreamed(parts, base64))
  {
    var d, n := Delimiter(boundary), "\r\n";
    if |parts| == 0 {
      assert [n + d][1..] == [];
    } else {
      var init := parts[..|parts| - 1];
      var last := parts[|parts| - 1];
      assert forall i :: 0 <= i < |init| ==> init[i] == parts[i];
      var before := BodyStreams(boundary, init, base64).value;
      var c := Concat(PartStream(last, base64).value);
      BodyMatchesText(boundary, init, base64);
      PartStreamText(last, base64);
      ConcatAppend(before, [n, c, n + d]);
      ConcatThree(n, c, n + d);
      var all := AllStreamed(parts, base64);
      AllStreamedSnoc(parts, base64);
      PartsTextSnoc(boundary, AllStreamed(init, base64), Streamed(last, base64));
      JoinStep(n + d, PartsText(boundary, AllStreamed(init, base64)), n, c, d);
    }
  }

  /**
   * Read to its end, the stream form is the corrected string form of the
   * same parts with their encoding header added and their bodies encoded.
   */
  lemma StreamMatchesString(boundary: string, parts: seq<Part>, base64: string -> string)
    requires ResponseStream(boundary, parts, base64).Success?
    ensures Concat(ResponseStream(boundary, parts, base64).value) == ContentText(boundary, AllStreamed(parts, base64))
  {
    var body := BodyStreams(boundary, parts, base64).value;
    BodyMatchesText(boundary, parts, base64);
    ConcatAppend(body, ["--"]);
    assert ["--"][1..] == [];
  }

  // ---------------------------------------------------------------------
  // Constructor headers
  // ---------------------------------------------------------------------

  /** The content-type of a multipart body with this boundary. */
  function ContentType(boundary: string): string
  {
    "multipart/mixed; boundary=" + boundary
  }

  /**
   * The constructor's headers as written: content-type set, the encoding
   * defaulted to binary unless the exact key "content-transfer-encoding"
   * is set, and then the names lower-cased.
   */
  function ConstructorHeadersAsWritten(boundary: string, headers: Headers): Headers
  {
    var typed := Assign(headers, "content-type", ContentType(boundary));
    var encoded := if Lookup(typed, TransferEncoding).Some? then typed else Assign(typed, TransferEncoding, "binary");
    ChangeKeyCase(encoded)
  }

  /**
   * A caller's encoding header under a name that is not all lower case
   * ("Content-Transfer-Encoding") escapes the exact key test; the default
   * "binary", assigned after it, then wins when the names are lower-cased,
   * where the corrected constructor keeps the caller's value.
   */
  lemma MixedCaseEncodingReplaced(boundary: string, name: string, value: string)
    requires LowerString(name) == TransferEncoding && name != TransferEncoding
    ensures Lookup(ConstructorHeadersAsWritten(boundary, [(name, value)]), TransferEncoding) == Some("binary")
    ensures Lookup(ConstructorHeaders(boundary, [(name, value)]), TransferEncoding) == Some(value)
  {
    var given: Headers := [(name, value)];
    var ct := ("content-type", ContentType(boundary));
    assert |name| == |TransferEncoding| == 25;
    LowerCaseKept(TransferEncoding);
    assert name != "content-type" && TransferEncoding != "content-type";
    var typed := Assign(given, "content-type", ContentType(boundary));
    assert typed == [(name, value), ct] by {
      assert given[1..] == [];
      assert Assign([], "content-type", ContentType(boundary)) == [ct];
    }
    assert Lookup(typed, TransferEncoding).None? by {
      assert typed[1..] == [ct] && typed[1..][1..] == [];
      assert Lookup([], TransferEncoding).None?;
      assert Lookup([ct], TransferEncoding).None?;
    }
    var encoded := Assign(typed, TransferEncoding, "binary");
    assert encoded == [(name, value), ct, (TransferEncoding, "binary")] by {
      assert typed[1..] == [ct] && typed[1..][1..] == [];
      assert Assign([], TransferEncoding, "binary") == [(TransferEncoding, "binary")];
      assert Assign([ct], TransferEncoding, "binary") == [ct, (TransferEncoding, "binary")];
    }
    assert LastWithLowerName(encoded, TransferEncoding) == Some("binary");
    assert LastWithLowerName(given, TransferEncoding) == Some(value);
  }

  /** "Content-Transfer-Encoding", as a caller may well write it, is such a name. */
  lemma CapitalisedEncodingName()
    ensures LowerString("Content-Transfer-Encoding") == TransferEncoding
  {
    var s := "Content-Transfer-Encoding";
    assert forall i :: 0 <= i < |s| ==> LowerString(s)[i] == TransferEncoding[i];
  }

  /**
   * The constructor's headers, corrected: lower-cased first, then
   * content-type set and the encoding defaulted to binary only when no
   * header of that name, in any case, was given.
   */
  function ConstructorHeaders(boundary: string, headers: Headers): (r: Headers)
    ensures UniqueNames(r) && LowerNames(r)
    ensures Lookup(r, "content-type") == Some(ContentType(boundary))
    ensures Lookup(r, TransferEncoding)
              == if LastWithLowerName(headers, TransferEncoding).Some? then LastWithLowerName(headers, TransferEncoding)
                 else Some("binary")
    ensures forall name {:trigger LastWithLowerName(headers, name)} ::
              name != "content-type" && name != TransferEncoding ==> Lookup(r, name) == LastWithLowerName(headers, name)
  {
    var lowered := ChangeKeyCase(headers);
    LowerCaseKept("content-type");
    LowerCaseKept(TransferEncoding);
    var typed := Assign(lowered, "content-type", ContentType(boundary));
    AssignFacts(lowered, "content-type", ContentType(boundary));
    if Lookup(typed, TransferEncoding).Some? then typed
    else
      AssignFacts(typed, TransferEncoding, "binary");
      Assign(typed, TransferEncoding, "binary")
  }

  class MultipartResponse {
    var content: seq<Part>
    var statusCode: int
    var headers: Headers
    const boundary: string

    /**
     * The boundary given, or `uniqid()`; content-type names it and the
     * encoding defaults to binary; the status is 200 unless given.
     */
    constructor (parts: seq<Part>, boundary: Option<string>, uniqid: string, statusCode: int := 200, headers: Headers := [])
      ensures this.boundary == if boundary.Some? then boundary.value else uniqid
      ensures content == parts && this.statusCode == statusCode
      ensures this.headers == ConstructorHeaders(this.boundary, headers)
    {
      this.boundary := if boundary.Some? then boundary.value else uniqid;
      content := parts;
      this.statusCode := statusCode;
      this.headers := ConstructorHeaders(if boundary.Some? then boundary.value else uniqid, headers);
    }

    /** `getContentAsString` (corrected). */
    function ContentAsString(): string
      reads this
    {
      ContentText(boundary, content)
    }

    /**
     * `createResponseStream`: an Append stream over the body's sub-streams,
     * or the fault of a part whose encoding is refused.
     */
    method CreateResponseStream(base64: string -> string) returns (r: Result<Append, Fault>)
      ensures r.Failure? <==> ResponseStream(boundary, content, base64).Failure?
      ensures r.Failure? ==> r.error == EncodingNotSupported
      ensures r.Success? ==> fresh(r.value) && r.value.Valid() && |r.value.streams| > 0
                             && r.value.Remaining() == Concat(ResponseStream(boundary, content, base64).value)
    {
      var texts := ResponseStream(boundary, content, base64);
      if texts.Failure? {
        return Failure(texts.error);
      }
      var stream := FromTexts(texts.value);
      r := Success(stream);
    }

    /**
     * `send`: the header lines, then the response stream read in chunks of
     * 1048576 characters until it ends. What goes out after the headers is
     * the corrected string form of the parts as the stream writes them.
     */
    method Send(server: map<string, Php.Value>, base64: string -> string) returns (lines: seq<string>, body: Result<string, Fault>)
      ensures lines == SentHeaders(server, statusCode, headers)
      ensures body.Failure? <==> exists i :: 0 <= i < |content| && Unsupported(content[i])
      ensures body.Failure? ==> body.error == EncodingNotSupported
      ensures body.Success? ==> body.value == ContentText(boundary, AllStreamed(content, base64))
    {
      lines := SentHeaders(server, statusCode, headers);
      var created := CreateResponseStream(base64);
      if created.Failure? {
        return lines, Failure(created.error);
      }
      // The loop of `send` reads the stream as `__toString` does.
      var out := created.value.ToString();
      StreamMatchesString(boundary, content, base64);
      body := Success(out.value);
    }
  }
}
