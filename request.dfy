/**
 * Oxygen_Http_Request: the server parameters, the raw body read at most
 * once as a stream, and the authenticated flag. The GET, POST, cookie and
 * file parameters are carried but never interpreted by this class, so the
 * model keeps only the server parameters. `php://input` is the parameter
 * `input` of the call that first reads it.
 */
module Request {

  import opened Wrappers
  import opened OxygenException
  import opened Php

  /** The body field: not read yet (null), read as text, or handed out as a stream (false). */
  datatype Body = Unread | Loaded(text: string) | Streamed

  /** What `getContent` returns: the text, or a stream reading `php://input`. */
  datatype Content = Text(text: string) | Stream(input: string)

  /** The media type of the dashboard's requests. */
  const OxygenType := "application/oxygen"

  const CalledTwice := "getContent() can only be called once when using the resource return type."

  /**
   * `getContent($asResource)`: a stream only when nothing was read before;
   * the text is read from the input once and then kept.
   */
  function ContentStep(body: Body, asResource: bool, input: string): (step: (Result<Content, Fault>, Body))
    ensures step.0.Failure? <==> body.Streamed? || (asResource && !body.Unread?)
    ensures step.0.Failure? ==> step.0.error == RuntimeError(CalledTwice) && step.1 == body
    ensures step.0.Success? && asResource ==> step == (Success(Stream(input)), Streamed)
    ensures step.0.Success? && !asResource ==>
              var text := if body.Loaded? then body.text else input;
              step == (Success(Text(text)), Loaded(text))
  {
    if body.Streamed? || (asResource && !body.Unread?) then (Failure(RuntimeError(CalledTwice)), body)
    else if asResource then (Success(Stream(input)), Streamed)
    else
      var text := if body.Unread? then input else body.text;
      (Success(Text(text)), Loaded(text))
  }

  /** Reading the text twice gives the same text, whatever the input is at the second read. */
  lemma TextStable(body: Body, first: string, second: string)
    requires ContentStep(body, false, first).0.Success?
    ensures ContentStep(ContentStep(body, false, first).1, false, second).0 == ContentStep(body, false, first).0
  {
  }

  /** After any successful read, asking for a stream fails, and after a stream every read fails. */
  lemma StreamOnlyFirst(body: Body, asResource: bool, first: string, later: bool, second: string)
    requires ContentStep(body, asResource, first).0.Success?
    ensures ContentStep(ContentStep(body, asResource, first).1, true, second).0 == Failure(RuntimeError(CalledTwice))
    ensures asResource ==> ContentStep(ContentStep(body, asResource, first).1, later, second).0.Failure?
  {
  }

  /** The separators around a media type: `\s` (PCRE whitespace), ',' and ';'. */
  predicate Separator(c: char)
  {
    c == ' ' || c == '\t' || c == '\n' || c == '\U{0B}' || c == '\U{0C}' || c == '\r' || c == ',' || c == ';'
  }

  /** `type` occurs at i, preceded by the start or a separator and followed by the end or a separator. */
  predicate TokenAt(header: string, mediaType: string, i: int)
  {
    && 0 <= i && i + |mediaType| <= |header|
    && header[i..i + |mediaType|] == mediaType
    && (i == 0 || Separator(header[i - 1]))
    && (i + |mediaType| == |header| || Separator(header[i + |mediaType|]))
  }

  /** The first position at or after `from` where the token occurs. */
  function FindToken(header: string, mediaType: string, from: nat): (r: Option<nat>)
    ensures r.Some? ==> from <= r.value && TokenAt(header, mediaType, r.value)
    ensures r.Some? ==> forall i :: from <= i < r.value ==> !TokenAt(header, mediaType, i)
    ensures r.None? ==> forall i :: from <= i ==> !TokenAt(header, mediaType, i)
    decreases |header| - from
  {
    if from + |mediaType| > |header| then None
    else if TokenAt(header, mediaType, from) then Some(from)
    else FindToken(header, mediaType, from + 1)
  }

  /**
   * `preg_match('{(\s|,|;|^)' . preg_quote($type) . '(\s|,|;|$)}', $header)`:
   * the type occurs as a whole token of the header.
   */
  predicate HasToken(header: string, mediaType: string)
  {
    FindToken(header, mediaType, 0).Some?
  }

  /** HasToken is exactly "some position holds the token". */
  lemma HasTokenIff(header: string, mediaType: string)
    ensures HasToken(header, mediaType) <==> exists i :: TokenAt(header, mediaType, i)
  {
    if !HasToken(header, mediaType) {
      forall i ensures !TokenAt(header, mediaType, i) {
        if i < 0 {
        }
      }
    }
  }

  /** A listed type is accepted wherever it stands in the list, with or without parameters. */
  lemma OxygenAccepted()
    ensures HasToken("text/html, " + OxygenType + ";q=0.9", OxygenType)
  {
    var header := "text/html, " + OxygenType + ";q=0.9";
    assert header[11..29] == OxygenType;
    assert TokenAt(header, OxygenType, 11);
    HasTokenIff(header, OxygenType);
  }

  /** A type that only starts with the requested one is not accepted. */
  lemma LongerTypeRefused()
    ensures !HasToken("application/oxygens", "application/oxygen")
  {
    var header := "application/oxygens";
    assert header[18] == 's';
    assert header[0] == 'a' && header[1] == 'p';
    assert !TokenAt(header, "application/oxygen", 0);
    assert header[1..19] != "application/oxygen" by {
      assert header[1..19][0] == 'p';
    }
    assert !TokenAt(header, "application/oxygen", 1);
  }

  class Request {
    const server: map<string, Value>
    var content: Body
    var authenticated: bool

    /** A request with the given server parameters and, when given, an already known body. */
    constructor (server: map<string, Value>, content: Option<string>)
      ensures this.server == server && !authenticated
      ensures this.content == if content.Some? then Loaded(content.value) else Unread
    {
      this.server := server;
      this.content := if content.Some? then Loaded(content.value) else Unread;
      authenticated := false;
    }

    /** `getContent`. */
    method GetContent(asResource: bool, input: string) returns (r: Result<Content, Fault>)
      modifies this
      ensures (r, content) == ContentStep(old(content), asResource, input)
      ensures authenticated == old(authenticated)
    {
      if content.Streamed? || (asResource && !content.Unread?) {
        return Failure(RuntimeError(CalledTwice));
      }
      if asResource {
        content := Streamed;
        return Success(Stream(input));
      }
      if content.Unread? {
        content := Loaded(input);
      }
      r := Success(Text(content.text));
    }

    /** The header a server parameter holds, when it is set. */
    function Header(name: string): (h: Option<string>)
      reads this
      ensures h.Some? <==> IsSet(server, name)
    {
      if IsSet(server, name) then Some(ToText(server[name])) else None
    }

    /** `isContentType`: false without a Content-Type header. */
    predicate IsContentType(mediaType: string)
      reads this
    {
      Header("CONTENT_TYPE").Some? && HasToken(Header("CONTENT_TYPE").value, mediaType)
    }

    /** `accepts`: false without an Accept header. */
    predicate Accepts(mediaType: string)
      reads this
    {
      Header("HTTP_ACCEPT").Some? && HasToken(Header("HTTP_ACCEPT").value, mediaType)
    }

    /** `isAuthenticated`. */
    predicate IsAuthenticated()
      reads this
    {
      authenticated
    }

    /** `setAuthenticated`: only the flag changes. */
    method SetAuthenticated(value: bool)
      modifies this
      ensures authenticated == value && content == old(content)
    {
      authenticated := value;
    }
  }
}
