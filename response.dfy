/**
 * Oxygen_Http_Response: a content value, a status code and the headers,
 * whose names are lower-cased once, at construction. Sending (the
 * `header()` calls, the output buffers and `print`) is output; the model
 * keeps the header lines `sendHeaders` would emit as a value.
 */
module Response {

  import opened Wrappers
  import opened OxygenException
  import opened Php
  import opened Util

  /**
   * A PHP array of header name => value, in array order. A PHP array never
   * holds a key twice; the operations below do not rely on it.
   */
  type Headers = seq<(string, string)>

  /** The content a response carries: a PHP value, or an object with or without `__toString`. */
  datatype Content = Plain(value: Value) | Instance(toString: Option<string>)

  /** `$headers[name]`: the value stored under a name, if any. */
  function Lookup(hs: Headers, name: string): Option<string>
  {
    if |hs| == 0 then None
    else if hs[0].0 == name then Some(hs[0].1)
    else Lookup(hs[1..], name)
  }

  /** No two entries share a name, as in every PHP array. */
  predicate UniqueNames(hs: Headers)
  {
    |hs| == 0 || (Lookup(hs[1..], hs[0].0).None? && UniqueNames(hs[1..]))
  }

  /** A string with no upper-case ASCII letter. */
  predicate LowerCase(s: string)
  {
    LowerString(s) == s
  }

  /** Every name is in lower case. */
  predicate LowerNames(hs: Headers)
  {
    forall i :: 0 <= i < |hs| ==> LowerCase(hs[i].0)
  }

  /** `$headers[name] = value`: an existing entry is overwritten where it stands, a new one goes last. */
  function Assign(hs: Headers, name: string, value: string): Headers
  {
    if |hs| == 0 then [(name, value)]
    else if hs[0].0 == name then [(name, value)] + hs[1..]
    else [hs[0]] + Assign(hs[1..], name, value)
  }

  /**
   * After an assignment the name holds the new value, every other name
   * keeps its value, unique names stay unique and lower-case names stay
   * lower-case.
   */
  lemma {:induction false} AssignFacts(hs: Headers, name: string, value: string)
    ensures forall other {:trigger Lookup(Assign(hs, name, value), other)} ::
              Lookup(Assign(hs, name, value), other) == if other == name then Some(value) else Lookup(hs, other)
    ensures UniqueNames(hs) ==> UniqueNames(Assign(hs, name, value))
    ensures LowerNames(hs) && LowerCase(name) ==> LowerNames(Assign(hs, name, value))
  {
    var r := Assign(hs, name, value);
    if |hs| == 0 {
      assert r[1..] == [];
    } else if hs[0].0 == name {
      assert r[0].0 == hs[0].0 && r[1..] == hs[1..];
      assert forall i :: 1 <= i < |r| ==> r[i] == hs[i];
    } else {
      var rest := Assign(hs[1..], name, value);
      AssignFacts(hs[1..], name, value);
      assert r[0] == hs[0] && r[1..] == rest;
      forall other ensures Lookup(r, other) == if other == name then Some(value) else Lookup(hs, other) {
        if other != hs[0].0 {
          assert Lookup(hs, other) == Lookup(hs[1..], other);
        }
      }
      if LowerNames(hs) && LowerCase(name) {
        assert LowerNames(hs[1..]) by {
          forall i | 0 <= i < |hs[1..]| ensures LowerCase(hs[1..][i].0) {
            assert hs[1..][i] == hs[i + 1];
          }
        }
        forall i | 0 <= i < |r| ensures LowerCase(r[i].0) {
          if i > 0 {
            assert r[i] == rest[i - 1];
          }
        }
      }
    }
  }

  /** `strtolower` gives a lower-case string. */
  lemma LowerStringLowerCase(s: string)
    ensures LowerCase(LowerString(s))
  {
  }

  /** The value of the LAST header whose lower-cased name is `name`. */
  function LastWithLowerName(hs: Headers, name: string): Option<string>
  {
    if |hs| == 0 then None
    else if LowerString(hs[|hs| - 1].0) == name then Some(hs[|hs| - 1].1)
    else LastWithLowerName(hs[..|hs| - 1], name)
  }

  /**
   * `array_change_key_case($headers, CASE_LOWER)`: every name lower-cased;
   * when two names differ only in case, the entry stays where the first
   * one stood and takes the value of the last one.
   */
  function ChangeKeyCase(hs: Headers): (r: Headers)
    ensures UniqueNames(r) && LowerNames(r)
    ensures forall name {:trigger Lookup(r, name)} :: Lookup(r, name) == LastWithLowerName(hs, name)
  {
    if |hs| == 0 then []
    else
      var before := ChangeKeyCase(hs[..|hs| - 1]);
      var name := LowerString(hs[|hs| - 1].0);
      LowerStringLowerCase(hs[|hs| - 1].0);
      AssignFacts(before, name, hs[|hs| - 1].1);
      Assign(before, name, hs[|hs| - 1].1)
  }

  /** Every name given is found lower-cased, with the value given last under that name. */
  lemma ChangeKeyCaseFinds(hs: Headers, i: nat)
    requires i < |hs|
    requires forall j :: i < j < |hs| ==> LowerString(hs[j].0) != LowerString(hs[i].0)
    ensures Lookup(ChangeKeyCase(hs), LowerString(hs[i].0)) == Some(hs[i].1)
  {
    LastFound(hs, i);
  }

  /** The last header with a lower-cased name is the one `LastWithLowerName` picks. */
  lemma {:induction false} LastFound(hs: Headers, i: nat)
    requires i < |hs|
    requires forall j :: i < j < |hs| ==> LowerString(hs[j].0) != LowerString(hs[i].0)
    ensures LastWithLowerName(hs, LowerString(hs[i].0)) == Some(hs[i].1)
  {
    if i < |hs| - 1 {
      LastFound(hs[..|hs| - 1], i);
    }
  }

  /** Lower-casing the names a second time changes nothing. */
  lemma ChangeKeyCaseIdempotent(hs: Headers)
    ensures ChangeKeyCase(ChangeKeyCase(hs)) == ChangeKeyCase(hs)
  {
    LowerNamesKept(ChangeKeyCase(hs));
  }

  /** Unique names stay unique without the last entry, which holds a name not used before. */
  lemma {:induction false} UniqueInit(hs: Headers)
    requires |hs| > 0 && UniqueNames(hs)
    ensures UniqueNames(hs[..|hs| - 1]) && Lookup(hs[..|hs| - 1], hs[|hs| - 1].0).None?
  {
    if |hs| > 1 {
      var init := hs[..|hs| - 1];
      UniqueInit(hs[1..]);
      assert hs[1..][..|hs[1..]| - 1] == init[1..];
      assert hs[1..][|hs[1..]| - 1] == hs[|hs| - 1];
      LookupInit(hs[1..], hs[0].0);
      assert hs[0].0 != hs[|hs| - 1].0 by {
        LookupLast(hs[1..]);
      }
    }
  }

  /** A name missing from an array is missing from its prefix. */
  lemma {:induction false} LookupInit(hs: Headers, name: string)
    requires |hs| > 0 && Lookup(hs, name).None?
    ensures Lookup(hs[..|hs| - 1], name).None?
  {
    if |hs| > 1 {
      assert hs[1..][..|hs[1..]| - 1] == hs[..|hs| - 1][1..];
      LookupInit(hs[1..], name);
    }
  }

  /** The last name of an array is found in it. */
  lemma {:induction false} LookupLast(hs: Headers)
    requires |hs| > 0
    ensures Lookup(hs, hs[|hs| - 1].0).Some?
  {
    if |hs| > 1 && hs[0].0 != hs[|hs| - 1].0 {
      LookupLast(hs[1..]);
    }
  }

  /** On unique lower-case names `array_change_key_case` is the identity. */
  lemma {:induction false} LowerNamesKept(hs: Headers)
    requires UniqueNames(hs) && LowerNames(hs)
    ensures ChangeKeyCase(hs) == hs
  {
    if |hs| > 0 {
      var init := hs[..|hs| - 1];
      UniqueInit(hs);
      LowerNamesKept(init);
      var last := hs[|hs| - 1];
      AssignNew(init, last.0, last.1);
      assert init + [last] == hs;
    }
  }

  /** Assigning a name not yet present appends one entry. */
  lemma {:induction false} AssignNew(hs: Headers, name: string, value: string)
    requires Lookup(hs, name).None?
    ensures Assign(hs, name, value) == hs + [(name, value)]
  {
    if |hs| > 0 {
      AssignNew(hs[1..], name, value);
      assert [hs[0]] + (hs[1..] + [(name, value)]) == hs + [(name, value)];
    }
  }

  /** The message of the LogicException `getContentAsString` throws. */
  function NotStringable(typeName: string): string
  {
    "The Response content must be a string or object implementing __toString(), \"" + typeName + "\" given."
  }

  /**
   * `getContentAsString`: null, strings and numbers cast to a string, an
   * object through its `__toString`; a boolean, an array or an object
   * without `__toString` is a LogicException naming its type.
   */
  function AsString(c: Content): (r: Result<string, Fault>)
    ensures r.Failure? <==> (c.Plain? && (c.value.Bool? || c.value.Arr?)) || c == Instance(None)
    ensures r.Success? && c.Plain? ==> r.value == ToText(c.value)
    ensures r.Success? && c.Instance? ==> r.value == c.toString.value
    ensures r.Failure? ==> r.error == LogicError(NotStringable(if c.Plain? then TypeOf(c.value) else "object"))
  {
    match c
    case Instance(None) => Failure(LogicError(NotStringable("object")))
    case Instance(Some(text)) => Success(text)
    case Plain(v) =>
      if v.Null? || v.Str? || v.Int? then Success(ToText(v))
      else Failure(LogicError(NotStringable(TypeOf(v))))
  }

  /** Null content is the empty string, and an array names itself in the error. */
  lemma NullAndArrayContent()
    ensures AsString(Plain(Null)) == Success("")
    ensures AsString(Plain(Arr(map[]))) == Failure(LogicError(NotStringable("array")))
  {
  }

  /** `self::$statusTexts[$code]`: the reason phrase of a registered status code. */
  function StatusText(code: int): Option<string>
  {
    match code
    case 100 => Some("Continue")
    case 101 => Some("Switching Protocols")
    case 102 => Some("Processing")
    case 200 => Some("OK")
    case 201 => Some("Created")
    case 202 => Some("Accepted")
    case 203 => Some("Non-Authoritative Information")
    case 204 => Some("No Content")
    case 205 => Some("Reset Content")
    case 206 => Some("Partial Content")
    case 207 => Some("Multi-Status")
    case 208 => Some("Already Reported")
    case 226 => Some("IM Used")
    case 300 => Some("Multiple Choices")
    case 301 => Some("Moved Permanently")
    case 302 => Some("Found")
    case 303 => Some("See Other")
    case 304 => Some("Not Modified")
    case 305 => Some("Use Proxy")
    case 306 => Some("Reserved")
    case 307 => Some("Temporary Redirect")
    case 308 => Some("Permanent Redirect")
    case 400 => Some("Bad Request")
    case 401 => Some("Unauthorized")
    case 402 => Some("Payment Required")
    case 403 => Some("Forbidden")
    case 404 => Some("Not Found")
    case 405 => Some("Method Not Allowed")
    case 406 => Some("Not Acceptable")
    case 407 => Some("Proxy Authentication Required")
    case 408 => Some("Request Timeout")
    case 409 => Some("Conflict")
    case 410 => Some("Gone")
    case 411 => Some("Length Required")
    case 412 => Some("Precondition Failed")
    case 413 => Some("Request Entity Too Large")
    case 414 => Some("Request-URI Too Long")
    case 415 => Some("Unsupported Media Type")
    case 416 => Some("Requested Range Not Satisfiable")
    case 417 => Some("Expectation Failed")
    case 418 => Some("I'm a teapot")
    case 422 => Some("Unprocessable Entity")
    case 423 => Some("Locked")
    case 424 => Some("Failed Dependency")
    case 425 => Some("Reserved for WebDAV advanced collections expired proposal")
    case 426 => Some("Upgrade Required")
    case 428 => Some("Precondition Required")
    case 429 => Some("Too Many Requests")
    case 431 => Some("Request Header Fields Too Large")
    case 500 => Some("Internal Server Error")
    case 501 => Some("Not Implemented")
    case 502 => Some("Bad Gateway")
    case 503 => Some("Service Unavailable")
    case 504 => Some("Gateway Timeout")
    case 505 => Some("HTTP Version Not Supported")
    case 506 => Some("Variant Also Negotiates (Experimental)")
    case 507 => Some("Insufficient Storage")
    case 508 => Some("Loop Detected")
    case 510 => Some("Not Extended")
    case 511 => Some("Network Authentication Required")
    case _ => None
  }

  /** The status-line protocol: HTTP/1.0 only for a server protocol of exactly "HTTP/1.0". */
  function Protocol(server: map<string, Value>): (p: string)
    ensures p == "HTTP/1.0" <==> "SERVER_PROTOCOL" in server && server["SERVER_PROTOCOL"] == Str("HTTP/1.0")
    ensures p == "HTTP/1.0" || p == "HTTP/1.1"
  {
    if IsSet(server, "SERVER_PROTOCOL") && server["SERVER_PROTOCOL"] == Str("HTTP/1.0") then "HTTP/1.0"
    else "HTTP/1.1"
  }

  /** The status line `sendHeaders` emits: only for a code in the table. */
  function StatusLine(server: map<string, Value>, code: int): (line: Option<string>)
    ensures line.Some? <==> StatusText(code).Some?
  {
    match StatusText(code)
    case None => None
    case Some(text) => Some(Protocol(server) + " " + Decimal(code) + " " + text)
  }

  /** A known code gets its reason phrase; a code outside the table gets no status line at all. */
  lemma StatusLines()
    ensures StatusLine(map[], 404) == Some("HTTP/1.1 " + Decimal(404) + " Not Found")
    ensures StatusLine(map["SERVER_PROTOCOL" := Str("HTTP/1.0")], 200) == Some("HTTP/1.0 " + Decimal(200) + " OK")
    ensures StatusLine(map["SERVER_PROTOCOL" := Str("HTTP/1.0")], 299).None?
  {
    assert StatusText(404) == Some("Not Found");
    assert StatusText(200) == Some("OK");
    assert Protocol(map[]) == "HTTP/1.1";
    assert Protocol(map["SERVER_PROTOCOL" := Str("HTTP/1.0")]) == "HTTP/1.0";
    var d, e := Decimal(404), Decimal(200);
    assert "HTTP/1.1" + " " + d + " " + "Not Found" == "HTTP/1.1 " + d + " Not Found";
    assert "HTTP/1.0" + " " + e + " " + "OK" == "HTTP/1.0 " + e + " OK";
  }

  /** The header lines `sendHeaders` emits: the status line, if any, then one `name: value` per header. */
  function SentHeaders(server: map<string, Value>, code: int, hs: Headers): (lines: seq<string>)
    ensures |lines| == |hs| + (if StatusText(code).Some? then 1 else 0)
    ensures StatusText(code).Some? ==> lines[0] == StatusLine(server, code).value
    ensures var k := |lines| - |hs|;
            forall i :: 0 <= i < |hs| ==> lines[k + i] == hs[i].0 + ": " + hs[i].1
  {
    var status := if StatusText(code).Some? then [StatusLine(server, code).value] else [];
    status + seq(|hs|, i requires 0 <= i < |hs| => hs[i].0 + ": " + hs[i].1)
  }

  class Response {
    var content: Content
    var statusCode: int
    var headers: Headers

    /** The header names lower-cased; the status code is 200 unless given. */
    constructor (content: Content, statusCode: int := 200, headers: Headers := [])
      ensures this.content == content && this.statusCode == statusCode
      ensures this.headers == ChangeKeyCase(headers)
    {
      this.content := content;
      this.statusCode := statusCode;
      this.headers := ChangeKeyCase(headers);
    }

    /** `setContent`: the content is replaced, nothing else changes. */
    method SetContent(content: Content) returns (self: Response)
      modifies this
      ensures self == this && this.content == content
      ensures statusCode == old(statusCode) && headers == old(headers)
    {
      this.content := content;
      self := this;
    }

    /** `getContent`. */
    function GetContent(): Content
      reads this
    {
      content
    }

    /** `getContentAsString`. */
    function ContentAsString(): Result<string, Fault>
      reads this
    {
      AsString(content)
    }

    /**
     * `send`: the header lines go out first, then the content as a string;
     * content that cannot be a string fails only after the headers were sent.
     */
    function Send(server: map<string, Value>): (out: (seq<string>, Result<string, Fault>))
      reads this
      ensures |out.0| >= |headers|
      ensures out.0 == SentHeaders(server, statusCode, headers)
      ensures out.1.Failure? <==> (content.Plain? && (content.value.Bool? || content.value.Arr?)) || content == Instance(None)
      ensures out.1.Success? && content.Plain? ==> out.1.value == ToText(content.value)
    {
      (SentHeaders(server, statusCode, headers), AsString(content))
    }
  }

  /** A response built with no status code answers 200; what was set is what is read back. */
  method DefaultsAndRoundTrip(c: Content, d: Content) returns (response: Response)
    ensures fresh(response) && response.statusCode == 200 && response.headers == []
    ensures response.GetContent() == d
  {
    response := new Response(c);
    var self := response.SetContent(d);
  }
}
