/**
 * The MainBoard's report to the web server: `upload_to_server` splices a tag ID and an
 * action code into a fixed HTTP/1.0 request, and `UART_ESP8266_cmd` sends each AT command
 * or payload line to the ESP8266 followed by CR LF.
 */
module HttpUpload {
  import opened Bytes

  /** `HTTP_request_buffer`'s initialiser, without its terminating NUL. */
  const RequestTemplate: seq<Byte> := "GET /add/##########/& HTTP/1.0"
  const REQUEST_LEN: nat := 30
  /** The ID overwrites the ten `#` from index 9; the action overwrites the `&` at index 20. */
  const ID_OFFSET: nat := 9
  const ID_LEN: nat := 10
  const ACTION_OFFSET: nat := 20

  /** The fixed AT commands `upload_to_server` sends before the request (`IP_ADDRESS` spliced in). */
  const CipStart: seq<Byte> := "AT+CIPSTART=\"TCP\",\"52.24.121.235\",80"
  const CipSend: seq<Byte> := "AT+CIPSEND=34"

  /** The bytes `UART_ESP8266_cmd` emits for the NUL-terminated `s`. */
  function Command(s: seq<Byte>): seq<Byte>
    requires NUL in s
  {
    CStr(s) + [CR, LF]
  }

  /** `UART_ESP8266_cmd`: send the string up to its terminator, then CR LF. */
  method SendCommand(s: seq<Byte>) returns (sent: seq<Byte>)
    requires NUL in s
    ensures sent == Command(s)
    ensures |sent| == |CStr(s)| + 2 && NUL !in sent[..|sent| - 2]
  {
    sent := [];
    var i := 0;
    while s[i] != NUL
      invariant 0 <= i < |s| && NUL in s[i..]
      invariant sent == s[..i] && NUL !in s[..i]
      decreases |s| - i
    {
      sent := sent + [s[i]];
      i := i + 1;
      assert s[i - 1..] == [s[i - 1]] + s[i..];
    }
    assert s == s[..i] + [NUL] + s[i + 1..];
    CStrOfTerminated(s[..i], s[i + 1..]);
    sent := sent + [CR, LF];
  }

  /** The request buffer after the splices, with its terminating NUL. */
  function Request(rfid: seq<Byte>, action: Byte): (req: seq<Byte>)
    requires |rfid| >= ID_LEN
    ensures |req| == REQUEST_LEN + 1 && req[REQUEST_LEN] == NUL
    ensures forall k :: 0 <= k < REQUEST_LEN ==>
      req[k] == if ID_OFFSET <= k < ID_OFFSET + ID_LEN then rfid[k - ID_OFFSET]
                else if k == ACTION_OFFSET then action
                else RequestTemplate[k]
  {
    RequestTemplate[..ID_OFFSET] + rfid[..ID_LEN] + RequestTemplate[ID_OFFSET + ID_LEN..ACTION_OFFSET]
      + [action] + RequestTemplate[ACTION_OFFSET + 1..] + [NUL]
  }

  /** The loop in `upload_to_server` that fills `HTTP_request_buffer`. */
  method BuildRequest(rfid: seq<Byte>, action: Byte) returns (req: seq<Byte>)
    requires |rfid| >= ID_LEN
    ensures req == Request(rfid, action)
  {
    var buffer := new Byte[REQUEST_LEN + 1](k requires 0 <= k <= REQUEST_LEN =>
      if k < REQUEST_LEN then RequestTemplate[k] else NUL);
    for i := 0 to ID_LEN
      invariant forall k :: 0 <= k <= REQUEST_LEN ==>
        buffer[k] == if ID_OFFSET <= k < ID_OFFSET + i then rfid[k - ID_OFFSET]
                     else if k < REQUEST_LEN then RequestTemplate[k] else NUL
    {
      buffer[ID_OFFSET + i] := rfid[i];
    }
    buffer[ACTION_OFFSET] := action;
    req := buffer[..];
    assert forall k :: 0 <= k < |req| ==> req[k] == Request(rfid, action)[k];
  }

  /** Everything `upload_to_server` sends to the ESP8266, in order. */
  function Upload(rfid: seq<Byte>, action: Byte): seq<Byte>
    requires |rfid| >= ID_LEN
  {
    Command(CipStart + [NUL]) + Command(CipSend + [NUL]) + Payload(rfid, action)
  }

  /** The bytes sent after `AT+CIPSEND=34`: the request line, then the empty line. */
  function Payload(rfid: seq<Byte>, action: Byte): seq<Byte>
    requires |rfid| >= ID_LEN
  {
    Command(Request(rfid, action)) + Command([NUL])
  }

  /** `upload_to_server`, less its delays. */
  method UploadToServer(rfid: seq<Byte>, action: Byte) returns (sent: seq<Byte>)
    requires |rfid| >= ID_LEN
    ensures sent == Upload(rfid, action)
  {
    var req := BuildRequest(rfid, action);
    var start := SendCommand(CipStart + [NUL]);
    var announce := SendCommand(CipSend + [NUL]);
    var line := SendCommand(req);
    var blank := SendCommand([NUL]);
    sent := start + announce + line + blank;
  }

  /** Decimal digits of `n`, most significant first. */
  function Decimal(n: nat): seq<Byte>
  {
    if n < 10 then [(n + 48) as char] else Decimal(n / 10) + [(n % 10 + 48) as char]
  }

  /** The request line is the template with the ID and the action in place, up to its NUL. */
  lemma RequestText(rfid: seq<Byte>, action: Byte)
    requires |rfid| >= ID_LEN && NUL !in rfid[..ID_LEN] && action != NUL
    ensures CStr(Request(rfid, action)) == "GET /add/" + rfid[..ID_LEN] + "/" + [action] + " HTTP/1.0"
  {
    var text := "GET /add/" + rfid[..ID_LEN] + "/" + [action] + " HTTP/1.0";
    assert RequestTemplate[..ID_OFFSET] == "GET /add/";
    assert RequestTemplate[ID_OFFSET + ID_LEN..ACTION_OFFSET] == "/";
    assert RequestTemplate[ACTION_OFFSET + 1..] == " HTTP/1.0";
    assert Request(rfid, action) == text + [NUL] + [];
    CStrOfTerminated(text, []);
  }

  /**
   * The length announced by `AT+CIPSEND=34` is the number of bytes sent after it: 30 bytes
   * of request and CR LF, then CR LF for the empty line. This holds when the ID and the
   * action contain no NUL; a NUL would cut the request short.
   */
  lemma AnnouncedLengthMatches(rfid: seq<Byte>, action: Byte)
    requires |rfid| >= ID_LEN && NUL !in rfid[..ID_LEN] && action != NUL
    ensures |Payload(rfid, action)| == 34
    ensures CipSend == "AT+CIPSEND=" + Decimal(|Payload(rfid, action)|)
  {
    RequestText(rfid, action);
    CStrOfTerminated([], []);
  }

  /**
   * The Request-Line of section 5.1 of RFC 1945 (HTTP/1.0):
   * Method SP Request-URI SP HTTP-Version CRLF.
   */
  function RequestLine(verb: seq<Byte>, uri: seq<Byte>, version: seq<Byte>): seq<Byte>
  {
    verb + [SP] + uri + [SP] + version + [CR, LF]
  }

  /**
   * `pchar` of section 3.2.1 of RFC 1945, without `%` escapes: any octet except a control
   * character (0 to 31 and 127), SP, the unsafe `"`, `#`, `%`, `<`, `>`, and the reserved `;`,
   * `/` and `?` that `pchar` does not admit.
   */
  predicate PChar(c: Byte)
  {
    32 <= c as int && c as int != 127 && c !in {SP, '"', '#', '%', '<', '>', ';', '/', '?'}
  }

  /**
   * An abs_path of section 3.2.1 of RFC 1945 with no params, query or escapes: '/', then a
   * non-empty first segment, then segments of `pchar` separated by '/'.
   */
  predicate AbsPath(uri: seq<Byte>)
  {
    |uri| >= 2 && uri[0] == '/' && PChar(uri[1]) &&
    forall k :: 1 <= k < |uri| ==> uri[k] == '/' || PChar(uri[k])
  }

  /**
   * The payload is a Full-Request of RFC 1945 with no headers: the Request-Line of
   * `GET /add/<id>/<action>` for HTTP/1.0, then the CRLF that ends the (empty) header list.
   * The URI is an abs_path when the ID and the action are free of space, CR, LF and NUL.
   */
  lemma PayloadIsRequestLine(rfid: seq<Byte>, action: Byte)
    requires |rfid| >= ID_LEN && PChar(action)
    requires forall k :: 0 <= k < ID_LEN ==> PChar(rfid[k])
    ensures Payload(rfid, action) ==
      RequestLine("GET", "/add/" + rfid[..ID_LEN] + "/" + [action], "HTTP/1.0") + [CR, LF]
    ensures AbsPath("/add/" + rfid[..ID_LEN] + "/" + [action])
  {
    PCharsHaveNoNul(rfid, action);
    PayloadText(rfid, action);
    UriIsAbsPath(rfid[..ID_LEN], action);
  }

  /** For a NUL-free ID and action, the payload reads as `GET /add/<id>/<action> HTTP/1.0` CRLF CRLF. */
  lemma PayloadText(rfid: seq<Byte>, action: Byte)
    requires |rfid| >= ID_LEN && NUL !in rfid[..ID_LEN] && action != NUL
    ensures Payload(rfid, action) ==
      RequestLine("GET", "/add/" + rfid[..ID_LEN] + "/" + [action], "HTTP/1.0") + [CR, LF]
  {
    var uri := "/add/" + rfid[..ID_LEN] + "/" + [action];
    assert uri[..5] == "/add/" && uri[5..] == rfid[..ID_LEN] + "/" + [action];
    RequestLineSpelled(uri);
    RequestText(rfid, action);
    var text := CStr(Request(rfid, action));
    assert text == "GET /add/" + uri[5..] + " HTTP/1.0";
    CStrOfTerminated([], []);
    assert Payload(rfid, action) == text + [CR, LF] + [CR, LF];
  }

  /** `GET /add/<...> HTTP/1.0` is the method, the URI and the version separated by single spaces. */
  lemma RequestLineSpelled(uri: seq<Byte>)
    requires |uri| >= 5 && uri[..5] == "/add/"
    ensures "GET /add/" + uri[5..] + " HTTP/1.0" + [CR, LF] == RequestLine("GET", uri, "HTTP/1.0")
  {
    assert uri == "/add/" + uri[5..];
    assert "GET /add/" == "GET" + [SP] + "/add/";
    assert " HTTP/1.0" == [SP] + "HTTP/1.0";
  }

  /** `pchar` excludes NUL, so an ID and action made of `pchar` meet `RequestText`'s conditions. */
  lemma PCharsHaveNoNul(rfid: seq<Byte>, action: Byte)
    requires |rfid| >= ID_LEN && PChar(action)
    requires forall k :: 0 <= k < ID_LEN ==> PChar(rfid[k])
    ensures NUL !in rfid[..ID_LEN] && action != NUL
  {
  }

  /** `/add/<id>/<action>` is an abs_path when its ID and action characters are `pchar`. */
  lemma UriIsAbsPath(id: seq<Byte>, action: Byte)
    requires PChar(action)
    requires forall k :: 0 <= k < |id| ==> PChar(id[k])
    ensures AbsPath("/add/" + id + "/" + [action])
  {
    var uri := "/add/" + id + "/" + [action];
    forall k | 1 <= k < |uri| ensures uri[k] == '/' || PChar(uri[k]) {
      if 5 <= k < 5 + |id| {
        assert uri[k] == id[k - 5];
      }
    }
  }

  /**
   * The start-up report `upload_to_server("----------", 'b')`, whose ID is ten '-', sends a
   * 34-byte payload, the number `AT+CIPSEND=34` announces, and that payload is the
   * Request-Line of `GET /add/----------/b HTTP/1.0` followed by an empty line.
   */
  lemma BootReportIsRequest(id: seq<Byte>)
    requires |id| == ID_LEN && forall k :: 0 <= k < |id| ==> id[k] == '-'
    ensures |Payload(id, 'b')| == 34
    ensures Payload(id, 'b') == RequestLine("GET", "/add/" + id + "/b", "HTTP/1.0") + [CR, LF]
    ensures AbsPath("/add/" + id + "/b")
  {
    assert PChar('-') && PChar('b');
    assert "/add/" + id[..ID_LEN] + "/" + ['b'] == "/add/" + id + "/b" by {
      assert id[..ID_LEN] == id;
    }
    PayloadIsRequestLine(id, 'b');
    PCharsHaveNoNul(id, 'b');
    AnnouncedLengthMatches(id, 'b');
  }
}
