/** The `Response` class: a status, a dict of headers and a payload, and
    `send_response`, which writes the status line and the headers as one block
    and the payload as a second. */
module ResponseBuilder {
  import opened Wrappers
  import opened SeqFacts
  import opened Errors
  import opened Utf8
  import opened PyText
  import opened PyDict
  import opened Stream

  /** A value handed to `set_payload`: bytes, or a value `str` can turn into text. */
  datatype PyValue = PyBytes(bytes: seq<byte>) | PyStr(text: string) | PyInt(number: int)

  /** What `set_payload` stores for `v`: bytes as they are, anything else as the
      UTF-8 encoding of `str(v)`. */
  function PayloadBytes(v: PyValue): seq<byte> {
    match v
    case PyBytes(b) => b
    case PyStr(s) => Encode(s)
    case PyInt(n) => Encode(IntToString(n))
  }

  /** What a text payload gives back when decoded: the text `str` made of it. */
  lemma PayloadText(v: PyValue)
    requires !v.PyBytes?
    ensures Decode(PayloadBytes(v)) == Some(if v.PyStr? then v.text else IntToString(v.number))
  {
    if v.PyStr? {
      DecodeEncode(v.text);
    } else {
      DecodeEncode(IntToString(v.number));
    }
  }

  /** The `payload` attribute: the `str` it starts as, or the bytes it is set to. */
  datatype Payload = Text(text: string) | Raw(bytes: seq<byte>)

  /** `len(payload)`: characters for a `str`, bytes for `bytes`. */
  function Len(p: Payload): nat {
    match p
    case Text(s) => |s|
    case Raw(b) => |b|
  }

  function StatusLine(code: int, message: string): string {
    "HTTP/1.1 " + IntToString(code) + " " + message
  }

  function HeaderLine(key: string, value: string): string {
    key + ": " + value
  }

  /** One line per header, in the order the dict keeps its keys. */
  function HeaderLines(headers: Dict): (r: seq<string>)
    ensures |r| == |headers|
  {
    seq(|headers|, i requires 0 <= i < |headers| => HeaderLine(headers[i].0, headers[i].1))
  }

  /** One more dict entry adds its line at the end. */
  lemma HeaderLinesSnoc(headers: Dict, i: nat)
    requires i < |headers|
    ensures HeaderLines(headers[..i + 1]) == HeaderLines(headers[..i]) + [HeaderLine(headers[i].0, headers[i].1)]
  {
    assert headers[..i + 1][i] == headers[i];
  }

  function LengthLine(length: int): string {
    "content-length: " + IntToString(length)
  }

  /** The lines of the head: the status line, the headers, the length last. */
  function HeadLines(code: int, message: string, headers: Dict, length: int): seq<string> {
    [StatusLine(code, message)] + HeaderLines(headers) + [LengthLine(length)]
  }

  /** The head as text: its lines joined by LF, then an empty line. */
  function HeadText(code: int, message: string, headers: Dict, length: int): string {
    Join(HeadLines(code, message, headers, length), "\n") + "\n\n"
  }

  /** Neither a key nor a value holds an LF. */
  predicate HeadersOneLine(headers: Dict) {
    forall i :: 0 <= i < |headers| ==> '\n' !in headers[i].0 && '\n' !in headers[i].1
  }

  /** When the message and the headers hold no LF, no line of the head does. */
  lemma HeadLinesOneLine(code: int, message: string, headers: Dict, length: int)
    requires '\n' !in message && HeadersOneLine(headers)
    ensures var lines := HeadLines(code, message, headers, length);
      forall i :: 0 <= i < |lines| ==> '\n' !in lines[i]
  {
    var lines := HeadLines(code, message, headers, length);
    IntToStringChars(code);
    IntToStringChars(length);
    assert forall i :: 1 <= i < |lines| - 1 ==> lines[i] == HeaderLine(headers[i - 1].0, headers[i - 1].1);
  }

  /** The head is its lines and two empty ones, joined by LF. */
  lemma HeadTextJoin(code: int, message: string, headers: Dict, length: int)
    ensures Join(HeadLines(code, message, headers, length) + ["", ""], "\n") == HeadText(code, message, headers, length)
  {
    assert Join(["", ""], "\n") == "\n" by {
      JoinPair("", [""], "\n");
    }
    JoinAppend(HeadLines(code, message, headers, length), ["", ""], "\n");
  }

  /** When the message and the headers hold no LF, splitting the head on LF gives
      back its lines one for one, followed by the two empty pieces of the blank
      line that ends it. */
  lemma HeadTextSplit(code: int, message: string, headers: Dict, length: int)
    requires '\n' !in message && HeadersOneLine(headers)
    ensures SplitOn(HeadText(code, message, headers, length), '\n')
            == HeadLines(code, message, headers, length) + ["", ""]
  {
    var parts := HeadLines(code, message, headers, length) + ["", ""];
    HeadLinesOneLine(code, message, headers, length);
    HeadTextJoin(code, message, headers, length);
    assert forall i :: 0 <= i < |parts| ==> '\n' !in parts[i];
    SplitOnJoin(parts, '\n');
  }

  /** The response being built. `Valid` is what every method keeps: no key is
      stored twice (as in every dict), and the content length is the length of
      the payload. */
  class Response {
    var payload: Payload
    var contentLength: int
    var headers: Dict
    var code: int
    var message: string

    predicate Valid()
      reads this
    {
      KeysUnique(headers) && contentLength == Len(payload)
    }

    /** `Response()`: status 200 OK, no headers, the empty `str` as payload. */
    constructor ()
      ensures Valid()
      ensures payload == Text("") && contentLength == 0 && headers == [] && code == 200 && message == "OK"
    {
      payload := Text("");
      contentLength := 0;
      headers := [];
      code := 200;
      message := "OK";
    }

    /** `add_header(key, value)`. */
    method AddHeader(key: string, value: string)
      requires Valid()
      modifies this`headers
      ensures Valid()
      ensures headers == Put(old(headers), key, value)
    {
      PutUnique(headers, key, value);
      headers := Put(headers, key, value);
    }

    /** `set_payload(payload)`. */
    method SetPayload(v: PyValue)
      requires Valid()
      modifies this`payload, this`contentLength
      ensures Valid()
      ensures payload == Raw(PayloadBytes(v)) && contentLength == |PayloadBytes(v)|
    {
      var bytes: seq<byte>;
      if v.PyBytes? {
        bytes := v.bytes;
      } else {
        var s := if v.PyStr? then v.text else IntToString(v.number);
        bytes := Encode(s);
      }
      payload := Raw(bytes);
      contentLength := |bytes|;
    }

    /** `set_status_code(code)`. */
    method SetStatusCode(code: int)
      modifies this`code
      ensures this.code == code
    {
      this.code := code;
    }

    /** `set_status_message(message)`. */
    method SetStatusMessage(message: string)
      modifies this`message
      ensures this.message == message
    {
      this.message := message;
    }

    /** `send_response(connection)`: writes the head, then the payload. A payload
        that is still the initial `str` cannot be written: the head has gone out
        by then, and the call fails. */
    method SendResponse(conn: Connection) returns (r: Result<(), Error>)
      requires Valid()
      modifies conn`output
      ensures r == if payload.Raw? then Success(()) else Failure(PayloadNotBytes)
      ensures conn.output == old(conn.output) + Encode(HeadText(code, message, headers, contentLength))
                             + (if payload.Raw? then payload.bytes else [])
    {
      var lines := ["HTTP/1.1 " + IntToString(code) + " " + message];
      for i := 0 to |headers|
        invariant lines == [StatusLine(code, message)] + HeaderLines(headers[..i])
        invariant conn.output == old(conn.output)
      {
        var key := headers[i].0;
        GetEntry(headers, i);
        var value := Get(headers, key).value;
        HeaderLinesSnoc(headers, i);
        AppendAssoc([StatusLine(code, message)], HeaderLines(headers[..i]), [HeaderLine(key, value)]);
        lines := lines + [key + ": " + value];
      }
      assert headers[..|headers|] == headers;
      lines := lines + ["content-length: " + IntToString(contentLength)];
      assert lines == HeadLines(code, message, headers, contentLength);
      conn.Write(Encode(Join(lines, "\n") + "\n\n"));
      match payload
      case Text(_) =>
        assert conn.output == conn.output + [];
        r := Failure(PayloadNotBytes);
      case Raw(b) =>
        conn.Write(b);
        r := Success(());
    }
  }
}
