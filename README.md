# A toy HTTP/1.1 file server, modelled in Dafny

`server.py` serves one connection at a time. It reads a request line by line,
up to the first empty line. It takes the method, the path and the protocol from
the upper-cased first line, and the headers from the lines after it. It looks
up the file `public/<path>` (`/` stands for `index.html`). The reply is either
status 200 with the file's bytes, or status 404 with a small HTML page. The
reply is written as two byte blocks: first the UTF-8 head, which is the status
line, the headers and a `content-length` line, joined by LF and ended by an
empty line; then the payload. Then the connection is closed.

The model has these parts:

- `Stream.Connection`: the connection. It holds the bytes the peer sent, a
  read cursor, the bytes written back, and whether it has been closed.
- `LineReader`: `get_line`. `NextLine` says which line the cursor yields and
  where the cursor ends up. The method `GetLine` reads byte by byte, as the
  source does, and is proved against it.
- `RequestParser`: `read_request`, `Request.__init__` and `populate_headers`.
  The request is a value (`Request`). `RequestAt` is the request that can be
  read at a position, or the error that stops it.
- `ResponseBuilder.Response`: the `Response` class. Its setters change its
  fields. `SendResponse` writes the head and the payload.
- `Handler`: `handle_connection`, which resolves the path, chooses the status
  and replies.
- The Python text and data types these rest on:
  - `Utf8`: strict UTF-8 `encode`/`decode`.
  - `PyText`: `split()`, `split(':')`, `join`, `upper`/`lower`, `str(int)`.
  - `PyDict`: an insertion-ordered `dict` of strings.

The failures the source raises as exceptions (a request line that is not
three words, no request line, bytes that are not UTF-8) become `Failure`
values of the `Errors.Error` type.

## Model

| member | source | states |
|---|---|---|
| Stream.Connection.Read1 | server.py:74 | `read(1)` gives the next byte and advances the cursor, or gives no bytes at the end of the input |
| Stream.Connection.Write | server.py:63-64 | written bytes go out after everything written before |
| Stream.Connection.Close | server.py:125 | the connection is closed afterwards |
| LineReader.IsTerminator | server.py:75 | a byte ends a line exactly when it is LF or CR |
| LineReader.FindTerminator | server.py:75 | a terminator that is found lies between the start and the end of the data |
| LineReader.FindTerminatorFirst | server.py:73-79 | the terminator found is a CR or LF with none before it; when none is found there is none in the rest of the data |
| LineReader.NextLine | server.py:71-79 | the cursor stays within the data, and it advances whenever a line is read |
| LineReader.NextLineAt | server.py:73-78 | given the first CR or LF at `t`, the line is the UTF-8 decoding of the bytes before it, or a decode error; the cursor moves to `t + 2`, or to the end when there is no byte after the terminator |
| LineReader.NextLineStalls | server.py:73-79 | `get_line` never returns exactly when no CR or LF is left in the input |
| LineReader.NextLineHasNoBreak | server.py:75-78 | a line read never holds a CR or an LF |
| LineReader.EncodeCarries | server.py:78 | the text of a line without CR or LF is what its UTF-8 bytes decode to |
| LineReader.NextLineBlock | server.py:73-78 | a block that carries a line, followed by CR LF, is read as that line, and the cursor moves past the CR LF |
| LineReader.NextLineCrlf | server.py:73-78 | a line's UTF-8 bytes followed by CR LF are read back as that line |
| LineReader.GetLine | server.py:71-79 | the loop yields the line and the cursor that `NextLine` gives |
| RequestParser.HeaderEntry | server.py:16-23 | the key and value one header line is stored under; `HeaderEntrySplit` states what they are |
| RequestParser.HeaderEntrySplit | server.py:16-23 | a line with a colon is stored under the lower-cased text before the first colon, with everything after it as the value (the later colons are kept); a line without a colon is stored under the whole lower-cased line with an empty value |
| RequestParser.HeaderEntryColon | server.py:16-22 | the entry of a line with a colon is the lower-cased text before the first colon and the text after it |
| RequestParser.Entries | server.py:15 | there is one entry per header line |
| RequestParser.HeadersOf | server.py:13-23 | the dict the header lines build, by one assignment per line in order; `HeadersUnique`, `HeadersAbsent` and `HeadersLast` state what it holds |
| RequestParser.PopulateHeaders | server.py:13-23 | the loop builds the dict that `HeadersOf` gives for the lines |
| RequestParser.HeadersUnique | server.py:14-23 | no key is stored twice |
| RequestParser.HeadersAbsent | server.py:15-23 | a key is missing exactly when no header line yields it |
| RequestParser.HeadersLast | server.py:18-23 | a later line with the same key overwrites an earlier one: the last line for a key gives its value |
| RequestParser.ParsedRequest | server.py:8-11 | the request the lines make, or the error raised when there are no lines or the upper-cased first line is not three words; `ParsedRequestLine` and `ParsedUpperCase` state what a success holds |
| RequestParser.NewRequest | server.py:8-11 | gives `ParsedRequest`: there is no request without a line, there is an error when the upper-cased first line does not split into three words, and otherwise there are the three words and the headers of the other lines |
| RequestParser.WordThenSpaces | server.py:10 | `split()` takes off a leading word that is followed by white space |
| RequestParser.ThreeWords | server.py:10 | three words separated by runs of white space split into exactly those three |
| RequestParser.UpperKeepsSpacing | server.py:10 | upper-casing keeps a string with no white space free of white space, and a string of white space all white space |
| RequestParser.UpperFive | server.py:10 | upper-casing a line upper-cases its parts |
| RequestParser.UpperWords | server.py:10 | the upper-cased line splits into the three upper-cased words |
| RequestParser.ParsedRequestLine | server.py:8-11 | a first line of three words parses to their upper-cased forms, and the headers come from the remaining lines |
| RequestParser.ParsedUpperCase | server.py:10 | method, path and protocol never hold an ASCII lower-case letter |
| RequestParser.CollectLines | server.py:82-88 | the cursor after the request stays within the input |
| RequestParser.CollectedNonEmpty | server.py:84-87 | no collected line is empty, because the empty line ends the request |
| RequestParser.PrependTwice | server.py:87 | growing the collected lines one line at a time builds the same list as growing them all at once |
| RequestParser.RequestAt | server.py:81-90 | the request read from a position: the lines collected up to the empty line, parsed, or the first error; `RequestFramed` states it for a well-formed request |
| RequestParser.ReadRequest | server.py:81-90 | the loop reads the lines `CollectLines` gives, leaves the cursor where `CollectLines` does, and yields the request `RequestAt` gives |
| RequestParser.CollectLinesAt | server.py:82-88 | input that yields the given lines in order, then the empty line, is collected as those lines |
| RequestParser.BlocksAtLinesAt | server.py:82-88 | blocks, each carrying one line and ended by CR LF, followed by CR LF, yield those lines and then the empty line |
| RequestParser.LinesAtEnd | server.py:84-86 | a CR LF at the cursor is the empty line that ends the request |
| RequestParser.LinesAtBlock | server.py:84-87 | a CR-LF-ended block that carries a line is followed by the lines after it |
| RequestParser.FramedBlocksAt | server.py:82-88 | the bytes of a request that lists lines are those lines' UTF-8 blocks, each ended by CR LF, followed by CR LF |
| RequestParser.EncodesCarry | server.py:78 | the UTF-8 block of each line without line breaks carries that line |
| RequestParser.CollectFramed | server.py:81-88 | a request sent as lines, each ended by CR LF, then CR LF, is read back as those lines, and the cursor stands just after it |
| RequestParser.CollectBlocks | server.py:82-88 | lines that arrive as CR-LF-ended blocks are collected in order, and the cursor stands past the final CR LF |
| RequestParser.RequestFramed | server.py:81-90 | a well-formed request sent with CR LF line ends parses to the lines sent, the upper-cased method, path and protocol, and the headers of the lines after the first |
| ResponseBuilder.PayloadBytes | server.py:38-42 | the bytes `set_payload` stores: `bytes` as they are, anything else as the UTF-8 of its `str`; `PayloadText` states the text case |
| ResponseBuilder.Len | server.py:43 | `len(payload)`: characters for the initial `str`, bytes once a payload is set |
| ResponseBuilder.PayloadText | server.py:37-43 | a payload that is not `bytes` is stored as the UTF-8 encoding of its `str`, which decodes back to that text |
| ResponseBuilder.StatusLine | server.py:53 | the status line, `HTTP/1.1 <code> <message>` |
| ResponseBuilder.HeaderLine | server.py:57 | one header line, `key: value` |
| ResponseBuilder.HeaderLines | server.py:56-57 | there is one header line per dict entry |
| ResponseBuilder.HeaderLinesSnoc | server.py:56-57 | each further dict entry adds its `key: value` line at the end |
| ResponseBuilder.LengthLine | server.py:59 | the last head line, `content-length: <length>` |
| ResponseBuilder.HeadLines | server.py:52-59 | the status line, one line per header in dict order, then the length line |
| ResponseBuilder.HeadText | server.py:61 | the head lines joined by LF, then LF LF; `HeadTextSplit` states that the lines can be split back out |
| ResponseBuilder.HeadLinesOneLine | server.py:52-59 | when the message, keys and values hold no LF, no line of the head does |
| ResponseBuilder.HeadTextJoin | server.py:61 | the head is its lines and two empty lines, joined by LF |
| ResponseBuilder.HeadTextSplit | server.py:52-61 | when the message, keys and values hold no LF, splitting the head on LF gives back the status line, the header lines, the length line and two empty pieces |
| ResponseBuilder.Response.Valid | server.py:42-43 | what every method keeps: the content length is the length of the payload, and no header key is stored twice |
| ResponseBuilder.Response.constructor | server.py:27-32 | a new response has status 200 OK, no headers, the empty `str` as payload and length 0 |
| ResponseBuilder.Response.AddHeader | server.py:34-35 | the header is set in the dict, which still holds each key once |
| ResponseBuilder.Response.SetPayload | server.py:37-43 | bytes are stored as they are, anything else as the UTF-8 encoding of its `str`; the content length is the length of the stored bytes |
| ResponseBuilder.Response.SetStatusCode | server.py:45-46 | the status code is set |
| ResponseBuilder.Response.SetStatusMessage | server.py:48-49 | the status message is set |
| ResponseBuilder.Response.SendResponse | server.py:51-64 | writes the UTF-8 head (the status line, the headers in dict order and the `content-length` line, joined by LF, then an empty line) and then the payload bytes; an unset `str` payload fails once the head has gone out |
| Handler.GetPayload | server.py:93-98 | the contents stored for a path, or none when there is no file under that key |
| Handler.ResolvePath | server.py:106-110 | the key looked up: `public/` followed by the path, with `/` replaced by `index.html`; `ResolvePathSame` states when two paths give the same key |
| Handler.ReplyFor | server.py:112-122 | the status, message, headers and body the response gets; `FoundReply`, `MissingReply` and `ReplyCode` state them |
| Handler.ReplyBytes | server.py:61-64 | the bytes written for a reply: the UTF-8 head, then the body |
| Handler.HandleConnection | server.py:101-125 | the read cursor ends where `read_request` stops; an unreadable request fails before anything is written, and the connection stays open; otherwise the reply `ReplyFor` gives for the request `RequestAt` gives is written out and the connection is closed |
| Handler.Respond | server.py:112-125 | the response is built and sent, and the connection is closed; the bytes written are the head and then the body of `ReplyFor` |
| Handler.BuildResponse | server.py:106-122 | the response built has the status, message, headers and payload of `ReplyFor`, and a content length equal to the body's length |
| Handler.FoundReply | server.py:115-122 | a file that exists is sent with 200 OK, `content-type: text/html` and the file's bytes |
| Handler.MissingReply | server.py:113-120 | a missing file gives 404 Not Found, `content-type: text/html` and the 18-byte page `<h1>Not found</h1>` |
| Handler.ReplyCode | server.py:115-122 | the status is 200 exactly when the file exists, and 404 exactly when it does not |
| Handler.ResolvePathSame | server.py:106-110 | two request paths resolve to the same lookup key exactly when they are equal, or when one is `/` and the other `index.html` |
| Handler.LowerCaseNamesUnreachable | server.py:10 | since the path is upper-cased, a name that holds an ASCII lower-case letter is never the key looked up, except `index.html` through `/` |
| PyDict.Keys | server.py:56 | a dict's keys, in order |
| PyDict.Get | server.py:57 | a lookup misses exactly when the key is absent, and a hit is a stored entry |
| PyDict.Put | server.py:35 | `d[k] = v`: an existing key keeps its place and takes the new value, a new key goes last; `PutKeys` and `PutGet` state this |
| PyDict.PutKeys | server.py:35 | assigning a new key appends it to the keys; assigning an existing key keeps the order |
| PyDict.PutGet | server.py:18 | after an assignment the key maps to the new value, and every other key maps to what it did before |
| PyDict.PutUnique | server.py:35 | assigning keeps every key unique |
| PyDict.GetEntry | server.py:56-57 | looking up the key of an entry gives that entry's value |
| PyDict.FromPairs | server.py:14-23 | the dict an empty dict becomes after assigning each pair in order; `FromPairsUnique`, `FromPairsAbsent` and `FromPairsLast` state what it holds |
| PyDict.FromPairsUnique | server.py:14-23 | a dict built by assignments holds each key once |
| PyDict.FromPairsAbsent | server.py:14-23 | a key is absent exactly when no assignment used it |
| PyDict.FromPairsLast | server.py:18-23 | the last assignment to a key gives its value |
| PyText.Upper | server.py:10 | `upper()`, one character at a time; `UpperAppend` states that it distributes over concatenation |
| PyText.Lower | server.py:18-21 | `lower()`, one character at a time |
| PyText.IsSpace | server.py:10 | the characters `str.isspace()` accepts, at whose runs `split()` separates words |
| PyText.UpperChar | server.py:10 | upper-casing a character keeps it white space, or keeps it not white space |
| PyText.LowerChar | server.py:18 | lower-casing a character keeps it white space, or keeps it not white space |
| PyText.UpperAppend | server.py:10 | `upper()` works character by character |
| PyText.WordLength | server.py:10 | a word is the longest run of non-space characters at the start |
| PyText.Words | server.py:10 | `split()` yields words that are non-empty and hold no white space |
| PyText.WordsChars | server.py:10 | every character of a word came from the string that was split |
| PyText.WordsSkipSpace | server.py:10 | leading white space is dropped |
| PyText.WordsCons | server.py:10 | a leading word comes out first |
| PyText.WordLengthPrefix | server.py:10 | a non-space prefix that ends at white space or at the end of the string is the first word |
| PyText.WordsOfJoin | server.py:10 | words joined by white space split back into the same words |
| PyText.IndexOf | server.py:16 | the position of the first occurrence of a character |
| PyText.SplitOn | server.py:16-17 | `split(':')` yields one piece exactly when there is no colon |
| PyText.SplitOnPieces | server.py:16 | no piece holds the separator |
| PyText.SplitOnRest | server.py:16 | after the first piece come the pieces of the text after the first separator |
| PyText.Join | server.py:22 | `sep.join(parts)`; `JoinSplitOn` and `SplitOnJoin` state that it undoes `split` and is undone by it |
| PyText.JoinCons | server.py:22 | joining puts the separator before each part after the first |
| PyText.JoinPair | server.py:61 | joining a first part to more parts puts one separator between them |
| PyText.JoinAppend | server.py:61 | joining two non-empty lists of parts puts one separator between the two joins |
| PyText.JoinSplitOn | server.py:16-22 | joining the pieces of a split with the same separator gives the string back |
| PyText.SplitOnJoin | server.py:61 | splitting a join of separator-free parts gives the parts back |
| PyText.SplitOnFirst | server.py:21-22 | the first piece is the text before the first separator, and the rest rejoined is the text after it |
| PyText.DigitChar | server.py:53 | the decimal digit for a value below ten |
| PyText.NatToString | server.py:53 | `str` of a natural number is a non-empty string of digits with no leading zero |
| PyText.IntToString | server.py:53 | `str` of an integer is never empty |
| PyText.NatToStringValue | server.py:59 | the digits of `str(n)` have the value `n` |
| PyText.IntToStringValue | server.py:53 | `str(n)` starts with a minus sign exactly when `n` is negative, and its digits have the value of `|n|` |
| PyText.IntToStringChars | server.py:53-59 | `str(n)` holds only digits and a minus sign, so no line break |
| Utf8.EncodeChar | server.py:40 | a character becomes one to four bytes, and a single byte exactly for ASCII, where the byte equals the code point |
| Utf8.EncodeCharHigh | server.py:40 | every byte of a multi-byte character is 0x80 or above |
| Utf8.DecodeFirst | server.py:78 | a decoded character uses between one byte and all of the bytes |
| Utf8.DecodeFirstSound | server.py:78 | the bytes of a decoded character are that character's encoding |
| Utf8.DecodeTwoSound | server.py:78 | a decoded two-byte character is encoded by exactly those two bytes |
| Utf8.DecodeThreeSound | server.py:78 | a decoded three-byte character is encoded by exactly those three bytes |
| Utf8.DecodeFourSound | server.py:78 | a decoded four-byte character is encoded by exactly those four bytes |
| Utf8.Encode | server.py:40 | `encode('utf-8')`, character by character; `DecodeEncode` and `EncodeDecode` relate it to `Decode` both ways |
| Utf8.Decode | server.py:78 | strict `decode("utf-8")`: the text, or none for bytes that are not valid UTF-8 |
| Utf8.EncodeAppend | server.py:61 | encoding a concatenation concatenates the encodings |
| Utf8.EncodeAscii | server.py:61 | ASCII text encodes byte for byte |
| Utf8.EncodeAvoids | server.py:75 | an ASCII character absent from the text is absent from its encoding |
| Utf8.EncodeContains | server.py:75 | an ASCII character present in the text is present in its encoding |
| Utf8.DecodeFirstEncodeChar | server.py:78 | decoding the start of a character's encoding gives the character and its length |
| Utf8.DecodeEncode | server.py:40-78 | decoding an encoding gives the text back |
| Utf8.EncodeCons | server.py:40 | an encoding is the first character's bytes followed by the rest's |
| Utf8.EncodeDecode | server.py:78 | bytes that decode are the encoding of what they decode to |

## Left out

- The socket set-up and the accept loop (`server.py:131-141`) are not modelled. A connection is a `Stream.Connection` value built from the bytes the peer sends.
- `log`, the `print` calls and `datetime` (`server.py:67-68`, `104`, `127`) are left out, because they only write to the console.
- The `threading` and `socket` imports are unused by the core and have nothing to model.
- `get_payload` (`server.py:93-98`) does not touch a file system. The files are a map from path to contents passed to `Handler.HandleConnection`, and a path that is not a regular file is a missing key. The map does not model the errors `get_payload` can raise: `PermissionError` from `open` on an unreadable file (`server.py:96`), or `OSError` from `is_file` on a name that is too long (`server.py:95`); in both cases `handle_connection` raises before it writes anything.
- Handler.ResolvePathSame: the file map is keyed by the un-normalised string `public/` + path. A real file system also treats `public//A`, `public/./A` and `public/A` as one file, and may ignore case, so the lemmas about lookup keys say nothing about which files on disk are the same.
- Handler.LowerCaseNamesUnreachable: for the same reason, this is about lookup keys. On a case-insensitive file system an upper-cased path can still open a file whose name is lower case.
- PyText.UpperChar: only ASCII letters change case. Python's full Unicode `upper()`/`lower()`, including changes of length such as `ß` to `SS`, are not modelled.
- PyText.LowerChar: ASCII only, for the same reason.
- PyText.IntToString: gives a string for every integer. CPython 3.11 and later (and some security releases of 3.7-3.10) raise `ValueError` when an integer has more than 4300 decimal digits (`sys.int_max_str_digits`), so on those versions `set_payload` of such a number (`server.py:39`) and `str(self.code)` (`server.py:53`) fail, where the model's `SetPayload` and `SendResponse` succeed.
- ResponseBuilder.PayloadText: `str()` is modelled for `str` and `int` values only; `handle_connection` passes only `str` and `bytes`.
- Utf8.Encode: a Dafny `char` is a Unicode scalar value, so a lone surrogate cannot occur. A Python `str` can hold one, and `encode('utf-8')` then raises `UnicodeEncodeError` (`server.py:40`, `61`). `handle_connection` never builds such a string, but the `Response` methods accept any `str`.
- LineReader.NextLine: at the end of the input without a terminator, the source's loop spins forever on empty reads. The model returns `Failure(Stalled)` rather than diverging.
- Exceptions do not propagate. A `ValueError` from the request line, an `IndexError` for no lines, a `UnicodeDecodeError`, and the `TypeError` from writing the initial `str` payload are `Failure` results.
- Concurrency is left out, because the server handles one connection at a time.
- The model keeps two behaviours as written, since they are what the program does: the byte after every CR or LF is dropped even when it is not LF, and the request path is upper-cased before it is looked up.
