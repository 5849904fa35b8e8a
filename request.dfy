/** `read_request` and the `Request` it builds: the request line split into
    method, path and protocol, and the header lines turned into a dict. */
module RequestParser {
  import opened Wrappers
  import opened SeqFacts
  import opened Errors
  import opened Utf8
  import opened PyText
  import opened PyDict
  import opened Stream
  import opened LineReader

  /** A parsed request. Every field is set once, when the request is built;
      `verb` is the source's `method` attribute (a reserved word here). */
  datatype Request = Request(
    requestLines: seq<string>,
    verb: string,
    path: string,
    protocol: string,
    headers: Dict)

  // The header lines (populate_headers).

  /** The key and value one header line is stored under. */
  function HeaderEntry(line: string): (string, string) {
    var split := SplitOn(line, ':');
    if |split| == 1 then (Lower(line), "")
    else (Lower(split[0]), Join(split[1..], ":"))
  }

  /** With a colon, the key is the lower-cased text before the first colon and
      the value is all the text after it, later colons and spaces included, so
      that key text, colon and value make up the line again. Without a colon the
      whole lower-cased line is the key and the value is empty. */
  lemma HeaderEntrySplit(line: string)
    ensures ':' in line ==>
      var i := IndexOf(line, ':');
      && HeaderEntry(line) == (Lower(line[..i]), line[i + 1..])
      && line == line[..i] + ":" + HeaderEntry(line).1
    ensures ':' !in line ==> HeaderEntry(line) == (Lower(line), "")
  {
    if ':' in line {
      HeaderEntryColon(line);
      LineAroundColon(line);
    }
  }

  /** The entry of a line with a colon: the text before the first colon, lower-cased,
      and the text after it. */
  lemma HeaderEntryColon(line: string)
    requires ':' in line
    ensures HeaderEntry(line) == (Lower(line[..IndexOf(line, ':')]), line[IndexOf(line, ':') + 1..])
  {
    SplitOnFirst(line, ':');
  }

  /** A line is the text before its first colon, the colon and the text after it. */
  lemma LineAroundColon(line: string)
    requires ':' in line
    ensures line == line[..IndexOf(line, ':')] + ":" + line[IndexOf(line, ':') + 1..]
  {
    SplitAround(line, IndexOf(line, ':'));
  }

  /** Each header line's entry, in order. */
  function Entries(lines: seq<string>): (r: seq<(string, string)>)
    ensures |r| == |lines|
  {
    seq(|lines|, i requires 0 <= i < |lines| => HeaderEntry(lines[i]))
  }

  /** The dict the header lines give: each line's entry stored in turn. */
  function HeadersOf(lines: seq<string>): Dict {
    FromPairs(Entries(lines))
  }

  /** `populate_headers(headers)`. */
  method PopulateHeaders(lines: seq<string>) returns (headers: Dict)
    ensures headers == HeadersOf(lines)
  {
    headers := [];
    for i := 0 to |lines|
      invariant headers == HeadersOf(lines[..i])
    {
      assert Entries(lines[..i + 1])[..i] == Entries(lines[..i]);
      var split := SplitOn(lines[i], ':');
      if |split| == 1 {
        headers := Put(headers, Lower(lines[i]), "");
        continue;
      }
      var key := Lower(split[0]);
      var value := Join(split[1..], ":");
      headers := Put(headers, key, value);
    }
    assert lines[..|lines|] == lines;
  }

  /** No key is stored twice. */
  lemma HeadersUnique(lines: seq<string>)
    ensures KeysUnique(HeadersOf(lines))
  {
    FromPairsUnique(Entries(lines));
  }

  /** A key is stored exactly when some header line has it as its key. */
  lemma HeadersAbsent(lines: seq<string>, k: string)
    ensures Get(HeadersOf(lines), k).None?
            <==> forall i :: 0 <= i < |lines| ==> HeaderEntry(lines[i]).0 != k
  {
    FromPairsAbsent(Entries(lines), k);
    assert forall i :: 0 <= i < |lines| ==> Entries(lines)[i] == HeaderEntry(lines[i]);
  }

  /** A later header line with the same key overwrites an earlier one: the value
      stored under a key is that of the last line with that key. */
  lemma HeadersLast(lines: seq<string>, i: nat)
    requires i < |lines|
    requires forall j :: i < j < |lines| ==> HeaderEntry(lines[j]).0 != HeaderEntry(lines[i]).0
    ensures Get(HeadersOf(lines), HeaderEntry(lines[i]).0) == Some(HeaderEntry(lines[i]).1)
  {
    FromPairsLast(Entries(lines), i);
  }

  // The request line (Request.__init__).

  /** `Request(request_lines)`: fails when there is no line at all, or when the
      upper-cased first line does not split into exactly three words. */
  function ParsedRequest(lines: seq<string>): Result<Request, Error> {
    if lines == [] then Failure(NoRequestLine)
    else
      var words := Words(Upper(lines[0]));
      if |words| != 3 then Failure(MalformedRequestLine(|words|))
      else Success(Request(lines, words[0], words[1], words[2], HeadersOf(lines[1..])))
  }

  /** `Request(request_lines)`, calling `populate_headers` on the lines after the first. */
  method NewRequest(lines: seq<string>) returns (r: Result<Request, Error>)
    ensures r == ParsedRequest(lines)
  {
    if |lines| == 0 {
      return Failure(NoRequestLine);
    }
    var words := Words(Upper(lines[0]));
    if |words| != 3 {
      return Failure(MalformedRequestLine(|words|));
    }
    var headers := PopulateHeaders(lines[1..]);
    r := Success(Request(lines, words[0], words[1], words[2], headers));
  }

  /** A word followed by a run of spaces is split off as the first word. */
  lemma WordThenSpaces(w: string, sep: string, s: string)
    requires w != [] && NoSpace(w) && sep != [] && AllSpace(sep)
    ensures Words(w + sep + s) == [w] + Words(s)
  {
    WordsCons(w, sep, s);
    WordsSkipSpace(sep, s);
  }

  /** Three words separated by runs of spaces split into those three words. */
  lemma ThreeWords(a: string, s1: string, b: string, s2: string, c: string)
    requires a != [] && NoSpace(a) && b != [] && NoSpace(b) && c != [] && NoSpace(c)
    requires s1 != [] && AllSpace(s1) && s2 != [] && AllSpace(s2)
    ensures Words(a + s1 + b + s2 + c) == [a, b, c]
  {
    assert Words(c) == [c] by {
      WordsCons(c, [], []);
      assert c + [] + [] == c;
    }
    WordThenSpaces(b, s2, c);
    WordThenSpaces(a, s1, b + s2 + c);
    Regroup(a, s1, b, s2, c);
  }

  lemma Regroup(a: string, s1: string, b: string, s2: string, c: string)
    ensures a + s1 + (b + s2 + c) == a + s1 + b + s2 + c
  {
  }

  lemma UpperKeepsSpacing(w: string)
    ensures NoSpace(w) ==> NoSpace(Upper(w))
    ensures AllSpace(w) ==> AllSpace(Upper(w))
  {
  }

  lemma UpperFive(m: string, sep1: string, p: string, sep2: string, v: string)
    ensures Upper(m + sep1 + p + sep2 + v) == Upper(m) + Upper(sep1) + Upper(p) + Upper(sep2) + Upper(v)
  {
    UpperAppend(m + sep1 + p + sep2, v);
    UpperAppend(m + sep1 + p, sep2);
    UpperAppend(m + sep1, p);
    UpperAppend(m, sep1);
  }

  /** The upper-cased request line splits into the three words upper-cased. */
  lemma UpperWords(m: string, sep1: string, p: string, sep2: string, v: string)
    requires m != [] && NoSpace(m) && p != [] && NoSpace(p) && v != [] && NoSpace(v)
    requires sep1 != [] && AllSpace(sep1) && sep2 != [] && AllSpace(sep2)
    ensures Words(Upper(m + sep1 + p + sep2 + v)) == [Upper(m), Upper(p), Upper(v)]
  {
    UpperFive(m, sep1, p, sep2, v);
    UpperKeepsSpacing(m);
    UpperKeepsSpacing(p);
    UpperKeepsSpacing(v);
    UpperKeepsSpacing(sep1);
    UpperKeepsSpacing(sep2);
    ThreeWords(Upper(m), Upper(sep1), Upper(p), Upper(sep2), Upper(v));
  }

  /** A request line made of three words separated by runs of spaces parses into
      those words upper-cased, with the other lines as its headers. */
  lemma ParsedRequestLine(m: string, p: string, v: string, sep1: string, sep2: string, rest: seq<string>)
    requires m != [] && NoSpace(m) && p != [] && NoSpace(p) && v != [] && NoSpace(v)
    requires sep1 != [] && AllSpace(sep1) && sep2 != [] && AllSpace(sep2)
    ensures ParsedRequest([m + sep1 + p + sep2 + v] + rest)
            == Success(Request([m + sep1 + p + sep2 + v] + rest, Upper(m), Upper(p), Upper(v), HeadersOf(rest)))
  {
    var line := m + sep1 + p + sep2 + v;
    UpperWords(m, sep1, p, sep2, v);
    assert ([line] + rest)[0] == line && ([line] + rest)[1..] == rest;
  }

  /** The method, the path and the protocol hold no ASCII lower-case letter: they are
      words of the upper-cased request line. */
  lemma ParsedUpperCase(lines: seq<string>)
    requires ParsedRequest(lines).Success?
    ensures var req := ParsedRequest(lines).value;
      forall c :: c in req.verb + req.path + req.protocol ==> !IsLowerLetter(c)
  {
    var line := Upper(lines[0]);
    WordsChars(line);
    var ws := Words(line);
    assert forall c :: c in ws[0] + ws[1] + ws[2] ==> c in line;
  }

  // Collecting the lines (read_request).

  /** What `read_request` collects from position `pos`, and where it stops. */
  datatype Collected = Collected(lines: Result<seq<string>, Error>, next: nat)

  /** The lines before the first empty one; the empty line ends the request and
      is not part of it. */
  function CollectLines(data: seq<byte>, pos: nat): (r: Collected)
    requires pos <= |data|
    ensures r.next <= |data|
    decreases |data| - pos
  {
    var l := NextLine(data, pos);
    match l.line
    case Failure(e) => Collected(Failure(e), l.next)
    case Success(line) =>
      if line == "" then Collected(Success([]), l.next)
      else Prepend([line], CollectLines(data, l.next))
  }

  /** Every collected line is non-empty: the empty line only ends the request. */
  lemma {:induction false} CollectedNonEmpty(data: seq<byte>, pos: nat)
    requires pos <= |data|
    requires CollectLines(data, pos).lines.Success?
    ensures forall i :: 0 <= i < |CollectLines(data, pos).lines.value| ==> CollectLines(data, pos).lines.value[i] != ""
    decreases |data| - pos
  {
    var l := NextLine(data, pos);
    if l.line.Success? && l.line.value != "" {
      CollectedNonEmpty(data, l.next);
    }
  }

  /** Lines read earlier in front of what is collected afterwards. */
  function Prepend(front: seq<string>, c: Collected): Collected {
    match c.lines
    case Failure(e) => c
    case Success(ls) => Collected(Success(front + ls), c.next)
  }

  lemma PrependTwice(a: seq<string>, b: seq<string>, c: Collected)
    ensures Prepend(a, Prepend(b, c)) == Prepend(a + b, c)
  {
    if c.lines.Success? {
      assert a + (b + c.lines.value) == (a + b) + c.lines.value;
    }
  }

  /** The request `read_request` returns when the read position is at `pos`. */
  function RequestAt(data: seq<byte>, pos: nat): Result<Request, Error>
    requires pos <= |data|
  {
    match CollectLines(data, pos).lines
    case Failure(e) => Failure(e)
    case Success(ls) => ParsedRequest(ls)
  }

  /** `read_request(connection)`. */
  method ReadRequest(conn: Connection) returns (r: Result<Request, Error>)
    requires conn.Valid()
    modifies conn`pos
    ensures conn.Valid()
    ensures conn.pos == CollectLines(conn.input, old(conn.pos)).next
    ensures r == RequestAt(conn.input, old(conn.pos))
  {
    var req: seq<string> := [];
    ghost var start := conn.pos;
    ghost var all := CollectLines(conn.input, start);
    assert all.lines.Success? ==> [] + all.lines.value == all.lines.value;
    while true
      invariant conn.Valid() && start <= conn.pos
      invariant CollectLines(conn.input, start) == Prepend(req, CollectLines(conn.input, conn.pos))
      decreases |conn.input| - conn.pos
    {
      ghost var before := conn.pos;
      var line := GetLine(conn);
      if line.Failure? {
        return Failure(line.error);
      }
      if line.value == "" {
        assert req + [] == req;
        break;
      }
      assert CollectLines(conn.input, before) == Prepend([line.value], CollectLines(conn.input, conn.pos));
      PrependTwice(req, [line.value], CollectLines(conn.input, conn.pos));
      req := req + [line.value];
    }
    r := NewRequest(req);
  }

  // The bytes of a well-formed request.

  /** A line that can be sent as one request line: not empty, no line break in it. */
  predicate Sendable(line: string) {
    line != "" && '\n' !in line && '\r' !in line
  }

  /** Each line as its UTF-8 bytes followed by CR LF, then the empty line. */
  function Framed(lines: seq<string>): seq<byte> {
    if lines == [] then [CR, LF] else Encode(lines[0]) + [CR, LF] + Framed(lines[1..])
  }

  /** Reading from `pos` yields `lines`, one at a time, then the empty line,
      after which the cursor stands at `end`. */
  ghost predicate LinesAt(data: seq<byte>, pos: nat, lines: seq<string>, end: nat)
    requires pos <= |data|
    decreases |lines|
  {
    var l := NextLine(data, pos);
    if lines == [] then l == LineRead(Success(""), end)
    else l.line == Success(lines[0]) && lines[0] != "" && LinesAt(data, l.next, lines[1..], end)
  }

  /** Lines read one at a time are exactly what CollectLines gathers. */
  lemma {:induction false} CollectLinesAt(data: seq<byte>, pos: nat, lines: seq<string>, end: nat)
    requires pos <= |data| && LinesAt(data, pos, lines, end)
    ensures CollectLines(data, pos) == Collected(Success(lines), end)
    decreases |lines|
  {
    if lines != [] {
      CollectLinesAt(data, NextLine(data, pos).next, lines[1..], end);
      assert [lines[0]] + lines[1..] == lines;
    }
  }

  /** The bytes from `pos` on are the blocks, each followed by CR LF, then CR LF. */
  ghost predicate BlocksAt(data: seq<byte>, pos: nat, blocks: seq<seq<byte>>)
    decreases |blocks|
  {
    if blocks == [] then pos + 2 <= |data| && data[pos..pos + 2] == [CR, LF]
    else
      && pos + |blocks[0]| + 2 <= |data|
      && data[pos..pos + |blocks[0]| + 2] == blocks[0] + [CR, LF]
      && BlocksAt(data, pos + |blocks[0]| + 2, blocks[1..])
  }

  ghost function BlocksLength(blocks: seq<seq<byte>>): nat {
    if blocks == [] then 2 else |blocks[0]| + 2 + BlocksLength(blocks[1..])
  }

  lemma {:induction false} BlocksAtLinesAt(data: seq<byte>, pos: nat, blocks: seq<seq<byte>>, lines: seq<string>)
    requires |blocks| == |lines| && AllCarry(blocks, lines)
    requires pos <= |data| && BlocksAt(data, pos, blocks)
    ensures LinesAt(data, pos, lines, pos + BlocksLength(blocks))
    decreases |blocks|
  {
    if blocks == [] {
      LinesAtEnd(data, pos);
    } else {
      var n := |blocks[0]| + 2;
      var end := pos + BlocksLength(blocks);
      assert end == pos + n + BlocksLength(blocks[1..]);
      BlocksAtLinesAt(data, pos + n, blocks[1..], lines[1..]);
      LinesAtBlock(data, pos, blocks, lines, end);
    }
  }

  /** CR LF alone is read as the empty line that ends the request. */
  lemma LinesAtEnd(data: seq<byte>, pos: nat)
    requires pos + 2 <= |data| && data[pos..pos + 2] == [CR, LF]
    ensures LinesAt(data, pos, [], pos + 2)
  {
    assert Carries([], "");
    assert [] + [CR, LF] == [CR, LF];
    NextLineBlock(data, pos, [], "");
  }

  /** The first block followed by CR LF, then the lines after it, is read as
      its line followed by those lines. */
  lemma LinesAtBlock(data: seq<byte>, pos: nat, blocks: seq<seq<byte>>, lines: seq<string>, end: nat)
    requires blocks != [] && |blocks| == |lines| && AllCarry(blocks, lines)
    requires BlocksAt(data, pos, blocks)
    requires LinesAt(data, pos + |blocks[0]| + 2, lines[1..], end)
    ensures LinesAt(data, pos, lines, end)
  {
    NextLineBlock(data, pos, blocks[0], lines[0]);
  }

  /** The UTF-8 bytes of each line. */
  ghost function Encodes(lines: seq<string>): (r: seq<seq<byte>>)
    ensures |r| == |lines|
  {
    seq(|lines|, i requires 0 <= i < |lines| => Encode(lines[i]))
  }

  lemma {:induction false} FramedBlocksAt(data: seq<byte>, pos: nat, lines: seq<string>)
    requires pos + |Framed(lines)| <= |data|
    requires data[pos..pos + |Framed(lines)|] == Framed(lines)
    ensures BlocksAt(data, pos, Encodes(lines))
    ensures BlocksLength(Encodes(lines)) == |Framed(lines)|
    decreases |lines|
  {
    if lines != [] {
      var head := Encode(lines[0]) + [CR, LF];
      var tail := Framed(lines[1..]);
      assert Framed(lines) == head + tail;
      SliceParts(data, pos, head, tail);
      FramedBlocksAt(data, pos + |head|, lines[1..]);
      assert Encodes(lines)[1..] == Encodes(lines[1..]);
    }
  }

  /** Each block carries its line, and no line is empty. */
  ghost predicate AllCarry(blocks: seq<seq<byte>>, lines: seq<string>)
    requires |blocks| == |lines|
    decreases |blocks|
  {
    blocks == [] || (lines[0] != "" && Carries(blocks[0], lines[0]) && AllCarry(blocks[1..], lines[1..]))
  }

  lemma {:induction false} EncodesCarry(lines: seq<string>)
    requires forall i :: 0 <= i < |lines| ==> Sendable(lines[i])
    ensures AllCarry(Encodes(lines), lines)
    decreases |lines|
  {
    if lines != [] {
      EncodeCarries(lines[0]);
      assert forall i :: 0 <= i < |lines[1..]| ==> Sendable(lines[1..][i]) by {
        assert forall i :: 0 <= i < |lines[1..]| ==> lines[1..][i] == lines[i + 1];
      }
      EncodesCarry(lines[1..]);
      assert Encodes(lines)[1..] == Encodes(lines[1..]);
    }
  }

  /** A request whose lines are sent each followed by CR LF, then one more CR LF,
      is read back line for line, and reading stops right after the empty line. */
  lemma CollectFramed(data: seq<byte>, pos: nat, lines: seq<string>)
    requires forall i :: 0 <= i < |lines| ==> Sendable(lines[i])
    requires pos + |Framed(lines)| <= |data|
    requires data[pos..pos + |Framed(lines)|] == Framed(lines)
    ensures CollectLines(data, pos) == Collected(Success(lines), pos + |Framed(lines)|)
  {
    var blocks := Encodes(lines);
    FramedBlocksAt(data, pos, lines);
    EncodesCarry(lines);
    CollectBlocks(data, pos, blocks, lines);
  }

  lemma CollectBlocks(data: seq<byte>, pos: nat, blocks: seq<seq<byte>>, lines: seq<string>)
    requires |blocks| == |lines| && AllCarry(blocks, lines)
    requires pos <= |data| && BlocksAt(data, pos, blocks)
    ensures CollectLines(data, pos) == Collected(Success(lines), pos + BlocksLength(blocks))
  {
    BlocksAtLinesAt(data, pos, blocks, lines);
    CollectLinesAt(data, pos, lines, pos + BlocksLength(blocks));
  }

  /** A well-formed request sent as bytes: a request line of three words and
      then header lines, each followed by CR LF, and an empty line to end them.
      `read_request` reads it back into the three words upper-cased and the dict
      of its headers. */
  lemma RequestFramed(data: seq<byte>, pos: nat, lines: seq<string>,
                      m: string, sep1: string, p: string, sep2: string, v: string)
    requires m != [] && NoSpace(m) && p != [] && NoSpace(p) && v != [] && NoSpace(v)
    requires sep1 != [] && AllSpace(sep1) && sep2 != [] && AllSpace(sep2)
    requires lines != [] && lines[0] == m + sep1 + p + sep2 + v
    requires forall i :: 0 <= i < |lines| ==> Sendable(lines[i])
    requires pos + |Framed(lines)| <= |data|
    requires data[pos..pos + |Framed(lines)|] == Framed(lines)
    ensures RequestAt(data, pos)
            == Success(Request(lines, Upper(m), Upper(p), Upper(v), HeadersOf(lines[1..])))
  {
    CollectFramed(data, pos, lines);
    ParsedRequestLine(m, p, v, sep1, sep2, lines[1..]);
    assert [lines[0]] + lines[1..] == lines;
  }
}
