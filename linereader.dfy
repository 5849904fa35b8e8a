/** `get_line`: reads one line from the connection, byte by byte, up to the first
    LF or CR, then throws away the byte after that terminator whatever it is. */
module LineReader {
  import opened Wrappers
  import opened Errors
  import opened Utf8
  import opened Stream

  const LF: byte := 10
  const CR: byte := 13

  predicate IsTerminator(b: byte) {
    b == LF || b == CR
  }

  /** The position of the first LF or CR at or after `from`, if there is one. */
  function FindTerminator(data: seq<byte>, from: nat): (r: Option<nat>)
    requires from <= |data|
    ensures r.Some? ==> from <= r.value < |data|
    decreases |data| - from
  {
    if from == |data| then None
    else if IsTerminator(data[from]) then Some(from)
    else FindTerminator(data, from + 1)
  }

  lemma {:induction false} FindTerminatorFirst(data: seq<byte>, from: nat)
    requires from <= |data|
    ensures FindTerminator(data, from).Some? ==> IsTerminator(data[FindTerminator(data, from).value])
    ensures FindTerminator(data, from).Some? ==>
              forall i :: from <= i < FindTerminator(data, from).value ==> !IsTerminator(data[i])
    ensures FindTerminator(data, from).None? ==> forall i :: from <= i < |data| ==> !IsTerminator(data[i])
    decreases |data| - from
  {
    if from < |data| && !IsTerminator(data[from]) {
      FindTerminatorFirst(data, from + 1);
    }
  }

  /** What one call of `get_line` gives, and where it leaves the read position. */
  datatype LineRead = LineRead(line: Result<string, Error>, next: nat)

  /** `get_line` with the read position at `pos`. Without a terminator ahead the
      source never returns; that is the `Stalled` outcome. Otherwise the line is
      the decoded bytes before the terminator, and the position moves past the
      terminator and the byte after it (there may be none left to skip). */
  function NextLine(data: seq<byte>, pos: nat): (r: LineRead)
    requires pos <= |data|
    ensures r.next <= |data|
    ensures r.line != Failure(Stalled) ==> pos < r.next
  {
    match FindTerminator(data, pos)
    case None => LineRead(Failure(Stalled), |data|)
    case Some(t) =>
      var next := if t + 1 < |data| then t + 2 else t + 1;
      match Decode(data[pos..t])
      case None => LineRead(Failure(DecodeError), next)
      case Some(s) => LineRead(Success(s), next)
  }

  /** With the first terminator at `t`, the line is made of the bytes before `t`,
      and both the terminator and the byte after it are consumed. */
  lemma NextLineAt(data: seq<byte>, pos: nat, t: nat)
    requires pos <= t < |data| && IsTerminator(data[t])
    requires forall i :: pos <= i < t ==> !IsTerminator(data[i])
    ensures NextLine(data, pos).next == if t + 1 < |data| then t + 2 else |data|
    ensures NextLine(data, pos).line
              == match Decode(data[pos..t])
                 case None => Failure(DecodeError)
                 case Some(s) => Success(s)
  {
    FindTerminatorFirst(data, pos);
    assert FindTerminator(data, pos) == Some(t);
  }

  /** `get_line` stalls exactly when no LF or CR is left in the input. */
  lemma NextLineStalls(data: seq<byte>, pos: nat)
    requires pos <= |data|
    ensures NextLine(data, pos).line == Failure(Stalled)
            <==> forall i :: pos <= i < |data| ==> !IsTerminator(data[i])
  {
    FindTerminatorFirst(data, pos);
    if FindTerminator(data, pos).Some? {
      var t := FindTerminator(data, pos).value;
      assert IsTerminator(data[t]);
    }
  }

  /** A line is never made of bytes that hold a line break: a line that was read
      contains neither LF nor CR. */
  lemma NextLineHasNoBreak(data: seq<byte>, pos: nat)
    requires pos <= |data|
    requires NextLine(data, pos).line.Success?
    ensures '\n' !in NextLine(data, pos).line.value
    ensures '\r' !in NextLine(data, pos).line.value
  {
    FindTerminatorFirst(data, pos);
    var t := FindTerminator(data, pos).value;
    var bytes := data[pos..t];
    var s := NextLine(data, pos).line.value;
    assert Decode(bytes) == Some(s);
    EncodeDecode(bytes);
    if '\n' in s {
      EncodeContains(s, '\n');
    }
    if '\r' in s {
      EncodeContains(s, '\r');
    }
  }

  /** A block of bytes that holds no terminator and decodes to `line`. */
  ghost predicate Carries(block: seq<byte>, line: string) {
    && (forall k :: 0 <= k < |block| ==> !IsTerminator(block[k]))
    && Decode(block) == Some(line)
  }

  /** A line without LF or CR is carried by its own UTF-8 bytes. */
  lemma EncodeCarries(s: string)
    requires '\n' !in s && '\r' !in s
    ensures Carries(Encode(s), s)
  {
    EncodeAvoids(s, '\n');
    EncodeAvoids(s, '\r');
    DecodeEncode(s);
  }

  /** A block followed by CR LF is read back as the line it carries, and the read
      position ends up just after the LF. */
  lemma NextLineBlock(data: seq<byte>, pos: nat, block: seq<byte>, line: string)
    requires pos + |block| + 2 <= |data|
    requires data[pos..pos + |block| + 2] == block + [CR, LF]
    requires Carries(block, line)
    ensures NextLine(data, pos) == LineRead(Success(line), pos + |block| + 2)
  {
    var t := pos + |block|;
    assert data[t] == CR by {
      assert data[pos..pos + |block| + 2][|block|] == CR;
    }
    forall i | pos <= i < t
      ensures !IsTerminator(data[i])
    {
      assert data[i] == data[pos..pos + |block| + 2][i - pos] == block[i - pos];
    }
    assert data[pos..t] == block by {
      assert data[pos..t] == data[pos..pos + |block| + 2][..|block|];
    }
    NextLineAt(data, pos, t);
  }

  /** A line sent as its UTF-8 bytes followed by CR LF is read back as it was. */
  lemma NextLineCrlf(data: seq<byte>, pos: nat, s: string)
    requires '\n' !in s && '\r' !in s
    requires pos + |Encode(s)| + 2 <= |data|
    requires data[pos..pos + |Encode(s)| + 2] == Encode(s) + [CR, LF]
    ensures NextLine(data, pos) == LineRead(Success(s), pos + |Encode(s)| + 2)
  {
    EncodeCarries(s);
    NextLineBlock(data, pos, Encode(s), s);
  }

  /** `get_line(connection)`, reading one byte at a time. */
  method GetLine(conn: Connection) returns (r: Result<string, Error>)
    requires conn.Valid()
    modifies conn`pos
    ensures conn.Valid()
    ensures LineRead(r, conn.pos) == NextLine(conn.input, old(conn.pos))
  {
    var line: seq<byte> := [];
    ghost var start := conn.pos;
    while true
      invariant conn.Valid() && start <= conn.pos
      invariant line == conn.input[start..conn.pos]
      invariant forall i :: start <= i < conn.pos ==> !IsTerminator(conn.input[i])
      decreases |conn.input| - conn.pos
    {
      var c := conn.Read1();
      if c == [] {
        // At the end of the input the source reads b'' forever; this is where
        // the model stops and reports it.
        NextLineStalls(conn.input, start);
        return Failure(Stalled);
      }
      if c == [LF] || c == [CR] {
        ghost var t := conn.pos - 1;
        var skipped := conn.Read1();
        NextLineAt(conn.input, start, t);
        var text := Decode(line);
        if text.None? {
          return Failure(DecodeError);
        }
        return Success(text.value);
      }
      line := line + c;
    }
  }
}
