/** The connection the server talks to: the bytes the peer sent, how many of
    them have been read, the bytes written back so far, and whether the server
    has closed it. */
module Stream {
  import opened Utf8

  class Connection {
    var input: seq<byte>
    var pos: nat
    var output: seq<byte>
    var closed: bool

    predicate Valid()
      reads this
    {
      pos <= |input|
    }

    constructor (input: seq<byte>)
      ensures Valid() && this.input == input && pos == 0 && output == [] && !closed
    {
      this.input := input;
      pos := 0;
      output := [];
      closed := false;
    }

    /** `read(1)`: the next byte, or no bytes at the end of the input. */
    method Read1() returns (c: seq<byte>)
      requires Valid()
      modifies this`pos
      ensures Valid()
      ensures old(pos) < |input| ==> c == [input[old(pos)]] && pos == old(pos) + 1
      ensures old(pos) == |input| ==> c == [] && pos == old(pos)
    {
      if pos < |input| {
        c := [input[pos]];
        pos := pos + 1;
      } else {
        c := [];
      }
    }

    /** `write(data)`: the bytes go out after everything written before. */
    method Write(data: seq<byte>)
      modifies this`output
      ensures output == old(output) + data
    {
      output := output + data;
    }

    /** `close()`. */
    method Close()
      modifies this`closed
      ensures closed
    {
      closed := true;
    }
  }
}
