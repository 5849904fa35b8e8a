/** Optional values and results with an error, as used by every other module. */
module Wrappers {

  datatype Option<+T> = None | Some(value: T)

  datatype Result<+T, +E> = Success(value: T) | Failure(error: E)
}

/** The ways in which handling one connection can go wrong. */
module Errors {

  datatype Error =
    /** `get_line` found no line terminator before the end of the input: the
        source keeps calling `read(1)` forever and never returns. */
    | Stalled
    /** The bytes of a line are not valid UTF-8 (`UnicodeDecodeError`). */
    | DecodeError
    /** The request has no lines at all, so `request_lines[0]` fails (`IndexError`). */
    | NoRequestLine
    /** The upper-cased request line does not split into exactly three words
        (`ValueError` on unpacking); `words` is how many it split into. */
    | MalformedRequestLine(words: nat)
    /** `connection.write` was handed the initial `str` payload (`TypeError`). */
    | PayloadNotBytes
}

/** Facts about sequences that several modules use. */
module SeqFacts {

  /** Concatenation is associative. */
  lemma AppendAssoc<T>(a: seq<T>, b: seq<T>, c: seq<T>)
    ensures a + b + c == a + (b + c)
  {
  }

  /** Dropping the first element of `[x] + t` leaves `t`. */
  lemma ConsTail<T>(r: seq<T>, x: T, t: seq<T>)
    requires r == [x] + t
    ensures r[1..] == t
  {
  }

  /** A sequence is its part before position `i`, the element at `i` and its
      part after it. */
  lemma SplitAround<T>(s: seq<T>, i: nat)
    requires i < |s|
    ensures s == s[..i] + [s[i]] + s[i + 1..]
  {
  }

  /** A slice that equals `x + y` is made of a slice equal to `x` and one equal to `y`. */
  lemma SliceParts<T>(data: seq<T>, pos: nat, x: seq<T>, y: seq<T>)
    requires pos + |x| + |y| <= |data|
    requires data[pos..pos + |x| + |y|] == x + y
    ensures data[pos..pos + |x|] == x
    ensures data[pos + |x|..pos + |x| + |y|] == y
  {
    assert data[pos..pos + |x|] == data[pos..pos + |x| + |y|][..|x|];
    assert data[pos + |x|..pos + |x| + |y|] == data[pos..pos + |x| + |y|][|x|..];
  }
}
