/** The Python `str` operations the server relies on: `upper()`, `lower()`,
    `split()`, `split(sep)`, `sep.join(parts)` and `str(int)`. */
module PyText {
  import opened SeqFacts

  /** The characters Python's `str.isspace()` accepts; `str.split()` with no
      argument separates words at runs of these. */
  predicate IsSpace(c: char) {
    || ('\t' <= c <= '\r')
    || ('\U{1C}' <= c <= ' ')
    || c == '\U{85}' || c == '\U{A0}' || c == '\U{1680}'
    || ('\U{2000}' <= c <= '\U{200A}')
    || c == '\U{2028}' || c == '\U{2029}' || c == '\U{202F}' || c == '\U{205F}' || c == '\U{3000}'
  }

  predicate NoSpace(s: string) {
    forall i :: 0 <= i < |s| ==> !IsSpace(s[i])
  }

  predicate AllSpace(s: string) {
    forall i :: 0 <= i < |s| ==> IsSpace(s[i])
  }

  // Case mapping, restricted to the ASCII letters.

  function UpperChar(c: char): (r: char)
    ensures IsSpace(r) == IsSpace(c)
  {
    if 'a' <= c <= 'z' then (c as int - 32) as char else c
  }

  function LowerChar(c: char): (r: char)
    ensures IsSpace(r) == IsSpace(c)
  {
    if 'A' <= c <= 'Z' then (c as int + 32) as char else c
  }

  /** `s.upper()`: every character mapped on its own, the length kept. */
  function Upper(s: string): string {
    seq(|s|, i requires 0 <= i < |s| => UpperChar(s[i]))
  }

  /** `s.lower()`: every character mapped on its own, the length kept. */
  function Lower(s: string): string {
    seq(|s|, i requires 0 <= i < |s| => LowerChar(s[i]))
  }

  lemma UpperAppend(a: string, b: string)
    ensures Upper(a + b) == Upper(a) + Upper(b)
  {
    assert forall i :: 0 <= i < |a + b| ==> Upper(a + b)[i] == (Upper(a) + Upper(b))[i];
  }

  /** An ASCII lower-case letter, the characters `upper()` changes. */
  predicate IsLowerLetter(c: char) {
    'a' <= c <= 'z'
  }

  // str.split() with no argument.

  /** How many characters at the start of `s` come before the first space. */
  function WordLength(s: string): (k: nat)
    ensures k <= |s|
    ensures forall i :: 0 <= i < k ==> !IsSpace(s[i])
    ensures k < |s| ==> IsSpace(s[k])
  {
    if s == [] || IsSpace(s[0]) then 0 else 1 + WordLength(s[1..])
  }

  /** `s.split()`: the maximal runs of non-space characters, in order; leading,
      trailing and repeated spaces give no empty words. */
  function Words(s: string): (r: seq<string>)
    ensures forall i :: 0 <= i < |r| ==> r[i] != [] && NoSpace(r[i])
    decreases |s|
  {
    if s == [] then []
    else if IsSpace(s[0]) then Words(s[1..])
    else
      var k := WordLength(s);
      [s[..k]] + Words(s[k..])
  }

  /** Every character of every word is a character of the string split. */
  lemma {:induction false} WordsChars(s: string)
    ensures forall i, j :: 0 <= i < |Words(s)| && 0 <= j < |Words(s)[i]| ==> Words(s)[i][j] in s
    decreases |s|
  {
    if s != [] {
      var k := if IsSpace(s[0]) then 1 else WordLength(s);
      WordsChars(s[k..]);
      assert forall c :: c in s[k..] ==> c in s;
    }
  }

  /** Spaces in front of a string add no words. */
  lemma {:induction false} WordsSkipSpace(sp: string, s: string)
    requires AllSpace(sp)
    ensures Words(sp + s) == Words(s)
  {
    if sp != [] {
      assert (sp + s)[0] == sp[0] && (sp + s)[1..] == sp[1..] + s;
      WordsSkipSpace(sp[1..], s);
    } else {
      assert sp + s == s;
    }
  }

  /** A word followed by a space, or by nothing, is read back as that word. */
  lemma WordsCons(w: string, sp: string, s: string)
    requires w != [] && NoSpace(w) && (sp == [] ==> s == [])
    requires sp != [] ==> IsSpace(sp[0])
    ensures Words(w + sp + s) == [w] + Words(sp + s)
  {
    var t := w + sp + s;
    assert t[..|w|] == w && t[|w|..] == sp + s;
    assert WordLength(t) == |w| by {
      WordLengthPrefix(t, |w|);
    }
  }

  lemma {:induction false} WordLengthPrefix(s: string, k: nat)
    requires k <= |s|
    requires forall i :: 0 <= i < k ==> !IsSpace(s[i])
    requires k < |s| ==> IsSpace(s[k])
    ensures WordLength(s) == k
  {
    if k > 0 {
      WordLengthPrefix(s[1..], k - 1);
    }
  }

  /** Words joined by non-empty runs of spaces split back into those words. */
  lemma {:induction false} WordsOfJoin(ws: seq<string>, sep: string)
    requires forall i :: 0 <= i < |ws| ==> ws[i] != [] && NoSpace(ws[i])
    requires sep != [] && AllSpace(sep)
    ensures Words(Join(ws, sep)) == ws
  {
    if |ws| == 1 {
      WordsCons(ws[0], [], []);
      assert ws[0] + [] + [] == ws[0];
    } else if |ws| > 1 {
      var rest := Join(ws[1..], sep);
      WordsCons(ws[0], sep, rest);
      assert Join(ws, sep) == ws[0] + sep + rest;
      WordsSkipSpace(sep, rest);
      WordsOfJoin(ws[1..], sep);
      assert ws == [ws[0]] + ws[1..];
    }
  }

  // str.split(sep) for a one-character separator, and sep.join(parts).

  /** The position of the first `c` in `s`. */
  function IndexOf(s: string, c: char): (i: nat)
    requires c in s
    ensures i < |s| && s[i] == c && c !in s[..i]
  {
    if s[0] == c then 0 else 1 + IndexOf(s[1..], c)
  }

  /** `s.split(c)`: the pieces between occurrences of `c`, empty ones included;
      there is always at least one piece, and exactly one when `c` does not occur. */
  function SplitOn(s: string, c: char): (r: seq<string>)
    ensures |r| >= 1
    ensures |r| == 1 <==> c !in s
    decreases |s|
  {
    if c !in s then [s]
    else [s[..IndexOf(s, c)]] + SplitOn(s[IndexOf(s, c) + 1..], c)
  }

  /** No piece of `s.split(c)` contains `c`. */
  lemma {:induction false} SplitOnPieces(s: string, c: char)
    ensures forall i :: 0 <= i < |SplitOn(s, c)| ==> c !in SplitOn(s, c)[i]
    decreases |s|
  {
    if c in s {
      var i := IndexOf(s, c);
      SplitOnPieces(s[i + 1..], c);
    }
  }

  /** `sep.join(parts)`. */
  function Join(parts: seq<string>, sep: string): string {
    if |parts| == 0 then ""
    else if |parts| == 1 then parts[0]
    else parts[0] + sep + Join(parts[1..], sep)
  }

  /** Each part with the separator in front of it, all concatenated. */
  function Prefixed(parts: seq<string>, sep: string): string {
    if parts == [] then "" else sep + parts[0] + Prefixed(parts[1..], sep)
  }

  /** Joining a first part and more parts is the first part followed by each of
      the others with the separator in front. */
  lemma {:induction false} JoinCons(first: string, rest: seq<string>, sep: string)
    ensures Join([first] + rest, sep) == first + Prefixed(rest, sep)
    decreases |rest|
  {
    if rest != [] {
      assert ([first] + rest)[1..] == rest;
      JoinCons(rest[0], rest[1..], sep);
      assert [rest[0]] + rest[1..] == rest;
    } else {
      assert [first] + rest == [first];
    }
  }

  /** Joining a first part and at least one more part puts the separator between
      the first part and the join of the others. */
  lemma JoinPair(first: string, rest: seq<string>, sep: string)
    requires rest != []
    ensures Join([first] + rest, sep) == first + sep + Join(rest, sep)
  {
    var parts := [first] + rest;
    assert parts[0] == first && parts[1..] == rest && |parts| > 1;
  }

  /** Joining two non-empty lists of parts puts the separator between their joins. */
  lemma {:induction false} JoinAppend(a: seq<string>, b: seq<string>, sep: string)
    requires a != [] && b != []
    ensures Join(a + b, sep) == Join(a, sep) + sep + Join(b, sep)
    decreases |a|
  {
    if |a| == 1 {
      assert a + b == [a[0]] + b;
      JoinPair(a[0], b, sep);
    } else {
      assert a + b == [a[0]] + (a[1..] + b);
      JoinPair(a[0], a[1..] + b, sep);
      JoinAppend(a[1..], b, sep);
      assert a == [a[0]] + a[1..];
      JoinPair(a[0], a[1..], sep);
    }
  }

  /** Splitting on `c` and joining with `c` gives the string back. */
  lemma {:induction false} JoinSplitOn(s: string, c: char)
    ensures Join(SplitOn(s, c), [c]) == s
    decreases |s|
  {
    if c in s {
      var i := IndexOf(s, c);
      var rest := SplitOn(s[i + 1..], c);
      JoinSplitOn(s[i + 1..], c);
      JoinPair(s[..i], rest, [c]);
      SplitAround(s, i);
    }
  }

  /** Joining pieces free of `c` with `c` and splitting on `c` gives the pieces back. */
  lemma {:induction false} SplitOnJoin(parts: seq<string>, c: char)
    requires |parts| >= 1
    requires forall i :: 0 <= i < |parts| ==> c !in parts[i]
    ensures SplitOn(Join(parts, [c]), c) == parts
  {
    if |parts| > 1 {
      var s := Join(parts, [c]);
      var rest := Join(parts[1..], [c]);
      JoinPair(parts[0], parts[1..], [c]);
      assert [parts[0]] + parts[1..] == parts;
      assert s == parts[0] + [c] + rest;
      assert c in s by { assert s[|parts[0]|] == c; }
      var i := IndexOf(s, c);
      assert i == |parts[0]|;
      assert s[..i] == parts[0];
      assert s[i + 1..] == rest;
      SplitOnJoin(parts[1..], c);
      assert parts == [parts[0]] + parts[1..];
    }
  }

  /** After the first piece, `s.split(c)` goes on with the split of the text
      after the first `c`. */
  lemma SplitOnRest(s: string, c: char)
    requires c in s
    ensures SplitOn(s, c)[1..] == SplitOn(s[IndexOf(s, c) + 1..], c)
  {
    SplitOnUnfold(s, c);
    ConsTail(SplitOn(s, c), s[..IndexOf(s, c)], SplitOn(s[IndexOf(s, c) + 1..], c));
  }

  /** With a `c` in `s`, the split is the text before the first `c` and then the
      split of the text after it. */
  lemma SplitOnUnfold(s: string, c: char)
    requires c in s
    ensures SplitOn(s, c) == [s[..IndexOf(s, c)]] + SplitOn(s[IndexOf(s, c) + 1..], c)
  {
  }

  /** What `s.split(c)` puts first, and what joining the remaining pieces with
      `c` gives: the text before the first `c`, and all the text after it. */
  lemma SplitOnFirst(s: string, c: char)
    requires c in s
    ensures SplitOn(s, c)[0] == s[..IndexOf(s, c)]
    ensures Join(SplitOn(s, c)[1..], [c]) == s[IndexOf(s, c) + 1..]
  {
    SplitOnRest(s, c);
    JoinSplitOn(s[IndexOf(s, c) + 1..], c);
  }

  // str(int).

  predicate IsDigit(c: char) {
    '0' <= c <= '9'
  }

  predicate IsDigits(s: string) {
    forall i :: 0 <= i < |s| ==> IsDigit(s[i])
  }

  function DigitChar(d: nat): (c: char)
    requires d < 10
    ensures IsDigit(c) && c as int - '0' as int == d
  {
    ('0' as int + d) as char
  }

  /** The number a string of decimal digits denotes. */
  function DigitsValue(s: string): nat
    requires IsDigits(s)
  {
    if s == [] then 0 else 10 * DigitsValue(s[..|s| - 1]) + (s[|s| - 1] as int - '0' as int)
  }

  /** `str(n)` for `n >= 0`: decimal digits with no leading zero. */
  function NatToString(n: nat): (r: string)
    ensures |r| >= 1 && IsDigits(r)
    ensures r[0] == '0' ==> r == "0"
  {
    if n < 10 then [DigitChar(n)] else NatToString(n / 10) + [DigitChar(n % 10)]
  }

  /** `str(n)`: a minus sign in front of the digits of a negative number. */
  function IntToString(n: int): (r: string)
    ensures |r| >= 1
  {
    if n < 0 then "-" + NatToString(-n) else NatToString(n)
  }

  /** The digits `NatToString` writes denote the number written. */
  lemma {:induction false} NatToStringValue(n: nat)
    ensures DigitsValue(NatToString(n)) == n
  {
    if n >= 10 {
      NatToStringValue(n / 10);
      var r := NatToString(n);
      assert r[..|r| - 1] == NatToString(n / 10);
    }
  }

  /** `str(n)` is a sign exactly when `n` is negative, followed by digits that
      denote `|n|`; in particular it never holds a space or a line break. */
  lemma IntToStringValue(n: int)
    ensures IntToString(n)[0] == '-' <==> n < 0
    ensures n < 0 ==> IsDigits(IntToString(n)[1..]) && DigitsValue(IntToString(n)[1..]) == -n
    ensures n >= 0 ==> IsDigits(IntToString(n)) && DigitsValue(IntToString(n)) == n
  {
    if n < 0 {
      NatToStringValue(-n);
      assert IntToString(n)[1..] == NatToString(-n);
    } else {
      NatToStringValue(n);
    }
  }

  /** `str(n)` is made of digits and perhaps a minus sign, so it holds no line break. */
  lemma IntToStringChars(n: int)
    ensures forall i :: 0 <= i < |IntToString(n)| ==> IntToString(n)[i] == '-' || IsDigit(IntToString(n)[i])
    ensures '\n' !in IntToString(n) && '\r' !in IntToString(n)
  {
    var r := IntToString(n);
    if n < 0 {
      assert forall i :: 1 <= i < |r| ==> r[i] == NatToString(-n)[i - 1];
    }
  }
}
