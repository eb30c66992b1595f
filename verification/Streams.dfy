/** The part of `std::istream` the parsers use, over an in-memory text. */
module Streams {
  import opened Text

  /** What one `in >> word` takes from the text, and what it leaves. */
  function WordOf(s: string): string {
    var t := SkipSpace(s);
    t[..Span(t, 0, NonSpace)]
  }

  function AfterWord(s: string): string {
    var t := SkipSpace(s);
    t[Span(t, 0, NonSpace)..]
  }

  /** Blanks of the C locale, a word without any, and a rest that is empty or goes on with one. */
  predicate IsFirstWord(s: string, blank: string, word: string, rest: string) {
    && s == blank + word + rest && word != ""
    && (forall i :: 0 <= i < |blank| ==> blank[i] in [' ', '\t', '\n', 11 as char, 12 as char, '\r'])
    && (forall i :: 0 <= i < |word| ==> word[i] !in [' ', '\t', '\n', 11 as char, 12 as char, '\r'])
    && (rest != "" ==> rest[0] in [' ', '\t', '\n', 11 as char, 12 as char, '\r'])
  }

  lemma FirstWordIsRead(s: string, blank: string, word: string, rest: string)
    requires IsFirstWord(s, blank, word, rest)
    ensures WordOf(s) == word && AfterWord(s) == rest
  {
    var t := word + rest;
    assert s == blank + t && t[0] == word[0];
    SpanUnique(s, 0, Space, |blank|);
    assert SkipSpace(s) == t;
    SpanUnique(t, 0, NonSpace, |word|);
    assert t[..|word|] == word && t[|word|..] == rest;
  }

  lemma ReadIsFirstWord(s: string)
    requires WordOf(s) != ""
    ensures IsFirstWord(s, s[..Span(s, 0, Space)], WordOf(s), AfterWord(s))
  {
    var k, t := Span(s, 0, Space), SkipSpace(s);
    assert t == WordOf(s) + AfterWord(s);
    assert s == s[..k] + t;
  }

  /** `in >> word` takes just the first word, if there is one. */
  lemma WordExactly(s: string, word: string, rest: string)
    requires word != ""
    ensures WordOf(s) == word && AfterWord(s) == rest <==> exists blank :: IsFirstWord(s, blank, word, rest)
  {
    if WordOf(s) == word && AfterWord(s) == rest {
      ReadIsFirstWord(s);
    }
    if blank :| IsFirstWord(s, blank, word, rest) {
      FirstWordIsRead(s, blank, word, rest);
    }
  }

  class InputStream {
    const data: string
    var pos: nat
    var eof: bool
    var fail: bool

    ghost predicate Valid()
      reads this
    {
      pos <= |data| && (eof ==> pos == |data|)
    }

    predicate Good()
      reads this
    {
      !eof && !fail
    }

    function Remaining(): string
      requires pos <= |data|
      reads this
    {
      data[pos..]
    }

    constructor (text: string)
      ensures data == text && Valid() && Good() && Remaining() == text
    {
      data, pos, eof, fail := text, 0, false, false;
    }

    /** Where reading goes on: nothing can be read from a stream that is not good. */
    function Here(): nat
      reads this
    {
      if Good() then pos else |data|
    }

    method Get() returns (c: char)
      requires Valid() && Good()
      modifies this
      ensures Valid()
      ensures Good() <==> old(pos) < |data|
      ensures Good() ==> c == data[old(pos)] && pos == old(pos) + 1
      ensures !Good() ==> pos == old(pos) == |data|
    {
      if pos < |data| {
        c := data[pos];
        pos := pos + 1;
      } else {
        c := 0xFF as char;
        eof, fail := true, true;
      }
    }

    method Unget()
      requires Valid() && Good() && pos > 0
      modifies this
      ensures Valid() && Good() && pos == old(pos) - 1
    {
      pos := pos - 1;
    }

    /** `*this >> word` */
    method ReadWord() returns (word: string)
      requires Valid() && !fail
      modifies this
      ensures Valid() && fail == (word == "")
      ensures word == WordOf(old(Remaining())) && Remaining() == AfterWord(old(Remaining()))
    {
      word := WordOf(Remaining());
      var rest := AfterWord(Remaining());
      pos := |data| - |rest|;
      assert SkipSpace(old(Remaining())) == data[|data| - |SkipSpace(old(Remaining()))|..];
      assert Remaining() == rest;
      eof, fail := pos == |data|, word == "";
    }

    /** `std::getline(*this, line, delim)`; `ok` is its value as a condition. */
    method GetLine(delim: char) returns (ok: bool, line: string)
      requires Valid() && !fail
      modifies this
      ensures Valid() && ok == !fail == (old(Remaining()) != "")
      ensures line == LineOf(old(Remaining()), delim)
      ensures Remaining() == AfterLine(old(Remaining()), delim)
    {
      line := LineOf(Remaining(), delim);
      ok := Remaining() != "";
      match FindChar(Remaining(), delim, 0) {
        case None => pos, eof, fail := |data|, true, !ok;
        case Some(i) => pos := pos + i + 1;
      }
    }
  }
}
