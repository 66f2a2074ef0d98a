/**
 * The server's word list: the input text is read character by character;
 * letters build the current line (at most MaxWordLength of them), a space
 * or newline stores the line, upper-cased, as the next word, and every
 * other character is skipped. A line not ended by a separator is dropped.
 */
module WordList {
  import opened Hangman

  predicate IsSeparator(c: char) { c == ' ' || c == '\n' }

  /** toupper in the C locale. */
  function ToUpper(c: char): char
  {
    if IsLower(c) then (c as int - 32) as char else c
  }

  function Upper(w: string): string
  {
    seq(|w|, i requires 0 <= i < |w| => ToUpper(w[i]))
  }

  /** A stored word: upper-case letters only, within the buffer length. */
  ghost predicate IsWord(w: string)
  {
    |w| <= MaxWordLength && forall i :: 0 <= i < |w| ==> IsUpper(w[i])
  }

  /** The reader's state: the words stored so far and the current line. */
  datatype Scan = Scan(words: seq<string>, line: string)

  /** The reader's state after one more character. */
  function Feed(st: Scan, c: char): (r: Scan)
    ensures |r.words| == |st.words| + (if IsSeparator(c) then 1 else 0)
  {
    if |st.line| < MaxWordLength && IsLetter(c) then st.(line := st.line + [c])
    else if IsSeparator(c) then Scan(st.words + [Upper(st.line)], [])
    else st
  }

  /** The reader's state after the whole text: every stored word is an
      upper-case word within the buffer, and the pending line holds letters
      only, within the buffer. */
  function ScanAll(text: string): (st: Scan)
    ensures |st.line| <= MaxWordLength
    ensures forall i :: 0 <= i < |st.line| ==> IsLetter(st.line[i])
    ensures forall w :: w in st.words ==> IsWord(w)
  {
    if text == [] then Scan([], [])
    else Feed(ScanAll(text[..|text| - 1]), text[|text| - 1])
  }

  /** The word list read from a text. */
  function Tokenize(text: string): seq<string>
  {
    ScanAll(text).words
  }

  /** Appends a line to the word list, upper-casing it character by character. */
  method AddWord(words: seq<string>, line: string) returns (stored: seq<string>)
    requires forall i :: 0 <= i < |line| ==> IsLetter(line[i])
    ensures stored == words + [Upper(line)]
  {
    var w := line;
    var i := 0;
    while i < |w|
      invariant i <= |w| == |line|
      invariant forall p :: 0 <= p < i ==> w[p] == ToUpper(line[p])
      invariant forall p :: i <= p < |w| ==> w[p] == line[p]
    {
      w := w[i := ToUpper(w[i])];
      i := i + 1;
    }
    assert w == Upper(line);
    stored := words + [w];
  }

  /** Reads the whole text into a word list. */
  method ReadFile(text: string) returns (words: seq<string>)
    ensures words == Tokenize(text)
  {
    words := [];
    var line: string := [];
    var pos := 0;
    while pos < |text|
      invariant pos <= |text|
      invariant Scan(words, line) == ScanAll(text[..pos])
    {
      var c := text[pos];
      assert text[..pos + 1][..pos] == text[..pos];
      if |line| < MaxWordLength && IsLetter(c) {
        line := line + [c];
      } else if c == '\n' || c == ' ' {
        words := AddWord(words, line);
        line := [];
      }
      pos := pos + 1;
    }
    assert text[..pos] == text;
  }

  /** Number of separators in a text. */
  function Separators(text: string): nat
  {
    if text == [] then 0
    else Separators(text[..|text| - 1]) + (if IsSeparator(text[|text| - 1]) then 1 else 0)
  }

  /** Each separator stores exactly one word. */
  lemma {:induction false} TokenizeCount(text: string)
    ensures |Tokenize(text)| == Separators(text)
  {
    if text != [] {
      TokenizeCount(text[..|text| - 1]);
    }
  }

  /** Text after the last separator stores nothing. */
  lemma {:induction false} TrailingLineDropped(text: string, tail: string)
    requires forall i :: 0 <= i < |tail| ==> !IsSeparator(tail[i])
    ensures Tokenize(text + tail) == Tokenize(text)
  {
    if tail != [] {
      var front := tail[..|tail| - 1];
      assert (text + tail)[..|text + tail| - 1] == text + front;
      var c := tail[|tail| - 1];
      assert !IsSeparator(c);
      assert ScanAll(text + tail) == Feed(ScanAll(text + front), c);
      assert ScanAll(text + tail).words == ScanAll(text + front).words;
      TrailingLineDropped(text, front);
    } else {
      assert text + tail == text;
    }
  }

  // An independent description of the same list: cut the text at every
  // separator, keep each piece's letters (at most MaxWordLength of them),
  // upper-case them, and drop the last piece.

  /** The pieces of a text between separators; the last piece is what
      follows the last separator. */
  function Split(text: string): (pieces: seq<string>)
    ensures |pieces| >= 1
  {
    if text == [] then [[]]
    else
      var rest := Split(text[1..]);
      if IsSeparator(text[0]) then [[]] + rest
      else [[text[0]] + rest[0]] + rest[1..]
  }

  function Letters(piece: string): string
  {
    if piece == [] then []
    else (if IsLetter(piece[0]) then [piece[0]] else []) + Letters(piece[1..])
  }

  function Truncate(s: string): string
  {
    if |s| <= MaxWordLength then s else s[..MaxWordLength]
  }

  function Clean(piece: string): string
  {
    Upper(Truncate(Letters(piece)))
  }

  /** The word list by the cut-and-clean description. */
  function Words(text: string): seq<string>
  {
    var pieces := Split(text);
    CleanAll(pieces[..|pieces| - 1])
  }

  /** Each piece cut and cleaned, in order. */
  function CleanAll(pieces: seq<string>): (words: seq<string>)
    ensures |words| == |pieces|
  {
    if pieces == [] then []
    else CleanAll(pieces[..|pieces| - 1]) + [Clean(pieces[|pieces| - 1])]
  }

  /** The pieces after one more character: a separator opens a new empty
      piece, anything else extends the last one. */
  function Extend(pieces: seq<string>, c: char): (r: seq<string>)
    requires |pieces| >= 1
    ensures |r| >= 1
  {
    if IsSeparator(c) then pieces + [[]]
    else pieces[..|pieces| - 1] + [pieces[|pieces| - 1] + [c]]
  }

  lemma ExtendFront(head: string, pieces: seq<string>, c: char)
    requires |pieces| >= 1
    ensures Extend([head + pieces[0]] + pieces[1..], c) ==
      [head + Extend(pieces, c)[0]] + Extend(pieces, c)[1..]
  {
    var n := |pieces|;
    var joined := [head + pieces[0]] + pieces[1..];
    var e := Extend(pieces, c);
    if IsSeparator(c) {
      assert e[1..] == pieces[1..] + [[]];
    } else if n == 1 {
      assert joined == [head + pieces[0]];
      assert e == [pieces[0] + [c]];
      assert Extend(joined, c) == [(head + pieces[0]) + [c]];
      assert e[1..] == [];
      assert head + (pieces[0] + [c]) == (head + pieces[0]) + [c];
    } else {
      assert e[0] == pieces[0];
      assert e[1..] == pieces[1..n - 1] + [pieces[n - 1] + [c]];
      assert joined[..n - 1] == [head + pieces[0]] + pieces[1..n - 1];
    }
  }

  lemma {:induction false} SplitSnoc(text: string, c: char)
    ensures Split(text + [c]) == Extend(Split(text), c)
  {
    if text == [] {
      assert text + [c] == [c] && [c][1..] == [];
      assert Split(text) == [[]];
      if IsSeparator(c) {
        assert Split([c]) == [[]] + [[]];
      } else {
        var empty: string := [];
        var one: string := [c];
        assert one + empty == one && empty + one == one;
        assert Split([c]) == [one];
        assert Extend([empty], c) == [one];
      }
    } else {
      var a, t := text[0], text[1..];
      assert (text + [c])[1..] == t + [c];
      SplitSnoc(t, c);
      if IsSeparator(a) {
        assert Split(text) == [[]] + Split(t);
        assert Extend([[]] + Split(t), c) == [[]] + Extend(Split(t), c);
      } else {
        ExtendFront([a], Split(t), c);
      }
    }
  }

  lemma {:induction false} LettersSnoc(piece: string, c: char)
    ensures Letters(piece + [c]) == Letters(piece) + (if IsLetter(c) then [c] else [])
  {
    if piece == [] {
      assert [c][1..] == [];
    } else {
      assert (piece + [c])[1..] == piece[1..] + [c];
      LettersSnoc(piece[1..], c);
    }
  }

  /** A separator completes the last piece as the next word. */
  lemma WordsAfterSeparator(front: string, c: char)
    requires IsSeparator(c)
    ensures Words(front + [c]) == Words(front) + [Clean(Split(front)[|Split(front)| - 1])]
  {
    SplitSnoc(front, c);
    var before := Split(front);
    var after := Split(front + [c]);
    assert after[..|after| - 1] == before;
  }

  /** Any other character only extends the last piece. */
  lemma WordsAfterOther(front: string, c: char)
    requires !IsSeparator(c)
    ensures Words(front + [c]) == Words(front)
    ensures Split(front + [c])[|Split(front + [c])| - 1] == Split(front)[|Split(front)| - 1] + [c]
  {
    SplitSnoc(front, c);
    var before := Split(front);
    var after := Split(front + [c]);
    assert after == before[..|before| - 1] + [before[|before| - 1] + [c]];
    assert after[..|after| - 1] == before[..|before| - 1];
  }

  /** One character fed to a reader whose line is the truncated letters of
      the last piece: a separator stores that line, anything else leaves the
      truncated letters of the extended piece. */
  lemma FeedPending(words: seq<string>, last: string, c: char)
    ensures var r := Feed(Scan(words, Truncate(Letters(last))), c);
      if IsSeparator(c) then r == Scan(words + [Clean(last)], [])
      else r == Scan(words, Truncate(Letters(last + [c])))
  {
    LettersSnoc(last, c);
  }

  /** The reader's state is the cut-and-clean list of the completed pieces,
      with the truncated letters of the last piece still pending. */
  lemma {:induction false} ScanAllMatchesSplit(text: string)
    ensures ScanAll(text) ==
      Scan(Words(text), Truncate(Letters(Split(text)[|Split(text)| - 1])))
  {
    if text != [] {
      var front := text[..|text| - 1];
      var c := text[|text| - 1];
      assert text == front + [c];
      ScanAllMatchesSplit(front);
      var last := Split(front)[|Split(front)| - 1];
      FeedPending(Words(front), last, c);
      if IsSeparator(c) {
        WordsAfterSeparator(front, c);
        SplitSnoc(front, c);
      } else {
        WordsAfterOther(front, c);
      }
    }
  }

  /** The two descriptions of the word list agree. */
  lemma TokenizeMatchesSplit(text: string)
    ensures Tokenize(text) == Words(text)
  {
    ScanAllMatchesSplit(text);
  }
}
