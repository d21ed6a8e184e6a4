/** Worked examples of the codec and of one transform pass on a concrete
    two-cue document and concrete answers. The inputs are passed as
    parameters fixed by a `requires`, so that each example is proved from
    the general lemmas rather than by evaluating the functions. */
module Scenarios {
  import opened Strings
  import opened Srt
  import opened Batch

  const Ni: char := '\U{4F60}'      // 你
  const Hao: char := '\U{597D}'     // 好
  const Ma: char := '\U{5417}'      // 吗
  const Shi: char := '\U{4E16}'     // 世
  const Jie: char := '\U{754C}'     // 界
  const Bang: char := '\U{FF01}'    // ！

  const First: Block := Block("1", "00:00:01,000 --> 00:00:02,000", [Ni, Hao])
  const Second: Block := Block("2", "00:00:03,000 --> 00:00:04,000", [Shi, Jie])

  /** A document of two cues, one blank line between them. */
  const Document: string :=
    ("1" + "\n" + "00:00:01,000 --> 00:00:02,000" + "\n" + [Ni, Hao])
    + "\n\n"
    + ("2" + "\n" + "00:00:03,000 --> 00:00:04,000" + "\n" + [Shi, Jie])

  lemma FormatTwo(b1: Block, b2: Block)
    ensures Format([b1, b2]) == Render(b1) + EntrySeparator + Render(b2)
  {
    assert Renders([b1, b2]) == [Render(b1), Render(b2)];
    JoinTwo(Render(b1), Render(b2), EntrySeparator);
  }

  /** Two well-formed cues, one after the other, parse to those two cues. */
  lemma TwoCues(b1: Block, b2: Block)
    requires WellFormed(b1) && WellFormed(b2)
    ensures Parse(Render(b1) + EntrySeparator + Render(b2)) == [b1, b2]
  {
    FormatTwo(b1, b2);
    ParseFormat([b1, b2]);
  }

  /** A clean answer in which the marker does not occur is one piece. */
  lemma OnePiece(p: string)
    requires p != [] && Strip(p) == p && Free(p, Delimiter)
    ensures Pieces(p) == [p]
  {
    SplitFree(p, Delimiter);
    CleanPiecesKeepsClean([p]);
  }

  /** An answer made of two clean pieces around the marker gives those two
      pieces, when the marker first occurs right after the first piece and
      does not occur in the second. */
  lemma TwoPieces(p1: string, p2: string)
    requires p1 != [] && Strip(p1) == p1 && EndsBefore(p1, Delimiter)
    requires p2 != [] && Strip(p2) == p2 && Free(p2, Delimiter)
    ensures Pieces(p1 + Delimiter + p2) == [p1, p2]
  {
    SplitAfter(p1, Delimiter, p2);
    SplitFree(p2, Delimiter);
    CleanPiecesKeepsClean([p1, p2]);
  }

  /** The timing lines of the example document are single lines. */
  lemma TimingLine(t: string)
    requires t == "00:00:01,000 --> 00:00:02,000" || t == "00:00:03,000 --> 00:00:04,000"
    ensures '\n' !in t
  {
  }

  /** The cues of the example document are well formed. */
  lemma FirstWellFormed(b: Block)
    requires b == First
    ensures WellFormed(b)
  {
    TimingLine(b.timestamp);
    SingleLineWellFormed(b);
  }

  lemma SecondWellFormed(b: Block)
    requires b == Second
    ensures WellFormed(b)
  {
    TimingLine(b.timestamp);
    SingleLineWellFormed(b);
  }

  lemma ShortCueWellFormed(b: Block)
    requires |b.index| == |b.timestamp| == |b.text| == 1
    requires b.index[0] in "12" && b.timestamp[0] in "AB" && b.text[0] in "xyz"
    ensures WellFormed(b)
  {
    SingleLineWellFormed(b);
  }

  lemma DocumentShape(content: string)
    requires content == Document
    ensures content == Render(First) + EntrySeparator + Render(Second)
  {
  }

  lemma DocumentParses(content: string)
    requires content == Document
    ensures Parse(content) == [First, Second]
  {
    FirstWellFormed(First);
    SecondWellFormed(Second);
    DocumentShape(content);
    TwoCues(First, Second);
  }

  /** An answer of two pieces corrects both cues; indices and timestamps stay. */
  lemma TwoPiecesCorrectBoth(content: string, response: string)
    requires content == Document
    requires response == [Ni, Hao, Ma] + Delimiter + [Shi, Jie, Bang]
    ensures Format(Reconciled(Parse(content), Pieces(response)))
         == ("1" + "\n" + "00:00:01,000 --> 00:00:02,000" + "\n" + [Ni, Hao, Ma])
            + "\n\n"
            + ("2" + "\n" + "00:00:03,000 --> 00:00:04,000" + "\n" + [Shi, Jie, Bang])
  {
    var p1, p2 := [Ni, Hao, Ma], [Shi, Jie, Bang];
    DocumentParses(content);
    StripFixed(p1);
    StripFixed(p2);
    NoMarkerEndsBefore(p1);
    NoMarkerEndsBefore(p2);
    TwoPieces(p1, p2);
    var rs := Reconciled([First, Second], [p1, p2]);
    assert rs == [First.(text := p1), Second.(text := p2)];
    FormatTwo(rs[0], rs[1]);
  }

  /** An answer of one piece corrects the first cue; the second keeps its text. */
  lemma OnePieceKeepsSecond(content: string, response: string)
    requires content == Document
    requires response == [Ni, Hao, Ma]
    ensures Format(Reconciled(Parse(content), Pieces(response)))
         == ("1" + "\n" + "00:00:01,000 --> 00:00:02,000" + "\n" + [Ni, Hao, Ma])
            + "\n\n"
            + ("2" + "\n" + "00:00:03,000 --> 00:00:04,000" + "\n" + [Shi, Jie])
  {
    DocumentParses(content);
    StripFixed(response);
    NoMarkerEndsBefore(response);
    OnePiece(response);
    var rs := Reconciled([First, Second], [response]);
    assert rs == [First.(text := response), Second];
    FormatTwo(rs[0], rs[1]);
  }

  lemma SingleCueParses(content: string)
    requires content == "1" + "\n" + "A" + "\n" + "x"
    ensures Parse(content) == [Block("1", "A", "x")]
  {
    var b := Block("1", "A", "x");
    ShortCueWellFormed(b);
    assert Renders([b]) == [Render(b)];
    assert Format([b]) == content;
    ParseFormat([b]);
  }

  /** A piece with a blank line in it splits its cue in two when the output is
      parsed again, so the next pass sees more cues than the first one did. */
  lemma BlankLineInPieceAddsCue(content: string, response: string)
    requires content == "1" + "\n" + "A" + "\n" + "x"
    requires response == "y" + "\n\n" + ("2" + "\n" + "B" + "\n" + "z")
    ensures |Parse(content)| == 1
    ensures Parse(Format(Reconciled(Parse(content), Pieces(response)))) == [Block("1", "A", "y"), Block("2", "B", "z")]
  {
    var b, c1, c2 := Block("1", "A", "x"), Block("1", "A", "y"), Block("2", "B", "z");
    SingleCueParses(content);
    StripFixed(response);
    NoMarkerEndsBefore(response);
    OnePiece(response);
    var rs := Reconciled([b], [response]);
    assert rs == [b.(text := response)];
    assert Renders(rs) == [Render(rs[0])];
    ShortCueWellFormed(c1);
    ShortCueWellFormed(c2);
    TwoCues(c1, c2);
    assert Format(rs) == Render(c1) + EntrySeparator + Render(c2);
  }

  /** A piece whose text after the blank line is a single line loses that
      line when the output is parsed again: the cue count stays, and the cue
      keeps only the text before the blank line. */
  lemma BlankLineInPieceLosesTail(content: string, response: string)
    requires content == "1" + "\n" + "A" + "\n" + "x"
    requires response == "y" + "\n\n" + "ab"
    ensures Parse(Format(Reconciled(Parse(content), Pieces(response)))) == [Block("1", "A", "y")]
  {
    var b, c := Block("1", "A", "x"), Block("1", "A", "y");
    SingleCueParses(content);
    StripFixed(response);
    NoMarkerEndsBefore(response);
    OnePiece(response);
    var rs := Reconciled([b], [response]);
    assert rs == [b.(text := response)];
    assert Renders(rs) == [Render(rs[0])];
    ShortCueWellFormed(c);
    assert Format(rs) == Render(c) + EntrySeparator + "ab";
    StripFixed("ab");
    ShortTailDropped(c, "ab");
  }

  lemma ShiftedPayload(bs: seq<Block>, t1: string)
    requires t1 == "a" + Delimiter + "b"
    requires bs == [Block("1", "A", t1), Block("2", "B", "c")]
    ensures BatchPayload(bs) == "a" + Delimiter + ("b" + "\n" + Delimiter + ("\n" + "c"))
  {
    assert Texts(bs) == [t1, "c"];
    JoinTwo(t1, "c", BatchSeparator);
  }

  lemma ShiftedSplit(s: string, x: string, y: string, z: string)
    requires x == "a" && y == "b" + "\n" && z == "\n" + "c"
    requires s == x + Delimiter + (y + Delimiter + z)
    ensures Split(s, Delimiter) == [x, y, z]
  {
    NoMarkerEndsBefore(x);
    NoMarkerEndsBefore(y);
    NoMarkerEndsBefore(z);
    SplitFree(z, Delimiter);
    SplitAfter(y, Delimiter, z);
    SplitAfter(x, Delimiter, y + Delimiter + z);
  }

  lemma ShiftedClean(raw: seq<string>, x: string, y: string, z: string)
    requires x == "a" && y == "b" + "\n" && z == "\n" + "c"
    requires raw == [x, y, z]
    ensures CleanPieces(raw) == ["a", "b", "c"]
  {
    StripFixed("a");
    StripFixed("b");
    StripFixed("c");
    StripTrailingSpace("b", '\n');
    StripLeadingSpace('\n', "c");
    CleanPiecesNoneBlank(raw);
  }

  /** A cue text that contains the marker is cut in two: an answer that
      repeats the batch it was sent then has one piece more than there are
      cues, every later cue gets the piece of the one before, and the last
      piece is ignored. */
  lemma MarkerInTextShiftsPieces(bs: seq<Block>)
    requires bs == [Block("1", "A", "a" + Delimiter + "b"), Block("2", "B", "c")]
    ensures Pieces(BatchPayload(bs)) == ["a", "b", "c"]
    ensures Texts(Reconciled(bs, Pieces(BatchPayload(bs)))) == ["a", "b"]
  {
    var x, y, z := "a", "b" + "\n", "\n" + "c";
    ShiftedPayload(bs, "a" + Delimiter + "b");
    ShiftedSplit(BatchPayload(bs), x, y, z);
    ShiftedClean([x, y, z], x, y, z);
  }
}
