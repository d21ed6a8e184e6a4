/** The subtitle codec (`parse_srt` and `format_srt`). A document is a list of
    entries separated by a blank line; an entry is an index line, a timestamp
    line and one or more lines of text. Index and timestamp are opaque: they
    are neither validated nor renumbered. */
module Srt {
  import opened Strings

  /** One subtitle cue. */
  datatype Block = Block(index: string, timestamp: string, text: string)

  datatype Option<T> = None | Some(value: T)

  const EntrySeparator: string := "\n\n"
  const LineSeparator: string := "\n"

  /** One entry as `format_srt` writes it: index, timestamp and text, each
      after a line break but the first. */
  function Render(b: Block): string {
    b.index + LineSeparator + b.timestamp + LineSeparator + b.text
  }

  function Renders(bs: seq<Block>): seq<string> {
    seq(|bs|, k requires 0 <= k < |bs| => Render(bs[k]))
  }

  /** `format_srt`: the rendered entries joined by a blank line. */
  function Format(bs: seq<Block>): string {
    Join(Renders(bs), EntrySeparator)
  }

  /** The lines of one entry: the entry is stripped, then split on line breaks. */
  function EntryLines(entry: string): seq<string> {
    Split(Strip(entry), LineSeparator)
  }

  /** The block an entry of the document stands for; entries of fewer than
      three lines stand for none. */
  function ParseEntry(entry: string): Option<Block> {
    var lines := EntryLines(entry);
    if |lines| >= 3 then Some(Block(lines[0], lines[1], Join(lines[2..], LineSeparator)))
    else None
  }

  /** The entries of a document: the document is stripped, then split on blank lines. */
  function Entries(content: string): seq<string> {
    Split(Strip(content), EntrySeparator)
  }

  /** The blocks of a list of entries, in order, one for each entry of at least three lines. */
  function ParseEntries(entries: seq<string>): seq<Block>
    decreases |entries|
  {
    if entries == [] then []
    else
      var init := ParseEntries(entries[..|entries| - 1]);
      match ParseEntry(entries[|entries| - 1])
      case Some(b) => init + [b]
      case None => init
  }

  /** What `parse_srt` returns. */
  function Parse(content: string): seq<Block> {
    ParseEntries(Entries(content))
  }

  /** `parse_srt`: a loop over the entries that appends one block for every
      entry of at least three lines. */
  method ParseSrt(content: string) returns (blocks: seq<Block>)
    ensures blocks == Parse(content)
  {
    var entries := Split(Strip(content), EntrySeparator);
    blocks := [];
    for n := 0 to |entries|
      invariant blocks == ParseEntries(entries[..n])
    {
      assert entries[..n + 1][..n] == entries[..n];
      var lines := Split(Strip(entries[n]), LineSeparator);
      if |lines| >= 3 {
        blocks := blocks + [Block(lines[0], lines[1], Join(lines[2..], LineSeparator))];
      }
    }
    assert entries[..|entries|] == entries;
  }

  // ---------------------------------------------------------------------------
  // What one entry parses to

  /** An entry is kept exactly when its stripped form has at least two line breaks. */
  lemma ParseEntryKept(entry: string)
    ensures ParseEntry(entry).Some? <==> multiset(Strip(entry))['\n'] >= 2
  {
    SplitChar(Strip(entry), '\n');
  }

  lemma JoinLines3(lines: seq<string>)
    requires |lines| >= 3
    ensures Join(lines, LineSeparator) == lines[0] + LineSeparator + lines[1] + LineSeparator + Join(lines[2..], LineSeparator)
  {
    var sep := LineSeparator;
    assert Join(lines, sep) == lines[0] + sep + Join(lines[1..], sep);
    assert lines[1..][1..] == lines[2..];
    assert Join(lines[1..], sep) == lines[1] + sep + Join(lines[2..], sep);
  }

  /** A parsed block has an index and a timestamp without line breaks, it
      renders back to exactly the stripped entry, and its text is made of the
      entry's lines from the third on. */
  lemma ParsedBlock(entry: string)
    requires ParseEntry(entry).Some?
    ensures var b := ParseEntry(entry).value;
      && '\n' !in b.index && '\n' !in b.timestamp
      && Render(b) == Strip(entry)
      && Split(b.text, LineSeparator) == EntryLines(entry)[2..]
  {
    var lines := EntryLines(entry);
    var b := ParseEntry(entry).value;
    SplitChar(Strip(entry), '\n');
    assert LineSeparator == ['\n'];
    JoinSplit(Strip(entry), LineSeparator);
    JoinLines3(lines);
    var rest := lines[2..];
    forall k | 0 <= k < |rest| ensures EndsBefore(rest[k], LineSeparator) && Free(rest[k], LineSeparator) {
      assert rest[k] == lines[k + 2];
      CharFree(rest[k], '\n');
    }
    SplitJoin(rest, LineSeparator);
  }

  // ---------------------------------------------------------------------------
  // Which blocks survive: order, dropping, count

  /** Parsing a concatenation of entry lists parses each list in turn. */
  lemma {:induction false} ParseEntriesAppend(a: seq<string>, b: seq<string>)
    ensures ParseEntries(a + b) == ParseEntries(a) + ParseEntries(b)
    decreases |b|
  {
    if b == [] {
      assert a + b == a;
    } else {
      var b' := b[..|b| - 1];
      ParseEntriesAppend(a, b');
      assert (a + b)[..|a + b| - 1] == a + b';
      assert (a + b)[|a + b| - 1] == b[|b| - 1];
    }
  }

  /** An entry of fewer than three lines is dropped silently; the blocks of
      the entries before and after it are kept, in order. */
  lemma ParseDropsMalformed(before: seq<string>, entry: string, after: seq<string>)
    requires ParseEntry(entry) == None
    ensures ParseEntries(before + [entry] + after) == ParseEntries(before) + ParseEntries(after)
  {
    ParseEntriesAppend(before + [entry], after);
    ParseEntriesAppend(before, [entry]);
    assert [entry][..0] == [];
  }

  /** A list of entries of which every one is kept parses to one block per entry. */
  lemma {:induction false} ParseEntriesAllKept(entries: seq<string>)
    requires forall j :: 0 <= j < |entries| ==> ParseEntry(entries[j]).Some?
    ensures |ParseEntries(entries)| == |entries|
    ensures forall j :: 0 <= j < |entries| ==> ParseEntries(entries)[j] == ParseEntry(entries[j]).value
    decreases |entries|
  {
    if entries != [] {
      var n := |entries| - 1;
      var init := entries[..n];
      ParseEntriesAllKept(init);
      var b := ParseEntry(entries[n]).value;
      var ps := ParseEntries(init);
      assert ParseEntries(entries) == ps + [b];
      forall j | 0 <= j < |entries| ensures (ps + [b])[j] == ParseEntry(entries[j]).value {
        if j < n {
          assert init[j] == entries[j];
        }
      }
    }
  }

  lemma ParseEntriesAtMostOne(es: seq<string>)
    requires |es| == 1
    ensures |ParseEntries(es)| <= 1
  {
    assert es[..0] == [];
  }

  /** A document with no blank line inside it (for instance one whose lines end
      in a carriage return and a line feed) is a single entry, so it parses to
      at most one block. */
  lemma ParseWithoutBlankLine(content: string)
    requires Free(Strip(content), EntrySeparator)
    ensures |Parse(content)| <= 1
  {
    var es := Entries(content);
    assert es == [Strip(content)] by {
      SplitFree(Strip(content), EntrySeparator);
    }
    ParseEntriesAtMostOne(es);
  }

  // ---------------------------------------------------------------------------
  // When blocks survive a format/parse round trip

  /** A block rendered as one entry parses back to itself: index and timestamp
      have no line break, and the rendered entry has no blank line and neither
      starts nor ends with white space. */
  predicate WellFormed(b: Block) {
    && '\n' !in b.index && '\n' !in b.timestamp
    && Free(Render(b), EntrySeparator)
    && !IsSpace(Render(b)[0]) && !IsSpace(Render(b)[|Render(b)| - 1])
  }

  lemma PairAt(s: string, i: int)
    requires 0 <= i && i + 2 <= |s|
    ensures OccursAt(s, EntrySeparator, i) <==> s[i] == '\n' && s[i + 1] == '\n'
  {
    assert s[i..i + 2] == [s[i], s[i + 1]];
  }

  /** A string without a blank line that does not end in a line break is
      followed by the blank-line separator and nothing earlier. */
  lemma EndsBeforeBlankLine(p: string)
    requires Free(p, EntrySeparator) && p != [] && p[|p| - 1] != '\n'
    ensures EndsBefore(p, EntrySeparator)
  {
    var q := p + EntrySeparator;
    forall i | 0 <= i < |p| ensures !OccursAt(q, EntrySeparator, i) {
      PairAt(q, i);
      if i + 2 <= |p| {
        PairAt(p, i);
        assert q[i] == p[i] && q[i + 1] == p[i + 1];
      } else {
        assert q[i] == p[|p| - 1];
      }
    }
  }

  lemma RenderLines(b: Block)
    requires '\n' !in b.index && '\n' !in b.timestamp
    ensures Split(Render(b), LineSeparator) == [b.index, b.timestamp] + Split(b.text, LineSeparator)
  {
    assert LineSeparator == ['\n'];
    CharFree(b.index, '\n');
    CharFree(b.timestamp, '\n');
    var tail := b.timestamp + LineSeparator + b.text;
    assert Render(b) == b.index + LineSeparator + tail;
    SplitAfter(b.index, LineSeparator, tail);
    SplitAfter(b.timestamp, LineSeparator, b.text);
  }

  /** A well-formed block, rendered, parses back to itself. */
  lemma ParseEntryRender(b: Block)
    requires WellFormed(b)
    ensures ParseEntry(Render(b)) == Some(b)
  {
    var r := Render(b);
    StripFixed(r);
    assert Strip(r) == r;
    RenderLines(b);
    var lines := EntryLines(r);
    assert lines == [b.index, b.timestamp] + Split(b.text, LineSeparator);
    assert lines[0] == b.index && lines[1] == b.timestamp;
    assert lines[2..] == Split(b.text, LineSeparator);
    JoinSplit(b.text, LineSeparator);
  }

  lemma JoinLast(parts: seq<string>, sep: string)
    requires |parts| >= 1
    ensures |parts[|parts| - 1]| <= |Join(parts, sep)|
    ensures Join(parts, sep)[|Join(parts, sep)| - |parts[|parts| - 1]|..] == parts[|parts| - 1]
    decreases |parts|
  {
    if |parts| > 1 {
      JoinLast(parts[1..], sep);
    }
  }

  /** A list of well-formed blocks formats to a document that `strip()`
      leaves unchanged. */
  lemma FormatStripped(bs: seq<Block>)
    requires forall k :: 0 <= k < |bs| ==> WellFormed(bs[k])
    ensures Strip(Format(bs)) == Format(bs)
  {
    var d := Format(bs);
    if bs == [] {
      StripFixed(d);
      return;
    }
    var rs := Renders(bs);
    JoinHead(rs, EntrySeparator);
    JoinLast(rs, EntrySeparator);
    assert WellFormed(bs[0]) && WellFormed(bs[|bs| - 1]);
    assert d[0] == rs[0][0];
    assert d[|d| - 1] == rs[|rs| - 1][|rs[|rs| - 1]| - 1];
    StripFixed(d);
  }

  /** The entries of a formatted list of well-formed blocks are the rendered blocks. */
  lemma FormatEntries(bs: seq<Block>)
    requires bs != [] && forall k :: 0 <= k < |bs| ==> WellFormed(bs[k])
    ensures Split(Format(bs), EntrySeparator) == Renders(bs)
  {
    var rs := Renders(bs);
    forall k | 0 <= k < |rs| ensures EndsBefore(rs[k], EntrySeparator) && Free(rs[k], EntrySeparator) {
      assert rs[k] == Render(bs[k]) && WellFormed(bs[k]);
      EndsBeforeBlankLine(rs[k]);
    }
    SplitJoin(rs, EntrySeparator);
  }

  lemma RendersParse(bs: seq<Block>)
    requires forall k :: 0 <= k < |bs| ==> WellFormed(bs[k])
    ensures ParseEntries(Renders(bs)) == bs
  {
    var rs := Renders(bs);
    forall j | 0 <= j < |rs| ensures ParseEntry(rs[j]) == Some(bs[j]) {
      ParseEntryRender(bs[j]);
    }
    ParseEntriesAllKept(rs);
  }

  /** Round trip: well-formed blocks formatted and parsed again come back
      unchanged, in the same order and number. */
  lemma ParseFormat(bs: seq<Block>)
    requires forall k :: 0 <= k < |bs| ==> WellFormed(bs[k])
    ensures Parse(Format(bs)) == bs
  {
    if bs == [] {
      assert Format(bs) == [];
      assert Entries([]) == [[]];
      assert EntryLines([]) == [[]];
      assert EntryLines([])[..0] == [];
    } else {
      FormatStripped(bs);
      FormatEntries(bs);
      RendersParse(bs);
    }
  }

  /** Format-then-parse gives the blocks back exactly when every block is
      well-formed: the condition of `ParseFormat` is also necessary. */
  lemma RoundTripExactly(bs: seq<Block>)
    ensures Parse(Format(bs)) == bs <==> forall k :: 0 <= k < |bs| ==> WellFormed(bs[k])
  {
    ParseWellFormed(Format(bs));
    if forall k :: 0 <= k < |bs| ==> WellFormed(bs[k]) {
      ParseFormat(bs);
    }
  }

  /** A well-formed block followed by a blank line and a single line of text
      parses to that block alone: the line after the blank line is an entry of
      fewer than three lines, and is dropped. */
  lemma ShortTailDropped(b: Block, t: string)
    requires WellFormed(b)
    requires t != [] && Strip(t) == t && '\n' !in t
    ensures Parse(Render(b) + EntrySeparator + t) == [b]
  {
    var r := Render(b);
    var c := r + EntrySeparator + t;
    WellFormedParts(b);
    StripFixed(t);
    assert c[0] == r[0] && c[|c| - 1] == t[|t| - 1];
    StripFixed(c);
    EndsBeforeBlankLine(r);
    SplitAfter(r, EntrySeparator, t);
    NoNewlineFree(t);
    SplitFree(t, EntrySeparator);
    assert Entries(c) == [r] + [t];
    SplitChar(t, '\n');
    ParseEntryKept(t);
    ParseDropsMalformed([r], t, []);
    assert [r] + [t] + [] == [r] + [t];
    ParseEntryRender(b);
    assert ParseEntries([r]) == ParseEntries([r][..0]) + [b];
  }

  /** A document is well-formed when `strip()` leaves it unchanged, and
      every entry is already stripped and has at least three lines. */
  predicate WellFormedDocument(content: string) {
    && Strip(content) == content
    && forall j :: 0 <= j < |Entries(content)| ==>
         Strip(Entries(content)[j]) == Entries(content)[j] && ParseEntry(Entries(content)[j]).Some?
  }

  /** Round trip the other way: formatting the parse of a well-formed document
      gives the document back character for character. */
  lemma FormatParse(content: string)
    requires WellFormedDocument(content)
    ensures Format(Parse(content)) == content
  {
    var es := Entries(content);
    ParseEntriesAllKept(es);
    forall j | 0 <= j < |es| ensures Render(ParseEntries(es)[j]) == es[j] {
      ParsedBlock(es[j]);
    }
    assert Renders(ParseEntries(es)) == es;
    JoinSplit(Strip(content), EntrySeparator);
  }

  /** The converse of `FormatParse` for a non-empty document: a document that
      `format_srt(parse_srt(...))` gives back unchanged is well-formed. */
  lemma FormatParseOnlyIf(content: string)
    requires content != [] && Format(Parse(content)) == content
    ensures WellFormedDocument(content)
  {
    var bs := Parse(content);
    ParseWellFormed(content);
    FormatStripped(bs);
    assert bs != [];
    FormatEntries(bs);
    var es := Entries(content);
    assert es == Renders(bs);
    forall j | 0 <= j < |es|
      ensures Strip(es[j]) == es[j] && ParseEntry(es[j]).Some?
    {
      assert es[j] == Render(bs[j]);
      StripFixed(Render(bs[j]));
      ParseEntryRender(bs[j]);
    }
  }

  /** `format_srt(parse_srt(content)) == content` exactly when the document is
      empty or well-formed; the empty document is the one exception, as it has
      a single empty entry, which is malformed. */
  lemma FormatParseExactly(content: string)
    ensures Format(Parse(content)) == content <==> (content == [] || WellFormedDocument(content))
  {
    if content == [] {
      assert Strip(content) == [];
      assert Entries(content) == [[]];
      assert EntryLines([]) == [[]];
      assert Parse(content) == [];
    } else if WellFormedDocument(content) {
      FormatParse(content);
    } else if Format(Parse(content)) == content {
      FormatParseOnlyIf(content);
    }
  }

  // ---------------------------------------------------------------------------
  // Everything `parse_srt` returns is well-formed

  /** The ingredients of a well-formed block, one by one. */
  lemma WellFormedParts(b: Block)
    requires WellFormed(b)
    ensures b.index != [] && !IsSpace(b.index[0]) && b.timestamp != []
    ensures b.text != [] && !IsSpace(b.text[|b.text| - 1])
  {
    var r := Render(b);
    var a := |b.index|;
    PairAt(r, a);
    assert r[a] == '\n';
    assert r[a + 1] == if b.timestamp == [] then '\n' else b.timestamp[0];
    assert r[0] == if b.index == [] then '\n' else b.index[0];
    assert r[|r| - 1] == if b.text == [] then '\n' else b.text[|b.text| - 1];
  }

  /** A block with an index and a non-empty timestamp free of line breaks, and
      a text free of blank lines that does not start with a line break,
      renders without a blank line. */
  lemma RenderFree(b: Block)
    requires '\n' !in b.index && '\n' !in b.timestamp && b.timestamp != []
    requires Free(b.text, EntrySeparator) && (b.text == [] || b.text[0] != '\n')
    ensures Free(Render(b), EntrySeparator)
  {
    var r := Render(b);
    var a, m := |b.index|, |b.timestamp|;
    forall i | 0 <= i <= |r| ensures !OccursAt(r, EntrySeparator, i) {
      if i + 2 <= |r| {
        PairAt(r, i);
        if i < a {
          assert r[i] == b.index[i];
        } else if i == a {
          assert r[i + 1] == b.timestamp[0];
        } else if i < a + 1 + m {
          assert r[i] == b.timestamp[i - a - 1];
        } else if i == a + 1 + m {
          assert r[i + 1] == b.text[0];
        } else {
          var j := i - a - 2 - m;
          PairAt(b.text, j);
          assert r[i] == b.text[j] && r[i + 1] == b.text[j + 1];
          assert !OccursAt(b.text, EntrySeparator, j);
        }
      }
    }
  }

  /** Replacing the text of a well-formed block with a stripped, non-empty
      text free of blank lines gives a well-formed block. */
  lemma WithTextWellFormed(b: Block, text: string)
    requires WellFormed(b)
    requires text != [] && Strip(text) == text && Free(text, EntrySeparator)
    ensures WellFormed(b.(text := text))
  {
    WellFormedParts(b);
    StripFixed(text);
    var b' := b.(text := text);
    RenderFree(b');
    assert Render(b')[0] == b.index[0] == Render(b)[0];
  }

  /** An entry free of blank lines that is kept parses to a well-formed block. */
  lemma ParsedWellFormed(entry: string)
    requires Free(entry, EntrySeparator) && ParseEntry(entry).Some?
    ensures WellFormed(ParseEntry(entry).value)
  {
    ParsedBlock(entry);
    StripFree(entry, EntrySeparator);
    StripSpec(entry);
  }

  lemma {:induction false} ParseEntriesWellFormed(entries: seq<string>)
    requires forall j :: 0 <= j < |entries| ==> Free(entries[j], EntrySeparator)
    ensures forall k :: 0 <= k < |ParseEntries(entries)| ==> WellFormed(ParseEntries(entries)[k])
    decreases |entries|
  {
    if entries != [] {
      var n := |entries|;
      ParseEntriesWellFormed(entries[..n - 1]);
      if ParseEntry(entries[n - 1]).Some? {
        ParsedWellFormed(entries[n - 1]);
      }
    }
  }

  /** Every block `parse_srt` returns is well-formed. */
  lemma ParseWellFormed(content: string)
    ensures forall k :: 0 <= k < |Parse(content)| ==> WellFormed(Parse(content)[k])
  {
    SplitPiecesFree(Strip(content), EntrySeparator);
    ParseEntriesWellFormed(Entries(content));
  }

  /** Formatting what `parse_srt` returned and parsing it again gives the same
      blocks: a formatted document is always read back as it was written. */
  lemma ParseFormatParse(content: string)
    ensures Parse(Format(Parse(content))) == Parse(content)
  {
    ParseWellFormed(content);
    ParseFormat(Parse(content));
  }

  /** A string without line breaks has no blank line. */
  lemma NoNewlineFree(s: string)
    requires '\n' !in s
    ensures Free(s, EntrySeparator)
  {
    forall i | 0 <= i <= |s| ensures !OccursAt(s, EntrySeparator, i) {
      if i + 2 <= |s| {
        PairAt(s, i);
      }
    }
  }

  /** A block whose three fields have no line break, whose index starts and
      whose text ends with a character that is not white space, and whose
      timestamp is not empty, is well-formed. */
  lemma SingleLineWellFormed(b: Block)
    requires '\n' !in b.index && '\n' !in b.timestamp && '\n' !in b.text
    requires b.index != [] && !IsSpace(b.index[0]) && b.timestamp != []
    requires b.text != [] && !IsSpace(b.text[|b.text| - 1])
    ensures WellFormed(b)
  {
    NoNewlineFree(b.text);
    RenderFree(b);
    assert Render(b)[0] == b.index[0];
    assert Render(b)[|Render(b)| - 1] == b.text[|b.text| - 1];
  }
}
