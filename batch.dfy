/** The batched transform that `correct_chinese` and `translate_to_vietnamese`
    share: the block texts go to the text-generation service as one batch,
    the answer is split back into pieces, and the pieces are put back onto
    the blocks by position, with the original text standing in for every
    block the answer has no piece for. The service is not modelled: its
    answer is a parameter. */
module Batch {
  import opened Strings
  import opened Srt

  /** The marker between two texts, in the batch and in the answer. */
  const Delimiter: string := "===PH\U{C2}N_C\U{C1}CH==="

  /** What separates two texts of the batch: the marker on a line of its own. */
  const BatchSeparator: string := "\n" + Delimiter + "\n"

  function Texts(bs: seq<Block>): seq<string> {
    seq(|bs|, k requires 0 <= k < |bs| => bs[k].text)
  }

  /** The batch of texts embedded in the prompt. */
  function BatchPayload(bs: seq<Block>): string {
    Join(Texts(bs), BatchSeparator)
  }

  /** The pieces of the answer that are not blank, each stripped, in order. */
  function CleanPieces(raw: seq<string>): (r: seq<string>)
    ensures |r| <= |raw|
    decreases |raw|
  {
    if raw == [] then []
    else
      var p := Strip(raw[0]);
      var rest := CleanPieces(raw[1..]);
      if p != [] then [p] + rest else rest
  }

  /** The pieces of the service's answer, ready to be put onto the blocks. */
  function Pieces(response: string): seq<string> {
    CleanPieces(Split(response, Delimiter))
  }

  /** The blocks after reconciliation: block `i` takes piece `i` when there is
      one and keeps its own text otherwise; index and timestamp stay. */
  function Reconciled(bs: seq<Block>, pieces: seq<string>): seq<Block> {
    seq(|bs|, i requires 0 <= i < |bs| => bs[i].(text := if i < |pieces| then pieces[i] else bs[i].text))
  }

  /** The length reconciliation: pad the list of pieces with the original
      texts of the blocks it has no piece for, then cut it to one text per block. */
  method PadTexts(pieces: seq<string>, blocks: seq<Block>) returns (texts: seq<string>)
    ensures |texts| == |blocks|
    ensures forall i :: 0 <= i < |blocks| ==> texts[i] == if i < |pieces| then pieces[i] else blocks[i].text
  {
    texts := pieces;
    while |texts| < |blocks|
      invariant |pieces| <= |texts|
      invariant |pieces| < |texts| ==> |texts| <= |blocks|
      invariant forall i :: 0 <= i < |texts| ==> texts[i] == if i < |pieces| then pieces[i] else blocks[i].text
      decreases |blocks| - |texts|
    {
      texts := texts + [blocks[|texts|].text];
    }
    texts := texts[..|blocks|];
  }

  /** Puts text `i` into block `i`, in place; nothing but the texts changes. */
  method AssignTexts(blocks: array<Block>, texts: seq<string>)
    requires |texts| == blocks.Length
    modifies blocks
    ensures forall i :: 0 <= i < blocks.Length ==> blocks[i] == old(blocks[i]).(text := texts[i])
  {
    for i := 0 to blocks.Length
      invariant forall k :: 0 <= k < i ==> blocks[k] == old(blocks[k]).(text := texts[k])
      invariant forall k :: i <= k < blocks.Length ==> blocks[k] == old(blocks[k])
    {
      blocks[i] := blocks[i].(text := texts[i]);
    }
  }

  /** One correction or translation pass, given the service's answer: parse,
      reconcile the pieces with the blocks, format. */
  method Transform(content: string, response: string) returns (output: string)
    ensures output == Format(Reconciled(Parse(content), Pieces(response)))
  {
    var parsed := ParseSrt(content);
    var blocks := new Block[|parsed|](k requires 0 <= k < |parsed| => parsed[k]);
    var pieces := Pieces(response);
    var texts := PadTexts(pieces, blocks[..]);
    AssignTexts(blocks, texts);
    assert blocks[..] == Reconciled(parsed, pieces);
    output := Format(blocks[..]);
  }

  // ---------------------------------------------------------------------------
  // Reconciliation

  /** Reconciliation against the source's own recipe: the texts of the
      reconciled blocks are the pieces, extended with the original texts of
      the blocks past the last piece, cut to one text per block. Every block
      keeps its index and timestamp, the number of blocks does not change,
      pieces past the last block are ignored, and an answer with no piece
      leaves the blocks as they were. */
  lemma ReconciledSpec(bs: seq<Block>, pieces: seq<string>)
    ensures var rs := Reconciled(bs, pieces);
      var m := if |pieces| < |bs| then |pieces| else |bs|;
      && |rs| == |bs|
      && Texts(rs) == (pieces + Texts(bs)[m..])[..|bs|]
      && (forall i :: 0 <= i < |bs| ==> rs[i].index == bs[i].index && rs[i].timestamp == bs[i].timestamp)
      && rs == Reconciled(bs, pieces[..m])
      && Reconciled(bs, []) == bs
  {
    var rs := Reconciled(bs, pieces);
    var m := if |pieces| < |bs| then |pieces| else |bs|;
    var padded := pieces + Texts(bs)[m..];
    assert |padded| >= |bs|;
    forall i | 0 <= i < |bs| ensures Texts(rs)[i] == padded[..|bs|][i] {
      if |pieces| <= i {
        assert padded[i] == Texts(bs)[m..][i - |pieces|];
      }
    }
  }

  // ---------------------------------------------------------------------------
  // The pieces

  /** Every piece that survives cleaning is stripped and not blank. */
  lemma {:induction false} CleanPiecesClean(raw: seq<string>)
    ensures forall k :: 0 <= k < |CleanPieces(raw)| ==> CleanPieces(raw)[k] != [] && Strip(CleanPieces(raw)[k]) == CleanPieces(raw)[k]
    decreases |raw|
  {
    if raw != [] {
      CleanPiecesClean(raw[1..]);
      StripIdempotent(raw[0]);
    }
  }

  /** Pieces that are already stripped and not blank pass through unchanged. */
  lemma {:induction false} CleanPiecesKeepsClean(raw: seq<string>)
    requires forall k :: 0 <= k < |raw| ==> raw[k] != [] && Strip(raw[k]) == raw[k]
    ensures CleanPieces(raw) == raw
    decreases |raw|
  {
    if raw != [] {
      CleanPiecesKeepsClean(raw[1..]);
      assert raw == [raw[0]] + raw[1..];
    }
  }

  /** Cleaning looks at the first piece on its own. */
  lemma CleanPiecesCons(x: string, raw: seq<string>)
    ensures CleanPieces([x] + raw) == (if Strip(x) != [] then [Strip(x)] else []) + CleanPieces(raw)
  {
    assert ([x] + raw)[0] == x && ([x] + raw)[1..] == raw;
  }

  lemma CleanPiecesAppendStep(x: string, tail: seq<string>, b: seq<string>)
    requires CleanPieces(tail + b) == CleanPieces(tail) + CleanPieces(b)
    ensures CleanPieces([x] + (tail + b)) == CleanPieces([x] + tail) + CleanPieces(b)
  {
    CleanPiecesCons(x, tail);
    CleanPiecesCons(x, tail + b);
    if Strip(x) != [] {
      assert [Strip(x)] + (CleanPieces(tail) + CleanPieces(b)) == ([Strip(x)] + CleanPieces(tail)) + CleanPieces(b);
    }
  }

  /** Cleaning works piece by piece: a blank piece is dropped wherever it stands. */
  lemma {:induction false} CleanPiecesAppend(a: seq<string>, b: seq<string>)
    ensures CleanPieces(a + b) == CleanPieces(a) + CleanPieces(b)
    decreases |a|
  {
    if a == [] {
      assert a + b == b;
    } else {
      CleanPiecesAppend(a[1..], b);
      CleanPiecesAppendStep(a[0], a[1..], b);
      assert a == [a[0]] + a[1..];
      assert a + b == [a[0]] + (a[1..] + b);
    }
  }

  /** When no piece is blank, cleaning strips every piece and drops none. */
  lemma {:induction false} CleanPiecesNoneBlank(raw: seq<string>)
    requires forall k :: 0 <= k < |raw| ==> Strip(raw[k]) != []
    ensures |CleanPieces(raw)| == |raw|
    ensures forall k :: 0 <= k < |raw| ==> CleanPieces(raw)[k] == Strip(raw[k])
    decreases |raw|
  {
    if raw != [] {
      CleanPiecesNoneBlank(raw[1..]);
    }
  }

  // ---------------------------------------------------------------------------
  // The batch framing round trip

  lemma DelimiterShape()
    ensures |Delimiter| == 15 && Delimiter[0] == '=' && '\n' !in Delimiter
    ensures BatchSeparator == "\n" + Delimiter + "\n"
  {
  }

  /** A text free of the marker, followed by a line break, is cut right
      after that line break when the marker follows. */
  lemma TextEndsBefore(t: string)
    requires Free(t, Delimiter)
    ensures EndsBefore(t + "\n", Delimiter)
  {
    DelimiterShape();
    var p := t + "\n";
    var q := p + Delimiter;
    var n := |Delimiter|;
    forall i | 0 <= i < |p| ensures !OccursAt(q, Delimiter, i) {
      if i + n <= |t| {
        assert q[i..i + n] == t[i..i + n];
        assert !OccursAt(t, Delimiter, i);
      } else {
        assert q[|t|] == '\n';
        assert q[i..i + n][|t| - i] == '\n';
      }
    }
  }

  /** One step of the batch split: the first text, its line break, the
      marker, and the line break that starts the rest. */
  lemma SplitBatchStep(t: string, rest: string)
    requires t != [] && Strip(t) == t && Free(t, Delimiter)
    ensures var s1 := Split(rest, Delimiter);
      Split(t + BatchSeparator + rest, Delimiter) == [t + "\n"] + ([['\n'] + s1[0]] + s1[1..])
  {
    DelimiterShape();
    assert t + BatchSeparator + rest == (t + "\n") + Delimiter + ("\n" + rest);
    TextEndsBefore(t);
    SplitAfter(t + "\n", Delimiter, "\n" + rest);
    SplitLeading('\n', rest, Delimiter);
  }

  /** Splitting the batch on the marker gives one piece per text, and each
      piece strips to its text, when every text is stripped, not blank and
      free of the marker. */
  lemma {:induction false} SplitBatch(ts: seq<string>)
    requires |ts| >= 1
    requires forall k :: 0 <= k < |ts| ==> ts[k] != [] && Strip(ts[k]) == ts[k] && Free(ts[k], Delimiter)
    ensures |Split(Join(ts, BatchSeparator), Delimiter)| == |ts|
    ensures forall k :: 0 <= k < |ts| ==> Strip(Split(Join(ts, BatchSeparator), Delimiter)[k]) == ts[k]
    decreases |ts|
  {
    if |ts| == 1 {
      SplitFree(ts[0], Delimiter);
    } else {
      var rest := Join(ts[1..], BatchSeparator);
      var s1 := Split(rest, Delimiter);
      SplitBatch(ts[1..]);
      assert Join(ts, BatchSeparator) == ts[0] + BatchSeparator + rest;
      SplitBatchStep(ts[0], rest);
      var s := Split(Join(ts, BatchSeparator), Delimiter);
      assert s == [ts[0] + "\n"] + ([['\n'] + s1[0]] + s1[1..]);
      StripTrailingSpace(ts[0], '\n');
      StripLeadingSpace('\n', s1[0]);
      forall k | 0 <= k < |ts| ensures Strip(s[k]) == ts[k] {
        if k >= 2 {
          assert s[k] == s1[k - 1];
        }
      }
    }
  }

  /** Round trip of the batch protocol: a service that answers with the batch
      it was sent gets back exactly the texts, one per block, so the
      transform leaves the blocks as they were — provided every text is
      stripped, not blank and free of the marker. */
  lemma EchoRoundTrip(bs: seq<Block>)
    requires forall k :: 0 <= k < |bs| ==> bs[k].text != [] && Strip(bs[k].text) == bs[k].text && Free(bs[k].text, Delimiter)
    ensures Pieces(BatchPayload(bs)) == Texts(bs)
    ensures Reconciled(bs, Pieces(BatchPayload(bs))) == bs
  {
    var ts := Texts(bs);
    if bs == [] {
      assert BatchPayload(bs) == [];
      assert Split([], Delimiter) == [[]];
      assert Strip([]) == [];
    } else {
      SplitBatch(ts);
      var raw := Split(BatchPayload(bs), Delimiter);
      CleanPiecesNoneBlank(raw);
    }
  }

  // ---------------------------------------------------------------------------
  // What the next pass reads back

  /** Reconciled blocks stay well-formed when no piece has a blank line in it,
      so the formatted output parses back to exactly the reconciled blocks:
      as many as `parse_srt` found, with their indices and timestamps. This is
      what `translate_to_vietnamese` relies on when it parses the output of
      `correct_chinese`. */
  lemma ReparseOutput(content: string, response: string)
    requires forall k :: 0 <= k < |Pieces(response)| ==> Free(Pieces(response)[k], EntrySeparator)
    ensures Parse(Format(Reconciled(Parse(content), Pieces(response)))) == Reconciled(Parse(content), Pieces(response))
    ensures |Reconciled(Parse(content), Pieces(response))| == |Parse(content)|
  {
    var bs := Parse(content);
    var pieces := Pieces(response);
    var rs := Reconciled(bs, pieces);
    ParseWellFormed(content);
    CleanPiecesClean(Split(response, Delimiter));
    forall i | 0 <= i < |rs| ensures WellFormed(rs[i]) {
      if i < |pieces| {
        WithTextWellFormed(bs[i], pieces[i]);
      }
    }
    ParseFormat(rs);
  }

  /** A piece in which the marker's first character does not occur is cut
      right after it when the marker follows. */
  lemma NoMarkerEndsBefore(p: string)
    requires '=' !in p
    ensures EndsBefore(p, Delimiter) && Free(p, Delimiter)
  {
    DelimiterShape();
    forall i | 0 <= i < |p| ensures !OccursAt(p + Delimiter, Delimiter, i) {
      if i + |Delimiter| <= |p + Delimiter| {
        assert (p + Delimiter)[i..i + |Delimiter|][0] == p[i];
      }
    }
    EndsBeforeFree(p, Delimiter);
  }
}
