/** From an HTTP body to documents: the read pipeline, the document pipeline and the collector
    put together, and JSON values as they are written. */
module JournalReads {
  import opened Units
  import opened Utf8
  import opened ChunkedDecode
  import opened Json
  import opened JsonDamage
  import opened JsonPrint
  import opened SplitStream
  import opened Streams
  import opened JournalClient
  import opened JournalWindow

  // ----- The frames of an HTTP body

  /** The documents of the frames, in order; a frame that does not parse gives none. */
  function FrameDocuments(frames: seq<seq<Scalar>>): seq<Value> {
    if frames == [] then [] else DocumentOf(Utf16(frames[0])) + FrameDocuments(frames[1..])
  }

  predicate OneLineEach(frames: seq<seq<int>>) {
    forall i :: 0 <= i < |frames| ==> NEWLINE !in frames[i]
  }

  /** Frames as they come over the wire: any bytes, each ended by a newline. */
  function ByteLines(frames: seq<seq<Byte>>): seq<Byte> {
    if frames == [] then [] else frames[0] + [NEWLINE] + ByteLines(frames[1..])
  }

  /** Every body is made of complete frames and an unfinished one. */
  lemma {:induction false} BodyIsLines(body: seq<Byte>) returns (frames: seq<seq<Byte>>, tail: seq<Byte>)
    ensures OneLineEach(frames) && NEWLINE !in tail && body == ByteLines(frames) + tail
    decreases |body|
  {
    if NEWLINE !in body {
      frames, tail := [], body;
      assert ByteLines([]) + body == body;
    } else {
      var k := FirstNewlineByte(body);
      var rest: seq<seq<Byte>>;
      rest, tail := BodyIsLines(body[k + 1..]);
      frames := [body[..k]] + rest;
      assert frames[1..] == rest;
      assert body == body[..k] + [NEWLINE] + body[k + 1..];
      Assoc(body[..k] + [NEWLINE], ByteLines(rest), tail);
    }
  }

  lemma FirstNewlineByte(body: seq<Byte>) returns (k: nat)
    requires NEWLINE in body
    ensures k < |body| && body[k] == NEWLINE && NEWLINE !in body[..k]
  {
    k := 0;
    while body[k] != NEWLINE
      invariant k < |body| && NEWLINE !in body[..k] && NEWLINE in body[k..]
      decreases |body| - k
    {
      assert body[k..] == [body[k]] + body[k + 1..] && body[..k + 1] == body[..k] + [body[k]];
      k := k + 1;
    }
  }

  /** The texts of the frames of a body: ill-formed bytes are replaced, and a byte order mark at the
      front of the body is dropped. */
  function FrameTexts(frames: seq<seq<Byte>>): seq<seq<Scalar>> {
    Unmarked(DecodedEach(frames))
  }

  function DecodedEach(frames: seq<seq<Byte>>): (texts: seq<seq<Scalar>>)
    ensures |texts| == |frames| && forall i :: 0 <= i < |frames| ==> texts[i] == Decoded(frames[i])
  {
    if frames == [] then [] else [Decoded(frames[0])] + DecodedEach(frames[1..])
  }

  function Unmarked(frames: seq<seq<Scalar>>): seq<seq<Scalar>> {
    if frames == [] then [] else [StripBom(frames[0])] + frames[1..]
  }

  function Lined(frames: seq<seq<Scalar>>): seq<Scalar> {
    if frames == [] then [] else frames[0] + [NEWLINE] + Lined(frames[1..])
  }

  /** A newline byte ends whatever came before it, so the bytes on its two sides decode apart. */
  lemma DecodedLine(x: seq<Byte>, y: seq<Byte>)
    ensures Decoded(x + [NEWLINE] + y) == Decoded(x) + [NEWLINE] + Decoded(y)
  {
    hide Feed, Step, Finish;
    var (mid, before) := Feed(START, x);
    var (end, after) := Feed(START, y);
    FeedSnoc(START, x, NEWLINE);
    StepAscii(mid, NEWLINE);
    FeedConcat(START, x + [NEWLINE], y);
    FourParts(before, Finish(mid), [NEWLINE], after, Finish(end));
  }

  lemma FourParts(a: seq<Scalar>, b: seq<Scalar>, c: seq<Scalar>, d: seq<Scalar>, e: seq<Scalar>)
    ensures a + (b + c) + d + e == (a + b) + c + (d + e)
  {
  }

  lemma NoNewlineDecoded(x: seq<Byte>)
    requires NEWLINE !in x
    ensures NEWLINE !in Decoded(x)
  {
    hide Feed;
    FeedAscii(START, x);
    AsciiMember(x, NEWLINE);
    AsciiMember(Feed(START, x).1, NEWLINE);
  }

  lemma {:induction false} DecodedLines(frames: seq<seq<Byte>>, tail: seq<Byte>)
    ensures Decoded(ByteLines(frames) + tail) == Lined(DecodedEach(frames)) + Decoded(tail)
  {
    hide Decoded;
    if frames == [] {
      assert ByteLines(frames) + tail == tail && Lined([]) + Decoded(tail) == Decoded(tail);
    } else {
      var rest := ByteLines(frames[1..]);
      Assoc(frames[0] + [NEWLINE], rest, tail);
      DecodedLine(frames[0], rest + tail);
      DecodedLines(frames[1..], tail);
      assert DecodedEach(frames)[1..] == DecodedEach(frames[1..]);
      Assoc(Decoded(frames[0]) + [NEWLINE], Lined(DecodedEach(frames[1..])), Decoded(tail));
    }
  }

  lemma {:induction false} LinedDocuments(frames: seq<seq<Scalar>>, end: seq<Scalar>)
    requires OneLineEach(frames) && NEWLINE !in end
    ensures DocumentsOf(Lined(frames) + end) == FrameDocuments(frames)
  {
    hide DocumentsOf, DocumentOf;
    if frames == [] {
      assert Lined(frames) + end == end;
      DocumentsOfTail(end);
    } else {
      var frame, rest := frames[0], Lined(frames[1..]);
      LinedDocuments(frames[1..], end);
      DocumentsOfCons(frame, rest + end);
      Assoc(frame + [NEWLINE], rest, end);
    }
  }

  lemma UnmarkedLines(frames: seq<seq<Scalar>>, end: seq<Scalar>)
    requires frames != []
    ensures StripBom(Lined(frames) + end) == Lined(Unmarked(frames)) + end
  {
    hide StripBom;
    var frame, rest := frames[0], Lined(frames[1..]);
    assert Unmarked(frames)[1..] == frames[1..];
    Assoc(frame + [NEWLINE], rest, end);
    Assoc(StripBom(frame) + [NEWLINE], rest, end);
    StripBomFront(frame, rest + end);
  }

  lemma StripBomFront(frame: seq<Scalar>, rest: seq<Scalar>)
    ensures StripBom(frame + [NEWLINE] + rest) == StripBom(frame) + [NEWLINE] + rest
  {
  }

  /** A body of any bytes, cut off anywhere, even inside a scalar: the pipeline of `read` delivers the
      `result` of each complete frame that parses, in order, up to a frame that throws. */
  lemma {:induction false} BodyResults(body: Stream<seq<Byte>>, frames: seq<seq<Byte>>, tail: seq<Byte>)
    requires Flatten(body.chunks) == ByteLines(frames) + tail && OneLineEach(frames) && NEWLINE !in tail
    ensures ReadResults(body) == Through(UnwrappedChunk, Stream(FrameDocuments(FrameTexts(frames)), body.failed))
  {
    hide Decoded, Emitted, Documents, Utf16, Lined, StripBom;
    var texts, end := DecodedEach(frames), Decoded(tail);
    DecodedLines(frames, tail);
    NoNewlineDecoded(tail);
    forall i | 0 <= i < |frames| ensures NEWLINE !in texts[i] { NoNewlineDecoded(frames[i]); }
    StrippedLines(texts, end);
    if frames == [] {
      LinedDocuments([], StripBom(end));
    } else {
      LinedDocuments(Unmarked(texts), end);
    }
  }

  /** Dropping the mark of a text drops that of its first line. */
  lemma StrippedLines(texts: seq<seq<Scalar>>, end: seq<Scalar>)
    requires OneLineEach(texts) && NEWLINE !in end
    ensures if texts == [] then StripBom(Lined(texts) + end) == Lined([]) + StripBom(end)
            else StripBom(Lined(texts) + end) == Lined(Unmarked(texts)) + end
    ensures OneLineEach(Unmarked(texts)) && NEWLINE !in StripBom(end)
  {
    if texts == [] {
      assert Lined(texts) + end == end && Lined([]) + StripBom(end) == StripBom(end);
    } else {
      UnmarkedLines(texts, end);
    }
  }

  /** When the stream of results fails. */
  lemma BodyFails(body: Stream<seq<Byte>>, frames: seq<seq<Byte>>, tail: seq<Byte>)
    requires Flatten(body.chunks) == ByteLines(frames) + tail && OneLineEach(frames) && NEWLINE !in tail
    ensures ReadResults(body).failed <==>
            body.failed || exists i :: 0 <= i < |frames| && Parse(Utf16(FrameTexts(frames)[i])) == Some(Null)
  {
    hide ReadResults, Emitted, Parse, Utf16, Flatten, UnwrappedChunk, FrameDocuments, FrameTexts, ByteLines;
    BodyResults(body, frames, tail);
    var texts := FrameTexts(frames);
    var docs := FrameDocuments(texts);
    EmittedFails(UnwrappedChunk, docs);
    forall v: Value ensures UnwrappedChunk(v).Throw? <==> v == Null { UnwrappedMeans(v); }
    NullFrames(texts);
    EachText(frames);
    assert Emitted(UnwrappedChunk, docs).failed <==> Null in docs;
  }

  lemma EachText(frames: seq<seq<Byte>>)
    ensures |FrameTexts(frames)| == |frames|
  {
  }

  lemma {:induction false} NullFrames(texts: seq<seq<Scalar>>)
    ensures Null in FrameDocuments(texts) <==> exists i :: 0 <= i < |texts| && Parse(Utf16(texts[i])) == Some(Null)
  {
    hide Parse, Utf16;
    if texts != [] {
      NullFrames(texts[1..]);
      assert forall i :: 0 < i < |texts| ==> texts[i] == texts[1..][i - 1];
      assert Null in FrameDocuments(texts) <==>
             Parse(Utf16(texts[0])) == Some(Null) || Null in FrameDocuments(texts[1..]);
    }
  }

  // ----- Frames that carry read responses

  /** What one frame of the body is good for: its text is parsed, its `result` unwrapped and its
      content taken for bytes. A frame that does not parse is skipped, and any later stage may throw. */
  function FrameChunk(frame: seq<Scalar>): Emission<seq<Byte>> {
    match Parse(Utf16(frame))
    case None => Nothing
    case Some(v) =>
      match UnwrappedChunk(v)
      case Emit(result) => ContentBytes(result)
      case Nothing => Nothing
      case Throw => Throw
  }

  /** The byte chunks that the frames of a body carry, up to the first frame that throws. */
  function Carried(frames: seq<seq<Byte>>, failed: bool): Stream<seq<Byte>> {
    Through(FrameChunk, Stream(FrameTexts(frames), failed))
  }

  /** Three stages in a row fail where the first of them fails, and deliver what came before. */
  lemma {:induction false} FramesCarry(frames: seq<seq<Scalar>>)
    ensures Contents(Emitted(UnwrappedChunk, FrameDocuments(frames))) == Emitted(FrameChunk, frames)
  {
    hide Parse, ContentBytes, UnwrappedChunk, Utf16;
    if frames != [] {
      var docs, rest := DocumentOf(Utf16(frames[0])), FrameDocuments(frames[1..]);
      FramesCarry(frames[1..]);
      if docs == [] {
        assert docs + rest == rest;
      } else {
        assert (docs + rest)[0] == docs[0] && (docs + rest)[1..] == rest;
        var first := UnwrappedChunk(docs[0]);
        if first.Emit? {
          var results := Emitted(UnwrappedChunk, rest).chunks;
          assert ([first.chunk] + results)[1..] == results;
        }
      }
    }
  }

  lemma BodyCarries(body: Stream<seq<Byte>>, frames: seq<seq<Byte>>, tail: seq<Byte>)
    requires Flatten(body.chunks) == ByteLines(frames) + tail && OneLineEach(frames) && NEWLINE !in tail
    ensures Contents(ReadResults(body)) == Carried(frames, body.failed)
  {
    hide Emitted, FrameDocuments, FrameTexts, Flatten, ReadResults;
    BodyResults(body, frames, tail);
    FramesCarry(FrameTexts(frames));
  }

  /** The two pipelines in a row, for any HTTP body in any chunks: the window that its complete frames
      carry is read as the window theorem says. If a frame throws, or the body fails, the documents
      completed before are still delivered, and then the stream fails. */
  lemma EndToEnd(lines: seq<seq<Scalar>>, a: nat, b: nat,
                 body: Stream<seq<Byte>>, frames: seq<seq<Byte>>, tail: seq<Byte>)
    requires AllRecords(lines)
    requires Flatten(body.chunks) == ByteLines(frames) + tail && OneLineEach(frames) && NEWLINE !in tail
    requires a <= b <= |Journal(lines)| && Journal(lines)[a..b] == Flatten(Carried(frames, body.failed).chunks)
    ensures var carried, docs := Carried(frames, body.failed), JournalDocuments(ReadResults(body));
            && docs.failed == carried.failed
            && docs.chunks == DocumentsRead(lines, 0, a, b, Cuts(carried.chunks, a))
            && AllReadAs(DocumentsInside(lines, 0, a, b), docs.chunks, CleanWindow(lines, a, b, carried.chunks))
  {
    hide Journal, DocumentsInside, CleanWindow, JournalDocuments, AllRecords, ReadResults, Carried, Flatten;
    hide BlurredValue, Contents, DocumentsRead, Cuts;
    BodyCarries(body, frames, tail);
    WindowTheorem(lines, a, b, ReadResults(body));
  }

  // ----- The collector

  lemma ObjectText(t: Text)
    requires t != [] && t[0] == OPEN_BRACE && Parse(t).Some?
    ensures Parse(t).value.Obj?
  {
    assert SkipWhite(t, 0) == 0;
  }

  lemma RecordIsObject(line: seq<Scalar>)
    requires IsRecord(line)
    ensures Parse(Utf16(line)).Some? && Parse(Utf16(line)).value.Obj?
  {
    hide Parse;
    assert Utf16(line)[0] == OPEN_BRACE;
    ObjectText(Utf16(line));
  }

  lemma {:induction false} InsideAreObjects(lines: seq<seq<Scalar>>, r: nat, a: nat, b: nat)
    requires r <= |lines| && AllRecords(lines)
    ensures forall v :: v in DocumentsInside(lines, r, a, b) ==> v.Obj?
    decreases |lines| - r
  {
    hide Parse, Start, End, IsRecord, Utf16;
    if r < |lines| {
      assert IsRecord(lines[r]);
      RecordIsObject(lines[r]);
      InsideAreObjects(lines, r + 1, a, b);
    }
  }

  /** What a client does: read a journal window, parse its documents, collect them. The collector
      stops at falsy values, but documents are objects, and damaged ones still are, so it loses none. */
  method ReadDocuments(body: Stream<seq<Byte>>, zero: Text -> bool,
                       ghost lines: seq<seq<Scalar>>, ghost a: nat, ghost b: nat,
                       ghost frames: seq<seq<Byte>>, ghost tail: seq<Byte>)
    returns (results: Option<seq<Value>>)
    requires AllRecords(lines)
    requires Flatten(body.chunks) == ByteLines(frames) + tail && OneLineEach(frames) && NEWLINE !in tail
    requires a <= b <= |Journal(lines)| && Journal(lines)[a..b] == Flatten(Carried(frames, body.failed).chunks)
    ensures results.None? <==> Carried(frames, body.failed).failed
    ensures results.Some? ==>
              var chunks := Carried(frames, body.failed).chunks;
              && results.value == DocumentsRead(lines, 0, a, b, Cuts(chunks, a))
              && AllReadAs(DocumentsInside(lines, 0, a, b), results.value, CleanWindow(lines, a, b, chunks))
  {
    hide Journal, DocumentsInside, DocumentsRead, CleanWindow, JournalDocuments, AllRecords, ReadResults, Carried;
    hide Collected, Cuts, Flatten;
    var read := Read(body);
    var docs := ParseJournalDocuments(read);
    results := ReadStreamToEnd(docs, v => Truthy(zero, v));
    EndToEnd(lines, a, b, body, frames, tail);
    InsideAreObjects(lines, 0, a, b);
    ghost var inside := DocumentsInside(lines, 0, a, b);
    forall i | 0 <= i < |docs.chunks| ensures Truthy(zero, docs.chunks[i]) {
      assert inside[i] in inside && BlurredValue(inside[i], docs.chunks[i]);
    }
    CollectedPrefix(docs, v => Truthy(zero, v));
  }

  // ----- Values as they are written

  /** A print has no surrogates, so it is a sequence of scalar values. */
  function PrintScalars(v: Value): seq<Scalar>
    requires WellFormed(v)
  {
    PrintLine(v);
    Print(v)
  }

  lemma PrintScalarsText(v: Value)
    requires WellFormed(v)
    ensures Utf16(PrintScalars(v)) == Print(v) && NEWLINE !in PrintScalars(v)
    ensures Parse(Utf16(PrintScalars(v))) == Some(v)
  {
    hide Print, Parse;
    PrintLine(v);
    Utf16Bmp(PrintScalars(v));
    ParsePrint(v);
  }

  lemma PrintedIsRecord(v: Value)
    requires WellFormed(v) && v.Obj?
    ensures IsRecord(PrintScalars(v))
  {
    hide Parse;
    PrintScalarsText(v);
  }

  /** Printed values, one a line, read back as those values. */
  lemma {:induction false} PrintedLines(vs: seq<Value>)
    requires forall i :: 0 <= i < |vs| ==> WellFormed(vs[i])
    ensures Documents(Terminated(seq(|vs|, i requires 0 <= i < |vs| => Print(vs[i])), LINE_END)) == vs
  {
    hide Print, Parse, Documents, WellFormed;
    var prints := seq(|vs|, i requires 0 <= i < |vs| => Print(vs[i]));
    if vs == [] {
      DocumentsTail([]);
    } else {
      var rest := vs[1..];
      var others := seq(|rest|, i requires 0 <= i < |rest| => Print(rest[i]));
      assert prints[1..] == others;
      PrintedLines(rest);
      PrintScalarsText(vs[0]);
      ParsePrint(vs[0]);
      DocumentsCons(Print(vs[0]), Terminated(others, LINE_END));
      assert [vs[0]] + rest == vs;
    }
  }

  function PrintedJournal(vs: seq<Value>): seq<seq<Scalar>>
    requires forall i :: 0 <= i < |vs| ==> WellFormed(vs[i])
  {
    seq(|vs|, i requires 0 <= i < |vs| => PrintScalars(vs[i]))
  }

  lemma {:induction false} PrintedInside(vs: seq<Value>, r: nat)
    requires forall i :: 0 <= i < |vs| ==> WellFormed(vs[i]) && vs[i].Obj?
    requires r <= |vs|
    ensures AllRecords(PrintedJournal(vs))
    ensures DocumentsInside(PrintedJournal(vs), r, 0, |Journal(PrintedJournal(vs))|) == vs[r..]
    decreases |vs| - r
  {
    hide IsRecord, Journal, PrintScalars, WellFormed, Parse, Start, End;
    var lines := PrintedJournal(vs);
    forall i | 0 <= i < |vs| ensures IsRecord(lines[i]) { PrintedIsRecord(vs[i]); }
    if r < |vs| {
      PrintedInside(vs, r + 1);
      PrintScalarsText(vs[r]);
      var p, e := RecordAt(lines, r);
      assert vs[r..] == [vs[r]] + vs[r + 1..];
    }
  }

  /** A journal of printed objects, read whole: as many objects come out, and exactly the printed
      ones if and only if no chunk cuts a record badly. */
  lemma WholeJournal(vs: seq<Value>, responses: Stream<Option<Value>>)
    requires forall i :: 0 <= i < |vs| ==> WellFormed(vs[i]) && vs[i].Obj?
    requires Flatten(Contents(responses).chunks) == Journal(PrintedJournal(vs))
    ensures AllRecords(PrintedJournal(vs))
    ensures AllReadAs(vs, JournalDocuments(responses).chunks,
                      CleanWindow(PrintedJournal(vs), 0, |Journal(PrintedJournal(vs))|, Contents(responses).chunks))
  {
    hide Journal, DocumentsInside, CleanWindow, JournalDocuments, AllRecords, PrintedJournal, Contents;
    hide BlurredValue;
    var lines := PrintedJournal(vs);
    PrintedInside(vs, 0);
    assert vs[0..] == vs;
    var journal := Journal(lines);
    assert journal[0..|journal|] == journal;
    WindowTheorem(lines, 0, |journal|, responses);
  }

  // ----- Bodies as the gateway writes them: {"result": ...}, one a line

  function Framed(v: Value): Value {
    Obj([Member(Chars("result"), v)])
  }

  function FramedEach(vs: seq<Value>): seq<Value> {
    seq(|vs|, i requires 0 <= i < |vs| => Framed(vs[i]))
  }

  function Somes(vs: seq<Value>): seq<Option<Value>> {
    seq(|vs|, i requires 0 <= i < |vs| => Some(vs[i]))
  }

  lemma FramedResult(v: Value)
    ensures UnwrappedChunk(Framed(v)) == Emit(Some(v))
  {
    hide UnwrappedChunk, PropertyIs;
    UnwrappedMeans(Framed(v));
    FramedProperty(v);
    PropertyUnique(Framed(v), Chars("result"), UnwrappedChunk(Framed(v)).chunk, Some(v));
  }

  lemma FramedProperty(v: Value)
    ensures PropertyIs(Framed(v), Chars("result"), Some(v))
  {
    assert LastNamed(Framed(v).members, Chars("result"), 0);
  }

  lemma {:induction false} FramedResults(vs: seq<Value>)
    ensures Emitted(UnwrappedChunk, FramedEach(vs)) == Stream(Somes(vs), false)
  {
    hide UnwrappedChunk, Framed;
    if vs != [] {
      FramedResults(vs[1..]);
      FramedResult(vs[0]);
      assert FramedEach(vs)[1..] == FramedEach(vs[1..]);
      assert Somes(vs) == [Some(vs[0])] + Somes(vs[1..]);
    }
  }

  lemma {:induction false} JournalIsLined(lines: seq<seq<Scalar>>)
    ensures Journal(lines) == Encode(Lined(lines))
  {
    if lines != [] {
      JournalIsLined(lines[1..]);
      assert Records(lines)[1..] == Records(lines[1..]);
      EncodeConcat(lines[0] + [NEWLINE], Lined(lines[1..]));
      RecordIsText(lines[0]);
    }
  }

  lemma {:induction false} PrintedDocuments(vs: seq<Value>)
    requires forall i :: 0 <= i < |vs| ==> WellFormed(vs[i])
    ensures FrameDocuments(PrintedJournal(vs)) == vs && OneLineEach(PrintedJournal(vs))
  {
    hide PrintScalars, WellFormed, Parse, Utf16;
    if vs != [] {
      PrintScalarsText(vs[0]);
      PrintedDocuments(vs[1..]);
      assert PrintedJournal(vs) == [PrintScalars(vs[0])] + PrintedJournal(vs[1..]);
      assert vs == [vs[0]] + vs[1..];
    }
  }

  lemma PrintedNoMark(vs: seq<Value>)
    requires forall i :: 0 <= i < |vs| ==> WellFormed(vs[i]) && vs[i].Obj?
    ensures StripBom(Lined(PrintedJournal(vs))) == Lined(PrintedJournal(vs))
  {
    hide PrintScalars, WellFormed, Parse;
    if vs != [] { PrintedIsRecord(vs[0]); }
  }

  /** A body of frames {"result": v}, one a line and in any chunks, is read as those values. */
  lemma {:induction false} PrintedResults(vs: seq<Value>, body: Stream<seq<Byte>>)
    requires forall i :: 0 <= i < |vs| ==> WellFormed(Framed(vs[i]))
    requires Flatten(body.chunks) == Journal(PrintedJournal(FramedEach(vs)))
    ensures ReadResults(body) == Stream(Somes(vs), body.failed)
  {
    hide Journal, PrintedJournal, FramedEach, Lined, Documents, Utf16, Encode, Emitted, Flatten, WellFormed;
    hide StripBom, OneLineEach;
    FramedAll(vs);
    var lines := PrintedJournal(FramedEach(vs));
    JournalIsLined(lines);
    PrintedDocuments(FramedEach(vs));
    PrintedNoMark(FramedEach(vs));
    LinedDocuments(lines, []);
    assert Lined(lines) + [] == Lined(lines);
    DecodeEncode(Lined(lines));
    FramedResults(vs);
  }

  lemma FramedAll(vs: seq<Value>)
    ensures |FramedEach(vs)| == |vs| && forall i :: 0 <= i < |vs| ==> FramedEach(vs)[i] == Framed(vs[i])
    ensures forall i :: 0 <= i < |vs| ==> FramedEach(vs)[i].Obj?
  {
  }

  /** From the bytes on the wire to documents, for a body as the gateway writes it: frames whose
      results have the chunks of a journal window, in base64, as their content. */
  lemma ReadWindow(lines: seq<seq<Scalar>>, a: nat, b: nat, chunks: seq<seq<Byte>>,
                   vs: seq<Value>, body: Stream<seq<Byte>>)
    requires AllRecords(lines) && CarryAll(Somes(vs), chunks)
    requires a <= b <= |Journal(lines)| && Journal(lines)[a..b] == Flatten(chunks)
    requires forall i :: 0 <= i < |vs| ==> WellFormed(Framed(vs[i]))
    requires Flatten(body.chunks) == Journal(PrintedJournal(FramedEach(vs)))
    ensures var docs := JournalDocuments(ReadResults(body));
            && docs == Stream(DocumentsRead(lines, 0, a, b, Cuts(chunks, a)), body.failed)
            && AllReadAs(DocumentsInside(lines, 0, a, b), docs.chunks, CleanWindow(lines, a, b, chunks))
  {
    hide Journal, PrintedJournal, FramedEach, Flatten, JournalDocuments, ReadResults, WellFormed, CarryAll, Somes;
    hide DocumentsRead, DocumentsInside, CleanFrom, Cuts, AllReadAs;
    PrintedResults(vs, body);
    CarriedWindow(lines, a, b, chunks, ReadResults(body));
  }
}
