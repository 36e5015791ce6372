/** The two pipelines of the journal client, as compositions of the stream stages. */
module JournalClient {
  import opened Units
  import opened Json
  import opened SplitStream
  import opened Streams
  import Utf8

  const LINE_END: Text := [NEWLINE]

  /** The values of the lines of a text that parse, in order. */
  function Documents(text: Text): seq<Value> {
    Emitted(ParsedChunk, Lines(text, LINE_END)).chunks
  }

  // ----- parseJournalDocuments

  function JournalDocuments(responses: Stream<Option<Value>>): Stream<Value> {
    var decoded := Through(ContentChunk, responses);
    Stream(Documents(Flatten(decoded.chunks)), decoded.failed)
  }

  method ParseJournalDocuments(responses: Stream<Option<Value>>) returns (docs: Stream<Value>)
    ensures docs == JournalDocuments(responses)
  {
    var decoded := RunDecodeContent(responses.chunks);
    var failed := decoded.failed || responses.failed;
    var lines := RunSplitter(decoded.chunks, failed, LINE_END);
    var parsed := RunParseJson(lines);
    docs := Stream(parsed, failed);
  }

  // ----- the pipeline inside JournalClient.read

  function ReadResults(body: Stream<seq<Byte>>): Stream<Option<Value>> {
    Through(UnwrappedChunk, Stream(Documents(Utf16(Utf8.Decode(Flatten(body.chunks)))), body.failed))
  }

  /** The results do not depend on how the HTTP body is cut into chunks. If the body fails, those of
      the lines it completed are delivered first. */
  method Read(body: Stream<seq<Byte>>) returns (results: Stream<Option<Value>>)
    ensures results == ReadResults(body)
  {
    var texts := RunTextDecoder(body);
    var lines := RunSplitter(texts, body.failed, LINE_END);
    var parsed := RunParseJson(lines);
    var unwrapped := RunUnwrapResult(parsed);
    UnflushedDocuments(Flatten(body.chunks));
    results := Stream(unwrapped.chunks, unwrapped.failed || body.failed);
  }

  /** The bytes that an unfinished scalar leaves in the decoder complete no line. */
  lemma UnflushedDocuments(bytes: seq<Byte>)
    ensures Documents(Utf16(DecodedSoFar(bytes))) == Documents(Utf16(Utf8.Decode(bytes)))
  {
    hide Documents, DecodedSoFar, Utf8.Decode, Utf8.Feed;
    var rest := Utf8.Finish(Utf8.Feed(Utf8.START, bytes).0);
    DecodedEnd(bytes);
    Utf16Concat(DecodedSoFar(bytes), rest);
    Utf16Bmp(rest);
    UnfinishedLine(Utf16(DecodedSoFar(bytes)), Utf16(rest));
  }

  lemma NoLineEnd(text: Text)
    requires !Contains(text, LINE_END)
    ensures NEWLINE !in text
  {
    forall i | 0 <= i < |text| ensures text[i] != NEWLINE { assert !Matches(text, i, LINE_END); }
  }

  lemma UnfinishedLine(text: Text, more: Text)
    requires NEWLINE !in more
    ensures Documents(text + more) == Documents(text)
  {
    hide IndexOf, Contains;
    SplitAppend(text, more, LINE_END);
    Conservation(text, LINE_END);
    NoLineEnd(Rest(text, LINE_END));
    var end := Rest(text, LINE_END) + more;
    NoNewline(end, 0);
    SplitUnfold(end, LINE_END);
    assert Lines(text, LINE_END) + [] == Lines(text, LINE_END);
  }

  // ----- Documents, line by line

  /** The document on one line, if it is one. */
  function DocumentOf(line: Text): seq<Value> {
    match Parse(line)
    case Some(v) => [v]
    case None => []
  }

  lemma {:induction false} FirstNewline(x: Text, y: Text, p: nat)
    requires NEWLINE !in x && p <= |x|
    ensures IndexOf(x + LINE_END + y, LINE_END, p) == |x|
    decreases |x| - p
  {
    var s := x + LINE_END + y;
    if p == |x| {
      assert s[p + 0] == LINE_END[0];
    } else {
      assert s[p + 0] == x[p] != LINE_END[0];
      FirstNewline(x, y, p + 1);
    }
  }

  lemma {:induction false} NoNewline(x: Text, p: nat)
    requires NEWLINE !in x && p <= |x|
    ensures IndexOf(x, LINE_END, p) == -1
    decreases |x| - p
  {
    if p < |x| {
      assert x[p + 0] != LINE_END[0];
      NoNewline(x, p + 1);
    }
  }

  lemma DocumentsCons(x: Text, y: Text)
    requires NEWLINE !in x
    ensures Documents(x + LINE_END + y) == DocumentOf(x) + Documents(y)
  {
    var s := x + LINE_END + y;
    FirstNewline(x, y, 0);
    SplitUnfold(s, LINE_END);
    assert s[..|x|] == x && s[|x| + |LINE_END|..] == y;
    EmittedConcat(ParsedChunk, [x], Lines(y, LINE_END));
    assert [x][1..] == [];
    NeverThrows(Lines(y, LINE_END));
    assert DocumentOf(x) + [] == DocumentOf(x);
  }

  lemma {:induction false} NeverThrows(lines: seq<Text>)
    ensures !Emitted(ParsedChunk, lines).failed
  {
    if lines != [] { NeverThrows(lines[1..]); }
  }

  /** An unterminated line is dropped. */
  lemma DocumentsTail(x: Text)
    requires NEWLINE !in x
    ensures Documents(x) == []
  {
    NoNewline(x, 0);
    SplitUnfold(x, LINE_END);
  }
}
