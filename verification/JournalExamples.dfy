/** Inputs on which the pipelines do not do what one would hope for, and what they do instead. */
module JournalExamples {
  import opened Units
  import opened Utf8
  import opened ChunkedDecode
  import opened DecodeDamage
  import opened Json
  import opened Blur
  import opened JsonDamage
  import opened JsonMerge
  import opened JsonGrammar
  import opened JsonPrint
  import opened SplitStream
  import opened Streams
  import opened JournalClient
  import opened JournalWindow
  import opened JournalReads
  import Base64

  /** The text {"k":" */
  const HEAD: seq<Scalar> := [0x7B, 0x22, 0x6B, 0x22, 0x3A, 0x22]

  const TAIL: seq<Scalar> := [0x22, 0x7D]

  /** {"k": chars} */
  function Keyed(chars: Text): Value {
    Obj([Member([0x6B], Str(chars))])
  }

  lemma {:induction false} RawChars(chars: Text)
    requires forall i :: 0 <= i < |chars| ==> PieceOfUnit(chars[i]) == Raw(chars[i])
    ensures CharsText(Pieces(chars)) == chars + [QUOTE]
  {
    hide PieceOfUnit;
    if chars != [] {
      var rest := chars[1..];
      RawChars(rest);
      assert Pieces(chars)[1..] == Pieces(rest);
      assert chars == [chars[0]] + rest;
    }
  }

  /** The print of a member "k" with string value, up to its closing quote. */
  lemma KeyedEntry(chars: Text)
    requires forall i :: 0 <= i < |chars| ==> PieceOfUnit(chars[i]) == Raw(chars[i])
    ensures EntryText(Entry(Pieces([0x6B]), [], [], Quoted(Pieces(chars)), [], []))
         == [0x22, 0x6B, 0x22, 0x3A, 0x22] + chars + [0x22]
  {
    hide *;
    KeyChars();
    RawChars(chars);
    QuotedEntry(Pieces([0x6B]), Pieces(chars));
    EntryShape(chars);
  }

  lemma EntryShape(chars: Text)
    ensures [QUOTE] + ([0x6B, 0x22] + ([COLON] + ([QUOTE] + (chars + [QUOTE]))))
         == [0x22, 0x6B, 0x22, 0x3A, 0x22] + chars + [0x22]
  {
  }

  lemma KeyChars()
    ensures CharsText(Pieces([0x6B])) == [0x6B, 0x22]
  {
    RawChars([0x6B]);
  }

  lemma QuotedEntry(key: seq<Piece>, ps: seq<Piece>)
    ensures EntryText(Entry(key, [], [], Quoted(ps), [], []))
         == [QUOTE] + (CharsText(key) + ([COLON] + ([QUOTE] + CharsText(ps))))
  {
    hide CharsText;
    assert [] + TextOf(Quoted(ps)) == [QUOTE] + CharsText(ps);
  }

  lemma KeyedPrint(chars: Text)
    requires forall i :: 0 <= i < |chars| ==> PieceOfUnit(chars[i]) == Raw(chars[i])
    ensures WellFormed(Keyed(chars)) && Print(Keyed(chars)) == HEAD + chars + TAIL
  {
    hide EntryText;
    KeyedEntry(chars);
    var member := Member([0x6B], Str(chars));
    var entry := Entry(Pieces([0x6B]), [], [], TreeOf(member.value), [], []);
    assert [member][1..] == [];
    assert EntryTrees([member]) == [entry] + EntryTrees([member][1..]) == [entry];
    assert EntriesText([entry]) == EntryText(entry) + ([] + [CLOSE_BRACE]);
  }

  lemma {:induction false} AsciiIsItsEncoding(cs: seq<Scalar>)
    requires forall i :: 0 <= i < |cs| ==> cs[i] < 0x80
    ensures Encode(cs) == cs
  {
    if cs != [] {
      AsciiIsItsEncoding(cs[1..]);
      assert cs == [cs[0]] + cs[1..];
    }
  }

  lemma AccentBytes()
    ensures Encode([0xE9]) == [0xC3, 0xA9]
  {
    assert [0xE9][1..] == [];
    assert Encode1(0xE9) == [0xC3, 0xA9];
  }

  /** A record {"k":"\u00E9...} that is cut between the two bytes of U+00E9. */
  lemma CutInside(v: Value, rest: seq<Scalar>) returns (responses: Stream<Option<Value>>)
    requires WellFormed(v) && v.Obj? && PrintScalars(v) == HEAD + [0xE9] + rest
    ensures Contents(responses) == Stream([HEAD + [0xC3], [0xA9] + Encode(rest) + [NEWLINE]], false)
    ensures Flatten(Contents(responses).chunks) == Journal(PrintedJournal([v]))
    ensures JournalDocuments(responses).chunks != [v]
  {
    hide JournalDocuments, WellFormed, Encode, Base64.Encode, Base64.Atob, PrintScalars, AllReadAs, ContentBytes;
    var lines := PrintedJournal([v]);
    var x, y := HEAD + [0xC3], [0xA9] + Encode(rest) + [NEWLINE];
    responses := Stream([Response(Base64.Encode(x)), Response(Base64.Encode(y))], false);
    OnlyContent(Base64.Encode(x));
    OnlyContent(Base64.Encode(y));
    ResponseCarries(responses.chunks[0].value, x);
    ResponseCarries(responses.chunks[1].value, y);
    TwoResponses(responses.chunks[0], responses.chunks[1], x, y);
    CutRecord(v, rest, x, y);
    var chunks: seq<seq<Byte>> := [x, y];
    assert !CleanRecord(lines, 0, 0, chunks) by {
      assert Offset(chunks, 1) == Offset(chunks, 0) + |chunks[0]| == 7;
      assert Start(lines, 0) < 0 + Offset(chunks, 1) < End(lines, 0) && DirtyChunk(chunks[1]);
    }
    WholeJournal([v], responses);
    assert !CleanWindow(lines, 0, |Journal(lines)|, [x, y]);
    NotReadAs([v], JournalDocuments(responses).chunks);
  }

  lemma NotReadAs(vs: seq<Value>, ws: seq<Value>)
    requires AllReadAs(vs, ws, false)
    ensures ws != vs
  {
  }

  lemma TwoResponses(p: Option<Value>, q: Option<Value>, x: seq<Byte>, y: seq<Byte>)
    requires ContentBytes(p) == Emit(x) && ContentBytes(q) == Emit(y)
    ensures Contents(Stream([p, q], false)) == Stream([x, y], false)
  {
    hide ContentBytes;
    var all: seq<Option<Value>> := [p, q];
    assert all[1..] == [q] && all[1..][1..] == [];
    assert Emitted(ContentBytes, [q]) == Stream([y], false) by { assert [q][1..] == []; }
  }

  lemma CutRecord(v: Value, rest: seq<Scalar>, x: seq<Byte>, y: seq<Byte>)
    requires WellFormed(v) && PrintScalars(v) == HEAD + [0xE9] + rest
    requires x == HEAD + [0xC3] && y == [0xA9] + Encode(rest) + [NEWLINE]
    ensures var lines := PrintedJournal([v]);
            && Flatten([x, y]) == Journal(lines) == RecordBytes(PrintScalars(v))
            && Start(lines, 0) == 0 && End(lines, 0) == |Journal(lines)| == |x| + |y|
  {
    hide Encode, PrintScalars, WellFormed;
    var record := RecordBytes(PrintScalars(v));
    AsciiIsItsEncoding(HEAD);
    EncodeConcat(HEAD + [0xE9], rest);
    EncodeConcat(HEAD, [0xE9]);
    AccentBytes();
    assert record == x + y;
    var pair: seq<seq<Byte>> := [x, y];
    assert pair[1..] == [y] && pair[1..][1..] == [];
    assert Flatten(pair[1..]) == y + Flatten(pair[1..][1..]) == y;
    assert Flatten(pair) == x + y;
    var records: seq<seq<Byte>> := Records(PrintedJournal([v]));
    assert records == [record] && records[1..] == [];
    assert Flatten(records) == record + [];
    assert Offset(records, 1) == |record|;
  }

  // ----- A cut inside a scalar alters a document

  lemma DecodeFront()
    ensures Decode(HEAD + [0xC3]) == HEAD + [REPLACEMENT]
  {
    hide Feed;
    AsciiIsItsEncoding(HEAD);
    FeedEncode(HEAD);
    FeedSnoc(START, HEAD, 0xC3);
    assert Feed(START, HEAD + [0xC3]).1 == HEAD;
  }

  lemma DecodeBack()
    ensures Decode([0xA9] + TAIL + [NEWLINE]) == [REPLACEMENT] + TAIL + [NEWLINE]
  {
    hide Feed;
    var rest: seq<Scalar> := TAIL + [NEWLINE];
    AsciiIsItsEncoding(rest);
    FeedEncode(rest);
    FeedOne(START, 0xA9);
    FeedConcat(START, [0xA9], rest);
    assert [0xA9] + TAIL + [NEWLINE] == [0xA9] + rest;
    assert Feed(START, [0xA9] + rest) == (START, [REPLACEMENT] + rest);
    assert [REPLACEMENT] + rest + [] == [REPLACEMENT] + TAIL + [NEWLINE];
  }

  /** The journal {"k":"\u00E9"}, read whole but with a chunk that ends inside its scalar of two
      bytes: two replacement characters come out in place of that scalar. */
  lemma SplitScalarAltersDocument() returns (responses: Stream<Option<Value>>)
    ensures WellFormed(Keyed([0xE9]))
    ensures Flatten(Contents(responses).chunks) == Journal(PrintedJournal([Keyed([0xE9])]))
    ensures JournalDocuments(responses) == Stream([Keyed([0xFFFD, 0xFFFD])], false)
  {
    hide JournalDocuments, WellFormed, Encode, Decode, Print, Contents, DocumentsOf, Parse;
    KeyedPrint([0xE9]);
    responses := CutInside(Keyed([0xE9]), TAIL);
    AsciiIsItsEncoding(TAIL);
    var chunks := Contents(responses).chunks;
    ResponsesText(responses);
    DecodeFront();
    DecodeBack();
    TwoDecoded(chunks);
    KeyedPrint([REPLACEMENT, REPLACEMENT]);
    var garbled := PrintScalars(Keyed([REPLACEMENT, REPLACEMENT]));
    assert PerChunk(chunks, 2) == garbled + [NEWLINE] + [];
    PrintScalarsText(Keyed([REPLACEMENT, REPLACEMENT]));
    DocumentsOfCons(garbled, []);
    DocumentsOfTail([]);
  }

  lemma TwoDecoded(chunks: seq<seq<Byte>>)
    requires |chunks| == 2
    ensures PerChunk(chunks, 2) == Decode(chunks[0]) + Decode(chunks[1])
  {
    hide Decode;
    assert PerChunk(chunks, 1) == PerChunk(chunks, 0) + Decode(chunks[0]) == [] + Decode(chunks[0]);
  }

  // ----- Damage to a member that a later one overrides

  /** {"k":"\u00E9","k":true} */
  const TWICE: Value := Obj([Member([0x6B], Str([0xE9])), Member([0x6B], Bool(true))])

  lemma TwicePrint()
    ensures WellFormed(TWICE)
    ensures |Print(TWICE)| >= 7 && Print(TWICE)[..7] == HEAD + [0xE9]
  {
    hide EntryText;
    KeyedEntry([0xE9]);
    var members: seq<Member> := [Member([0x6B], Str([0xE9])), Member([0x6B], Bool(true))];
    var entry := Entry(Pieces([0x6B]), [], [], TreeOf(Str([0xE9])), [], []);
    var entries := EntryTrees(members);
    assert entries[0] == entry && |entries| == 2 by { assert |EntryTrees(members[1..])| == 1; }
    var more := [] + ([COMMA] + ([] + EntriesText(entries[1..])));
    assert EntriesText(entries) == EntryText(entry) + more;
    assert Print(TWICE) == [OPEN_BRACE] + ([] + (EntryText(entry) + more));
  }

  /** Which keys a document repeats matters to JavaScript: damage to a member that a later member of
      the same name overrides does not show in the object that `JSON.parse` returns. */
  lemma RepeatedKeyHidesDamage() returns (responses: Stream<Option<Value>>)
    ensures WellFormed(TWICE) && !NoRepeats(TWICE)
    ensures Flatten(Contents(responses).chunks) == Journal(PrintedJournal([TWICE]))
    ensures var docs := JournalDocuments(responses).chunks;
            docs != [TWICE] && |docs| == 1 && Alike(TWICE, docs[0])
  {
    hide JournalDocuments, WellFormed, Encode, Print, Contents, Blurred;
    TwicePrint();
    var rest := PrintScalars(TWICE)[7..];
    assert PrintScalars(TWICE) == HEAD + [0xE9] + rest;
    responses := CutInside(TWICE, rest);
    WholeJournal([TWICE], responses);
    var doc := JournalDocuments(responses).chunks[0];
    assert BlurredValue([TWICE][0], doc);
    BlurredTwice(doc);
  }

  lemma BlurredTwice(doc: Value)
    requires BlurredValue(TWICE, doc)
    ensures Alike(TWICE, doc) && !NoRepeats(TWICE)
  {
    hide Blurred;
    var members := TWICE.members;
    assert BlurredMember(members[0], doc.members[0]) && BlurredMember(members[1], doc.members[1]);
    BlurredAscii([0x6B], doc.members[0].key);
    BlurredAscii([0x6B], doc.members[1].key);
    assert BlurredValue(Bool(true), doc.members[1].value);
    forall key: Text ensures AlikeAt(members, doc.members, key) {
      assert LastIndex(members, key) == LastIndex(doc.members, key) == if key == [0x6B] then 1 else -1;
    }
    assert Alike(Obj(members), Obj(doc.members));
  }

  // ----- A falsy document

  /** The collector is documented to read a stream fully, but it does not: this journal holds the
      lines `null` and `{}`, and the first of them already ends the collection. */
  lemma NullStopsCollector(zero: Text -> bool) returns (responses: Stream<Option<Value>>)
    ensures Contents(responses) == Stream([[0x6E, 0x75, 0x6C, 0x6C, 0x0A, 0x7B, 0x7D, 0x0A]], false)
    ensures JournalDocuments(responses) == Stream([Null, Obj([])], false)
    ensures Collected(JournalDocuments(responses), v => Truthy(zero, v)) == Some([])
  {
    hide JournalDocuments, Contents, Base64.Encode;
    var bytes := [0x6E, 0x75, 0x6C, 0x6C, 0x0A, 0x7B, 0x7D, 0x0A];
    responses := Stream([Response(Base64.Encode(bytes))], false);
    OnlyContent(Base64.Encode(bytes));
    ResponseCarries(responses.chunks[0].value, bytes);
    OneResponse(responses.chunks[0], bytes);
    NullDocuments(bytes);
  }

  lemma NullDocuments(bytes: seq<Byte>)
    requires bytes == [0x6E, 0x75, 0x6C, 0x6C, 0x0A, 0x7B, 0x7D, 0x0A]
    ensures JournalDocuments(Stream([Response(Base64.Encode(bytes))], false)) == Stream([Null, Obj([])], false)
  {
    hide JournalDocuments, Encode, Decode, Contents, Documents, DocumentsOf, Parse, Print, Base64.Encode;
    var responses := Stream([Response(Base64.Encode(bytes))], false);
    OnlyContent(Base64.Encode(bytes));
    ResponseCarries(responses.chunks[0].value, bytes);
    OneResponse(responses.chunks[0], bytes);
    ResponsesText(responses);
    AsciiIsItsEncoding(bytes);
    DecodeEncode(bytes);
    OneDecoded(bytes);
    NullLines(bytes);
  }

  lemma OneResponse(p: Option<Value>, x: seq<Byte>)
    requires ContentBytes(p) == Emit(x)
    ensures Contents(Stream([p], false)) == Stream([x], false)
  {
    hide ContentBytes;
    var all: seq<Option<Value>> := [p];
    assert all[1..] == [] && Emitted(ContentBytes, all[1..]) == Stream([], false);
  }

  lemma OneDecoded(bytes: seq<Byte>)
    ensures PerChunk([bytes], 1) == Decode(bytes)
  {
    hide Decode;
    assert PerChunk([bytes], 1) == PerChunk([bytes], 0) + Decode(bytes) == [] + Decode(bytes);
  }

  lemma NullLines(text: seq<Scalar>)
    requires text == [0x6E, 0x75, 0x6C, 0x6C, 0x0A, 0x7B, 0x7D, 0x0A]
    ensures DocumentsOf(text) == [Null, Obj([])]
  {
    hide Documents, Parse;
    var vs: seq<Value> := [Null, Obj([])];
    PrintedLines(vs);
    var prints := seq(2, i requires 0 <= i < 2 => Print(vs[i]));
    assert Print(Null) == NULL_WORD;
    assert EntryTrees([]) == [] && Print(Obj([])) == [OPEN_BRACE] + ([] + [CLOSE_BRACE]) == [0x7B, 0x7D];
    var last: seq<Text> := prints[1..];
    assert last == [prints[1]] && |last[1..]| == 0;
    assert Terminated(last, LINE_END) == last[0] + LINE_END + Terminated(last[1..], LINE_END);
    assert Terminated(prints, LINE_END) == NULL_WORD + LINE_END + ([0x7B, 0x7D] + LINE_END + []) == text;
    assert prints == seq(|vs|, i requires 0 <= i < |vs| => Print(vs[i]));
    Utf16Bmp(text);
  }
}
