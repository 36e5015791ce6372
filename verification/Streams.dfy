/** The other transform streams of the read pipelines and the collector at their end. */
module Streams {
  import opened Units
  import opened Json
  import opened SplitStream
  import Base64
  import Utf8

  /** What a transform does with one chunk; `Throw` is an exception that leaves it. */
  datatype Emission<+T> = Nothing | Emit(chunk: T) | Throw

  /** What a whole stream delivers: its chunks in order, and whether it then failed. */
  datatype Stream<+T> = Stream(chunks: seq<T>, failed: bool)

  /** A stateless transform applied to every chunk up to the first exception. */
  function Emitted<S, T>(f: S -> Emission<T>, chunks: seq<S>): Stream<T> {
    if chunks == [] then Stream([], false)
    else
      match f(chunks[0])
      case Throw => Stream([], true)
      case Nothing => Emitted(f, chunks[1..])
      case Emit(x) =>
        var rest := Emitted(f, chunks[1..]);
        Stream([x] + rest.chunks, rest.failed)
  }

  /** A stage behind a stream that may itself fail once its chunks are through. */
  function Through<S, T>(f: S -> Emission<T>, input: Stream<S>): Stream<T> {
    var out := Emitted(f, input.chunks);
    Stream(out.chunks, out.failed || input.failed)
  }

  lemma {:induction false} EmittedConcat<S, T>(f: S -> Emission<T>, a: seq<S>, b: seq<S>)
    ensures var x, y := Emitted(f, a), Emitted(f, b);
            Emitted(f, a + b) == if x.failed then x else Stream(x.chunks + y.chunks, y.failed)
  {
    if a == [] {
      assert a + b == b;
      assert [] + Emitted(f, b).chunks == Emitted(f, b).chunks;
    } else {
      assert (a + b)[1..] == a[1..] + b;
      EmittedConcat(f, a[1..], b);
      if f(a[0]).Emit? {
        Assoc([f(a[0]).chunk], Emitted(f, a[1..]).chunks, Emitted(f, b).chunks);
      }
    }
  }

  lemma EmittedSnoc<S, T>(f: S -> Emission<T>, a: seq<S>, x: S)
    requires !Emitted(f, a).failed
    ensures Emitted(f, a + [x]) ==
            match f(x)
            case Throw => Stream(Emitted(f, a).chunks, true)
            case Nothing => Emitted(f, a)
            case Emit(y) => Stream(Emitted(f, a).chunks + [y], false)
  {
    EmittedConcat(f, a, [x]);
    assert [x][1..] == [];
    var done := Emitted(f, a).chunks;
    assert done + [] == done;
    if f(x).Emit? { assert [f(x).chunk] + [] == [f(x).chunk]; }
  }

  /** A stage fails exactly when one of its chunks throws, and then delivers what came before it. */
  lemma {:induction false} EmittedFails<S, T>(f: S -> Emission<T>, chunks: seq<S>)
    ensures Emitted(f, chunks).failed <==> exists i :: 0 <= i < |chunks| && f(chunks[i]).Throw?
    ensures Emitted(f, chunks).failed ==>
              exists i :: 0 <= i < |chunks| && f(chunks[i]).Throw? && !Emitted(f, chunks[..i]).failed
                          && Emitted(f, chunks).chunks == Emitted(f, chunks[..i]).chunks
  {
    if chunks != [] {
      var rest := chunks[1..];
      EmittedFails(f, rest);
      if f(chunks[0]).Throw? {
        assert Emitted(f, chunks[..0]) == Stream([], false);
      } else if Emitted(f, rest).failed {
        var i :| 0 <= i < |rest| && f(rest[i]).Throw? && !Emitted(f, rest[..i]).failed
                 && Emitted(f, rest).chunks == Emitted(f, rest[..i]).chunks;
        assert chunks[..i + 1][1..] == rest[..i] && chunks[..i + 1][0] == chunks[0];
        assert f(chunks[i + 1]).Throw?;
      }
    }
  }

  // ----- parseJSONStream

  /** A chunk that does not parse is skipped. */
  function ParsedChunk(chunk: Text): Emission<Value> {
    match Parse(chunk)
    case Some(v) => Emit(v)
    case None => Nothing
  }

  method ParseJsonTransform(chunk: Text, controller: Controller<Value>)
    modifies controller
    ensures controller.queue == old(controller.queue)
                                + (match Parse(chunk) case Some(v) => [v] case None => [])
  {
    var parsed := Parse(chunk);
    if parsed.Some? {
      controller.Enqueue(parsed.value);
    }
  }

  method RunParseJson(chunks: seq<Text>) returns (out: seq<Value>)
    ensures Emitted(ParsedChunk, chunks) == Stream(out, false)
  {
    var controller := new Controller<Value>();
    for i := 0 to |chunks|
      invariant Emitted(ParsedChunk, chunks[..i]) == Stream(controller.queue, false)
    {
      EmittedSnoc(ParsedChunk, chunks[..i], chunks[i]);
      assert chunks[..i + 1] == chunks[..i] + [chunks[i]];
      ParseJsonTransform(chunks[i], controller);
    }
    assert chunks[..|chunks|] == chunks;
    out := controller.queue;
  }

  // ----- unwrapResult

  /** "result" */
  const RESULT_KEY: Text := [0x72, 0x65, 0x73, 0x75, 0x6C, 0x74]

  /** `chunk.result`: `None` is `undefined`, and reading a property of `null` throws. */
  function UnwrappedChunk(chunk: Value): Emission<Option<Value>> {
    match chunk
    case Null => Throw
    case Obj(members) => Emit(Lookup(members, RESULT_KEY))
    case _ => Emit(None)
  }

  lemma ResultKey()
    ensures RESULT_KEY == Chars("result")
  {
  }

  /** What the stage makes of a chunk, in terms of its members: `null` throws, and of anything else
      the property named "result" is read. */
  lemma UnwrappedMeans(chunk: Value)
    ensures UnwrappedChunk(chunk).Throw? <==> chunk == Null
    ensures chunk != Null ==>
              UnwrappedChunk(chunk).Emit? && PropertyIs(chunk, Chars("result"), UnwrappedChunk(chunk).chunk)
  {
    ResultKey();
    if chunk.Obj? { LookupMeans(chunk.members, RESULT_KEY); }
  }

  method UnwrapResultTransform(chunk: Value, controller: Controller<Option<Value>>) returns (thrown: bool)
    modifies controller
    ensures thrown <==> chunk == Null
    ensures thrown ==> controller.queue == old(controller.queue)
    ensures !thrown ==>
              var n := |old(controller.queue)|;
              && |controller.queue| == n + 1 && controller.queue[..n] == old(controller.queue)
              && PropertyIs(chunk, Chars("result"), controller.queue[n])
  {
    if chunk.Null? {
      return true;
    }
    ResultKey();
    if chunk.Obj? { LookupMeans(chunk.members, RESULT_KEY); }
    controller.Enqueue(if chunk.Obj? then Lookup(chunk.members, RESULT_KEY) else None);
    return false;
  }

  method RunUnwrapResult(chunks: seq<Value>) returns (out: Stream<Option<Value>>)
    ensures out == Emitted(UnwrappedChunk, chunks)
  {
    hide UnwrappedChunk, PropertyIs;
    var controller := new Controller<Option<Value>>();
    for i := 0 to |chunks|
      invariant Emitted(UnwrappedChunk, chunks[..i]) == Stream(controller.queue, false)
    {
      EmittedSnoc(UnwrappedChunk, chunks[..i], chunks[i]);
      assert chunks[..i + 1] == chunks[..i] + [chunks[i]];
      UnwrappedMeans(chunks[i]);
      ghost var before := controller.queue;
      var thrown := UnwrapResultTransform(chunks[i], controller);
      if thrown {
        EmittedConcat(UnwrappedChunk, chunks[..i + 1], chunks[i + 1..]);
        assert chunks == chunks[..i + 1] + chunks[i + 1..];
        return Stream(controller.queue, true);
      }
      PropertyUnique(chunks[i], Chars("result"), UnwrappedChunk(chunks[i]).chunk, controller.queue[|before|]);
      assert controller.queue == before + [controller.queue[|before|]];
    }
    assert chunks[..|chunks|] == chunks;
    return Stream(controller.queue, false);
  }

  // ----- decodeContent

  /** "content" */
  const CONTENT_KEY: Text := [0x63, 0x6F, 0x6E, 0x74, 0x65, 0x6E, 0x74]

  /** `value.content` for a value that is neither `undefined` nor `null`. */
  function ContentOf(v: Value): Option<Value> {
    match v
    case Obj(members) => Lookup(members, CONTENT_KEY)
    case _ => None
  }

  function BinaryBytes(binary: Option<Text>): Emission<seq<Byte>>
    requires binary.Some? ==> forall i :: 0 <= i < |binary.value| ==> binary.value[i] < 0x100
  {
    match binary
    case None => Throw
    case Some(units) => Emit(ByteValues(units))
  }

  /** The bytes that a read response carries; it need not have any content. A property of
      `undefined` or `null` throws, and so does content that is not base64. */
  function ContentBytes(value: Option<Value>): Emission<seq<Byte>> {
    if value.None? || value.value.Null? then Throw
    else
      match ContentOf(value.value)
      case Some(Str(content)) => if content == [] then Nothing else BinaryBytes(Base64.Atob(content))
      case _ => Nothing
  }

  function ContentChunk(value: Option<Value>): Emission<Text> {
    match ContentBytes(value)
    case Nothing => Nothing
    case Throw => Throw
    case Emit(bytes) => Emit(Utf16(Utf8.Decode(bytes)))
  }

  /** The byte chunks that a stream of read responses carries, up to the first that throws. */
  function Contents(responses: Stream<Option<Value>>): Stream<seq<Byte>> {
    Through(ContentBytes, responses)
  }

  lemma ContentKey()
    ensures CONTENT_KEY == Chars("content")
  {
  }

  /** What a response carries, in terms of its members: of anything but `undefined` and `null`, which
      throw, the property named "content" is read and, if it is a string that is not empty, decoded. */
  ghost predicate CarriesContent(value: Option<Value>, carried: Emission<seq<Byte>>) {
    if value.None? || value == Some(Null) then carried.Throw?
    else exists content ::
      PropertyIs(value.value, Chars("content"), content) && carried == StringBytes(content)
  }

  function StringBytes(content: Option<Value>): Emission<seq<Byte>> {
    if content.Some? && content.value.Str? && content.value.chars != []
    then BinaryBytes(Base64.Atob(content.value.chars)) else Nothing
  }

  lemma ContentMeans(value: Option<Value>)
    ensures CarriesContent(value, ContentBytes(value))
  {
    hide Base64.Atob;
    ContentKey();
    if value.Some? && !value.value.Null? {
      if value.value.Obj? { LookupMeans(value.value.members, CONTENT_KEY); }
      assert PropertyIs(value.value, Chars("content"), ContentOf(value.value));
      assert ContentBytes(value) == StringBytes(ContentOf(value.value));
    }
  }

  /** A read response with content and nothing else. */
  function Response(content: Text): Option<Value> {
    Some(Obj([Member(CONTENT_KEY, Str(content))]))
  }

  /** The bytes behind a string whose code units are all at most 0xFF. */
  function ByteValues(binary: Text): seq<Byte>
    requires forall i :: 0 <= i < |binary| ==> binary[i] < 0x100
  {
    binary
  }

  /** Copies code units into a `Uint8Array`, which keeps each modulo 256; no unit that `atob`
      returns loses anything. */
  method CopyUnits(binary: Text) returns (bytes: array<Byte>)
    requires forall i :: 0 <= i < |binary| ==> binary[i] < 0x100
    ensures fresh(bytes) && bytes[..] == binary
  {
    bytes := new Byte[|binary|];
    for i := 0 to bytes.Length
      invariant bytes[..i] == binary[..i]
    {
      bytes[i] := binary[i] % 0x100;
      assert bytes[..i + 1] == bytes[..i] + [bytes[i]];
    }
    assert bytes[..] == bytes[..bytes.Length];
  }

  method DecodeContentTransform(value: Option<Value>, controller: Controller<Text>) returns (thrown: bool)
    modifies controller
    ensures exists carried ::
              && CarriesContent(value, carried) && thrown == carried.Throw?
              && controller.queue == old(controller.queue)
                                     + (if carried.Emit? then [Utf16(Utf8.Decode(carried.chunk))] else [])
  {
    ContentMeans(value);
    if value.None? || value.value.Null? {
      assert CarriesContent(value, Throw);
      return true;
    }
    ghost var carried := ContentBytes(value);
    var content := ContentOf(value.value);
    if content.Some? && content.value.Str? && |content.value.chars| > 0 {
      var binary := Base64.Atob(content.value.chars);
      if binary.None? {
        assert carried == Throw;
        return true;
      }
      var bytes := CopyUnits(binary.value);
      assert carried == Emit(bytes[..]);
      controller.Enqueue(Utf16(Utf8.Decode(bytes[..])));
    }
    return false;
  }

  /** A response carries one thing. */
  lemma CarriesOne(value: Option<Value>, a: Emission<seq<Byte>>, b: Emission<seq<Byte>>)
    requires CarriesContent(value, a) && CarriesContent(value, b)
    ensures a == b
  {
    hide StringBytes, PropertyIs;
    if value.Some? && value != Some(Null) {
      var x :| PropertyIs(value.value, Chars("content"), x) && a == StringBytes(x);
      var y :| PropertyIs(value.value, Chars("content"), y) && b == StringBytes(y);
      PropertyUnique(value.value, Chars("content"), x, y);
    }
  }

  /** A whole stream of responses through `decodeContent`. */
  method RunDecodeContent(values: seq<Option<Value>>) returns (out: Stream<Text>)
    ensures out == Emitted(ContentChunk, values)
  {
    hide ContentBytes, CarriesContent, Utf16, Utf8.Decode;
    var controller := new Controller<Text>();
    for i := 0 to |values|
      invariant Emitted(ContentChunk, values[..i]) == Stream(controller.queue, false)
    {
      EmittedSnoc(ContentChunk, values[..i], values[i]);
      assert values[..i + 1] == values[..i] + [values[i]];
      ghost var before := controller.queue;
      var thrown := DecodeContentTransform(values[i], controller);
      ghost var carried: Emission<seq<Byte>> :| CarriesContent(values[i], carried) && thrown == carried.Throw?
        && controller.queue == before + (if carried.Emit? then [Utf16(Utf8.Decode(carried.chunk))] else []);
      ContentMeans(values[i]);
      CarriesOne(values[i], carried, ContentBytes(values[i]));
      if thrown {
        EmittedConcat(ContentChunk, values[..i + 1], values[i + 1..]);
        assert values == values[..i + 1] + values[i + 1..];
        return Stream(controller.queue, true);
      }
    }
    assert values[..|values|] == values;
    return Stream(controller.queue, false);
  }

  /** A response whose last member named "content" is padded base64 carries the bytes behind it,
      whatever its other members. */
  lemma ResponseCarries(v: Value, bytes: seq<Byte>)
    requires bytes != [] && PropertyIs(v, Chars("content"), Some(Str(Base64.Encode(bytes))))
    ensures ContentBytes(Some(v)) == Emit(bytes)
  {
    hide Base64.Encode, Base64.Atob, PropertyIs, ContentBytes;
    assert v.Obj? by { PropertyOfObject(v, Chars("content"), Str(Base64.Encode(bytes))); }
    Base64.AtobEncode(bytes);
    ContentMeans(Some(v));
    var content :| PropertyIs(v, Chars("content"), content) && ContentBytes(Some(v)) == StringBytes(content);
    PropertyUnique(v, Chars("content"), content, Some(Str(Base64.Encode(bytes))));
  }

  lemma PropertyOfObject(v: Value, key: Text, x: Value)
    requires PropertyIs(v, key, Some(x))
    ensures v.Obj?
  {
  }

  /** A response without content carries nothing, and `undefined` and `null` throw. */
  lemma NoContent(v: Value)
    requires v != Null && PropertyIs(v, Chars("content"), None)
    ensures ContentBytes(Some(v)) == Nothing
    ensures ContentBytes(Some(Null)) == Throw && ContentBytes(None) == Throw
  {
    hide PropertyIs, ContentBytes;
    ContentMeans(Some(v));
    var content :| PropertyIs(v, Chars("content"), content) && ContentBytes(Some(v)) == StringBytes(content);
    PropertyUnique(v, Chars("content"), content, None);
    ContentMeans(Some(Null));
    ContentMeans(None);
  }

  lemma OnlyContent(content: Text)
    ensures Response(content).Some? && PropertyIs(Response(content).value, Chars("content"), Some(Str(content)))
  {
    ContentKey();
    assert LastNamed(Response(content).value.members, Chars("content"), 0);
  }

  /** Padded base64 of the UTF-8 of a text decodes to that text, unless it opens with U+FEFF, in any
      response that has it as its content. */
  lemma {:induction false} ContentRoundTrip(v: Value, cs: seq<Scalar>)
    requires cs != [] && PropertyIs(v, Chars("content"), Some(Str(Base64.Encode(Utf8.Encode(cs)))))
    ensures ContentChunk(Some(v)) == Emit(Utf16(Utf8.StripBom(cs)))
    ensures ContentChunk(Some(v)) == Emit(Utf16(cs)) <==> cs[0] != BOM
  {
    hide ContentBytes, PropertyIs, Base64.Encode;
    assert Utf8.Encode(cs) != [];
    ResponseCarries(v, Utf8.Encode(cs));
    Utf8.DecodeEncode(cs);
    if cs[0] == BOM {
      assert Utf16(cs) == [0xFEFF] + Utf16(cs[1..]);
    }
  }

  /** Responses that carry these chunks, one a response, with or without responses in between that
      have no content. */
  ghost predicate CarryAll(values: seq<Option<Value>>, chunks: seq<seq<Byte>>)
    decreases |values|
  {
    if values == [] then chunks == []
    else
      && values[0].Some? && values[0] != Some(Null)
      && ((PropertyIs(values[0].value, Chars("content"), None) && CarryAll(values[1..], chunks))
          || (chunks != [] && chunks[0] != []
              && PropertyIs(values[0].value, Chars("content"), Some(Str(Base64.Encode(chunks[0]))))
              && CarryAll(values[1..], chunks[1..])))
  }

  lemma {:induction false} CarriedContents(values: seq<Option<Value>>, chunks: seq<seq<Byte>>)
    requires CarryAll(values, chunks)
    ensures Emitted(ContentBytes, values) == Stream(chunks, false)
    decreases |values|
  {
    hide PropertyIs, ContentBytes, Base64.Encode;
    if values != [] {
      var v := values[0].value;
      if PropertyIs(v, Chars("content"), None) && CarryAll(values[1..], chunks) {
        NoContent(v);
        CarriedContents(values[1..], chunks);
      } else {
        ResponseCarries(v, chunks[0]);
        CarriedContents(values[1..], chunks[1..]);
        assert chunks == [chunks[0]] + chunks[1..];
      }
    }
  }

  // ----- TextDecoderStream (section 7.5 of the WHATWG Encoding Standard)

  /** What the decoder has put out after `received`, before it is flushed. */
  function DecodedSoFar(received: seq<Byte>): seq<Scalar> {
    Utf8.Serialize(false, Utf8.Feed(Utf8.START, received).1).1
  }

  class TextDecoderStream {
    var dec: Utf8.Decoder
    var seen: bool
    ghost var received: seq<Byte>

    ghost predicate Valid()
      reads this
    {
      var (end, out) := Utf8.Feed(Utf8.START, received);
      dec == end && seen == Utf8.Serialize(false, out).0
    }

    constructor ()
      ensures Valid() && received == []
    {
      dec := Utf8.START;
      seen := false;
      received := [];
    }

    /** A chunk may end inside a scalar; the decoder keeps the unfinished bytes. */
    method Transform(chunk: seq<Byte>, controller: Controller<Text>)
      requires Valid()
      requires Flatten(controller.queue) == Utf16(DecodedSoFar(received))
      modifies this, controller
      ensures Valid() && received == old(received) + chunk
      ensures Flatten(controller.queue) == Utf16(DecodedSoFar(received))
    {
      var (end, out) := Utf8.Feed(dec, chunk);
      var (past, kept) := Utf8.Serialize(seen, out);
      DecodedStep(received, chunk, seen, out);
      dec := end;
      seen := past;
      received := received + chunk;
      if kept != [] {
        controller.Enqueue(Utf16(kept));
        FlattenSnoc(old(controller.queue), Utf16(kept));
        Utf16Concat(DecodedSoFar(old(received)), kept);
      } else {
        assert DecodedSoFar(old(received)) + kept == DecodedSoFar(old(received));
      }
    }

    method Flush(controller: Controller<Text>)
      requires Valid()
      requires Flatten(controller.queue) == Utf16(DecodedSoFar(received))
      modifies this, controller
      ensures received == old(received)
      ensures Flatten(controller.queue) == Utf16(Utf8.Decode(received))
    {
      var out := Utf8.Finish(dec);
      DecodedEnd(received);
      if out != [] {
        controller.Enqueue(Utf16(out));
        FlattenSnoc(old(controller.queue), Utf16(out));
        Utf16Concat(DecodedSoFar(received), out);
      } else {
        assert DecodedSoFar(received) + out == DecodedSoFar(received);
      }
      dec := Utf8.START;
    }
  }

  lemma DecodedStep(received: seq<Byte>, chunk: seq<Byte>, seen: bool, out: seq<Scalar>)
    requires var (mid, before) := Utf8.Feed(Utf8.START, received);
             seen == Utf8.Serialize(false, before).0 && out == Utf8.Feed(mid, chunk).1
    ensures var (mid, before) := Utf8.Feed(Utf8.START, received);
            Utf8.Feed(Utf8.START, received + chunk) == (Utf8.Feed(mid, chunk).0, before + out)
    ensures Utf8.Serialize(false, Utf8.Feed(Utf8.START, received + chunk).1).0 == Utf8.Serialize(seen, out).0
    ensures DecodedSoFar(received + chunk) == DecodedSoFar(received) + Utf8.Serialize(seen, out).1
  {
    hide Utf8.Feed, Utf8.Serialize;
    Utf8.FeedConcat(Utf8.START, received, chunk);
    Utf8.SerializeConcat(false, Utf8.Feed(Utf8.START, received).1, out);
  }

  lemma DecodedEnd(received: seq<Byte>)
    ensures Utf8.Decode(received) == DecodedSoFar(received) + Utf8.Finish(Utf8.Feed(Utf8.START, received).0)
  {
    var (end, out) := Utf8.Feed(Utf8.START, received);
    Utf8.SerializeConcat(false, out, Utf8.Finish(end));
    var fin := Utf8.Finish(end);
    assert Utf8.Serialize(Utf8.Serialize(false, out).0, fin).1 == fin;
    assert Utf8.Serialize(false, out + fin).1 == Utf8.StripBom(out + fin);
  }

  /** Incremental decoding gives the text of the whole input for every chunking of it, including
      cuts inside a scalar. A stream that fails upstream is never flushed. */
  method RunTextDecoder(input: Stream<seq<Byte>>) returns (texts: seq<Text>)
    ensures var bytes := Flatten(input.chunks);
            Flatten(texts) == Utf16(if input.failed then DecodedSoFar(bytes) else Utf8.Decode(bytes))
  {
    var chunks := input.chunks;
    var controller := new Controller<Text>();
    var decoder := new TextDecoderStream();
    for i := 0 to |chunks|
      invariant decoder.Valid() && decoder.received == Flatten(chunks[..i])
      invariant Flatten(controller.queue) == Utf16(DecodedSoFar(decoder.received))
    {
      decoder.Transform(chunks[i], controller);
      assert chunks[..i + 1] == chunks[..i] + [chunks[i]];
      FlattenSnoc(chunks[..i], chunks[i]);
    }
    assert chunks[..|chunks|] == chunks;
    if !input.failed {
      decoder.Flush(controller);
    }
    texts := controller.queue;
  }

  // ----- readStreamToEnd

  class StreamReader<T> {
    const stream: Stream<T>
    var pos: nat

    ghost predicate Valid()
      reads this
    {
      pos <= |stream.chunks|
    }

    constructor (stream: Stream<T>)
      ensures Valid() && this.stream == stream && pos == 0
    {
      this.stream := stream;
      pos := 0;
    }

    /** The next chunk; behind the last one a stream is done, or it throws if it has failed. */
    method Read() returns (value: Option<T>, thrown: bool)
      requires Valid()
      modifies this
      ensures Valid()
      ensures old(pos) < |stream.chunks| ==> value == Some(stream.chunks[old(pos)]) && pos == old(pos) + 1 && !thrown
      ensures old(pos) == |stream.chunks| ==> value == None && pos == old(pos) && thrown == stream.failed
    {
      if pos == |stream.chunks| {
        return None, stream.failed;
      }
      pos := pos + 1;
      return Some(stream.chunks[pos - 1]), false;
    }
  }

  /** What collecting a stream gives: the values up to the end or the first falsy one, whichever
      comes first; `None` stands for the exception of a stream that fails before that. */
  function Collected<T>(stream: Stream<T>, truthy: T -> bool): Option<seq<T>>
    decreases |stream.chunks|
  {
    if stream.chunks == [] then if stream.failed then None else Some([])
    else if !truthy(stream.chunks[0]) then Some([])
    else
      match Collected(Stream(stream.chunks[1..], stream.failed), truthy)
      case None => None
      case Some(rest) => Some([stream.chunks[0]] + rest)
  }

  /** It is the longest prefix without a falsy value; everything exactly if no value is falsy and the
      stream does not fail, and nothing at all exactly if it fails without a falsy value before. */
  lemma {:induction false} CollectedPrefix<T>(stream: Stream<T>, truthy: T -> bool)
    ensures var results := Collected(stream, truthy);
            && (results.None? <==> stream.failed && forall i :: 0 <= i < |stream.chunks| ==> truthy(stream.chunks[i]))
            && (results.Some? ==>
                  && results.value <= stream.chunks
                  && (forall i :: 0 <= i < |results.value| ==> truthy(results.value[i]))
                  && (|results.value| < |stream.chunks| ==> !truthy(stream.chunks[|results.value|])))
            && (results == Some(stream.chunks) <==>
                  !stream.failed && forall i :: 0 <= i < |stream.chunks| ==> truthy(stream.chunks[i]))
    decreases |stream.chunks|
  {
    var chunks := stream.chunks;
    if chunks != [] {
      var rest := Stream(chunks[1..], stream.failed);
      CollectedPrefix(rest, truthy);
      assert chunks == [chunks[0]] + rest.chunks;
      assert forall i :: 0 < i < |chunks| ==> chunks[i] == rest.chunks[i - 1];
      if truthy(chunks[0]) && Collected(rest, truthy).Some? {
        var tail := Collected(rest, truthy).value;
        assert ([chunks[0]] + tail)[1..] == tail;
      }
    }
  }

  /** One value more in front of what is still to come. */
  lemma CollectedStep<T>(stream: Stream<T>, truthy: T -> bool, i: nat)
    requires i < |stream.chunks|
    ensures Collected(Stream(stream.chunks[i..], stream.failed), truthy) ==
            if !truthy(stream.chunks[i]) then Some([])
            else
              match Collected(Stream(stream.chunks[i + 1..], stream.failed), truthy)
              case None => None
              case Some(rest) => Some([stream.chunks[i]] + rest)
  {
    assert stream.chunks[i..][1..] == stream.chunks[i + 1..];
  }

  method ReadStreamToEnd<T>(stream: Stream<T>, truthy: T -> bool) returns (results: Option<seq<T>>)
    ensures results == Collected(stream, truthy)
  {
    hide Collected;
    var chunks := stream.chunks;
    var reader := new StreamReader(stream);
    var collected := [];
    ghost var n := 0;
    assert stream == Stream(chunks[0..], stream.failed);
    PrependNothing(Collected(stream, truthy));
    var value, thrown := reader.Read();
    while !thrown && value.Some? && truthy(value.value)
      invariant reader.Valid() && reader.stream == stream && n <= |chunks|
      invariant Collected(stream, truthy) ==
                Prepended(collected, Collected(Stream(chunks[n..], stream.failed), truthy))
      invariant if value.None? then n == |chunks| == reader.pos && thrown == stream.failed
                else reader.pos == n + 1 && n < |chunks| && !thrown && value.value == chunks[n]
      decreases |chunks| - n
    {
      CollectedStep(stream, truthy, n);
      PrependOne(collected, chunks[n], Collected(Stream(chunks[n + 1..], stream.failed), truthy));
      collected := collected + [value.value];
      n := n + 1;
      value, thrown := reader.Read();
    }
    if value.Some? {
      CollectedStep(stream, truthy, n);
    } else {
      CollectedEnd(stream, truthy);
      assert chunks[n..] == [];
    }
    assert collected + [] == collected;
    return if thrown then None else Some(collected);
  }

  ghost function Prepended<T>(done: seq<T>, rest: Option<seq<T>>): Option<seq<T>> {
    match rest
    case None => None
    case Some(values) => Some(done + values)
  }

  lemma PrependNothing<T>(rest: Option<seq<T>>)
    ensures Prepended([], rest) == rest
  {
    if rest.Some? { assert [] + rest.value == rest.value; }
  }

  lemma PrependOne<T>(done: seq<T>, x: T, rest: Option<seq<T>>)
    ensures Prepended(done, Prepended([x], rest)) == Prepended(done + [x], rest)
  {
    if rest.Some? { Assoc(done, [x], rest.value); }
  }

  lemma CollectedEnd<T>(stream: Stream<T>, truthy: T -> bool)
    ensures Collected(Stream([], stream.failed), truthy) == if stream.failed then None else Some([])
  {
  }

  /** JavaScript truthiness of a parsed value; which number lexemes denote zero is left open. */
  predicate Truthy(zero: Text -> bool, v: Value) {
    match v
    case Null => false
    case Bool(b) => b
    case Number(lexeme) => !zero(lexeme)
    case Str(chars) => chars != []
    case Arr(_) => true
    case Obj(_) => true
  }

  /** The falsy values: `null`, `false`, the empty string, and numbers that denote zero. */
  lemma FalsyValues(zero: Text -> bool, v: Value)
    ensures !Truthy(zero, v) <==> v == Null || v == Bool(false) || v == Str([]) || (v.Number? && zero(v.lexeme))
  {
  }
}
