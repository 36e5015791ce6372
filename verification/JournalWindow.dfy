/** Reading the documents of an arbitrary byte window of a journal through arbitrary chunks. */
module JournalWindow {
  import opened Units
  import opened Utf8
  import opened ChunkedDecode
  import opened DecodeDamage
  import opened Json
  import opened Blur
  import opened JsonDamage
  import opened JsonMerge
  import JsonResync
  import opened Streams
  import opened JournalClient

  // ----- Journals

  /** One record of a journal, without its newline: the text of a JSON object that starts with
      its brace. It need not be compact, and white space other than newlines may follow it. */
  predicate IsRecord(line: seq<Scalar>) {
    && line != [] && line[0] == OPEN_BRACE && NEWLINE !in line
    && Parse(Utf16(line)).Some?
  }

  predicate AllRecords(lines: seq<seq<Scalar>>) {
    forall i :: 0 <= i < |lines| ==> IsRecord(lines[i])
  }

  function RecordBytes(line: seq<Scalar>): seq<Byte> {
    Encode(line) + [NEWLINE]
  }

  function Records(lines: seq<seq<Scalar>>): (records: seq<seq<Byte>>)
    ensures |records| == |lines|
  {
    seq(|lines|, i requires 0 <= i < |lines| => RecordBytes(lines[i]))
  }

  function Journal(lines: seq<seq<Scalar>>): seq<Byte> {
    Flatten(Records(lines))
  }

  /** Where record `r` starts in the journal, and where the newline that ends it stops. */
  function Start(lines: seq<seq<Scalar>>, r: nat): nat
    requires r <= |lines|
  {
    Offset(Records(lines), r)
  }

  function End(lines: seq<seq<Scalar>>, r: nat): nat
    requires r < |lines|
  {
    Start(lines, r + 1)
  }

  lemma EndsMonotone(lines: seq<seq<Scalar>>, r: nat, i: nat)
    requires r <= i < |lines|
    ensures Start(lines, r) <= End(lines, r) <= End(lines, i)
  {
    hide Records;
    OffsetMonotone(Records(lines), r, r + 1);
    OffsetMonotone(Records(lines), r + 1, i + 1);
  }

  /** Record `i` lies inside the window, newline included. */
  predicate Inside(lines: seq<seq<Scalar>>, i: nat, a: nat, b: nat)
    requires i < |lines|
  {
    a <= Start(lines, i) && End(lines, i) <= b
  }

  /** The documents, from record `r` on, of the records that lie inside the window. */
  function DocumentsInside(lines: seq<seq<Scalar>>, r: nat, a: nat, b: nat): seq<Value>
    requires r <= |lines| && AllRecords(lines)
    decreases |lines| - r
  {
    if r == |lines| then []
    else
      assert IsRecord(lines[r]);
      (if Inside(lines, r, a, b) then [Parse(Utf16(lines[r])).value] else [])
      + DocumentsInside(lines, r + 1, a, b)
  }

  /** No chunk that starts strictly inside record `i` splits a scalar or starts with U+FEFF. */
  ghost predicate CleanRecord(lines: seq<seq<Scalar>>, i: nat, a: nat, chunks: seq<seq<Byte>>)
    requires i < |lines|
  {
    CleanChunks(chunks, a, Start(lines, i), End(lines, i))
  }

  ghost predicate CleanFrom(lines: seq<seq<Scalar>>, r: nat, a: nat, b: nat, chunks: seq<seq<Byte>>) {
    forall i :: r <= i < |lines| && Inside(lines, i, a, b) ==> CleanRecord(lines, i, a, chunks)
  }

  /** The same for every record inside the window. */
  ghost predicate CleanWindow(lines: seq<seq<Scalar>>, a: nat, b: nat, chunks: seq<seq<Byte>>) {
    CleanFrom(lines, 0, a, b, chunks)
  }

  // ----- What comes out for a record

  /** The text that record `i` comes out as when the journal is cut at `cuts`. */
  function LineRead(lines: seq<seq<Scalar>>, i: nat, cuts: set<int>): Text
    requires i < |lines|
  {
    Utf16(Damaged(true, lines[i], Start(lines, i), cuts))
  }

  /** What comes out for the records inside the window, from record `r` on. */
  function DocumentsRead(lines: seq<seq<Scalar>>, r: nat, a: nat, b: nat, cuts: set<int>): seq<Value>
    requires r <= |lines|
    decreases |lines| - r
  {
    if r == |lines| then []
    else
      (if Inside(lines, r, a, b) then DocumentOf(LineRead(lines, r, cuts)) else [])
      + DocumentsRead(lines, r + 1, a, b, cuts)
  }

  /** Always a document of the same shape, in which at most characters outside ASCII in strings and
      keys differ. It is the original exactly if `clean`; and, unless the original repeats a key, it
      looks like the original to JavaScript exactly if `clean`. */
  ghost predicate ReadAs(v: Value, w: Value, clean: bool) {
    && BlurredValue(v, w)
    && (clean <==> w == v)
    && (NoRepeats(v) ==> (clean <==> Alike(v, w)))
  }

  ghost predicate AllBlurred(vs: seq<Value>, ws: seq<Value>) {
    |ws| == |vs| && forall i :: 0 <= i < |vs| ==> BlurredValue(vs[i], ws[i])
  }

  ghost predicate AllAlike(vs: seq<Value>, ws: seq<Value>) {
    |ws| == |vs| && forall i :: 0 <= i < |vs| ==> Alike(vs[i], ws[i])
  }

  ghost predicate NoneRepeats(vs: seq<Value>) {
    forall i :: 0 <= i < |vs| ==> NoRepeats(vs[i])
  }

  /** The same for a sequence of documents. */
  ghost predicate AllReadAs(vs: seq<Value>, ws: seq<Value>, clean: bool) {
    && AllBlurred(vs, ws)
    && (clean <==> ws == vs)
    && (NoneRepeats(vs) ==> (clean <==> AllAlike(vs, ws)))
  }

  lemma ReadAsCons(v: Value, w: Value, clean: bool, vs: seq<Value>, ws: seq<Value>, rest: bool)
    requires ReadAs(v, w, clean) && AllReadAs(vs, ws, rest)
    ensures AllReadAs([v] + vs, [w] + ws, clean && rest)
  {
    hide BlurredValue, Alike, NoRepeats;
    var l, m := [v] + vs, [w] + ws;
    assert l[0] == v && m[0] == w && l[1..] == vs && m[1..] == ws;
    if NoneRepeats(l) {
      assert NoRepeats(l[0]);
      forall i | 0 <= i < |vs| ensures NoRepeats(vs[i]) { assert vs[i] == l[i + 1]; }
      if AllAlike(l, m) {
        assert Alike(l[0], m[0]);
        forall i | 0 <= i < |vs| ensures Alike(vs[i], ws[i]) { assert vs[i] == l[i + 1] && ws[i] == m[i + 1]; }
      }
    }
  }

  // ----- The text that the responses decode to

  function Texts(chunks: seq<seq<Byte>>): seq<Text> {
    seq(|chunks|, i requires 0 <= i < |chunks| => Utf16(Decode(chunks[i])))
  }

  lemma {:induction false} ResponsesDecode(values: seq<Option<Value>>)
    ensures var carried := Emitted(ContentBytes, values);
            Emitted(ContentChunk, values) == Stream(Texts(carried.chunks), carried.failed)
  {
    hide Decode, ContentBytes;
    if values != [] {
      ResponsesDecode(values[1..]);
      var first, rest := ContentBytes(values[0]), Emitted(ContentBytes, values[1..]).chunks;
      if first.Emit? {
        assert Texts([first.chunk] + rest) == [Utf16(Decode(first.chunk))] + Texts(rest);
      }
    }
  }

  lemma {:induction false} TextsFlat(chunks: seq<seq<Byte>>, n: nat)
    requires n <= |chunks|
    ensures Flatten(Texts(chunks)[..n]) == Utf16(PerChunk(chunks, n))
  {
    hide Decode, Utf16;
    if n == 0 {
      assert Texts(chunks)[..0] == [];
      assert Utf16([]) == [] by { Utf16Bmp([]); }
    } else {
      TextsFlat(chunks, n - 1);
      var texts := Texts(chunks);
      assert texts[..n] == texts[..n - 1] + [texts[n - 1]];
      FlattenSnoc(texts[..n - 1], texts[n - 1]);
      Utf16Concat(PerChunk(chunks, n - 1), Decode(chunks[n - 1]));
    }
  }

  /** The documents of a sequence of scalars. */
  function DocumentsOf(cs: seq<Scalar>): seq<Value> {
    Documents(Utf16(cs))
  }

  lemma {:induction false} NoNewlineUtf16(cs: seq<Scalar>)
    requires NEWLINE !in cs
    ensures NEWLINE !in Utf16(cs)
  {
    AsciiUtf16(cs);
    AsciiMember(cs, NEWLINE);
    AsciiMember(Utf16(cs), NEWLINE);
  }

  lemma DocumentsOfCons(x: seq<Scalar>, y: seq<Scalar>)
    requires NEWLINE !in x
    ensures DocumentsOf(x + [NEWLINE] + y) == DocumentOf(Utf16(x)) + DocumentsOf(y)
  {
    NoNewlineUtf16(x);
    Utf16Concat(x + [NEWLINE], y);
    Utf16Concat(x, [NEWLINE]);
    Utf16Bmp([NEWLINE]);
    DocumentsCons(Utf16(x), Utf16(y));
  }

  lemma DocumentsOfTail(x: seq<Scalar>)
    requires NEWLINE !in x
    ensures DocumentsOf(x) == []
  {
    NoNewlineUtf16(x);
    DocumentsTail(Utf16(x));
  }

  // ----- One record

  lemma RecordAt(lines: seq<seq<Scalar>>, r: nat) returns (p: nat, e: nat)
    requires r < |lines|
    ensures p == Start(lines, r) && e == End(lines, r)
    ensures p < e <= |Journal(lines)|
    ensures Journal(lines)[p..e] == RecordBytes(lines[r])
    ensures Journal(lines)[p..e - 1] == Encode(lines[r]) && Journal(lines)[e - 1] == NEWLINE
  {
    ChunkAt(Records(lines), r);
    p, e := Start(lines, r), End(lines, r);
    assert Records(lines)[r] == RecordBytes(lines[r]);
    FirstSlice(Journal(lines), p, e, Encode(lines[r]), [NEWLINE]);
    var last := Journal(lines)[e - 1..e];
    assert last[0] == Journal(lines)[e - 1];
  }

  /** A newline byte ends whatever came before it. */
  lemma ReadNewline(bytes: seq<Byte>, cuts: set<int>, r: Reader, p: nat)
    requires p < |bytes| && bytes[p] == NEWLINE
    ensures ReadAt(bytes, cuts, r, p) == (Reader(START, true), Finish(r.dec) + [NEWLINE])
  {
    hide Step;
    var from := if p in cuts then FRESH else r;
    StepAscii(from.dec, NEWLINE);
    var out := Finish(from.dec) + [NEWLINE];
    assert Serialize(from.seen, out) == (true, out);
    assert Finish(START) + [NEWLINE] == [NEWLINE];
    assert [] + out == out;
  }

  lemma NoNewlineOut(bytes: seq<Byte>, cuts: set<int>, r: Reader, p: nat, q: nat, fin: seq<Scalar>)
    requires p <= q <= |bytes| && NEWLINE !in bytes[p..q]
    requires fin == [] || fin == [REPLACEMENT]
    ensures NEWLINE !in Run(bytes, cuts, r, p, q).1 + fin
    ensures Ascii(Run(bytes, cuts, r, p, q).1 + fin) == Ascii(bytes[p..q])
  {
    hide Run;
    var out := Run(bytes, cuts, r, p, q).1;
    RunAscii(bytes, cuts, r, p, q);
    AsciiConcat(out, fin);
    AsciiEmpty(fin);
    assert Ascii(out) + [] == Ascii(out);
    AsciiMember(bytes[p..q], NEWLINE);
    AsciiMember(out + fin, NEWLINE);
  }

  lemma NoNewlineBytes(line: seq<Scalar>)
    requires NEWLINE !in line
    ensures NEWLINE !in Encode(line)
  {
    AsciiEncode(line);
    AsciiMember(line, NEWLINE);
    AsciiMember(Encode(line), NEWLINE);
  }

  /** Everything the reader still puts out between `p` and the end of the window. */
  function Remaining(bytes: seq<Byte>, cuts: set<int>, r: Reader, p: nat, b: nat): seq<Scalar>
    requires p <= b <= |bytes|
  {
    var (end, out) := Run(bytes, cuts, r, p, b);
    out + Finish(end.dec)
  }

  /** Up to the next newline, then what remains behind it. */
  lemma RemainingAfterNewline(bytes: seq<Byte>, cuts: set<int>, r: Reader, p: nat, e: nat, b: nat)
    requires p < e <= b <= |bytes| && bytes[e - 1] == NEWLINE
    ensures Remaining(bytes, cuts, r, p, b)
         == Remaining(bytes, cuts, r, p, e - 1) + [NEWLINE] + Remaining(bytes, cuts, Reader(START, true), e, b)
  {
    hide ReadAt, Finish;
    var (mid, before) := Run(bytes, cuts, r, p, e - 1);
    var (end, after) := Run(bytes, cuts, Reader(START, true), e, b);
    ReadNewline(bytes, cuts, mid, e - 1);
    RunSplit(bytes, cuts, r, p, e - 1, b);
    assert Run(bytes, cuts, mid, e - 1, b) == (end, Finish(mid.dec) + [NEWLINE] + after);
    assert before + (Finish(mid.dec) + [NEWLINE] + after) + Finish(end.dec)
        == before + Finish(mid.dec) + [NEWLINE] + (after + Finish(end.dec));
  }

  /** A record that lies inside the window: whatever cuts it, its line parses, to its document but
      for characters outside ASCII, and to exactly its document if and only if no cut is dirty. */
  lemma WholeRecord(bytes: seq<Byte>, cuts: set<int>, r: Reader, p: nat, e: nat, line: seq<Scalar>)
    requires IsRecord(line) && p < e <= |bytes|
    requires bytes[p..e - 1] == Encode(line) && bytes[e - 1] == NEWLINE
    requires r.dec == START
    ensures var out := Damaged(true, line, p, cuts);
            && Remaining(bytes, cuts, r, p, e - 1) == out
            && NEWLINE !in out && Parse(Utf16(out)).Some?
            && ReadAs(Parse(Utf16(line)).value, Parse(Utf16(out)).value, CleanInside(bytes, cuts, p, e))
  {
    hide Run, Parse, Encode, Utf16, Blurred, BlurredValue, ReadAs, CleanInside, Weight, Ascii, Expected, Damaged;
    var (end, out) := Run(bytes, cuts, r, p, e - 1);
    RunDamaged(bytes, cuts, r, p, e - 1, line);
    StartOfRecord(p in cuts || !r.seen, line, p, cuts);
    assert end.dec == START;
    assert out + [] == out == Remaining(bytes, cuts, r, p, e - 1);
    DamagedText(bytes, cuts, true, p, e - 1, line);
    NoNewlineBytes(line);
    NoNewlineOut(bytes, cuts, r, p, e - 1, []);
    CleanToNewline(bytes, cuts, p, e);
    AsciiEncode(line);
    DamagedBlurs(true, line, p, cuts);
    BlurredLine(line, out);
    NoMarkFirst(line, true);
    LineReadAs(line, out, CleanInside(bytes, cuts, p, e));
  }

  /** A record starts with its brace, so it makes no difference whether it opens a chunk. */
  lemma StartOfRecord(start: bool, line: seq<Scalar>, p: nat, cuts: set<int>)
    requires IsRecord(line)
    ensures Damaged(start, line, p, cuts) == Damaged(true, line, p, cuts)
  {
    hide Parse;
  }

  lemma NoMarkFirst(line: seq<Scalar>, start: bool)
    requires IsRecord(line)
    ensures Expected(start, line) == line
  {
  }

  lemma BlurredLine(line: seq<Scalar>, out: seq<Scalar>)
    requires Parse(Utf16(line)).Some? && Blurred(line, out)
    ensures Parse(Utf16(out)).Some? && BlurredValue(Parse(Utf16(line)).value, Parse(Utf16(out)).value)
  {
    hide Parse, Utf16, Blurred;
    BlurredUtf16(line, out);
    BlurredParses(Utf16(line), Utf16(out));
  }

  /** A line with the same ASCII characters and more weight gives a document of more weight. */
  lemma LineReadAs(line: seq<Scalar>, out: seq<Scalar>, clean: bool)
    requires Parse(Utf16(line)).Some? && Parse(Utf16(out)).Some? && Ascii(out) == Ascii(line)
    requires BlurredValue(Parse(Utf16(line)).value, Parse(Utf16(out)).value)
    requires if clean then out == line else Weight(out) > Weight(line)
    ensures ReadAs(Parse(Utf16(line)).value, Parse(Utf16(out)).value, clean)
  {
    hide Parse, Utf16, BlurredValue, Alike, NoRepeats;
    var v, w := Parse(Utf16(line)).value, Parse(Utf16(out)).value;
    AsciiUtf16(line);
    AsciiUtf16(out);
    WeightUtf16(line);
    WeightUtf16(out);
    JsonResync.DamageShows(Utf16(line), Utf16(out));
    AlikeSelf(v);
    if NoRepeats(v) && Alike(v, w) { DamageIsVisible(v, w); }
  }

  lemma CleanToNewline(bytes: seq<Byte>, cuts: set<int>, p: nat, e: nat)
    requires p < e <= |bytes| && bytes[e - 1] == NEWLINE
    ensures CleanInside(bytes, cuts, p, e) <==> CleanInside(bytes, cuts, p, e - 1)
  {
    assert !Dirty(bytes, e - 1) by { assert bytes[e - 1..][0] == NEWLINE; }
  }

  /** A record whose front is cut off: its line gives no document, whatever the cuts. */
  lemma TruncatedRecord(bytes: seq<Byte>, cuts: set<int>, p: nat, a: nat, e: nat, line: seq<Scalar>)
    requires IsRecord(line) && p < a < e <= |bytes|
    requires bytes[p..e - 1] == Encode(line)
    ensures var out := Remaining(bytes, cuts, FRESH, a, e - 1);
            NEWLINE !in out && DocumentOf(Utf16(out)) == []
  {
    hide Run, Parse, Encode, Utf16, Ascii;
    var (end, kept) := Run(bytes, cuts, FRESH, a, e - 1);
    var out := Remaining(bytes, cuts, FRESH, a, e - 1);
    var head, tail := bytes[p..a], bytes[a..e - 1];
    assert bytes[p..e - 1] == head + tail;
    NoNewlineBytes(line);
    NoNewlineOut(bytes, cuts, FRESH, a, e - 1, Finish(end.dec));
    AsciiEncode(line);
    AsciiUtf16(line);
    AsciiUtf16(out);
    AsciiConcat(head, tail);
    assert |Ascii(head)| >= 1 by { HeadHasBrace(bytes, p, a, e, line); }
    assert Ascii(line)[|Ascii(head)|..] == Ascii(tail);
    assert Utf16(line)[0] == OPEN_BRACE by { BraceFirst(line); }
    JsonResync.CutObjectNeverParses(Utf16(line), |Ascii(head)|, Utf16(out));
  }

  lemma BraceFirst(line: seq<Scalar>)
    requires line != [] && line[0] == OPEN_BRACE
    ensures Utf16(line) != [] && Utf16(line)[0] == OPEN_BRACE
  {
  }

  lemma HeadHasBrace(bytes: seq<Byte>, p: nat, a: nat, e: nat, line: seq<Scalar>)
    requires IsRecord(line) && p < a < e <= |bytes|
    requires bytes[p..e - 1] == Encode(line)
    ensures |Ascii(bytes[p..a])| >= 1
  {
    FirstScalar(bytes, p, e - 1, line);
    assert bytes[p..p + 1] == Encode1(line[0]) == [OPEN_BRACE];
    assert bytes[p..a][0] == bytes[p] == bytes[p..p + 1][0];
  }

  // ----- The window

  /** An incomplete line at the end of the window gives nothing. */
  lemma IncompleteLine(bytes: seq<Byte>, cuts: set<int>, reader: Reader, s: nat, p: nat, b: nat, e: nat,
                       line: seq<Scalar>)
    requires s <= p <= b <= e <= |bytes| && NEWLINE !in line
    requires bytes[s..e] == Encode(line)
    ensures DocumentsOf(Remaining(bytes, cuts, reader, p, b)) == []
  {
    hide Run, DocumentsOf;
    NoNewlineBytes(line);
    forall k | 0 <= k < b - p ensures bytes[p..b][k] != NEWLINE {
      assert bytes[s..e][p + k - s] in Encode(line);
    }
    NoNewlineOut(bytes, cuts, reader, p, b, Finish(Run(bytes, cuts, reader, p, b).0.dec));
    DocumentsOfTail(Remaining(bytes, cuts, reader, p, b));
  }

  lemma LastLine(lines: seq<seq<Scalar>>, cuts: set<int>, reader: Reader, r: nat, p: nat, b: nat)
    requires r < |lines| && AllRecords(lines)
    requires Start(lines, r) <= p <= b < End(lines, r) && b <= |Journal(lines)|
    ensures DocumentsOf(Remaining(Journal(lines), cuts, reader, p, b)) == []
  {
    hide DocumentsOf, Journal, Remaining, Start, End, Parse, Encode;
    var s, e := RecordAt(lines, r);
    assert IsRecord(lines[r]);
    IncompleteLine(Journal(lines), cuts, reader, s, p, b, e - 1, lines[r]);
  }

  lemma AtTheEnd(lines: seq<seq<Scalar>>, cuts: set<int>, reader: Reader, b: nat)
    requires reader.dec == START
    requires Start(lines, |lines|) <= b <= |Journal(lines)|
    ensures b == Start(lines, |lines|)
    ensures DocumentsOf(Remaining(Journal(lines), cuts, reader, b, b)) == []
  {
    var n := |lines|;
    OffsetFlatten(Records(lines), n);
    assert Records(lines)[..n] == Records(lines);
    assert Remaining(Journal(lines), cuts, reader, b, b) == [];
    DocumentsOfTail([]);
  }

  /** One record inside the window and what follows it. */
  lemma RecordStep(lines: seq<seq<Scalar>>, cuts: set<int>, reader: Reader, r: nat, b: nat) returns (w: Value)
    requires r < |lines| && AllRecords(lines) && reader.dec == START
    requires End(lines, r) <= b <= |Journal(lines)|
    ensures Start(lines, r) < End(lines, r) && Parse(Utf16(lines[r])).Some?
    ensures DocumentsOf(Remaining(Journal(lines), cuts, reader, Start(lines, r), b))
         == [w] + DocumentsOf(Remaining(Journal(lines), cuts, Reader(START, true), End(lines, r), b))
    ensures Parse(LineRead(lines, r, cuts)) == Some(w)
    ensures ReadAs(Parse(Utf16(lines[r])).value, w,
                   CleanInside(Journal(lines), cuts, Start(lines, r), End(lines, r)))
  {
    hide Run, Journal, DocumentsOf, CleanInside, Remaining, Parse, Utf16, ReadAs, Damaged;
    var journal := Journal(lines);
    var p, e := RecordAt(lines, r);
    var next := Reader(START, true);
    assert IsRecord(lines[r]);
    WholeRecord(journal, cuts, reader, p, e, lines[r]);
    RemainingAfterNewline(journal, cuts, reader, p, e, b);
    var line := Remaining(journal, cuts, reader, p, e - 1);
    DocumentsOfCons(line, Remaining(journal, cuts, next, e, b));
    w := Parse(Utf16(line)).value;
  }

  /** The first record that starts inside the window. */
  lemma FirstStart(lines: seq<seq<Scalar>>, a: nat) returns (r: nat)
    requires a <= |Journal(lines)|
    ensures r <= |lines| && a <= Start(lines, r)
    ensures forall i :: 0 <= i < r ==> Start(lines, i) < a
    ensures forall i :: r <= i < |lines| ==> a <= Start(lines, i)
  {
    hide Start, Journal;
    LastStart(lines);
    r := 0;
    while Start(lines, r) < a
      invariant r <= |lines|
      invariant forall i :: 0 <= i < r ==> Start(lines, i) < a
      decreases |lines| - r
    {
      r := r + 1;
    }
    forall i | r <= i < |lines| ensures a <= Start(lines, i) { StartsMonotone(lines, r, i); }
  }

  lemma LastStart(lines: seq<seq<Scalar>>)
    ensures Start(lines, |lines|) == |Journal(lines)|
  {
    OffsetFlatten(Records(lines), |lines|);
    assert Records(lines)[..|lines|] == Records(lines);
  }

  lemma StartsMonotone(lines: seq<seq<Scalar>>, r: nat, i: nat)
    requires r <= i <= |lines|
    ensures Start(lines, r) <= Start(lines, i)
  {
    hide Records;
    OffsetMonotone(Records(lines), r, i);
  }

  /** The line that the window starts in, when it does not start with a record. */
  lemma HeadStep(lines: seq<seq<Scalar>>, cuts: set<int>, r: nat, a: nat, b: nat)
    requires r < |lines| && AllRecords(lines)
    requires Start(lines, r) < a < End(lines, r) <= b <= |Journal(lines)|
    ensures DocumentsOf(Remaining(Journal(lines), cuts, FRESH, a, b))
         == DocumentsOf(Remaining(Journal(lines), cuts, Reader(START, true), End(lines, r), b))
  {
    hide Run, Journal, DocumentsOf, DocumentOf, Remaining, Parse, Utf16;
    var journal := Journal(lines);
    var p, e := RecordAt(lines, r);
    assert IsRecord(lines[r]);
    TruncatedRecord(journal, cuts, p, a, e, lines[r]);
    RemainingAfterNewline(journal, cuts, FRESH, a, e, b);
    var rest := Remaining(journal, cuts, Reader(START, true), e, b);
    DocumentsOfCons(Remaining(journal, cuts, FRESH, a, e - 1), rest);
    assert [] + DocumentsOf(rest) == DocumentsOf(rest);
  }

  lemma NoStart(lines: seq<seq<Scalar>>)
    ensures Start(lines, 0) == 0
  {
  }

  lemma CleanRecordIs(lines: seq<seq<Scalar>>, a: nat, b: nat, chunks: seq<seq<Byte>>, i: nat)
    requires a <= b <= |Journal(lines)| && Journal(lines)[a..b] == Flatten(chunks)
    requires i < |lines| && Inside(lines, i, a, b)
    ensures CleanRecord(lines, i, a, chunks) <==>
            CleanInside(Journal(lines), Cuts(chunks, a), Start(lines, i), End(lines, i))
  {
    hide CleanChunks, CleanInside, Journal, Start, End, Flatten, Cuts;
    var p, e := RecordAtEnds(lines, i);
    RecordIsText(lines[i]);
    CleanChunksIsCleanInside(Journal(lines), a, b, chunks, p, e, lines[i] + [NEWLINE]);
  }

  lemma RecordAtEnds(lines: seq<seq<Scalar>>, r: nat) returns (p: nat, e: nat)
    requires r < |lines|
    ensures p == Start(lines, r) && e == End(lines, r) && p < e <= |Journal(lines)|
    ensures Journal(lines)[p..e] == RecordBytes(lines[r])
  {
    p, e := RecordAt(lines, r);
  }

  lemma RecordIsText(line: seq<Scalar>)
    ensures Encode(line + [NEWLINE]) == RecordBytes(line)
  {
    EncodeConcat(line, [NEWLINE]);
    assert Encode([NEWLINE]) == [NEWLINE] + Encode([]);
  }

  // ----- The main theorems

  /** The document pipeline is the per-chunk decoder followed by the documents of its text. */
  lemma ResponsesText(responses: Stream<Option<Value>>)
    ensures var carried := Contents(responses);
            JournalDocuments(responses)
            == Stream(DocumentsOf(PerChunk(carried.chunks, |carried.chunks|)), carried.failed)
  {
    hide Documents, Utf16, PerChunk, Emitted;
    var chunks := Contents(responses).chunks;
    ResponsesDecode(responses.chunks);
    TextsFlat(chunks, |chunks|);
    assert Texts(chunks)[..|chunks|] == Texts(chunks);
  }

  lemma WindowText(bytes: seq<Byte>, a: nat, b: nat, responses: Stream<Option<Value>>)
    requires a <= b <= |bytes| && bytes[a..b] == Flatten(Contents(responses).chunks)
    ensures JournalDocuments(responses)
         == Stream(DocumentsOf(Remaining(bytes, Cuts(Contents(responses).chunks, a), FRESH, a, b)),
                   Contents(responses).failed)
  {
    hide Run, Emitted, DocumentsOf, Finish, PerChunk, Contents, Cuts, JournalDocuments;
    var chunks := Contents(responses).chunks;
    ResponsesText(responses);
    RunIsPerChunk(bytes, a, b, chunks, |chunks|);
    WholeLength(chunks);
  }

  /** What one record contributes: nothing if it does not lie inside the window, and otherwise the
      document of the line it comes out as, which is its own exactly if `clean`. */
  ghost predicate Contributes(lines: seq<seq<Scalar>>, i: nat, a: nat, b: nat, cuts: set<int>, clean: bool,
                              out: seq<Value>)
    requires i < |lines| && AllRecords(lines)
  {
    assert IsRecord(lines[i]);
    if Inside(lines, i, a, b) then
      && |out| == 1 && Parse(LineRead(lines, i, cuts)) == Some(out[0])
      && ReadAs(Parse(Utf16(lines[i])).value, out[0], clean)
    else out == []
  }

  lemma FlattenUpdate(parts: seq<seq<Value>>, r: nat, first: seq<Value>)
    requires r < |parts| && forall i :: 0 <= i <= r ==> parts[i] == []
    ensures Flatten(parts[r := first]) == first + Flatten(parts)
  {
    var none, rest, more := Nothings(r), parts[r + 1..], parts[r := first];
    assert parts == none + ([[]] + rest);
    assert more == none + ([first] + rest);
    FlattenConcat(none, [[]] + rest);
    FlattenConcat(none, [first] + rest);
    assert ([first] + rest)[1..] == rest;
    var blank: seq<seq<Value>> := [[]] + rest;
    assert blank[1..] == rest && blank[0] == [];
    assert [] + Flatten(rest) == Flatten(rest);
    assert [] + Flatten([first] + rest) == Flatten([first] + rest);
  }

  lemma {:induction false} PartsFrom(lines: seq<seq<Scalar>>, cuts: set<int>, reader: Reader, r: nat, a: nat, b: nat)
    returns (parts: seq<seq<Value>>)
    requires r <= |lines| && AllRecords(lines) && reader.dec == START
    requires a <= Start(lines, r) <= b <= |Journal(lines)|
    ensures |parts| == |lines| && forall i :: 0 <= i < r ==> parts[i] == []
    ensures forall i :: r <= i < |lines| ==>
              Contributes(lines, i, a, b, cuts,
                          CleanInside(Journal(lines), cuts, Start(lines, i), End(lines, i)), parts[i])
    ensures Flatten(parts) == DocumentsOf(Remaining(Journal(lines), cuts, reader, Start(lines, r), b))
    decreases |lines| - r
  {
    hide Journal, DocumentsOf, IsRecord, CleanInside, Remaining, Parse, Start, End, Contributes, Flatten, ReadAs;
    if r == |lines| {
      AtTheEnd(lines, cuts, reader, b);
      parts := Nothings(r);
    } else if b < End(lines, r) {
      LastLine(lines, cuts, reader, r, Start(lines, r), b);
      parts := Nothings(|lines|);
      forall i | r <= i < |lines|
        ensures Contributes(lines, i, a, b, cuts,
                            CleanInside(Journal(lines), cuts, Start(lines, i), End(lines, i)), [])
      {
        EndsMonotone(lines, r, i);
        NoContribution(lines, i, a, b, cuts, CleanInside(Journal(lines), cuts, Start(lines, i), End(lines, i)));
      }
    } else {
      var w := RecordStep(lines, cuts, reader, r, b);
      StartOfNext(lines, r);
      var rest := PartsFrom(lines, cuts, Reader(START, true), r + 1, a, b);
      parts := rest[r := [w]];
      FlattenUpdate(rest, r, [w]);
      OneContribution(lines, r, a, b, cuts, CleanInside(Journal(lines), cuts, Start(lines, r), End(lines, r)), w);
    }
  }

  lemma StartOfNext(lines: seq<seq<Scalar>>, r: nat)
    requires r < |lines|
    ensures Start(lines, r + 1) == End(lines, r)
  {
  }

  lemma NoContribution(lines: seq<seq<Scalar>>, i: nat, a: nat, b: nat, cuts: set<int>, clean: bool)
    requires i < |lines| && AllRecords(lines)
    requires Start(lines, i) < a || b < End(lines, i)
    ensures Contributes(lines, i, a, b, cuts, clean, [])
  {
    hide Start, End, IsRecord;
  }

  lemma OneContribution(lines: seq<seq<Scalar>>, i: nat, a: nat, b: nat, cuts: set<int>, clean: bool, w: Value)
    requires i < |lines| && AllRecords(lines) && Parse(Utf16(lines[i])).Some?
    requires a <= Start(lines, i) && End(lines, i) <= b
    requires Parse(LineRead(lines, i, cuts)) == Some(w) && ReadAs(Parse(Utf16(lines[i])).value, w, clean)
    ensures Contributes(lines, i, a, b, cuts, clean, [w])
  {
    hide Start, End, IsRecord, Parse, ReadAs, LineRead;
  }

  function Nothings(n: nat): (parts: seq<seq<Value>>)
    ensures |parts| == n && Flatten(parts) == []
    ensures forall i :: 0 <= i < n ==> parts[i] == []
  {
    if n == 0 then [] else [[]] + Nothings(n - 1)
  }

  lemma PartsOfWindow(lines: seq<seq<Scalar>>, cuts: set<int>, a: nat, b: nat) returns (parts: seq<seq<Value>>)
    requires AllRecords(lines) && a <= b <= |Journal(lines)|
    ensures |parts| == |lines|
    ensures forall i :: 0 <= i < |lines| ==>
              Contributes(lines, i, a, b, cuts,
                          CleanInside(Journal(lines), cuts, Start(lines, i), End(lines, i)), parts[i])
    ensures Flatten(parts) == DocumentsOf(Remaining(Journal(lines), cuts, FRESH, a, b))
  {
    hide Journal, DocumentsOf, IsRecord, Remaining, Start, End, Records, Contributes, CleanInside;
    var r := FirstStart(lines, a);
    if b < Start(lines, r) {
      if r == 0 {
        NoStart(lines);
        parts := [];
        assert false;
      } else {
        StartOfNext(lines, r - 1);
        LastLine(lines, cuts, FRESH, r - 1, a, b);
        parts := Nothings(|lines|);
        forall i | 0 <= i < |lines|
          ensures Contributes(lines, i, a, b, cuts,
                            CleanInside(Journal(lines), cuts, Start(lines, i), End(lines, i)), [])
        {
          if i >= r { EndsMonotone(lines, r - 1, i); }
          NoContribution(lines, i, a, b, cuts, CleanInside(Journal(lines), cuts, Start(lines, i), End(lines, i)));
        }
      }
    } else {
      var reader := if a == Start(lines, r) then FRESH else Reader(START, true);
      parts := PartsFrom(lines, cuts, reader, r, a, b);
      if a < Start(lines, r) {
        if r == 0 { NoStart(lines); }
        StartOfNext(lines, r - 1);
        HeadStep(lines, cuts, r - 1, a, b);
      }
      forall i | 0 <= i < r
        ensures Contributes(lines, i, a, b, cuts,
                            CleanInside(Journal(lines), cuts, Start(lines, i), End(lines, i)), [])
      {
        NoContribution(lines, i, a, b, cuts, CleanInside(Journal(lines), cuts, Start(lines, i), End(lines, i)));
      }
    }
  }

  /** Damage stays local. Even when some chunks cut badly, every record of the window is judged on
      its own and contributes exactly one document in its place: its own if no chunk that starts
      strictly inside it is dirty, and otherwise one that differs from its own, but only in
      characters outside ASCII of strings and keys. Nothing else comes out. */
  lemma {:induction false} DamageIsLocal(lines: seq<seq<Scalar>>, a: nat, b: nat, responses: Stream<Option<Value>>)
    returns (parts: seq<seq<Value>>)
    requires AllRecords(lines)
    requires a <= b <= |Journal(lines)| && Journal(lines)[a..b] == Flatten(Contents(responses).chunks)
    ensures JournalDocuments(responses) == Stream(Flatten(parts), Contents(responses).failed)
    ensures |parts| == |lines|
    ensures forall i :: 0 <= i < |lines| ==>
              Contributes(lines, i, a, b, Cuts(Contents(responses).chunks, a),
                          CleanRecord(lines, i, a, Contents(responses).chunks), parts[i])
  {
    hide Journal, CleanRecord, CleanInside, Flatten, IsRecord, Contributes, JournalDocuments, Remaining;
    hide Start, End, Cuts, Contents;
    var chunks := Contents(responses).chunks;
    WindowText(Journal(lines), a, b, responses);
    parts := PartsOfWindow(lines, Cuts(chunks, a), a, b);
    forall i | 0 <= i < |lines|
      ensures Contributes(lines, i, a, b, Cuts(chunks, a), CleanRecord(lines, i, a, chunks), parts[i])
    {
      var clean := CleanInside(Journal(lines), Cuts(chunks, a), Start(lines, i), End(lines, i));
      assert Contributes(lines, i, a, b, Cuts(chunks, a), clean, parts[i]);
      if Inside(lines, i, a, b) {
        CleanRecordIs(lines, a, b, chunks, i);
      } else {
        AnyContribution(lines, i, a, b, Cuts(chunks, a), clean, CleanRecord(lines, i, a, chunks), parts[i]);
      }
    }
  }

  lemma AnyContribution(lines: seq<seq<Scalar>>, i: nat, a: nat, b: nat, cuts: set<int>, c: bool, d: bool,
                        out: seq<Value>)
    requires i < |lines| && AllRecords(lines) && !Inside(lines, i, a, b)
    requires Contributes(lines, i, a, b, cuts, c, out)
    ensures Contributes(lines, i, a, b, cuts, d, out)
  {
  }

  /** The contributions put together, from record `r` on. */
  lemma {:induction false} PartsTogether(lines: seq<seq<Scalar>>, r: nat, a: nat, b: nat,
                                        chunks: seq<seq<Byte>>, parts: seq<seq<Value>>)
    requires r <= |lines| == |parts| && AllRecords(lines)
    requires forall i :: 0 <= i < |lines| ==>
               Contributes(lines, i, a, b, Cuts(chunks, a), CleanRecord(lines, i, a, chunks), parts[i])
    ensures Flatten(parts[r..]) == DocumentsRead(lines, r, a, b, Cuts(chunks, a))
    ensures AllReadAs(DocumentsInside(lines, r, a, b), Flatten(parts[r..]), CleanFrom(lines, r, a, b, chunks))
    decreases |lines| - r
  {
    hide *;
    if r == |lines| {
      NothingRead(lines, r, a, b, chunks, parts);
    } else {
      var cuts := Cuts(chunks, a);
      PartsTogether(lines, r + 1, a, b, chunks, parts);
      assert Contributes(lines, r, a, b, cuts, CleanRecord(lines, r, a, chunks), parts[r]);
      FlattenFrom(parts, r);
      CleanStep(lines, r, a, b, chunks);
      if Inside(lines, r, a, b) {
        var v, w := OneInside(lines, r, a, b, cuts, CleanRecord(lines, r, a, chunks), parts[r]);
        ReadAsCons(v, w, CleanRecord(lines, r, a, chunks), DocumentsInside(lines, r + 1, a, b),
                   Flatten(parts[r + 1..]), CleanFrom(lines, r + 1, a, b, chunks));
      } else {
        NoneInside(lines, r, a, b, cuts, CleanRecord(lines, r, a, chunks), parts[r]);
        assert [] + Flatten(parts[r + 1..]) == Flatten(parts[r + 1..]);
      }
    }
  }

  lemma FlattenFrom(parts: seq<seq<Value>>, r: nat)
    requires r < |parts|
    ensures Flatten(parts[r..]) == parts[r] + Flatten(parts[r + 1..])
  {
    assert parts[r..][1..] == parts[r + 1..];
  }

  lemma CleanStep(lines: seq<seq<Scalar>>, r: nat, a: nat, b: nat, chunks: seq<seq<Byte>>)
    requires r < |lines|
    ensures CleanFrom(lines, r, a, b, chunks) <==>
            (Inside(lines, r, a, b) ==> CleanRecord(lines, r, a, chunks)) && CleanFrom(lines, r + 1, a, b, chunks)
  {
    hide Inside, CleanRecord;
  }

  lemma OneInside(lines: seq<seq<Scalar>>, r: nat, a: nat, b: nat, cuts: set<int>, clean: bool, out: seq<Value>)
    returns (v: Value, w: Value)
    requires r < |lines| && AllRecords(lines) && Inside(lines, r, a, b)
    requires Contributes(lines, r, a, b, cuts, clean, out)
    ensures out == [w] && ReadAs(v, w, clean)
    ensures DocumentsInside(lines, r, a, b) == [v] + DocumentsInside(lines, r + 1, a, b)
    ensures DocumentsRead(lines, r, a, b, cuts) == [w] + DocumentsRead(lines, r + 1, a, b, cuts)
  {
    hide Parse, Inside, ReadAs, LineRead;
    assert IsRecord(lines[r]);
    v, w := Parse(Utf16(lines[r])).value, out[0];
    assert out == [w];
  }

  lemma NoneInside(lines: seq<seq<Scalar>>, r: nat, a: nat, b: nat, cuts: set<int>, clean: bool, out: seq<Value>)
    requires r < |lines| && AllRecords(lines) && !Inside(lines, r, a, b)
    requires Contributes(lines, r, a, b, cuts, clean, out)
    ensures out == []
    ensures DocumentsInside(lines, r, a, b) == DocumentsInside(lines, r + 1, a, b)
    ensures DocumentsRead(lines, r, a, b, cuts) == DocumentsRead(lines, r + 1, a, b, cuts)
  {
    hide Parse, Inside, ReadAs, LineRead;
    assert IsRecord(lines[r]);
    assert [] + DocumentsInside(lines, r + 1, a, b) == DocumentsInside(lines, r + 1, a, b);
    assert [] + DocumentsRead(lines, r + 1, a, b, cuts) == DocumentsRead(lines, r + 1, a, b, cuts);
  }

  lemma NothingRead(lines: seq<seq<Scalar>>, r: nat, a: nat, b: nat, chunks: seq<seq<Byte>>, parts: seq<seq<Value>>)
    requires r == |lines| == |parts| && AllRecords(lines)
    ensures Flatten(parts[r..]) == DocumentsRead(lines, r, a, b, Cuts(chunks, a)) == DocumentsInside(lines, r, a, b)
    ensures AllReadAs(DocumentsInside(lines, r, a, b), Flatten(parts[r..]), CleanFrom(lines, r, a, b, chunks))
  {
  }

  /** For every journal of JSON objects, every byte window of it and every way the window arrives
      in read responses: as many documents come out as records lie inside the window, in order, each
      parsed from its damaged line and that record's own but for characters outside ASCII; and they
      are the records' own if and only if no chunk that starts strictly inside one of the records
      splits a scalar or starts with U+FEFF. Unless a document repeats a key, even JavaScript can
      tell. If a response throws, the window is what the responses before it carried. */
  lemma WindowTheorem(lines: seq<seq<Scalar>>, a: nat, b: nat, responses: Stream<Option<Value>>)
    requires AllRecords(lines)
    requires a <= b <= |Journal(lines)| && Journal(lines)[a..b] == Flatten(Contents(responses).chunks)
    ensures JournalDocuments(responses).failed == Contents(responses).failed
    ensures JournalDocuments(responses).chunks == DocumentsRead(lines, 0, a, b, Cuts(Contents(responses).chunks, a))
    ensures var inside, docs := DocumentsInside(lines, 0, a, b), JournalDocuments(responses).chunks;
            var clean := CleanWindow(lines, a, b, Contents(responses).chunks);
            && |docs| == |inside|
            && (forall i :: 0 <= i < |inside| ==> BlurredValue(inside[i], docs[i]))
            && (docs == inside <==> clean)
            && (NoneRepeats(inside) ==> (AllAlike(inside, docs) <==> clean))
  {
    hide Journal, DocumentsInside, CleanFrom, Contributes, JournalDocuments, Contents, DocumentsRead, Cuts;
    hide BlurredValue, Flatten, Alike, NoneRepeats, AllAlike;
    var parts := DamageIsLocal(lines, a, b, responses);
    PartsTogether(lines, 0, a, b, Contents(responses).chunks, parts);
    assert parts[0..] == parts;
  }

  /** When the stream of documents fails. */
  lemma WindowFails(responses: Stream<Option<Value>>)
    ensures JournalDocuments(responses).failed <==>
            responses.failed || exists i :: 0 <= i < |responses.chunks| && CarriesContent(responses.chunks[i], Throw)
  {
    hide Documents, Emitted, CarriesContent, ContentBytes;
    ResponsesText(responses);
    EmittedFails(ContentBytes, responses.chunks);
    forall i | 0 <= i < |responses.chunks|
      ensures ContentBytes(responses.chunks[i]).Throw? <==> CarriesContent(responses.chunks[i], Throw)
    {
      ContentMeans(responses.chunks[i]);
      if CarriesContent(responses.chunks[i], Throw) {
        CarriesOne(responses.chunks[i], Throw, ContentBytes(responses.chunks[i]));
      }
    }
  }

  /** The window theorem for responses as a broker sends them: each has some chunk of the window, in
      base64, as its last member named "content", or no such member. */
  lemma CarriedWindow(lines: seq<seq<Scalar>>, a: nat, b: nat, chunks: seq<seq<Byte>>,
                      responses: Stream<Option<Value>>)
    requires AllRecords(lines) && CarryAll(responses.chunks, chunks)
    requires a <= b <= |Journal(lines)| && Journal(lines)[a..b] == Flatten(chunks)
    ensures JournalDocuments(responses) == Stream(DocumentsRead(lines, 0, a, b, Cuts(chunks, a)), responses.failed)
    ensures AllReadAs(DocumentsInside(lines, 0, a, b), JournalDocuments(responses).chunks,
                      CleanWindow(lines, a, b, chunks))
  {
    hide Journal, DocumentsInside, CleanFrom, JournalDocuments, DocumentsRead, Cuts, CarryAll, Emitted;
    hide BlurredValue, Flatten, Alike;
    CarriedContents(responses.chunks, chunks);
    WindowTheorem(lines, a, b, responses);
  }

  lemma WholeLength(chunks: seq<seq<Byte>>)
    ensures |Flatten(chunks)| == Offset(chunks, |chunks|)
  {
    OffsetFlatten(chunks, |chunks|);
    assert chunks[..|chunks|] == chunks;
  }
}
