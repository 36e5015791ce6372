/** Decoding a byte stream chunk by chunk, each chunk with a decoder of its own, compared with
    decoding it whole. The chunks are seen as cuts in one long byte sequence. */
module ChunkedDecode {
  import opened Units
  import opened Utf8

  // ----- Chunks and their offsets

  function Offset<T>(chunks: seq<seq<T>>, i: nat): nat
    requires i <= |chunks|
  {
    if i == 0 then 0 else Offset(chunks, i - 1) + |chunks[i - 1]|
  }

  lemma {:induction false} OffsetMonotone<T>(chunks: seq<seq<T>>, i: nat, j: nat)
    requires i <= j <= |chunks|
    ensures Offset(chunks, i) <= Offset(chunks, j)
  {
    if i < j { OffsetMonotone(chunks, i, j - 1); }
  }

  lemma {:induction false} OffsetFlatten<T>(chunks: seq<seq<T>>, i: nat)
    requires i <= |chunks|
    ensures |Flatten(chunks[..i])| == Offset(chunks, i)
  {
    if i > 0 {
      OffsetFlatten(chunks, i - 1);
      assert chunks[..i] == chunks[..i - 1] + [chunks[i - 1]];
      FlattenSnoc(chunks[..i - 1], chunks[i - 1]);
    }
  }

  lemma ChunkAt<T>(chunks: seq<seq<T>>, i: nat)
    requires i < |chunks|
    ensures Offset(chunks, i + 1) <= |Flatten(chunks)| == Offset(chunks, |chunks|)
    ensures Flatten(chunks)[Offset(chunks, i)..Offset(chunks, i + 1)] == chunks[i]
  {
    OffsetFlatten(chunks, i);
    OffsetFlatten(chunks, |chunks|);
    assert chunks[..|chunks|] == chunks;
    assert chunks[..i + 1] == chunks[..i] + [chunks[i]];
    FlattenSnoc(chunks[..i], chunks[i]);
    TwoParts(chunks, i + 1);
    FlattenConcat(chunks[..i + 1], chunks[i + 1..]);
  }

  lemma TwoParts<T>(s: seq<T>, i: nat)
    requires i <= |s|
    ensures s[..i] + s[i..] == s
  {
  }

  lemma SliceOfSlice<T>(s: seq<T>, a: nat, b: nat, i: nat, j: nat)
    requires a <= b <= |s| && i <= j <= b - a
    ensures s[a..b][i..j] == s[a + i..a + j]
  {
    var t := s[a..b];
    assert forall k :: 0 <= k < j - i ==> t[i..j][k] == t[i + k] == s[a + i + k] == s[a + i..a + j][k];
  }

  /** What a fresh `TextDecoder` per chunk produces for the first `n` chunks. */
  function PerChunk(chunks: seq<seq<Byte>>, n: nat): seq<Scalar>
    requires n <= |chunks|
  {
    if n == 0 then [] else PerChunk(chunks, n - 1) + Decode(chunks[n - 1])
  }

  function Cuts(chunks: seq<seq<Byte>>, base: nat): set<int> {
    set i | 0 <= i < |chunks| :: base + Offset(chunks, i)
  }

  // ----- A reader over one byte sequence whose decoder is flushed and replaced at every cut

  datatype Reader = Reader(dec: Decoder, seen: bool)

  const FRESH := Reader(START, false)

  function ReadByte(r: Reader, b: Byte): (Reader, seq<Scalar>) {
    var (dec, out) := Step(r.dec, b);
    var (seen, kept) := Serialize(r.seen, out);
    (Reader(dec, seen), kept)
  }

  function ReadAt(bytes: seq<Byte>, cuts: set<int>, r: Reader, p: nat): (Reader, seq<Scalar>)
    requires p < |bytes|
  {
    var (next, out) := ReadByte(if p in cuts then FRESH else r, bytes[p]);
    (next, (if p in cuts then Finish(r.dec) else []) + out)
  }

  function Run(bytes: seq<Byte>, cuts: set<int>, r: Reader, p: nat, q: nat): (Reader, seq<Scalar>)
    requires p <= q <= |bytes|
    decreases q - p
  {
    if p == q then (r, [])
    else
      var (mid, out) := ReadAt(bytes, cuts, r, p);
      var (end, rest) := Run(bytes, cuts, mid, p + 1, q);
      (end, out + rest)
  }

  lemma {:induction false} RunSplit(bytes: seq<Byte>, cuts: set<int>, r: Reader, p: nat, m: nat, q: nat)
    requires p <= m <= q <= |bytes|
    ensures var (mid, out) := Run(bytes, cuts, r, p, m);
            var (end, rest) := Run(bytes, cuts, mid, m, q);
            Run(bytes, cuts, r, p, q) == (end, out + rest)
    decreases m - p
  {
    hide ReadAt;
    var (mid, out) := Run(bytes, cuts, r, p, m);
    var (end, rest) := Run(bytes, cuts, mid, m, q);
    if p == m {
      assert out + rest == rest;
    } else {
      var (next, first) := ReadAt(bytes, cuts, r, p);
      RunSplit(bytes, cuts, next, p + 1, m, q);
      assert out + rest == first + (Run(bytes, cuts, next, p + 1, m).1 + rest);
    }
  }

  /** One decoder over a stretch of bytes, after the flush that a cut at its start asks for. */
  function Uncut(cut: bool, r: Reader, bytes: seq<Byte>): (Reader, seq<Scalar>) {
    var from := if cut then FRESH else r;
    var (dec, out) := Feed(from.dec, bytes);
    var (seen, kept) := Serialize(from.seen, out);
    (Reader(dec, seen), (if cut then Finish(r.dec) else []) + kept)
  }

  lemma UncutOne(cut: bool, r: Reader, b: Byte)
    ensures var (next, out) := ReadByte(if cut then FRESH else r, b);
            Uncut(cut, r, [b]) == (next, (if cut then Finish(r.dec) else []) + out)
  {
    hide Step, Feed;
    FeedOne((if cut then FRESH else r).dec, b);
  }

  lemma UncutConcat(cut: bool, r: Reader, a: seq<Byte>, b: seq<Byte>)
    ensures var (mid, out) := Uncut(cut, r, a);
            var (end, rest) := Uncut(false, mid, b);
            Uncut(cut, r, a + b) == (end, out + rest)
  {
    hide Step, Feed, Serialize;
    var from := if cut then FRESH else r;
    var flushed := if cut then Finish(r.dec) else [];
    FeedConcat(from.dec, a, b);
    var (dec, out) := Feed(from.dec, a);
    var rest := Feed(dec, b).1;
    SerializeConcat(from.seen, out, rest);
    var (seen, kept) := Serialize(from.seen, out);
    var kept' := Serialize(seen, rest).1;
    assert [] + kept' == kept';
    Assoc(flushed, kept, kept');
  }

  /** Between two cuts the reader is one decoder fed with the bytes in between. */
  lemma {:induction false} RunUncut(bytes: seq<Byte>, cuts: set<int>, r: Reader, p: nat, q: nat)
    requires p < q <= |bytes|
    requires forall x :: p < x < q ==> x !in cuts
    ensures Run(bytes, cuts, r, p, q) == Uncut(p in cuts, r, bytes[p..q])
    decreases q - p
  {
    hide Uncut, ReadByte;
    var (mid, out) := ReadAt(bytes, cuts, r, p);
    UncutOne(p in cuts, r, bytes[p]);
    if p + 1 == q {
      assert bytes[p..q] == [bytes[p]];
      assert out + [] == out;
    } else {
      assert bytes[p..q] == [bytes[p]] + bytes[p + 1..q];
      UncutConcat(p in cuts, r, [bytes[p]], bytes[p + 1..q]);
      RunUncut(bytes, cuts, mid, p + 1, q);
    }
  }

  lemma ReadAtAscii(bytes: seq<Byte>, cuts: set<int>, r: Reader, p: nat)
    requires p < |bytes|
    ensures Ascii(ReadAt(bytes, cuts, r, p).1) == Ascii([bytes[p]])
  {
    hide Step, Ascii;
    var from := if p in cuts then FRESH else r;
    var flushed := if p in cuts then Finish(r.dec) else [];
    var out := Step(from.dec, bytes[p]).1;
    StepAscii(from.dec, bytes[p]);
    var kept := Serialize(from.seen, out).1;
    if kept != out {
      assert out == [BOM] + kept;
      AsciiConcat([BOM], kept);
      AsciiEmpty([BOM]);
      assert [] + Ascii(kept) == Ascii(kept);
    }
    AsciiConcat(flushed, kept);
    AsciiEmpty(flushed);
    assert [] + Ascii(kept) == Ascii(kept);
  }

  /** Every ASCII byte comes out as itself and nothing else comes out as ASCII, wherever the cuts are. */
  lemma {:induction false} RunAscii(bytes: seq<Byte>, cuts: set<int>, r: Reader, p: nat, q: nat)
    requires p <= q <= |bytes|
    ensures Ascii(Run(bytes, cuts, r, p, q).1) == Ascii(bytes[p..q])
    decreases q - p
  {
    hide ReadAt;
    if p == q {
      assert bytes[p..q] == [];
    } else {
      var (mid, first) := ReadAt(bytes, cuts, r, p);
      ReadAtAscii(bytes, cuts, r, p);
      RunAscii(bytes, cuts, mid, p + 1, q);
      AsciiConcat(first, Run(bytes, cuts, mid, p + 1, q).1);
      assert bytes[p..q] == [bytes[p]] + bytes[p + 1..q];
      AsciiConcat([bytes[p]], bytes[p + 1..q]);
    }
  }

  lemma DecodeNothing()
    ensures Decode([]) == []
  {
    assert Feed(START, []) == (START, []);
  }

  lemma DecodeParts(chunk: seq<Byte>)
    ensures var (dec, out) := Feed(START, chunk);
            Decode(chunk) == Serialize(false, out).1 + Finish(dec)
  {
    hide Step, Feed;
    var (dec, out) := Feed(START, chunk);
    if out == [] {
      assert out + Finish(dec) == Finish(dec);
    } else {
      assert (out + Finish(dec))[1..] == out[1..] + Finish(dec);
    }
  }

  lemma UncutDecode(r: Reader, chunk: seq<Byte>)
    ensures var (end, out) := Uncut(true, r, chunk);
            Finish(r.dec) + Decode(chunk) == out + Finish(end.dec)
  {
    hide Step, Feed, Serialize, Finish, Decode;
    DecodeParts(chunk);
    var (dec, out) := Feed(START, chunk);
    Assoc(Finish(r.dec), Serialize(false, out).1, Finish(dec));
  }

  /** One chunk, read as a stretch of bytes between two cuts. */
  lemma RunChunk(bytes: seq<Byte>, cuts: set<int>, r: Reader, p: nat, q: nat)
    requires p <= q <= |bytes|
    requires p < q ==> p in cuts
    requires forall x :: p < x < q ==> x !in cuts
    ensures var (end, out) := Run(bytes, cuts, r, p, q);
            Finish(r.dec) + Decode(bytes[p..q]) == out + Finish(end.dec)
  {
    hide Uncut, Decode, Finish;
    if p == q {
      assert bytes[p..q] == [];
      DecodeNothing();
      assert Finish(r.dec) + [] == Finish(r.dec) == [] + Finish(r.dec);
    } else {
      RunUncut(bytes, cuts, r, p, q);
      UncutDecode(r, bytes[p..q]);
    }
  }

  lemma CutHere(chunks: seq<seq<Byte>>, base: nat, n: nat)
    requires n < |chunks|
    ensures base + Offset(chunks, n) in Cuts(chunks, base)
  {
  }

  lemma CutsApart(chunks: seq<seq<Byte>>, base: nat, n: nat, x: int)
    requires n < |chunks|
    requires base + Offset(chunks, n) < x < base + Offset(chunks, n + 1)
    ensures x !in Cuts(chunks, base)
  {
    if x in Cuts(chunks, base) {
      var i :| 0 <= i < |chunks| && x == base + Offset(chunks, i);
      if i <= n { OffsetMonotone(chunks, i, n); } else { OffsetMonotone(chunks, n + 1, i); }
      assert false;
    }
  }

  lemma ChunkSlice(bytes: seq<Byte>, base: nat, lim: nat, chunks: seq<seq<Byte>>, i: nat)
    requires base <= lim <= |bytes| && bytes[base..lim] == Flatten(chunks)
    requires i < |chunks|
    ensures base + Offset(chunks, i) <= base + Offset(chunks, i + 1) <= lim
    ensures bytes[base + Offset(chunks, i)..base + Offset(chunks, i + 1)] == chunks[i]
  {
    ChunkAt(chunks, i);
    SliceOfSlice(bytes, base, lim, Offset(chunks, i), Offset(chunks, i + 1));
  }

  lemma RunNothing(bytes: seq<Byte>, cuts: set<int>, r: Reader, p: nat)
    requires p <= |bytes|
    ensures Run(bytes, cuts, r, p, p) == (r, [])
    ensures r == FRESH ==> [] + Finish(r.dec) == []
  {
  }

  /** The reader over the cuts of some chunks produces what the chunks produce one by one. */
  lemma {:induction false} RunIsPerChunk(bytes: seq<Byte>, base: nat, lim: nat, chunks: seq<seq<Byte>>, n: nat)
    requires n <= |chunks| && base <= lim <= |bytes|
    requires bytes[base..lim] == Flatten(chunks)
    ensures base + Offset(chunks, n) <= lim
    ensures var (end, out) := Run(bytes, Cuts(chunks, base), FRESH, base, base + Offset(chunks, n));
            PerChunk(chunks, n) == out + Finish(end.dec)
  {
    hide Run, Finish, Decode, Flatten, Cuts;
    if n == 0 {
      RunNothing(bytes, Cuts(chunks, base), FRESH, base);
    } else {
      var cuts := Cuts(chunks, base);
      var p, q := base + Offset(chunks, n - 1), base + Offset(chunks, n);
      RunIsPerChunk(bytes, base, lim, chunks, n - 1);
      ChunkSlice(bytes, base, lim, chunks, n - 1);
      CutHere(chunks, base, n - 1);
      forall x | p < x < q ensures x !in cuts { CutsApart(chunks, base, n - 1, x); }
      var (mid, before) := Run(bytes, cuts, FRESH, base, p);
      RunChunk(bytes, cuts, mid, p, q);
      RunSplit(bytes, cuts, FRESH, base, p, q);
      var (end, out) := Run(bytes, cuts, mid, p, q);
      Assoc(before, Finish(mid.dec), Decode(chunks[n - 1]));
      Assoc(before, out, Finish(end.dec));
    }
  }
}
