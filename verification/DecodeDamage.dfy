/** Exactly which cuts damage a well-formed text that is decoded chunk by chunk, and how. */
module DecodeDamage {
  import opened Units
  import opened Blur
  import opened Utf8
  import opened ChunkedDecode

  /** A cut before position `p` does damage: it splits a scalar, or it puts U+FEFF at the start
      of a chunk, where a decoder takes it for a byte order mark. */
  predicate Dirty(bytes: seq<Byte>, p: int) {
    0 <= p < |bytes| && (IsContinuation(bytes[p]) || StartsWithBom(bytes[p..]))
  }

  ghost predicate CleanInside(bytes: seq<Byte>, cuts: set<int>, p: int, q: int) {
    forall x :: p < x < q && x in cuts ==> !Dirty(bytes, x)
  }

  // ----- What a cut scalar comes out as

  function Replacements(n: nat): (cs: seq<Scalar>)
    ensures |cs| == n && forall i :: 0 <= i < n ==> cs[i] == REPLACEMENT
  {
    if n == 0 then [] else [REPLACEMENT] + Replacements(n - 1)
  }

  lemma {:induction false} ReplacementsWeigh(n: nat)
    ensures Weight(Replacements(n)) == n
  {
    if n > 0 { ReplacementsWeigh(n - 1); }
  }

  /** The first cut from `k` on, or `q` if there is none before it. */
  function FirstCut(cuts: set<int>, k: nat, q: nat): (first: nat)
    requires k <= q
    ensures k <= first <= q && forall x :: k <= x < first ==> x !in cuts
    ensures first < q ==> first in cuts
    decreases q - k
  {
    if k == q || k in cuts then k else FirstCut(cuts, k + 1, q)
  }

  lemma {:induction false} RunGarbage(bytes: seq<Byte>, cuts: set<int>, r: Reader, p: nat, q: nat)
    requires p <= q <= |bytes| && r.dec == START
    requires forall x :: p <= x < q ==> IsContinuation(bytes[x])
    ensures Run(bytes, cuts, r, p, q) == (Reader(START, r.seen || p < q), Replacements(q - p))
    decreases q - p
  {
    if p < q {
      ReadGarbage(bytes, cuts, r, p);
      RunGarbage(bytes, cuts, Reader(START, true), p + 1, q);
    }
  }

  lemma ReadGarbage(bytes: seq<Byte>, cuts: set<int>, r: Reader, p: nat)
    requires p < |bytes| && r.dec == START && IsContinuation(bytes[p])
    ensures ReadAt(bytes, cuts, r, p) == (Reader(START, true), [REPLACEMENT])
  {
    var (mid, out) := ReadAt(bytes, cuts, r, p);
    assert out == [REPLACEMENT] && mid == Reader(START, true);
  }

  /** A scalar with no cut inside it comes out whole, unless it is taken for a byte order mark. */
  lemma WholeScalar(bytes: seq<Byte>, cuts: set<int>, r: Reader, p: nat, q: nat, c: Scalar)
    requires p < q <= |bytes| && bytes[p..q] == Encode1(c)
    requires r.dec == START
    requires forall x :: p < x < q ==> x !in cuts
    ensures Run(bytes, cuts, r, p, q)
         == (Reader(START, true), if (p in cuts || !r.seen) && c == BOM then [] else [c])
  {
    hide Step, Encode1, Feed, Run;
    RunUncut(bytes, cuts, r, p, q);
    Feed1(c);
    assert [c][1..] == [] && Finish(START) == [];
    var kept := Serialize(p !in cuts && r.seen, [c]).1;
    assert [] + kept == kept;
  }

  /** A scalar with a cut inside it turns into one replacement character for the bytes before its
      first cut and one for each byte behind. */
  lemma SplitScalar(bytes: seq<Byte>, cuts: set<int>, r: Reader, p: nat, k: nat, q: nat, c: Scalar)
    requires p < k < q <= |bytes| && bytes[p..q] == Encode1(c)
    requires r.dec == START
    requires k in cuts && forall x :: p < x < k ==> x !in cuts
    ensures Run(bytes, cuts, r, p, q) == (Reader(START, true), Replacements(q - k + 1))
  {
    hide Step, Encode1, Feed, Run, Replacements;
    Encode1Shape(c);
    SliceOfSlice(bytes, p, q, 0, k - p);
    assert bytes[p..k] == Encode1(c)[..k - p];
    FeedPrefix(c, k - p);
    RunUncut(bytes, cuts, r, p, k);
    var (mid, before) := Run(bytes, cuts, r, p, k);
    assert mid.dec.needed != 0 && before == [];
    forall x | p < x < q ensures IsContinuation(bytes[x]) {
      assert bytes[x] == bytes[p..q][x - p];
    }
    SplitTail(bytes, cuts, mid, k, q);
    RunSplit(bytes, cuts, r, p, k, q);
    var rest := Run(bytes, cuts, mid, k, q).1;
    assert before + rest == rest;
  }

  lemma SplitTail(bytes: seq<Byte>, cuts: set<int>, r: Reader, k: nat, q: nat)
    requires k < q <= |bytes| && r.dec.needed != 0 && k in cuts
    requires forall x :: k <= x < q ==> IsContinuation(bytes[x])
    ensures Run(bytes, cuts, r, k, q) == (Reader(START, true), Replacements(q - k + 1))
  {
    hide ReadAt;
    CutGarbage(bytes, cuts, r, k);
    RunGarbage(bytes, cuts, Reader(START, true), k + 1, q);
    var rest := Replacements(q - (k + 1));
    assert Run(bytes, cuts, r, k, q) == (Reader(START, true), [REPLACEMENT, REPLACEMENT] + rest);
    assert Replacements(q - k) == [REPLACEMENT] + rest;
    assert Replacements(q - k + 1) == [REPLACEMENT] + Replacements(q - k) == [REPLACEMENT, REPLACEMENT] + rest;
  }

  /** A continuation byte behind a cut: the flush of what came before it, and itself. */
  lemma CutGarbage(bytes: seq<Byte>, cuts: set<int>, r: Reader, k: nat)
    requires k < |bytes| && r.dec.needed != 0 && k in cuts && IsContinuation(bytes[k])
    ensures ReadAt(bytes, cuts, r, k) == (Reader(START, true), [REPLACEMENT, REPLACEMENT])
  {
    var (mid, out) := ReadAt(bytes, cuts, r, k);
    assert out == [REPLACEMENT] + [REPLACEMENT] == [REPLACEMENT, REPLACEMENT] && mid == Reader(START, true);
  }

  /** What the scalar that starts at `p` comes out as; `start` says that it opens a chunk, or the
      stream, where U+FEFF is taken for a byte order mark. */
  function DamagedScalar(start: bool, c: Scalar, p: nat, cuts: set<int>): seq<Scalar> {
    var q := p + |Encode1(c)|;
    var k := FirstCut(cuts, p + 1, q);
    if k < q then Replacements(q - k + 1) else if start && c == BOM then [] else [c]
  }

  /** What the text that starts at `p` comes out as. */
  function Damaged(start: bool, cs: seq<Scalar>, p: nat, cuts: set<int>): seq<Scalar>
    decreases |cs|
  {
    if cs == [] then []
    else
      var q := p + |Encode1(cs[0])|;
      DamagedScalar(start, cs[0], p, cuts) + Damaged(q in cuts, cs[1..], q, cuts)
  }

  lemma ScalarComesOut(bytes: seq<Byte>, cuts: set<int>, r: Reader, p: nat, q: nat, c: Scalar)
    requires p < q <= |bytes| && bytes[p..q] == Encode1(c)
    requires r.dec == START
    ensures q == p + |Encode1(c)|
    ensures Run(bytes, cuts, r, p, q) == (Reader(START, true), DamagedScalar(p in cuts || !r.seen, c, p, cuts))
  {
    hide Run, Encode1, Replacements;
    assert |bytes[p..q]| == q - p;
    var k := FirstCut(cuts, p + 1, q);
    if k < q {
      SplitScalar(bytes, cuts, r, p, k, q, c);
    } else {
      WholeScalar(bytes, cuts, r, p, q, c);
    }
  }

  /** What a text must come out as when its first scalar may be taken for a byte order mark. */
  function Expected(start: bool, cs: seq<Scalar>): seq<Scalar> {
    if start then StripBom(cs) else cs
  }

  lemma FirstSlice(bytes: seq<Byte>, p: nat, q: nat, a: seq<Byte>, b: seq<Byte>)
    requires p <= q <= |bytes| && bytes[p..q] == a + b
    ensures p + |a| <= q
    ensures bytes[p..p + |a|] == a && bytes[p + |a|..q] == b
  {
    var n := |a|;
    var s := a + b;
    assert |bytes[p..q]| == |s|;
    SliceOfSlice(bytes, p, q, 0, n);
    SliceOfSlice(bytes, p, q, n, q - p);
    assert s[..n] == a && s[n..q - p] == b;
    assert s[0..n] == s[..n];
  }

  lemma ScalarBytes(bytes: seq<Byte>, p: nat, m: nat, c: Scalar)
    requires p < m <= |bytes| && bytes[p..m] == Encode1(c)
    ensures Dirty(bytes, p) <==> c == BOM
    ensures forall x :: p < x < m ==> Dirty(bytes, x)
  {
    Encode1Shape(c);
    var e := bytes[p..m];
    forall x | p <= x < m ensures bytes[x] == Encode1(c)[x - p] {
      assert bytes[x] == e[x - p];
    }
    var tail := bytes[p..];
    if |tail| >= 3 {
      assert tail[0] == bytes[p] && tail[1] == bytes[p + 1] && tail[2] == bytes[p + 2];
    }
    if StartsWithBom(tail) {
      assert e[0] == 0xEF;
      assert m - p == 3;
      assert e[1] == 0xBB && e[2] == 0xBF;
    }
    if c == BOM {
      assert m - p == 3;
    }
  }

  lemma FirstScalar(bytes: seq<Byte>, p: nat, q: nat, cs: seq<Scalar>)
    requires p <= q <= |bytes| && bytes[p..q] == Encode(cs) && cs != []
    ensures p + |Encode1(cs[0])| <= q
    ensures bytes[p..p + |Encode1(cs[0])|] == Encode1(cs[0])
    ensures bytes[p + |Encode1(cs[0])|..q] == Encode(cs[1..])
    ensures Dirty(bytes, p) <==> cs[0] == BOM
    ensures forall x :: p < x < p + |Encode1(cs[0])| ==> Dirty(bytes, x)
  {
    hide Encode1, Dirty;
    FirstSlice(bytes, p, q, Encode1(cs[0]), Encode(cs[1..]));
    ScalarBytes(bytes, p, p + |Encode1(cs[0])|, cs[0]);
  }

  /** Exactly what comes out of the chunked reader for a text, wherever the cuts are. */
  lemma {:induction false} RunDamaged(bytes: seq<Byte>, cuts: set<int>, r: Reader, p: nat, q: nat, cs: seq<Scalar>)
    requires p <= q <= |bytes| && bytes[p..q] == Encode(cs)
    requires r.dec == START
    ensures Run(bytes, cuts, r, p, q)
         == (Reader(START, r.seen || cs != []), Damaged(p in cuts || !r.seen, cs, p, cuts))
    decreases |cs|
  {
    hide ReadAt, Encode1, Dirty, DamagedScalar;
    if cs == [] {
      assert p == q;
    } else {
      var m := p + |Encode1(cs[0])|;
      FirstScalar(bytes, p, q, cs);
      ScalarComesOut(bytes, cuts, r, p, m, cs[0]);
      RunDamaged(bytes, cuts, Reader(START, true), m, q, cs[1..]);
      RunSplit(bytes, cuts, r, p, m, q);
    }
  }

  lemma ExpectedWeight(start: bool, cs: seq<Scalar>)
    ensures Weight(Expected(start, cs)) == Weight(cs) + (if start && cs != [] && cs[0] == BOM then 1 else 0)
  {
  }

  lemma ScalarDamage(start: bool, c: Scalar, p: nat, cuts: set<int>)
    ensures var q, out := p + |Encode1(c)|, DamagedScalar(start, c, p, cuts);
            && ((forall x :: p < x < q ==> x !in cuts) ==> out == if start && c == BOM then [] else [c])
            && ((exists x :: p < x < q && x in cuts) ==> Weight(out) >= 2 && |out| >= 2)
            && Block(c, out)
  {
    hide Encode1;
    var q := p + |Encode1(c)|;
    var k := FirstCut(cuts, p + 1, q);
    ReplacementsWeigh(q - k + 1);
    if c < 0x80 { OneByte(c); }
  }

  lemma OneByte(c: Scalar)
    requires c < 0x80
    ensures |Encode1(c)| == 1 && c != BOM
  {
  }

  /** One text: it comes out as expected exactly when no cut inside it is dirty, and any dirty
      cut makes what comes out heavier. */
  lemma {:induction false} DamagedText(bytes: seq<Byte>, cuts: set<int>, start: bool, p: nat, q: nat, cs: seq<Scalar>)
    requires p <= q <= |bytes| && bytes[p..q] == Encode(cs)
    ensures var out, expected := Damaged(start, cs, p, cuts), Expected(start, cs);
            if CleanInside(bytes, cuts, p, q) then out == expected else Weight(out) > Weight(expected)
    decreases |cs|
  {
    hide Encode1, Dirty, DamagedScalar, CleanInside, Weight;
    if cs == [] {
      NothingInside(bytes, cuts, p);
    } else {
      var m := p + |Encode1(cs[0])|;
      FirstScalar(bytes, p, q, cs);
      ScalarDamage(start, cs[0], p, cuts);
      DamagedText(bytes, cuts, m in cuts, m, q, cs[1..]);
      if cs[1..] != [] { FirstScalar(bytes, m, q, cs[1..]); }
      CleanParts(bytes, cuts, p, m, q);
      TextPieces(start, cs, exists x :: p < x < m && x in cuts, DamagedScalar(start, cs[0], p, cuts),
                 m in cuts, CleanInside(bytes, cuts, m, q), Damaged(m in cuts, cs[1..], m, cuts));
    }
  }

  lemma NothingInside(bytes: seq<Byte>, cuts: set<int>, p: int)
    ensures CleanInside(bytes, cuts, p, p)
  {
  }

  lemma WeightHead(cs: seq<Scalar>)
    requires cs != []
    ensures Weight(cs) == WeightOf(cs[0]) + Weight(cs[1..])
    ensures Weight([cs[0]]) == WeightOf(cs[0]) && Weight([]) == 0
  {
    assert [cs[0]][1..] == [];
  }

  /** The step of the induction: the first scalar and the rest of the text put together. */
  lemma TextPieces(start: bool, cs: seq<Scalar>, split: bool, first: seq<Scalar>,
                   cut: bool, clean: bool, second: seq<Scalar>)
    requires cs != []
    requires if split then Weight(first) >= 2 else first == if start && cs[0] == BOM then [] else [cs[0]]
    requires if clean then second == Expected(cut, cs[1..]) else Weight(second) > Weight(Expected(cut, cs[1..]))
    ensures if !split && clean && !(cut && cs[1..] != [] && cs[1] == BOM) then first + second == Expected(start, cs)
            else Weight(first + second) > Weight(Expected(start, cs))
  {
    hide Weight, Expected;
    var rest := cs[1..];
    var marked := cut && rest != [] && rest[0] == BOM;
    WeightConcat(first, second);
    ExpectedWeight(cut, rest);
    ExpectedWeight(start, cs);
    WeightHead(cs);
    if !split && clean && !marked { PiecesJoin(start, cs, cut); }
  }

  lemma PiecesJoin(start: bool, cs: seq<Scalar>, cut: bool)
    requires cs != [] && !(cut && cs[1..] != [] && cs[1] == BOM)
    ensures (if start && cs[0] == BOM then [] else [cs[0]]) + Expected(cut, cs[1..]) == Expected(start, cs)
  {
    assert [cs[0]] + cs[1..] == cs && [] + cs[1..] == cs[1..];
  }

  /** A cut inside a text is inside its first scalar, behind it, or inside the rest. */
  lemma CleanParts(bytes: seq<Byte>, cuts: set<int>, p: nat, m: nat, q: nat)
    requires p < m <= q <= |bytes| && forall x :: p < x < m ==> Dirty(bytes, x)
    ensures CleanInside(bytes, cuts, p, q) <==>
            && (forall x :: p < x < m ==> x !in cuts)
            && CleanInside(bytes, cuts, m, q) && !(m < q && m in cuts && Dirty(bytes, m))
  {
    hide Dirty;
  }

  /** In a text without U+FEFF, a dirty cut leaves strictly more scalars. */
  lemma {:induction false} DamagedLength(bytes: seq<Byte>, cuts: set<int>, start: bool, p: nat, q: nat, cs: seq<Scalar>)
    requires p <= q <= |bytes| && bytes[p..q] == Encode(cs) && BOM !in cs
    ensures var out := Damaged(start, cs, p, cuts);
            |out| >= |cs| && (!CleanInside(bytes, cuts, p, q) ==> |out| > |cs|)
    decreases |cs|
  {
    hide Encode1, Dirty, DamagedScalar;
    if cs == [] {
      assert p == q;
    } else {
      var rest, m := cs[1..], p + |Encode1(cs[0])|;
      FirstScalar(bytes, p, q, cs);
      ScalarDamage(start, cs[0], p, cuts);
      DamagedLength(bytes, cuts, m in cuts, m, q, rest);
      if rest != [] {
        FirstScalar(bytes, m, q, rest);
        assert rest[0] in cs;
      }
      if !CleanInside(bytes, cuts, p, q) && CleanInside(bytes, cuts, m, q) {
        var x :| p < x < q && x in cuts && Dirty(bytes, x);
        assert x < m;
      }
    }
  }

  /** Whatever the cuts, ASCII characters stay in place and any other character is replaced by
      characters outside ASCII. */
  lemma {:induction false} DamagedBlurs(start: bool, cs: seq<Scalar>, p: nat, cuts: set<int>)
    ensures Blurred(cs, Damaged(start, cs, p, cuts))
    decreases |cs|
  {
    hide Encode1, Blurred, DamagedScalar, Block;
    if cs == [] {
      BlurredNothing();
    } else {
      var q := p + |Encode1(cs[0])|;
      ScalarDamage(start, cs[0], p, cuts);
      DamagedBlurs(q in cuts, cs[1..], q, cuts);
      BlurredCons(cs[0], DamagedScalar(start, cs[0], p, cuts), cs[1..], Damaged(q in cuts, cs[1..], q, cuts));
      assert [cs[0]] + cs[1..] == cs;
    }
  }

  // ----- The same condition read off the chunks themselves

  /** A chunk that starts with a continuation byte or with the three bytes of U+FEFF. */
  predicate DirtyChunk(chunk: seq<Byte>) {
    chunk != [] && (IsContinuation(chunk[0]) || StartsWithBom(chunk))
  }

  /** No chunk that starts strictly between `p` and `q` is dirty; the first chunk starts at `base`. */
  ghost predicate CleanChunks(chunks: seq<seq<Byte>>, base: nat, p: int, q: int) {
    forall i :: 0 <= i < |chunks| && p < base + Offset(chunks, i) < q ==> !DirtyChunk(chunks[i])
  }

  lemma {:induction false} NonEmptyAt(chunks: seq<seq<Byte>>, i: nat) returns (j: nat)
    requires i < |chunks| && Offset(chunks, i) < |Flatten(chunks)|
    ensures i <= j < |chunks| && Offset(chunks, j) == Offset(chunks, i) && chunks[j] != []
    decreases |chunks| - i
  {
    j := i;
    if chunks[i] == [] {
      ChunkAt(chunks, i);
      assert Offset(chunks, i + 1) == Offset(chunks, i);
      j := NonEmptyAt(chunks, i + 1);
    }
  }

  lemma {:induction false} MarkInside(bytes: seq<Byte>, p: nat, q: nat, cs: seq<Scalar>, x: nat)
    requires p <= x < q <= |bytes| && bytes[p..q] == Encode(cs)
    requires bytes[x] == 0xEF
    ensures x + 3 <= q
    decreases |cs|
  {
    hide Encode1, Dirty;
    assert |bytes[p..q]| == q - p;
    var m := p + |Encode1(cs[0])|;
    FirstScalar(bytes, p, q, cs);
    if m <= x {
      MarkInside(bytes, m, q, cs[1..], x);
    } else {
      assert bytes[x] == bytes[p..m][x - p];
      MarkLeads(cs[0], x - p);
    }
  }

  lemma MarkLeads(c: Scalar, j: nat)
    requires j < |Encode1(c)| && Encode1(c)[j] == 0xEF
    ensures j == 0 && |Encode1(c)| == 3
  {
    Encode1Shape(c);
  }

  lemma ChunkBytes(bytes: seq<Byte>, base: nat, lim: nat, chunks: seq<seq<Byte>>, i: nat, k: nat)
    requires base <= lim <= |bytes| && bytes[base..lim] == Flatten(chunks)
    requires i < |chunks| && k < |chunks[i]|
    ensures base + Offset(chunks, i) + k < lim
    ensures bytes[base + Offset(chunks, i) + k] == chunks[i][k]
  {
    ChunkSlice(bytes, base, lim, chunks, i);
    var a, b := base + Offset(chunks, i), base + Offset(chunks, i + 1);
    assert bytes[a..b][k] == bytes[a + k];
  }

  lemma DirtyChunkIsDirtyCut(bytes: seq<Byte>, base: nat, lim: nat, chunks: seq<seq<Byte>>, i: nat)
    requires base <= lim <= |bytes| && bytes[base..lim] == Flatten(chunks)
    requires i < |chunks| && DirtyChunk(chunks[i])
    ensures base + Offset(chunks, i) in Cuts(chunks, base)
    ensures Dirty(bytes, base + Offset(chunks, i))
  {
    hide Offset, Flatten;
    var x := base + Offset(chunks, i);
    ChunkBytes(bytes, base, lim, chunks, i, 0);
    CutHere(chunks, base, i);
    if StartsWithBom(chunks[i]) {
      ChunkBytes(bytes, base, lim, chunks, i, 1);
      ChunkBytes(bytes, base, lim, chunks, i, 2);
      var tail := bytes[x..];
      assert tail[0] == bytes[x] && tail[1] == bytes[x + 1] && tail[2] == bytes[x + 2];
    }
  }

  lemma DirtyCutIsDirtyChunk(bytes: seq<Byte>, base: nat, lim: nat, chunks: seq<seq<Byte>>,
                             p: nat, q: nat, cs: seq<Scalar>, x: nat)
    returns (i: nat)
    requires base <= p <= q <= lim <= |bytes| && bytes[base..lim] == Flatten(chunks)
    requires bytes[p..q] == Encode(cs)
    requires p < x < q && x in Cuts(chunks, base) && Dirty(bytes, x)
    ensures i < |chunks| && p < base + Offset(chunks, i) < q && DirtyChunk(chunks[i])
  {
    hide Encode;
    var k :| 0 <= k < |chunks| && x == base + Offset(chunks, k);
    i := NonEmptyAt(chunks, k);
    ChunkBytes(bytes, base, lim, chunks, i, 0);
    if !IsContinuation(bytes[x]) {
      var tail := bytes[x..];
      assert tail[0] == bytes[x] && tail[1] == bytes[x + 1] && tail[2] == bytes[x + 2];
      MarkInside(bytes, p, q, cs, x);
      if |chunks[i]| >= 3 {
        ChunkBytes(bytes, base, lim, chunks, i, 1);
        ChunkBytes(bytes, base, lim, chunks, i, 2);
      } else {
        ChunkAt(chunks, i);
        i := NonEmptyAt(chunks, i + 1);
        ChunkBytes(bytes, base, lim, chunks, i, 0);
      }
    }
  }

  lemma CleanInsideFromChunks(bytes: seq<Byte>, base: nat, lim: nat, chunks: seq<seq<Byte>>,
                             p: nat, q: nat, cs: seq<Scalar>)
    requires base <= p <= q <= lim <= |bytes| && bytes[base..lim] == Flatten(chunks)
    requires bytes[p..q] == Encode(cs)
    requires CleanChunks(chunks, base, p, q)
    ensures CleanInside(bytes, Cuts(chunks, base), p, q)
  {
    hide Encode, Dirty, DirtyChunk, Cuts, Flatten;
    if !CleanInside(bytes, Cuts(chunks, base), p, q) {
      var x: nat :| p < x < q && x in Cuts(chunks, base) && Dirty(bytes, x);
      var i := DirtyCutIsDirtyChunk(bytes, base, lim, chunks, p, q, cs, x);
      assert false;
    }
  }

  lemma CleanChunksFromInside(bytes: seq<Byte>, base: nat, lim: nat, chunks: seq<seq<Byte>>,
                             p: nat, q: nat, cs: seq<Scalar>)
    requires base <= p <= q <= lim <= |bytes| && bytes[base..lim] == Flatten(chunks)
    requires bytes[p..q] == Encode(cs)
    requires CleanInside(bytes, Cuts(chunks, base), p, q)
    ensures CleanChunks(chunks, base, p, q)
  {
    hide Encode, Dirty, DirtyChunk, Flatten;
    forall i: nat | i < |chunks| && p < base + Offset(chunks, i) < q ensures !DirtyChunk(chunks[i]) {
      if DirtyChunk(chunks[i]) { DirtyChunkIsDirtyCut(bytes, base, lim, chunks, i); }
    }
  }

  lemma CleanChunksIsCleanInside(bytes: seq<Byte>, base: nat, lim: nat, chunks: seq<seq<Byte>>,
                             p: nat, q: nat, cs: seq<Scalar>)
    requires base <= p <= q <= lim <= |bytes| && bytes[base..lim] == Flatten(chunks)
    requires bytes[p..q] == Encode(cs)
    ensures CleanChunks(chunks, base, p, q) <==> CleanInside(bytes, Cuts(chunks, base), p, q)
  {
    hide Encode, CleanChunks, CleanInside, Cuts, Flatten;
    if CleanChunks(chunks, base, p, q) {
      CleanInsideFromChunks(bytes, base, lim, chunks, p, q, cs);
    }
    if CleanInside(bytes, Cuts(chunks, base), p, q) {
      CleanChunksFromInside(bytes, base, lim, chunks, p, q, cs);
    }
  }

  // ----- The whole-input form against the per-chunk form

  /** Decoding a well-formed text chunk by chunk gives the text that decoding it whole gives
      exactly when no chunk after the first byte starts inside a scalar or with U+FEFF. */
  lemma {:induction false} PerChunkIsWhole(chunks: seq<seq<Byte>>, cs: seq<Scalar>)
    requires Flatten(chunks) == Encode(cs)
    ensures PerChunk(chunks, |chunks|) == Decode(Flatten(chunks)) <==>
            forall i :: 0 <= i < |chunks| && 0 < Offset(chunks, i) ==> !DirtyChunk(chunks[i])
    ensures PerChunk(chunks, |chunks|) != Decode(Flatten(chunks)) ==>
            Weight(PerChunk(chunks, |chunks|)) > Weight(Decode(Flatten(chunks)))
    ensures BOM !in cs && PerChunk(chunks, |chunks|) != Decode(Flatten(chunks)) ==>
            |PerChunk(chunks, |chunks|)| > |Decode(Flatten(chunks))|
  {
    hide Encode, DirtyChunk, Damaged, Decode, PerChunk, Flatten, CleanInside, Weight, Cuts, Offset;
    var bytes, n, cuts := Encode(cs), |Encode(cs)|, Cuts(chunks, 0);
    assert bytes[0..n] == bytes;
    PerChunkDamaged(chunks, cs);
    DamagedText(bytes, cuts, true, 0, n, cs);
    if BOM !in cs { DamagedLength(bytes, cuts, true, 0, n, cs); }
    DecodeEncode(cs);
    CleanChunksIsCleanInside(bytes, 0, n, chunks, 0, n, cs);
    forall i | 0 <= i < |chunks| && DirtyChunk(chunks[i]) ensures Offset(chunks, i) < n {
      StartsInside(chunks, i);
    }
  }

  /** Exactly what a well-formed text comes out as when it is decoded chunk by chunk. */
  lemma PerChunkDamaged(chunks: seq<seq<Byte>>, cs: seq<Scalar>)
    requires Flatten(chunks) == Encode(cs)
    ensures PerChunk(chunks, |chunks|) == Damaged(true, cs, 0, Cuts(chunks, 0))
  {
    hide Encode, Run, PerChunk, Flatten, Cuts, Damaged;
    var bytes, n, cuts := Encode(cs), |Encode(cs)|, Cuts(chunks, 0);
    assert bytes[0..n] == bytes;
    OffsetFlatten(chunks, |chunks|);
    assert chunks[..|chunks|] == chunks;
    RunIsPerChunk(bytes, 0, n, chunks, |chunks|);
    RunDamaged(bytes, cuts, FRESH, 0, n, cs);
    var out := Run(bytes, cuts, FRESH, 0, n).1;
    assert Finish(START) == [] && out + [] == out;
  }

  lemma StartsInside(chunks: seq<seq<Byte>>, i: nat)
    requires i < |chunks| && DirtyChunk(chunks[i])
    ensures Offset(chunks, i) < |Flatten(chunks)|
  {
    ChunkAt(chunks, i);
  }
}
