/** What the decoder makes of malformed input: one replacement character for each maximal subpart,
    the practice that section 3.9 of the Unicode Standard describes. */
module Utf8Replacement {
  import opened Units
  import opened Utf8

  ghost predicate StartsScalar(b: seq<Byte>) {
    exists c: Scalar :: Encode1(c) <= b
  }

  /** A proper, non-empty prefix of the encoding of some scalar. */
  ghost predicate IsSubpart(b: seq<Byte>) {
    exists c: Scalar :: 0 < |b| < |Encode1(c)| && b == Encode1(c)[..|b|]
  }

  /** The bytes that an unfinished decoder has consumed. */
  function Consumed(st: Decoder): seq<Byte>
    requires st.needed != 0
  {
    if st.needed == 1 then [0xC0 + st.cp]
    else if st.needed == 2 then
      if st.seen == 0 then [0xE0 + st.cp] else [0xE0 + st.cp / 0x40, 0x80 + st.cp % 0x40]
    else
      if st.seen == 0 then [0xF0 + st.cp]
      else if st.seen == 1 then [0xF0 + st.cp / 0x40, 0x80 + st.cp % 0x40]
      else [0xF0 + st.cp / 0x1000, 0x80 + st.cp / 0x40 % 0x40, 0x80 + st.cp % 0x40]
  }

  /** A byte within the boundaries either completes a scalar or is consumed too. */
  lemma AcceptByte(st: Decoder, y: Byte)
    requires st.needed != 0 && st.lower <= y <= st.upper
    ensures var (next, out) := Step(st, y);
            if out == [] then next.needed != 0 && Consumed(next) == Consumed(st) + [y]
            else next == START && |out| == 1 && Encode1(out[0]) == Consumed(st) + [y]
  {
    hide Encode1, Consumed;
    if st.seen + 1 == st.needed {
      AcceptLast(st, y);
    } else {
      AcceptMiddle(st, y);
    }
  }

  lemma AcceptLast(st: Decoder, y: Byte)
    requires st.needed != 0 && st.lower <= y <= st.upper && st.seen + 1 == st.needed
    ensures var cp := st.cp * 0x40 + (y - 0x80);
            0 <= cp < 0x110000 && (cp < 0xD800 || 0xE000 <= cp) && Encode1(cp) == Consumed(st) + [y]
  {
    var cp := st.cp * 0x40 + (y - 0x80);
    assert cp / 0x40 == st.cp && cp % 0x40 == y - 0x80;
    if st.needed > 1 { TwiceDivided(cp); }
    if st.needed == 3 { TwelveBits(cp / 0x1000, cp); TwiceDivided(st.cp); }
  }

  lemma AcceptMiddle(st: Decoder, y: Byte)
    requires st.needed != 0 && st.lower <= y <= st.upper && st.seen + 1 < st.needed
    ensures var next := State(st.cp * 0x40 + (y - 0x80), st.seen + 1, st.needed, 0x80, 0xBF);
            Valid(next) && Consumed(next) == Consumed(st) + [y]
  {
    var cp := st.cp * 0x40 + (y - 0x80);
    assert cp / 0x40 == st.cp && cp % 0x40 == y - 0x80;
    if st.seen == 1 { TwiceDivided(cp); }
  }

  /** Nothing out and more needed: the decoder has consumed all it was fed. */
  lemma {:induction false} ConsumedAll(b: seq<Byte>)
    requires b != [] && Feed(START, b).1 == [] && Feed(START, b).0.needed != 0
    ensures Consumed(Feed(START, b).0) == b
    decreases |b|
  {
    var x, y := b[..|b| - 1], b[|b| - 1];
    assert b == x + [y];
    FeedSnoc(START, x, y);
    var st := Feed(START, x).0;
    assert Feed(START, x).1 == [] && Step(st, y).1 == [];
    if x == [] {
      assert st == START;
    } else if st.needed != 0 {
      ConsumedAll(x);
      AcceptByte(st, y);
    } else {
      NeverSilent(x);
    }
  }

  /** A decoder back in its start state has put something out. */
  lemma {:induction false} NeverSilent(b: seq<Byte>)
    requires b != [] && Feed(START, b).0.needed == 0
    ensures Feed(START, b).1 != []
  {
    var x, y := b[..|b| - 1], b[|b| - 1];
    assert b == x + [y];
    FeedSnoc(START, x, y);
  }

  /** Some scalar continues what an unfinished decoder has consumed. */
  lemma ConsumedIsSubpart(st: Decoder)
    requires st.needed != 0
    ensures IsSubpart(Consumed(st))
  {
    var (next, out) := Step(st, st.lower);
    AcceptByte(st, st.lower);
    var b := Consumed(st);
    if out != [] {
      assert Encode1(out[0])[..|b|] == b;
    } else {
      AcceptByte(next, next.lower);
      var (last, more) := Step(next, next.lower);
      if more != [] {
        assert Encode1(more[0])[..|b|] == b;
      } else {
        AcceptByte(last, last.lower);
        var final := Step(last, last.lower).1;
        assert Encode1(final[0])[..|b|] == b;
      }
    }
  }

  lemma SubpartState(b: seq<Byte>)
    requires b != []
    ensures IsSubpart(b) <==> Feed(START, b).1 == [] && Feed(START, b).0.needed != 0
  {
    hide Step, Encode1, Feed, Consumed;
    if IsSubpart(b) {
      var c: Scalar :| 0 < |b| < |Encode1(c)| && b == Encode1(c)[..|b|];
      FeedPrefix(c, |b|);
      PartialNeeds(c, |b|);
    }
    if Feed(START, b).1 == [] && Feed(START, b).0.needed != 0 {
      ConsumedAll(b);
      ConsumedIsSubpart(Feed(START, b).0);
    }
  }

  lemma PartialNeeds(c: Scalar, k: nat)
    requires 0 < k < |Encode1(c)|
    ensures Partial(c, k).needed != 0
  {
  }

  /** A scalar at the start of the input is decoded, whatever follows it. */
  lemma ScalarDecoded(b: seq<Byte>, c: Scalar)
    requires Encode1(c) <= b
    ensures Decoded(b) == [c] + Decoded(b[|Encode1(c)|..])
  {
    hide Step, Encode1, Feed;
    var rest := b[|Encode1(c)|..];
    assert b == Encode1(c) + rest;
    Feed1(c);
    FeedConcat(START, Encode1(c), rest);
    Assoc([c], Feed(START, rest).1, Finish(Feed(START, rest).0));
  }

  /** Where no scalar starts, one replacement character stands for the longest prefix that could
      have started one, or for one byte if there is none. */
  lemma SubpartReplaced(b: seq<Byte>, k: nat)
    requires 1 <= k <= |b| && !StartsScalar(b)
    requires k == 1 || IsSubpart(b[..k])
    requires k == |b| || !IsSubpart(b[..k + 1])
    ensures Decoded(b) == [0xFFFD] + Decoded(b[k..])
  {
    hide Step, Encode1, Feed, Consumed, StartsScalar, IsSubpart;
    var x, rest := b[..k], b[k..];
    assert b == x + rest;
    FeedConcat(START, x, rest);
    SubpartState(x);
    if IsSubpart(x) {
      var st := Feed(START, x).0;
      if rest == [] {
        FeedNothing(st);
        FeedNothing(START);
        assert [] + [] + [REPLACEMENT] == [REPLACEMENT] + ([] + []);
      } else {
        NotAccepted(b, k);
        Restart(st, rest);
        var out := Feed(START, rest).1;
        assert [] + ([REPLACEMENT] + out) == [REPLACEMENT] + out;
        Assoc([REPLACEMENT], out, Finish(Feed(START, rest).0));
      }
    } else {
      BadByte(b);
      Assoc([REPLACEMENT], Feed(START, rest).1, Finish(Feed(START, rest).0));
    }
  }

  lemma FeedNothing(st: Decoder)
    ensures Feed(st, []) == (st, [])
  {
  }

  /** The byte behind a maximal subpart is outside the boundaries. */
  lemma NotAccepted(b: seq<Byte>, k: nat)
    requires 1 <= k < |b| && !StartsScalar(b) && IsSubpart(b[..k]) && !IsSubpart(b[..k + 1])
    ensures var st := Feed(START, b[..k]).0; st.needed != 0 && (b[k] < st.lower || st.upper < b[k])
  {
    hide Step, Encode1, Feed, IsSubpart;
    var x, y := b[..k], b[k];
    SubpartState(x);
    var st := Feed(START, x).0;
    assert b[..k + 1] == x + [y];
    FeedSnoc(START, x, y);
    SubpartState(x + [y]);
    ConsumedAll(x);
    if st.lower <= y <= st.upper {
      AcceptByte(st, y);
      Starts(b, b[..k + 1], Step(st, y).1);
    }
  }

  lemma Starts(b: seq<Byte>, x: seq<Byte>, out: seq<Scalar>)
    requires x <= b && |out| == 1 && Encode1(out[0]) == x
    ensures StartsScalar(b)
  {
  }

  /** Outside the boundaries the decoder replaces what it had and starts over at that byte. */
  lemma Restart(st: Decoder, rest: seq<Byte>)
    requires st.needed != 0 && rest != [] && (rest[0] < st.lower || st.upper < rest[0])
    ensures Feed(st, rest) == (Feed(START, rest).0, [REPLACEMENT] + Feed(START, rest).1)
  {
    var (next, out) := Step(START, rest[0]);
    assert Step(st, rest[0]) == (next, [REPLACEMENT] + out);
    Assoc([REPLACEMENT], out, Feed(next, rest[1..]).1);
  }

  lemma BadByte(b: seq<Byte>)
    requires b != [] && !StartsScalar(b) && !IsSubpart(b[..1])
    ensures Feed(START, b[..1]) == (START, [REPLACEMENT])
  {
    assert b[..1] == [b[0]];
    FeedOne(START, b[0]);
    SubpartState(b[..1]);
    if b[0] < 0x80 {
      Starts(b, b[..1], [b[0]]);
    }
  }

  /** Where no scalar starts there is such a prefix. */
  lemma LongestSubpart(b: seq<Byte>) returns (k: nat)
    requires b != []
    ensures 1 <= k <= |b| && (k == 1 || IsSubpart(b[..k])) && (k == |b| || !IsSubpart(b[..k + 1]))
  {
    hide IsSubpart;
    k := 1;
    while k < |b| && IsSubpart(b[..k + 1])
      invariant 1 <= k <= |b| && (k == 1 || IsSubpart(b[..k]))
    {
      k := k + 1;
    }
  }

  /** What `new TextDecoder().decode` drops is exactly a leading EF BB BF. */
  lemma DecodeMark(b: seq<Byte>)
    ensures Decode(b) == if StartsWithBom(b) then Decoded(b[3..]) else Decoded(b)
  {
    hide Decoded, Encode1, StartsScalar, IsSubpart;
    MarkBytes();
    if StartsWithBom(b) {
      assert b[..3] == [0xEF, 0xBB, 0xBF];
      assert Encode1(0xFEFF) <= b;
      ScalarDecoded(b, 0xFEFF);
    } else if b == [] {
      NothingDecoded();
    } else if StartsScalar(b) {
      var c := FirstScalarOf(b);
      ScalarDecoded(b, c);
      NotMark(b, c);
    } else {
      var k := LongestSubpart(b);
      SubpartReplaced(b, k);
    }
  }

  lemma MarkBytes()
    ensures Encode1(0xFEFF) == [0xEF, 0xBB, 0xBF]
  {
  }

  lemma NothingDecoded()
    ensures Decoded([]) == []
  {
  }

  lemma FirstScalarOf(b: seq<Byte>) returns (c: Scalar)
    requires StartsScalar(b)
    ensures Encode1(c) <= b
  {
    c :| Encode1(c) <= b;
  }

  lemma NotMark(b: seq<Byte>, c: Scalar)
    requires Encode1(c) <= b && !StartsWithBom(b)
    ensures c != 0xFEFF
  {
    MarkBytes();
  }
}
