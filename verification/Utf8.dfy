/** UTF-8 (section 3 of RFC 3629) and the decoder of the WHATWG Encoding Standard
    (section 8.1.1) with its replacement error mode. */
module Utf8 {
  import opened Units

  // ----- Encoding

  function Encode1(c: Scalar): (b: seq<Byte>)
    ensures 1 <= |b| <= 4
  {
    if c < 0x80 then [c]
    else if c < 0x800 then [0xC0 + c / 0x40, 0x80 + c % 0x40]
    else if c < 0x10000 then [0xE0 + c / 0x1000, 0x80 + c / 0x40 % 0x40, 0x80 + c % 0x40]
    else [0xF0 + c / 0x40000, 0x80 + c / 0x1000 % 0x40, 0x80 + c / 0x40 % 0x40, 0x80 + c % 0x40]
  }

  function Encode(cs: seq<Scalar>): seq<Byte> {
    if cs == [] then [] else Encode1(cs[0]) + Encode(cs[1..])
  }

  predicate IsContinuation(b: int) { 0x80 <= b < 0xC0 }

  predicate StartsWithBom(b: seq<int>) {
    |b| >= 3 && b[0] == 0xEF && b[1] == 0xBB && b[2] == 0xBF
  }

  lemma {:induction false} EncodeConcat(a: seq<Scalar>, b: seq<Scalar>)
    ensures Encode(a + b) == Encode(a) + Encode(b)
  {
    if a == [] {
      assert a + b == b;
    } else {
      assert (a + b)[1..] == a[1..] + b;
      EncodeConcat(a[1..], b);
    }
  }

  /** ASCII survives encoding untouched, and nothing else produces ASCII bytes. */
  lemma Encode1Shape(c: Scalar)
    ensures !IsContinuation(Encode1(c)[0])
    ensures forall i :: 1 <= i < |Encode1(c)| ==> IsContinuation(Encode1(c)[i])
    ensures Ascii(Encode1(c)) == Ascii([c])
    ensures StartsWithBom(Encode1(c)) <==> c == BOM
  {
    if c < 0x80 {
      assert Encode1(c) == [c];
    } else {
      AsciiEmpty(Encode1(c));
      AsciiEmpty([c]);
      if c == BOM {
        assert Encode1(c) == [0xEF, 0xBB, 0xBF];
      }
    }
  }

  lemma {:induction false} AsciiEncode(cs: seq<Scalar>)
    ensures Ascii(Encode(cs)) == Ascii(cs)
  {
    if cs != [] {
      AsciiEncode(cs[1..]);
      AsciiConcat(Encode1(cs[0]), Encode(cs[1..]));
      AsciiConcat([cs[0]], cs[1..]);
      assert cs == [cs[0]] + cs[1..];
      Encode1Shape(cs[0]);
    }
  }

  // ----- The decoder: code point, bytes seen, bytes needed, lower and upper boundary

  datatype State = State(cp: int, seen: int, needed: int, lower: int, upper: int)

  predicate Valid(st: State) {
    match st.needed
    case 0 => st == State(0, 0, 0, 0x80, 0xBF)
    case 1 => st.seen == 0 && 2 <= st.cp < 0x20 && st.lower == 0x80 && st.upper == 0xBF
    case 2 =>
      if st.seen == 0 then
        && 0 <= st.cp < 0x10
        && st.lower == (if st.cp == 0 then 0xA0 else 0x80)
        && st.upper == (if st.cp == 0xD then 0x9F else 0xBF)
      else
        && st.seen == 1 && 0x20 <= st.cp < 0x400 && !(0x360 <= st.cp < 0x380)
        && st.lower == 0x80 && st.upper == 0xBF
    case 3 =>
      if st.seen == 0 then
        && 0 <= st.cp <= 4
        && st.lower == (if st.cp == 0 then 0x90 else 0x80)
        && st.upper == (if st.cp == 4 then 0x8F else 0xBF)
      else
        && ((st.seen == 1 && 0x10 <= st.cp < 0x110) || (st.seen == 2 && 0x400 <= st.cp < 0x4400))
        && st.lower == 0x80 && st.upper == 0xBF
    case _ => false
  }

  type Decoder = st: State | Valid(st) witness State(0, 0, 0, 0x80, 0xBF)

  const START: Decoder := State(0, 0, 0, 0x80, 0xBF)

  /** The handler when no bytes are needed: an ASCII byte, a lead byte or an error. */
  function Lead(b: Byte): (Decoder, seq<Scalar>) {
    if b < 0x80 then (START, [b])
    else if 0xC2 <= b <= 0xDF then (State(b - 0xC0, 0, 1, 0x80, 0xBF), [])
    else if 0xE0 <= b <= 0xEF then
      (State(b - 0xE0, 0, 2, if b == 0xE0 then 0xA0 else 0x80, if b == 0xED then 0x9F else 0xBF), [])
    else if 0xF0 <= b <= 0xF4 then
      (State(b - 0xF0, 0, 3, if b == 0xF0 then 0x90 else 0x80, if b == 0xF4 then 0x8F else 0xBF), [])
    else (START, [REPLACEMENT])
  }

  /** One byte. Outside the boundaries the sequence so far is an error and the byte is handled again. */
  function Step(st: Decoder, b: Byte): (Decoder, seq<Scalar>) {
    if st.needed == 0 then Lead(b)
    else if b < st.lower || st.upper < b then
      var (next, out) := Lead(b);
      (next, [REPLACEMENT] + out)
    else
      var cp := st.cp * 0x40 + (b - 0x80);
      if st.seen + 1 == st.needed then (START, [cp])
      else (State(cp, st.seen + 1, st.needed, 0x80, 0xBF), [])
  }

  /** End of input: an unfinished sequence is an error. */
  function Finish(st: Decoder): seq<Scalar> {
    if st.needed != 0 then [REPLACEMENT] else []
  }

  function Feed(st: Decoder, bytes: seq<Byte>): (Decoder, seq<Scalar>)
    decreases |bytes|
  {
    if bytes == [] then (st, [])
    else
      var (mid, out) := Step(st, bytes[0]);
      var (end, rest) := Feed(mid, bytes[1..]);
      (end, out + rest)
  }

  lemma {:induction false} FeedConcat(st: Decoder, a: seq<Byte>, b: seq<Byte>)
    ensures var (mid, out) := Feed(st, a);
            var (end, rest) := Feed(mid, b);
            Feed(st, a + b) == (end, out + rest)
    decreases |a|
  {
    var (mid, out) := Feed(st, a);
    var (end, rest) := Feed(mid, b);
    if a == [] {
      assert a + b == b && [] + rest == rest;
    } else {
      assert (a + b)[1..] == a[1..] + b;
      var (next, first) := Step(st, a[0]);
      FeedConcat(next, a[1..], b);
      assert out + rest == first + (Feed(next, a[1..]).1 + rest);
    }
  }

  /** An ASCII byte always decodes to itself, whatever came before it; other bytes
      never decode to ASCII. */
  lemma StepAscii(st: Decoder, b: Byte)
    ensures Ascii(Step(st, b).1) == Ascii([b])
    ensures b < 0x80 ==> Step(st, b) == (START, Finish(st) + [b])
  {
    var out := Step(st, b).1;
    assert Ascii([b]) == if b < 0x80 then [b] else [];
    if |out| == 2 {
      assert out == [out[0]] + [out[1]] && [out[1]][1..] == [];
      assert Ascii([out[1]]) == if out[1] < 0x80 then [out[1]] else [];
    } else if |out| == 1 {
      assert out[1..] == [];
    }
    if b < 0x80 {
      assert Finish(st) + [b] == out;
    }
  }

  lemma {:induction false} FeedAscii(st: Decoder, bytes: seq<Byte>)
    ensures Ascii(Feed(st, bytes).1) == Ascii(bytes)
    decreases |bytes|
  {
    hide Step;
    if bytes != [] {
      var (mid, out) := Step(st, bytes[0]);
      StepAscii(st, bytes[0]);
      FeedAscii(mid, bytes[1..]);
      AsciiConcat(out, Feed(mid, bytes[1..]).1);
      assert Ascii([bytes[0]]) == (if bytes[0] < 0x80 then [bytes[0]] else []) + Ascii([bytes[0]][1..]);
      assert [bytes[0]][1..] == [];
    }
  }

  lemma FeedOne(st: Decoder, b: Byte)
    ensures Feed(st, [b]) == Step(st, b)
  {
    assert [b][1..] == [];
    assert Step(st, b).1 + [] == Step(st, b).1;
  }

  lemma FeedSnoc(st: Decoder, a: seq<Byte>, b: Byte)
    ensures var (mid, out) := Feed(st, a);
            var (end, last) := Step(mid, b);
            Feed(st, a + [b]) == (end, out + last)
  {
    FeedConcat(st, a, [b]);
    FeedOne(Feed(st, a).0, b);
  }

  lemma LeadingBits(c: nat)
    ensures c / 0x40 == c / 0x1000 * 0x40 + c / 0x40 % 0x40
    ensures c / 0x1000 == c / 0x40000 * 0x40 + c / 0x1000 % 0x40
  {
    TwiceDivided(c);
    TwelveBits(c / 0x1000, c);
  }

  lemma TwiceDivided(c: nat)
    ensures c / 0x1000 == c / 0x40 / 0x40
  {
  }

  lemma TwelveBits(q: nat, c: nat)
    requires q == c / 0x1000
    ensures c / 0x40000 == q / 0x40
  {
  }

  /** The decoder once it has read the first `k` bytes of a scalar: it holds their payload bits. */
  function Partial(c: Scalar, k: nat): State
    requires 0 < k < |Encode1(c)|
  {
    var left := |Encode1(c)| - k;
    var cp := if left == 1 then c / 0x40 else if left == 2 then c / 0x1000 else c / 0x40000;
    var first := Encode1(c)[0];
    State(cp, k - 1, |Encode1(c)| - 1,
          if k > 1 then 0x80 else if first == 0xE0 then 0xA0 else if first == 0xF0 then 0x90 else 0x80,
          if k > 1 then 0xBF else if first == 0xED then 0x9F else if first == 0xF4 then 0x8F else 0xBF)
  }

  lemma PartialFirst(c: Scalar)
    requires 1 < |Encode1(c)|
    ensures Step(START, Encode1(c)[0]) == (Partial(c, 1), [])
  {
  }

  lemma PartialStep(c: Scalar, k: nat)
    requires 1 < k < |Encode1(c)|
    ensures Step(Partial(c, k - 1), Encode1(c)[k - 1]) == (Partial(c, k), [])
  {
    LeadingBits(c);
  }

  /** Nothing comes out before the last byte of a scalar. */
  lemma {:induction false} FeedPrefix(c: Scalar, k: nat)
    requires 0 < k < |Encode1(c)|
    ensures Feed(START, Encode1(c)[..k]) == (Partial(c, k), [])
  {
    hide Step, Encode1, Partial;
    var b := Encode1(c);
    if k == 1 {
      assert b[..1] == [b[0]];
      FeedOne(START, b[0]);
      PartialFirst(c);
    } else {
      PartialStep(c, k);
      FeedPrefix(c, k - 1);
      assert b[..k] == b[..k - 1] + [b[k - 1]];
      FeedSnoc(START, b[..k - 1], b[k - 1]);
    }
  }

  /** The last byte then brings out exactly the scalar. */
  lemma Feed1(c: Scalar)
    ensures Feed(START, Encode1(c)) == (START, [c])
  {
    var b := Encode1(c);
    var k := |b| - 1;
    assert b == b[..k] + [b[k]];
    FeedSnoc(START, b[..k], b[k]);
    if k == 0 {
      assert b[..k] == [];
      assert [] + [c] == [c];
    } else {
      FeedPrefix(c, k);
      assert b[k] == 0x80 + c % 0x40;
      assert Step(Partial(c, k), b[k]) == (START, [c]);
      assert [] + [c] == [c];
    }
  }

  /** The decoder inverts the encoder. */
  lemma {:induction false} FeedEncode(cs: seq<Scalar>)
    ensures Feed(START, Encode(cs)) == (START, cs)
  {
    if cs != [] {
      FeedConcat(START, Encode1(cs[0]), Encode(cs[1..]));
      Feed1(cs[0]);
      FeedEncode(cs[1..]);
      assert [cs[0]] + cs[1..] == cs;
    }
  }

  // ----- Byte order mark (section 7.1 of the WHATWG Encoding Standard)

  /** Drops the first scalar of a stream if it is U+FEFF; `seen` says that the first scalar is past. */
  function Serialize(seen: bool, out: seq<Scalar>): (bool, seq<Scalar>) {
    if out == [] then (seen, [])
    else if !seen && out[0] == BOM then (true, out[1..])
    else (true, out)
  }

  lemma SerializeConcat(seen: bool, a: seq<Scalar>, b: seq<Scalar>)
    ensures var (mid, x) := Serialize(seen, a);
            var (end, y) := Serialize(mid, b);
            Serialize(seen, a + b) == (end, x + y)
  {
    var (mid, x) := Serialize(seen, a);
    var (end, y) := Serialize(mid, b);
    if a == [] {
      assert a + b == b && x + y == y;
    } else if b == [] {
      assert a + b == a && x + y == x;
    } else {
      assert (a + b)[1..] == a[1..] + b;
    }
  }

  function StripBom(cs: seq<Scalar>): seq<Scalar> {
    if cs != [] && cs[0] == BOM then cs[1..] else cs
  }

  /** `new TextDecoder().decode(bytes)`: one whole input, flushed at its end. */
  function Decode(bytes: seq<Byte>): seq<Scalar> {
    StripBom(Decoded(bytes))
  }

  /** A whole input decoded, a byte order mark included. */
  function Decoded(bytes: seq<Byte>): seq<Scalar> {
    var (end, out) := Feed(START, bytes);
    out + Finish(end)
  }

  /** Decoding inverts encoding exactly on the texts that do not open with a byte order mark. */
  lemma {:induction false} DecodeEncode(cs: seq<Scalar>)
    ensures Decode(Encode(cs)) == StripBom(cs)
    ensures Decode(Encode(cs)) == cs <==> !(cs != [] && cs[0] == BOM)
  {
    FeedEncode(cs);
    assert cs + [] == cs;
  }
}
