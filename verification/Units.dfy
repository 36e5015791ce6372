/** The three alphabets text passes through (bytes, Unicode scalar values and UTF-16 code units)
    and the small vocabulary on sequences that every other module shares. */
module Units {

  type Byte = b: int | 0 <= b < 0x100

  /** A Unicode scalar value: any code point that is not a surrogate. */
  type Scalar = c: int | 0 <= c < 0xD800 || 0xE000 <= c < 0x110000

  /** A UTF-16 code unit, the element of a JavaScript string. */
  type Unit = u: int | 0 <= u < 0x10000

  type Text = seq<Unit>

  /** An ASCII string as JavaScript text. */
  function Chars(s: string): (t: Text)
    requires forall i :: 0 <= i < |s| ==> s[i] as int < 0x80
    ensures |t| == |s| && forall i :: 0 <= i < |s| ==> t[i] == s[i] as int
  {
    seq(|s|, i requires 0 <= i < |s| => s[i] as int)
  }

  const NEWLINE: int := 0x0A
  const REPLACEMENT: Scalar := 0xFFFD
  const BOM: Scalar := 0xFEFF

  datatype Option<+T> = None | Some(value: T)

  function Flatten<T>(parts: seq<seq<T>>): seq<T> {
    if parts == [] then [] else parts[0] + Flatten(parts[1..])
  }

  lemma Assoc<T>(a: seq<T>, b: seq<T>, c: seq<T>)
    ensures a + b + c == a + (b + c)
  {
  }

  lemma {:induction false} FlattenConcat<T>(a: seq<seq<T>>, b: seq<seq<T>>)
    ensures Flatten(a + b) == Flatten(a) + Flatten(b)
  {
    if a == [] {
      assert a + b == b;
    } else {
      assert (a + b)[1..] == a[1..] + b;
      FlattenConcat(a[1..], b);
    }
  }

  lemma FlattenSnoc<T>(a: seq<seq<T>>, x: seq<T>)
    ensures Flatten(a + [x]) == Flatten(a) + x
  {
    FlattenConcat(a, [x]);
    assert [x][1..] == [];
  }

  /** `word` stands at position `i` of `s`. */
  predicate Matches(s: Text, i: nat, word: Text) {
    i + |word| <= |s| && forall k :: 0 <= k < |word| ==> s[i + k] == word[k]
  }

  // ----- UTF-16

  function UnitsOf(c: Scalar): Text {
    if c < 0x10000 then [c]
    else [0xD800 + (c - 0x10000) / 0x400, 0xDC00 + (c - 0x10000) % 0x400]
  }

  /** The JavaScript string that holds a sequence of scalar values. */
  function Utf16(cs: seq<Scalar>): Text {
    if cs == [] then [] else UnitsOf(cs[0]) + Utf16(cs[1..])
  }

  lemma {:induction false} Utf16Concat(a: seq<Scalar>, b: seq<Scalar>)
    ensures Utf16(a + b) == Utf16(a) + Utf16(b)
  {
    if a == [] {
      assert a + b == b;
    } else {
      assert (a + b)[1..] == a[1..] + b;
      Utf16Concat(a[1..], b);
    }
  }

  /** Text without surrogates is its own sequence of scalar values. */
  lemma {:induction false} Utf16Bmp(cs: seq<Scalar>)
    requires forall i :: 0 <= i < |cs| ==> cs[i] < 0x10000
    ensures Utf16(cs) == cs
  {
    if cs != [] {
      Utf16Bmp(cs[1..]);
      assert cs == [cs[0]] + cs[1..];
    }
  }

  // ----- The ASCII skeleton and the damage weight of a text

  /** What is left of a sequence (of bytes, scalars or code units) when everything
      outside ASCII is removed. */
  function Ascii(s: seq<int>): seq<int> {
    if s == [] then [] else (if s[0] < 0x80 then [s[0]] else []) + Ascii(s[1..])
  }

  lemma {:induction false} AsciiConcat(a: seq<int>, b: seq<int>)
    ensures Ascii(a + b) == Ascii(a) + Ascii(b)
  {
    if a == [] {
      assert a + b == b;
    } else {
      assert (a + b)[1..] == a[1..] + b;
      AsciiConcat(a[1..], b);
    }
  }

  lemma AsciiOne(x: int)
    ensures Ascii([x]) == if x < 0x80 then [x] else []
  {
    assert [x][1..] == [];
  }

  lemma {:induction false} AsciiEmpty(s: seq<int>)
    requires forall i :: 0 <= i < |s| ==> s[i] >= 0x80
    ensures Ascii(s) == []
  {
    if s != [] { AsciiEmpty(s[1..]); }
  }

  lemma {:induction false} AsciiMember(s: seq<int>, x: int)
    requires x < 0x80
    ensures x in Ascii(s) <==> x in s
  {
    if s != [] {
      AsciiMember(s[1..], x);
      assert s == [s[0]] + s[1..];
    }
  }

  lemma {:induction false} AsciiUtf16(cs: seq<Scalar>)
    ensures Ascii(Utf16(cs)) == Ascii(cs)
  {
    if cs != [] {
      AsciiUtf16(cs[1..]);
      AsciiConcat(UnitsOf(cs[0]), Utf16(cs[1..]));
      if cs[0] >= 0x80 {
        AsciiEmpty(UnitsOf(cs[0]));
      } else {
        assert UnitsOf(cs[0])[1..] == [];
      }
    }
  }

  /** Decoding damage only ever adds U+FFFD or removes U+FEFF, so it only ever adds weight. */
  function WeightOf(c: int): int {
    if c == REPLACEMENT then 1 else if c == BOM then -1 else 0
  }

  function Weight(s: seq<int>): int {
    if s == [] then 0 else WeightOf(s[0]) + Weight(s[1..])
  }

  lemma {:induction false} WeightConcat(a: seq<int>, b: seq<int>)
    ensures Weight(a + b) == Weight(a) + Weight(b)
  {
    if a == [] {
      assert a + b == b;
    } else {
      assert (a + b)[1..] == a[1..] + b;
      WeightConcat(a[1..], b);
    }
  }

  lemma {:induction false} WeightUtf16(cs: seq<Scalar>)
    ensures Weight(Utf16(cs)) == Weight(cs)
  {
    if cs != [] {
      WeightUtf16(cs[1..]);
      WeightConcat(UnitsOf(cs[0]), Utf16(cs[1..]));
      var u := UnitsOf(cs[0]);
      if |u| == 2 {
        assert u[1..] == [u[1]] && u[1..][1..] == [];
      } else {
        assert u[1..] == [];
      }
    }
  }
}
