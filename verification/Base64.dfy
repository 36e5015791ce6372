/** Base64 (section 4 of RFC 4648) and `atob`, the forgiving decoder of the WHATWG Infra Standard. */
module Base64 {
  import opened Units

  type Sextet = k: int | 0 <= k < 64

  const PAD: Unit := 0x3D

  // ----- The alphabet

  function Letter(k: Sextet): Unit {
    if k < 26 then 0x41 + k
    else if k < 52 then 0x61 + (k - 26)
    else if k < 62 then 0x30 + (k - 52)
    else if k == 62 then 0x2B
    else 0x2F
  }

  predicate IsLetter(u: int) {
    0x41 <= u <= 0x5A || 0x61 <= u <= 0x7A || 0x30 <= u <= 0x39 || u == 0x2B || u == 0x2F
  }

  function SextetOf(u: int): Sextet
    requires IsLetter(u)
  {
    if 0x41 <= u <= 0x5A then u - 0x41
    else if 0x61 <= u <= 0x7A then u - 0x61 + 26
    else if 0x30 <= u <= 0x39 then u - 0x30 + 52
    else if u == 0x2B then 62
    else 63
  }

  lemma LetterSextet(k: Sextet)
    ensures IsLetter(Letter(k)) && SextetOf(Letter(k)) == k
  {
  }

  function Letters(ks: seq<Sextet>): Text {
    seq(|ks|, i requires 0 <= i < |ks| => Letter(ks[i]))
  }

  predicate AllLetters(s: Text) { forall i :: 0 <= i < |s| ==> IsLetter(s[i]) }

  function Sextets(s: Text): seq<Sextet>
    requires AllLetters(s)
  {
    seq(|s|, i requires 0 <= i < |s| => SextetOf(s[i]))
  }

  lemma SextetsLetters(ks: seq<Sextet>)
    ensures AllLetters(Letters(ks)) && Sextets(Letters(ks)) == ks
  {
    forall i | 0 <= i < |ks| ensures IsLetter(Letters(ks)[i]) && SextetOf(Letters(ks)[i]) == ks[i] {
      LetterSextet(ks[i]);
    }
  }

  // ----- Bytes and sextets

  /** Three bytes are four sextets; one or two bytes left over fill two or three, padded with zeros. */
  function Split(b: seq<Byte>): (ks: seq<Sextet>)
    ensures |ks| == |b| / 3 * 4 + (if |b| % 3 == 0 then 0 else |b| % 3 + 1)
  {
    if b == [] then []
    else if |b| == 1 then [b[0] / 4, b[0] % 4 * 16]
    else if |b| == 2 then [b[0] / 4, b[0] % 4 * 16 + b[1] / 16, b[1] % 16 * 4]
    else
      [b[0] / 4, b[0] % 4 * 16 + b[1] / 16, b[1] % 16 * 4 + b[2] / 64, b[2] % 64] + Split(b[3..])
  }

  /** The low bits of an incomplete last byte are dropped. */
  function Join(ks: seq<Sextet>): seq<Byte>
    requires |ks| % 4 != 1
    decreases |ks|
  {
    var k: seq<int> := ks;
    if k == [] then []
    else if |k| == 2 then [k[0] * 4 + k[1] / 16]
    else if |k| == 3 then [k[0] * 4 + k[1] / 16, k[1] % 16 * 16 + k[2] / 4]
    else
      [k[0] * 4 + k[1] / 16, k[1] % 16 * 16 + k[2] / 4, k[2] % 4 * 64 + k[3]] + Join(ks[4..])
  }

  lemma Rejoin(x: Byte, y: Byte, z: Byte)
    ensures x / 4 * 4 + (x % 4 * 16 + y / 16) / 16 == x
    ensures (x % 4 * 16 + y / 16) % 16 * 16 + (y % 16 * 4 + z / 64) / 4 == y
    ensures (y % 16 * 4 + z / 64) % 4 * 64 + z % 64 == z
  {
  }

  /** Three bytes more are four sextets more, in both directions. */
  lemma {:induction false} SplitThree(b: seq<Byte>)
    requires |b| >= 3
    ensures Split(b)[..4] == [b[0] / 4, b[0] % 4 * 16 + b[1] / 16, b[1] % 16 * 4 + b[2] / 64, b[2] % 64]
    ensures Split(b)[4..] == Split(b[3..])
  {
  }

  lemma {:induction false} JoinFour(ks: seq<Sextet>)
    requires |ks| % 4 != 1 && |ks| >= 4
    ensures var k: seq<int> := ks;
            Join(ks) == [k[0] * 4 + k[1] / 16, k[1] % 16 * 16 + k[2] / 4, k[2] % 4 * 64 + k[3]] + Join(ks[4..])
  {
  }

  lemma {:induction false} JoinSplitShort(b: seq<Byte>)
    requires |b| < 3
    ensures Join(Split(b)) == b
  {
    if |b| == 1 {
      Rejoin(b[0], 0, 0);
    } else if |b| == 2 {
      Rejoin(b[0], b[1], 0);
    }
  }

  lemma RejoinFour(x: Byte, y: Byte, z: Byte, k: seq<int>)
    requires k == [x / 4, x % 4 * 16 + y / 16, y % 16 * 4 + z / 64, z % 64]
    ensures [k[0] * 4 + k[1] / 16, k[1] % 16 * 16 + k[2] / 4, k[2] % 4 * 64 + k[3]] == [x, y, z]
  {
    Rejoin(x, y, z);
  }

  lemma {:induction false} JoinSplitThree(b: seq<Byte>)
    requires |b| >= 3
    ensures Join(Split(b)) == [b[0], b[1], b[2]] + Join(Split(b[3..]))
  {
    hide Split, Join;
    var ks := Split(b);
    SplitThree(b);
    JoinFour(ks);
    var k: seq<int> := ks[..4];
    assert ks[0] == k[0] && ks[1] == k[1] && ks[2] == k[2] && ks[3] == k[3];
    RejoinFour(b[0], b[1], b[2], k);
  }

  lemma {:induction false} JoinSplit(b: seq<Byte>)
    ensures Join(Split(b)) == b
  {
    hide Split, Join;
    if |b| < 3 {
      JoinSplitShort(b);
    } else {
      JoinSplit(b[3..]);
      JoinSplitThree(b);
      assert b == [b[0], b[1], b[2]] + b[3..];
    }
  }

  // ----- The two directions

  function Encode(b: seq<Byte>): Text {
    Letters(Split(b)) + Padding(|b|)
  }

  function Padding(n: nat): Text {
    if n % 3 == 1 then [PAD, PAD] else if n % 3 == 2 then [PAD] else []
  }

  predicate IsAsciiWhite(u: int) { u == 0x09 || u == 0x0A || u == 0x0C || u == 0x0D || u == 0x20 }

  function StripWhite(s: Text): Text {
    if s == [] then []
    else (if IsAsciiWhite(s[0]) then [] else [s[0]]) + StripWhite(s[1..])
  }

  function StripPadding(s: Text): Text {
    if |s| % 4 != 0 || s == [] || s[|s| - 1] != PAD then s
    else if s[|s| - 2] == PAD then s[..|s| - 2]
    else s[..|s| - 1]
  }

  /** `atob(s)`: a string of code units at most 0xFF, or `None` for the exception it throws. */
  function Atob(s: Text): (r: Option<Text>)
    ensures r.Some? ==> forall i :: 0 <= i < |r.value| ==> r.value[i] < 0x100
  {
    var data := StripPadding(StripWhite(s));
    if |data| % 4 != 1 && AllLetters(data) then Some(Join(Sextets(data))) else None
  }

  // ----- Round trip

  lemma {:induction false} StripWhiteNone(s: Text)
    requires forall i :: 0 <= i < |s| ==> !IsAsciiWhite(s[i])
    ensures StripWhite(s) == s
  {
    if s != [] {
      StripWhiteNone(s[1..]);
      assert s == [s[0]] + s[1..];
    }
  }

  lemma PaddingStripped(letters: Text, padding: Text)
    requires AllLetters(letters) && (|letters| + |padding|) % 4 == 0
    requires padding == [PAD, PAD] || padding == [PAD] || padding == []
    ensures StripPadding(StripWhite(letters + padding)) == letters
  {
    hide IsLetter, StripWhite, StripPadding;
    var s := letters + padding;
    assert forall i :: 0 <= i < |s| ==> !IsAsciiWhite(s[i]) by { NotWhite(letters, padding); }
    StripWhiteNone(s);
    if letters != [] {
      assert IsLetter(letters[|letters| - 1]);
      LetterNotPad(letters[|letters| - 1]);
    }
    PaddingEnds(letters, padding);
  }

  lemma PaddingEnds(letters: Text, padding: Text)
    requires (|letters| + |padding|) % 4 == 0 && (letters != [] ==> letters[|letters| - 1] != PAD)
    requires padding == [PAD, PAD] || padding == [PAD] || padding == []
    ensures StripPadding(letters + padding) == letters
  {
    var s, n := letters + padding, |letters|;
    assert s[..n] == letters;
    if n > 0 { assert s[n - 1] == letters[n - 1]; }
    if padding == [PAD] {
      assert s[n] == PAD && |s| == n + 1;
    } else if padding == [PAD, PAD] {
      assert s[n] == PAD && s[n + 1] == PAD && |s| == n + 2;
    } else {
      assert |s| == n;
    }
  }

  lemma LetterNotPad(u: int)
    ensures IsLetter(u) ==> u != PAD && !IsAsciiWhite(u)
  {
  }

  lemma NotWhite(letters: Text, padding: Text)
    requires AllLetters(letters) && forall i :: 0 <= i < |padding| ==> padding[i] == PAD
    ensures forall i :: 0 <= i < |letters + padding| ==> !IsAsciiWhite((letters + padding)[i])
  {
  }

  lemma {:induction false} AtobEncode(b: seq<Byte>)
    ensures Atob(Encode(b)) == Some(b)
    ensures b != [] ==> Encode(b) != []
  {
    hide Letters, Sextets, StripPadding, StripWhite, Split, Join, AllLetters, IsLetter;
    var letters := Letters(Split(b));
    LettersLength(Split(b));
    SextetsLetters(Split(b));
    PaddingStripped(letters, Padding(|b|));
    JoinSplit(b);
  }

  lemma LettersLength(ks: seq<Sextet>)
    ensures |Letters(ks)| == |ks|
  {
  }

  // ----- What `atob` accepts and what it returns, in literal terms

  const UPPER: string := "ABCDEFGHIJKLMNOPQRSTUVWXYZ"
  const LOWER: string := "abcdefghijklmnopqrstuvwxyz"
  const ALPHABET: string := UPPER + LOWER + "0123456789+/"

  /** Unit `u` is the digit `k` of base64. */
  predicate Stands(u: int, k: int) { 0 <= k < |ALPHABET| && u == ALPHABET[k] as int }

  lemma AlphabetCodes(k: int)
    requires 0 <= k < 64
    ensures |ALPHABET| == 64
    ensures ALPHABET[k] as int == if k < 26 then 0x41 + k else if k < 52 then 0x61 + (k - 26)
                                  else if k < 62 then 0x30 + (k - 52) else if k == 62 then 0x2B else 0x2F
  {
    if k < 26 {
      assert ALPHABET[k] == UPPER[k];
      UpperCodes(k);
    } else if k < 52 {
      assert ALPHABET[k] == LOWER[k - 26];
      LowerCodes(k - 26);
    } else {
      assert ALPHABET[k] == "0123456789+/"[k - 52];
    }
  }

  lemma UpperCodes(k: int)
    requires 0 <= k < 26
    ensures UPPER[k] as int == 0x41 + k
  {
  }

  lemma LowerCodes(k: int)
    requires 0 <= k < 26
    ensures LOWER[k] as int == 0x61 + k
  {
  }

  lemma LetterStands(u: int)
    requires IsLetter(u)
    ensures Stands(u, SextetOf(u))
  {
    AlphabetCodes(SextetOf(u));
  }

  lemma StandsLetter(u: int, k: int)
    requires Stands(u, k)
    ensures IsLetter(u) && SextetOf(u) == k && u != '=' as int
  {
    assert |ALPHABET| == 64;
    AlphabetCodes(k);
  }

  /** A text without its tabs, line feeds, form feeds, carriage returns and spaces. */
  function Kept(s: Text): Text {
    if s == [] then []
    else if s[0] == 0x09 || s[0] == 0x0A || s[0] == 0x0C || s[0] == 0x0D || s[0] == 0x20 then Kept(s[1..])
    else [s[0]] + Kept(s[1..])
  }

  lemma {:induction false} StripWhiteKeeps(s: Text)
    ensures StripWhite(s) == Kept(s)
  {
    if s != [] { StripWhiteKeeps(s[1..]); }
  }

  ghost predicate Digits(data: Text, ks: seq<int>) {
    |ks| == |data| && forall i :: 0 <= i < |data| ==> Stands(data[i], ks[i])
  }

  /** Four digits are the 24 bits of three bytes; two or three left over are the bits of one or two
      bytes and four or two bits that do not count. */
  predicate SameBits(ks: seq<int>, b: seq<int>)
    decreases |ks|
  {
    if |ks| == 0 then b == []
    else if |ks| == 1 then false
    else if |ks| == 2 then |b| == 1 && b[0] == (ks[0] * 64 + ks[1]) / 16
    else if |ks| == 3 then |b| == 2 && b[0] * 256 + b[1] == ((ks[0] * 64 + ks[1]) * 64 + ks[2]) / 4
    else
      && |b| >= 3
      && (b[0] * 256 + b[1]) * 256 + b[2] == ((ks[0] * 64 + ks[1]) * 64 + ks[2]) * 64 + ks[3]
      && SameBits(ks[4..], b[3..])
  }

  lemma {:induction false} JoinShort(ks: seq<Sextet>)
    requires |ks| < 4 && |ks| % 4 != 1
    ensures SameBits(ks, Join(ks))
  {
    if |ks| == 2 {
      TwoDigits(ks[0], ks[1]);
    } else if |ks| == 3 {
      ThreeDigits(ks[0], ks[1], ks[2]);
    }
  }

  lemma {:induction false} JoinBits(ks: seq<Sextet>)
    requires |ks| % 4 != 1
    ensures SameBits(ks, Join(ks))
    decreases |ks|
  {
    hide Join, SameBits;
    if |ks| < 4 {
      JoinShort(ks);
    } else {
      JoinFourBits(ks);
      JoinBits(ks[4..]);
      FourBits(ks, Join(ks));
    }
  }

  lemma {:induction false} JoinFourBits(ks: seq<Sextet>)
    requires |ks| % 4 != 1 && |ks| >= 4
    ensures var k: seq<int>, b: seq<int> := ks, Join(ks);
            && |b| >= 3 && b[3..] == Join(ks[4..])
            && (b[0] * 256 + b[1]) * 256 + b[2] == ((k[0] * 64 + k[1]) * 64 + k[2]) * 64 + k[3]
  {
    hide Join;
    JoinFour(ks);
    FourDigits(ks[0], ks[1], ks[2], ks[3]);
    assert Join(ks)[3..] == Join(ks[4..]);
  }

  lemma FourBits(ks: seq<int>, b: seq<int>)
    requires |ks| >= 4 && |b| >= 3 && SameBits(ks[4..], b[3..])
    requires (b[0] * 256 + b[1]) * 256 + b[2] == ((ks[0] * 64 + ks[1]) * 64 + ks[2]) * 64 + ks[3]
    ensures SameBits(ks, b)
  {
  }

  lemma TwoDigits(w: Sextet, x: Sextet)
    ensures w * 4 + x / 16 == (w * 64 + x) / 16
  {
  }

  lemma ThreeDigits(w: Sextet, x: Sextet, y: Sextet)
    ensures (w * 4 + x / 16) * 256 + (x % 16 * 16 + y / 4) == ((w * 64 + x) * 64 + y) / 4
  {
  }

  lemma FourDigits(w: Sextet, x: Sextet, y: Sextet, z: Sextet)
    ensures ((w * 4 + x / 16) * 256 + (x % 16 * 16 + y / 4)) * 256 + (y % 4 * 64 + z)
         == ((w * 64 + x) * 64 + y) * 64 + z
  {
  }

  lemma {:induction false} BitsUnique(ks: seq<int>, b: seq<Byte>, c: seq<Byte>)
    requires SameBits(ks, b) && SameBits(ks, c)
    ensures b == c
    decreases |ks|
  {
    if |ks| >= 4 {
      BitsUnique(ks[4..], b[3..], c[3..]);
      assert b == [b[0], b[1], b[2]] + b[3..] && c == [c[0], c[1], c[2]] + c[3..];
    }
  }

  lemma {:induction false} BitsLength(ks: seq<int>, b: seq<int>)
    requires SameBits(ks, b)
    ensures |ks| % 4 != 1
    decreases |ks|
  {
    if |ks| >= 4 { BitsLength(ks[4..], b[3..]); }
  }

  /** `t` is base64 for `b`, with all its padding or without any. */
  ghost predicate IsBase64(t: Text, b: seq<Byte>) {
    exists data, ks :: Unpadded(t, data) && Digits(data, ks) && SameBits(ks, b)
  }

  predicate Unpadded(t: Text, data: Text) {
    t == data || (|t| % 4 == 0 && (t == data + ['=' as int] || t == data + ['=' as int, '=' as int]))
  }

  lemma PaddingFound(t: Text)
    ensures Unpadded(t, StripPadding(t))
  {
    var data := StripPadding(t);
    if data != t {
      if t[|t| - 2] == PAD {
        assert t == data + [PAD, PAD];
      } else {
        assert t == data + [PAD];
      }
    }
  }

  lemma OnlyPadding(t: Text, data: Text, ks: seq<int>)
    requires Unpadded(t, data) && Digits(data, ks)
    ensures StripPadding(t) == data
  {
    hide StripPadding, Stands, SextetOf, IsLetter;
    var n := |data|;
    if n > 0 { StandsLetter(data[n - 1], ks[n - 1]); }
    if |t| % 4 != 0 {
      NotStripped(t);
    } else if t == data {
      assert data + [] == data;
      PaddingEnds(data, []);
    } else {
      PaddingEnds(data, if t == data + [PAD] then [PAD] else [PAD, PAD]);
    }
  }

  lemma NotStripped(t: Text)
    requires |t| % 4 != 0
    ensures StripPadding(t) == t
  {
  }

  lemma DigitsAre(data: Text, ks: seq<int>)
    ensures Digits(data, ks) <==> AllLetters(data) && ks == Sextets(data)
  {
    hide Stands, IsLetter, SextetOf;
    if Digits(data, ks) {
      forall i | 0 <= i < |data| ensures IsLetter(data[i]) && SextetOf(data[i]) == ks[i] {
        StandsLetter(data[i], ks[i]);
      }
    }
    if AllLetters(data) && ks == Sextets(data) {
      forall i | 0 <= i < |data| ensures Stands(data[i], ks[i]) { LetterStands(data[i]); }
    }
  }

  /** `atob` returns `b` exactly for texts that are base64 for `b` once their white space is removed. */
  lemma AtobMeans(s: Text, b: seq<Byte>)
    ensures Atob(s) == Some(b) <==> IsBase64(Kept(s), b)
  {
    hide StripWhite, Kept, StripPadding, Digits, SameBits, Unpadded, AllLetters, Sextets, Join;
    var t := Kept(s);
    StripWhiteKeeps(s);
    var found := StripPadding(t);
    if Atob(s) == Some(b) {
      PaddingFound(t);
      DigitsAre(found, Sextets(found));
      SextetsLength(found);
      JoinBits(Sextets(found));
    }
    if IsBase64(t, b) {
      var data, ks :| Unpadded(t, data) && Digits(data, ks) && SameBits(ks, b);
      OnlyPadding(t, data, ks);
      DigitsAre(data, ks);
      SextetsLength(data);
      BitsLength(ks, b);
      JoinBits(Sextets(data));
      BitsUnique(ks, b, Join(Sextets(data)));
    }
  }

  lemma SextetsLength(data: Text)
    requires AllLetters(data)
    ensures |Sextets(data)| == |data|
  {
  }
}
