/** Texts that differ outside ASCII only. */
module Blur {
  import opened Units

  /** What a character may turn into: an ASCII character stays, any other may become any number of
      characters outside ASCII. */
  predicate Block(u: int, block: seq<int>) {
    if u < 0x80 then block == [u] else forall i :: 0 <= i < |block| ==> block[i] >= 0x80
  }

  ghost predicate Blurred(t: seq<int>, w: seq<int>) {
    if t == [] then w == []
    else exists k :: 0 <= k <= |w| && Block(t[0], w[..k]) && Blurred(t[1..], w[k..])
  }

  lemma BlurredCons(u: int, block: seq<int>, t: seq<int>, w: seq<int>)
    requires Block(u, block) && Blurred(t, w)
    ensures Blurred([u] + t, block + w)
  {
    var s, x, k := [u] + t, block + w, |block|;
    assert s[1..] == t && x[..k] == block && x[k..] == w;
  }

  lemma BlurredHead(t: seq<int>, w: seq<int>) returns (k: nat)
    requires t != [] && Blurred(t, w)
    ensures k <= |w| && Block(t[0], w[..k]) && Blurred(t[1..], w[k..])
  {
    k :| 0 <= k <= |w| && Block(t[0], w[..k]) && Blurred(t[1..], w[k..]);
  }

  lemma {:induction false} BlurredSplit(a: seq<int>, b: seq<int>, w: seq<int>) returns (k: nat)
    requires Blurred(a + b, w)
    ensures k <= |w| && Blurred(a, w[..k]) && Blurred(b, w[k..])
  {
    hide Blurred;
    if a == [] {
      k := 0;
      assert a + b == b && w[0..] == w;
      BlurredNothing();
    } else {
      assert (a + b)[1..] == a[1..] + b;
      var first := BlurredHead(a + b, w);
      var rest := BlurredSplit(a[1..], b, w[first..]);
      k := first + rest;
      assert w[first..][rest..] == w[k..];
      BlurredCons(a[0], w[..first], a[1..], w[first..][..rest]);
      assert [a[0]] + a[1..] == a && w[..first] + w[first..][..rest] == w[..k];
    }
  }

  lemma BlurredNothing()
    ensures Blurred([], [])
  {
  }

  lemma {:induction false} BlurredConcat(a: seq<int>, x: seq<int>, b: seq<int>, y: seq<int>)
    requires Blurred(a, x) && Blurred(b, y)
    ensures Blurred(a + b, x + y)
  {
    hide Blurred;
    if a == [] {
      BlurredAscii(a, x);
      assert a + b == b && x + y == y;
    } else {
      var k := BlurredHead(a, x);
      BlurredConcat(a[1..], x[k..], b, y);
      BlurredCons(a[0], x[..k], a[1..] + b, x[k..] + y);
      assert [a[0]] + (a[1..] + b) == a + b && x[..k] + (x[k..] + y) == x + y;
    }
  }

  predicate IsAscii(t: seq<int>) { forall i :: 0 <= i < |t| ==> t[i] < 0x80 }

  lemma {:induction false} BlurredAscii(t: seq<int>, w: seq<int>)
    requires Blurred(t, w) && IsAscii(t)
    ensures w == t
  {
    if t != [] {
      var k := BlurredHead(t, w);
      BlurredAscii(t[1..], w[k..]);
      assert w == w[..k] + w[k..] == [t[0]] + t[1..];
    }
  }

  lemma {:induction false} BlurredSame(t: seq<int>)
    ensures Blurred(t, t)
  {
    if t != [] {
      BlurredSame(t[1..]);
      BlurredCons(t[0], [t[0]], t[1..], t[1..]);
      assert [t[0]] + t[1..] == t;
    }
  }

  lemma BlurredOne(u: int, w: seq<int>)
    requires Blurred([u], w)
    ensures Block(u, w)
  {
    var k := BlurredHead([u], w);
    assert w[..k] == w;
  }

  /** An ASCII text at the front stays. */
  lemma AsciiFront(a: seq<int>, b: seq<int>, w: seq<int>)
    requires IsAscii(a) && Blurred(a + b, w)
    ensures |a| <= |w| && w == a + w[|a|..] && Blurred(b, w[|a|..])
  {
    var k := BlurredSplit(a, b, w);
    BlurredAscii(a, w[..k]);
    assert w == w[..k] + w[k..];
  }

  // ----- The same for UTF-16

  lemma {:induction false} HighUnits(cs: seq<Scalar>)
    requires forall i :: 0 <= i < |cs| ==> cs[i] >= 0x80
    ensures forall i :: 0 <= i < |Utf16(cs)| ==> Utf16(cs)[i] >= 0x80
  {
    if cs != [] { HighUnits(cs[1..]); }
  }

  lemma BlockUtf16(c: Scalar, block: seq<Scalar>)
    requires Block(c, block)
    ensures Blurred(UnitsOf(c), Utf16(block))
  {
    if c < 0x80 {
      assert block[1..] == [];
      assert Utf16(block) == [c] + [] == UnitsOf(c);
      BlurredSame([c]);
    } else {
      HighUnits(block);
      BlurredNothing();
      var u := UnitsOf(c);
      if |u| == 2 { BlurredCons(u[1], [], [], []); }
      BlurredCons(u[0], Utf16(block), u[1..], []);
      assert [u[0]] + u[1..] == u && Utf16(block) + [] == Utf16(block);
      if |u| == 2 { assert u[1..] == [u[1]] + []; }
    }
  }

  lemma {:induction false} BlurredUtf16(cs: seq<Scalar>, ds: seq<Scalar>)
    requires Blurred(cs, ds)
    ensures Blurred(Utf16(cs), Utf16(ds))
  {
    hide Blurred, UnitsOf, Block;
    if cs == [] {
      BlurredAscii(cs, ds);
      BlurredSame(Utf16(cs));
    } else {
      var k := BlurredHead(cs, ds);
      BlockUtf16(cs[0], ds[..k]);
      BlurredUtf16(cs[1..], ds[k..]);
      BlurredConcat(UnitsOf(cs[0]), Utf16(ds[..k]), Utf16(cs[1..]), Utf16(ds[k..]));
      Utf16Concat(ds[..k], ds[k..]);
      assert ds[..k] + ds[k..] == ds;
    }
  }
}
