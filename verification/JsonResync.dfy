/** A JSON object whose text was cut at its front never parses, and damage to the characters
    outside ASCII always shows in the parsed value. */
module JsonResync {
  import opened Units
  import opened Json
  import opened JsonScan

  /** The scan of a whole accepted text. */
  lemma ScanText(t: Text)
    requires Parse(t).Some?
    ensures Run(ORIGIN, t) == At(Structural, 0, ValueWeight(Parse(t).value))
  {
    hide RunAt, ParseValue, SkipWhite, ScanOne;
    var i := SkipWhite(t, 0);
    var r := ParseValue(t, i);
    var w := ValueWeight(r.value);
    WhitePlain(t, 0, i);
    WhitePlain(t, r.next, |t|);
    RunPlain(t, 0, i, 0, 0);
    ScanValue(t, i, 0, 0);
    RunPlain(t, r.next, |t|, 0, w);
    RunAtSplit(ORIGIN, t, 0, i, r.next);
    RunAtSplit(ORIGIN, t, 0, r.next, |t|);
    RunAtSlice(ORIGIN, t, 0, |t|);
    assert t[0..|t|] == t;
  }

  lemma WhitePlain(t: Text, i: nat, j: nat)
    requires i <= j <= |t| && forall k :: i <= k < j ==> IsWhite(t[k])
    ensures forall k :: i <= k < j ==> IsPlain(t[k])
  {
  }

  /** Every accepted text has an ASCII character that is not white space. */
  lemma ParsedNotBlank(t: Text)
    requires Parse(t).Some?
    ensures !Blank(Ascii(t))
  {
    var i := SkipWhite(t, 0);
    assert i < |t| && t[i] < 0x80 && !IsWhite(t[i]) by { FirstOfValue(t, i); }
    AsciiMember(t, t[i]);
  }

  lemma FirstOfValue(t: Text, i: nat)
    requires i <= |t| && ParseValue(t, i).Ok?
    ensures i < |t| && t[i] < 0x80
  {
    if Matches(t, i, TRUE_WORD) {
      assert t[i + 0] == TRUE_WORD[0];
    } else if Matches(t, i, FALSE_WORD) {
      assert t[i + 0] == FALSE_WORD[0];
    } else if Matches(t, i, NULL_WORD) {
      assert t[i + 0] == NULL_WORD[0];
    }
  }

  ghost predicate Opposite(a: Scan, b: Scan) {
    && a.At? && b.At?
    && ((a.mode == Structural && (b.mode == InString || b.mode.InHex?))
        || (b.mode == Structural && (a.mode == InString || a.mode.InHex?)))
  }

  /** Two scans that disagree about being inside a string go on disagreeing: neither meets a
      backslash, and a quote swaps them. */
  lemma {:induction false} OppositeForever(a: Scan, b: Scan, s: seq<int>)
    requires Opposite(a, b) && Run(a, s) != Bad && Run(b, s) != Bad
    ensures Opposite(Run(a, s), Run(b, s))
    decreases |s|
  {
    if s != [] {
      var a', b' := ScanOne(a, s[0]), ScanOne(b, s[0]);
      RunBad(s[1..]);
      assert Opposite(a', b');
      OppositeForever(a', b', s[1..]);
    }
  }

  /** A scan that is at least one bracket deep and a scan from the origin cannot both end
      structural at depth zero. */
  lemma CannotBothClose(st: Scan, s: seq<int>)
    requires st.At? && st.depth >= 1
    requires Run(ORIGIN, s).At? && Run(ORIGIN, s).mode == Structural && Run(ORIGIN, s).depth == 0
    ensures !(Run(st, s).At? && Run(st, s).mode == Structural && Run(st, s).depth == 0)
  {
    match st.mode
    case Structural =>
      RunShift(ORIGIN, s, st.depth, st.weight);
    case InString =>
      if Run(st, s) != Bad { OppositeForever(st, ORIGIN, s); }
    case InHex(_, _) =>
      if Run(st, s) != Bad { OppositeForever(st, ORIGIN, s); }
    case InEscape =>
      if s != [] && Run(st, s) != Bad {
        var a, b := ScanOne(st, s[0]), ScanOne(ORIGIN, s[0]);
        RunBad(s[1..]);
        if s[0] == QUOTE {
          RunShift(b, s[1..], st.depth, st.weight);
        } else {
          assert Opposite(a, b);
          OppositeForever(a, b, s[1..]);
        }
      }
  }

  /** An accepted object text: an opening brace, a body that never closes it, its closing brace,
      and white space. */
  lemma ObjectShape(t: Text) returns (e: nat)
    requires t != [] && t[0] == OPEN_BRACE && Parse(t).Some?
    ensures 1 <= e < |t| && t[e] < 0x80
    ensures Run(ORIGIN, t[1..e]) != Bad
    ensures Blank(t[e + 1..])
  {
    hide RunAt, Run, ScanOne;
    var r := WholeValue(t);
    hide ParseValue;
    ScanBody(t, 0, 0, 0);
    e := r.next - 1;
    RunAtSlice(ORIGIN, t, 1, e);
  }

  lemma WholeValue(t: Text) returns (r: Parsed<Value>)
    requires t != [] && t[0] == OPEN_BRACE && Parse(t).Some?
    ensures r == ParseValue(t, 0) && r.Ok? && Blank(t[r.next..])
  {
    hide ParseValue;
    assert SkipWhite(t, 0) == 0;
    r := ParseValue(t, 0);
    assert SkipWhite(t, r.next) == |t|;
  }

  /** The skeleton of an object text in the same three parts. */
  lemma SkeletonShape(t: Text, e: nat)
    requires 1 <= e < |t| && t[0] == OPEN_BRACE && t[e] < 0x80 && Blank(t[e + 1..])
    ensures Ascii(t) == [OPEN_BRACE] + Ascii(t[1..e]) + [t[e]] + Ascii(t[e + 1..])
    ensures Blank(Ascii(t[e + 1..]))
  {
    hide Ascii;
    var tail := t[e + 1..];
    assert t == [t[0]] + t[1..e] + [t[e]] + tail;
    AsciiConcat([t[0]] + t[1..e] + [t[e]], tail);
    AsciiConcat([t[0]] + t[1..e], [t[e]]);
    AsciiConcat([t[0]], t[1..e]);
    AsciiOne(t[0]);
    AsciiOne(t[e]);
    AsciiBlank(tail);
  }

  lemma {:induction false} AsciiBlank(s: seq<int>)
    requires Blank(s)
    ensures Blank(Ascii(s))
  {
    if s != [] {
      AsciiBlank(s[1..]);
      assert IsWhite(s[0]);
      assert Ascii(s) == [s[0]] + Ascii(s[1..]);
    }
  }

  /** Inside an object every cut leaves the scan at least one bracket deep. */
  lemma DeepInside(body: seq<int>, k: nat)
    requires Run(ORIGIN, body) != Bad && k <= |body|
    ensures var st := Run(ORIGIN, [OPEN_BRACE] + body[..k]); st.At? && st.depth >= 1
  {
    assert body == body[..k] + body[k..];
    RunConcat(ORIGIN, body[..k], body[k..]);
    RunBad(body[k..]);
    RunShift(ORIGIN, body[..k], 1, 0);
    RunConcat(ORIGIN, [OPEN_BRACE], body[..k]);
    assert [OPEN_BRACE][1..] == [];
    assert Run(ORIGIN, [OPEN_BRACE]) == Run(ScanOne(ORIGIN, OPEN_BRACE), []) == At(Structural, 1, 0);
  }

  /** Resynchronisation. A text that agrees in ASCII with an object text cut somewhere after its
      opening brace, whatever stands between the ASCII characters, is not JSON. */
  lemma CutObjectNeverParses(t: Text, k: nat, w: Text)
    requires t != [] && t[0] == OPEN_BRACE && Parse(t).Some?
    requires 1 <= k <= |Ascii(t)| && Ascii(w) == Ascii(t)[k..]
    ensures Parse(w).None?
  {
    hide Parse, Ascii, Run, ScanOne;
    var e := ObjectShape(t);
    SkeletonShape(t, e);
    var sk, body := Ascii(t), Ascii(t[1..e]);
    if Parse(w).Some? {
      if k <= 1 + |body| {
        RunSkeleton(ORIGIN, t[1..e]);
        DeepInside(body, k - 1);
        assert sk[..k] == [OPEN_BRACE] + body[..k - 1];
        assert sk == sk[..k] + sk[k..];
        RunConcat(ORIGIN, sk[..k], sk[k..]);
        ScanText(t);
        RunSkeleton(ORIGIN, t);
        ScanText(w);
        RunSkeleton(ORIGIN, w);
        CannotBothClose(Run(ORIGIN, sk[..k]), sk[k..]);
        assert false;
      } else {
        assert Blank(sk[k..]);
        ParsedNotBlank(w);
        assert false;
      }
    }
  }

  /** No proper suffix of an object text parses, nor one with replacement characters (or anything
      else outside ASCII) in place of what was cut off. */
  lemma ProperSuffixNeverParses(t: Text, k: nat, junk: Text)
    requires t != [] && t[0] == OPEN_BRACE && Parse(t).Some?
    requires 1 <= k <= |t| && forall i :: 0 <= i < |junk| ==> junk[i] >= 0x80
    ensures Parse(junk + t[k..]).None?
    ensures Parse(t[k..]).None?
  {
    hide Parse;
    AsciiConcat(t[..k], t[k..]);
    assert t == t[..k] + t[k..];
    AsciiEmpty(junk);
    AsciiConcat(junk, t[k..]);
    var cut := |Ascii(t[..k])|;
    assert Ascii(t[..k])[0] == OPEN_BRACE by {
      assert t[..k] == [t[0]] + t[1..k];
    }
    assert Ascii(t)[cut..] == Ascii(t[k..]);
    assert [] + Ascii(t[k..]) == Ascii(t[k..]);
    CutObjectNeverParses(t, cut, junk + t[k..]);
    CutObjectNeverParses(t, cut, t[k..]);
  }

  /** Two texts that agree in ASCII and both parse give values whose weights differ by exactly
      the difference in weight of the texts. */
  lemma DamageShows(t: Text, damaged: Text)
    requires Ascii(t) == Ascii(damaged) && Parse(t).Some? && Parse(damaged).Some?
    ensures ValueWeight(Parse(damaged).value) - ValueWeight(Parse(t).value) == Weight(damaged) - Weight(t)
  {
    ScanText(t);
    ScanText(damaged);
    RunSkeleton(ORIGIN, t);
    RunSkeleton(ORIGIN, damaged);
  }
}
