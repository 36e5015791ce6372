/** `splitStream`: a transducer that cuts a stream of text chunks at a delimiter and keeps the
    incomplete end in a buffer. */
module SplitStream {
  import opened Units

  // ----- String.prototype.split for a non-empty separator

  predicate Contains(s: Text, d: Text) { exists j :: 0 <= j <= |s| && Matches(s, j, d) }

  /** The leftmost occurrence of `d` in `s` at or after `p`, or -1. */
  function IndexOf(s: Text, d: Text, p: nat): (j: int)
    requires d != [] && p <= |s|
    ensures j == -1 || (p <= j && Matches(s, j, d))
    ensures forall k :: p <= k <= |s| && (j == -1 || k < j) ==> !Matches(s, k, d)
    decreases |s| - p
  {
    if Matches(s, p, d) then p
    else if p == |s| then -1
    else IndexOf(s, d, p + 1)
  }

  function Split(s: Text, d: Text): (parts: seq<Text>)
    requires d != []
    ensures |parts| >= 1
    decreases |s|
  {
    var j := IndexOf(s, d, 0);
    if j == -1 then [s] else [s[..j]] + Split(s[j + |d|..], d)
  }

  /** The parts of the split that a delimiter terminates. */
  function Lines(s: Text, d: Text): seq<Text>
    requires d != []
    decreases |s|
  {
    var j := IndexOf(s, d, 0);
    if j == -1 then [] else [s[..j]] + Lines(s[j + |d|..], d)
  }

  /** The part of the split that no delimiter terminates. */
  function Rest(s: Text, d: Text): Text
    requires d != []
    decreases |s|
  {
    var j := IndexOf(s, d, 0);
    if j == -1 then s else Rest(s[j + |d|..], d)
  }

  lemma {:induction false} SplitParts(s: Text, d: Text)
    requires d != []
    ensures Split(s, d) == Lines(s, d) + [Rest(s, d)]
    decreases |s|
  {
    hide IndexOf;
    var j := IndexOf(s, d, 0);
    if j != -1 {
      SplitParts(s[j + |d|..], d);
      Assoc([s[..j]], Lines(s[j + |d|..], d), [Rest(s, d)]);
    }
  }

  lemma SplitUnfold(s: Text, d: Text)
    requires d != []
    ensures var j := IndexOf(s, d, 0);
            if j == -1 then Lines(s, d) == [] && Rest(s, d) == s
            else Lines(s, d) == [s[..j]] + Lines(s[j + |d|..], d) && Rest(s, d) == Rest(s[j + |d|..], d)
  {
    hide IndexOf;
  }

  /** More text behind `x` does not change the occurrences that lie in `x`. */
  lemma MatchesAppend(x: Text, y: Text, k: nat, d: Text)
    requires k + |d| <= |x|
    ensures Matches(x + y, k, d) == Matches(x, k, d)
  {
    var xy := x + y;
    forall m | 0 <= m < |d| ensures xy[k + m] == d[m] <==> x[k + m] == d[m] {
      assert xy[k + m] == x[k + m];
    }
  }

  /** An occurrence that lies in `x` is still leftmost once more text follows. */
  lemma IndexOfAppend(x: Text, y: Text, d: Text)
    requires d != [] && IndexOf(x, d, 0) != -1
    ensures IndexOf(x + y, d, 0) == IndexOf(x, d, 0)
  {
    var i := IndexOf(x, d, 0);
    forall k: nat | k <= i ensures Matches(x + y, k, d) == Matches(x, k, d) {
      MatchesAppend(x, y, k, d);
    }
  }

  /** Splitting what is left of `x` together with `y` continues the split of `x`. */
  lemma {:induction false} SplitAppend(x: Text, y: Text, d: Text)
    requires d != []
    ensures Lines(x + y, d) == Lines(x, d) + Lines(Rest(x, d) + y, d)
    ensures Rest(x + y, d) == Rest(Rest(x, d) + y, d)
    decreases |x|
  {
    hide Split, Lines, Rest, IndexOf;
    var i := IndexOf(x, d, 0);
    SplitUnfold(x, d);
    if i == -1 {
      assert [] + Lines(x + y, d) == Lines(x + y, d);
    } else {
      IndexOfAppend(x, y, d);
      SplitUnfold(x + y, d);
      var x' := x[i + |d|..];
      assert (x + y)[..i] == x[..i] && (x + y)[i + |d|..] == x' + y;
      SplitAppend(x', y, d);
      Assoc([x[..i]], Lines(x', d), Lines(Rest(x', d) + y, d));
    }
  }

  // ----- What a split means: conservation, and the only way to cut a text at its delimiters

  /** Each part followed by the delimiter. */
  function Terminated(parts: seq<Text>, d: Text): Text {
    if parts == [] then [] else parts[0] + d + Terminated(parts[1..], d)
  }

  /** The delimiter put behind `part` completes no earlier occurrence. */
  predicate EndsAtFirst(part: Text, d: Text)
    requires d != []
  {
    IndexOf(part + d, d, 0) == |part|
  }

  /** Nothing is lost or invented, and parts and rest hold no delimiter. */
  lemma {:induction false} Conservation(s: Text, d: Text)
    requires d != []
    ensures Terminated(Lines(s, d), d) + Rest(s, d) == s
    ensures forall part :: part in Lines(s, d) ==> EndsAtFirst(part, d) && !Contains(part, d)
    ensures !Contains(Rest(s, d), d)
    decreases |s|
  {
    hide Split, Lines, Rest;
    SplitUnfold(s, d);
    var j := IndexOf(s, d, 0);
    if j == -1 {
      assert Terminated([], d) + s == s;
    } else {
      var tail := s[j + |d|..];
      Conservation(tail, d);
      FirstPart(s, d, j);
      var rest := Terminated(Lines(tail, d), d);
      assert ([s[..j]] + Lines(tail, d))[1..] == Lines(tail, d);
      assert s == s[..j] + d + tail;
      Assoc(s[..j] + d, rest, Rest(tail, d));
    }
  }

  lemma FirstPart(s: Text, d: Text, j: nat)
    requires d != [] && IndexOf(s, d, 0) == j
    ensures j + |d| <= |s| && s == s[..j] + d + s[j + |d|..]
    ensures EndsAtFirst(s[..j], d) && !Contains(s[..j], d)
  {
    var part, tail := s[..j], s[j + |d|..];
    assert s[j..j + |d|] == d by {
      assert forall k :: 0 <= k < |d| ==> s[j + k] == d[k];
    }
    assert s == part + d + tail;
    NoneBefore(part, d, tail);
  }

  lemma NoneBefore(part: Text, d: Text, tail: Text)
    requires d != [] && IndexOf(part + d + tail, d, 0) == |part|
    ensures EndsAtFirst(part, d) && !Contains(part, d)
  {
    var s := part + d + tail;
    forall k: nat | k <= |part|
      ensures Matches(part + d, k, d) == Matches(s, k, d)
    {
      MatchesAppend(part + d, tail, k, d);
    }
    forall k: nat | k + |d| <= |part| ensures !Matches(part, k, d) {
      MatchesAppend(part, d, k, d);
    }
  }

  /** The converse: any such cut of a text is the one `Split` makes. */
  lemma {:induction false} SplitUnique(parts: seq<Text>, rest: Text, d: Text)
    requires d != [] && !Contains(rest, d)
    requires forall i :: 0 <= i < |parts| ==> EndsAtFirst(parts[i], d)
    ensures Lines(Terminated(parts, d) + rest, d) == parts
    ensures Rest(Terminated(parts, d) + rest, d) == rest
    decreases |parts|
  {
    hide Split, Lines, Rest, EndsAtFirst, Contains, IndexOf;
    var s := Terminated(parts, d) + rest;
    SplitUnfold(s, d);
    if parts == [] {
      assert s == rest;
      NoIndex(rest, d);
    } else {
      var head, tail := parts[0], Terminated(parts[1..], d) + rest;
      Assoc(head + d, Terminated(parts[1..], d), rest);
      assert s == (head + d) + tail;
      SplitUnique(parts[1..], rest, d);
      FirstIndex(head, tail, d);
      assert s[..|head|] == head && s[|head| + |d|..] == tail;
      assert [head] + parts[1..] == parts;
    }
  }

  lemma NoIndex(s: Text, d: Text)
    requires d != [] && !Contains(s, d)
    ensures IndexOf(s, d, 0) == -1
  {
  }

  lemma FirstIndex(head: Text, tail: Text, d: Text)
    requires d != [] && EndsAtFirst(head, d)
    ensures IndexOf((head + d) + tail, d, 0) == |head|
  {
    IndexOfAppend(head + d, tail, d);
  }

  // ----- The transform stream

  /** The controller a transform enqueues its output on. */
  class Controller<T> {
    var queue: seq<T>

    constructor ()
      ensures queue == []
    {
      queue := [];
    }

    method Enqueue(chunk: T)
      modifies this
      ensures queue == old(queue) + [chunk]
    {
      queue := queue + [chunk];
    }
  }

  class Splitter {
    const splitOn: Text
    var buffer: Text
    ghost var received: Text

    /** The buffer is the unterminated end of everything received so far. */
    ghost predicate Valid()
      reads this
    {
      splitOn != [] && buffer == Rest(received, splitOn)
    }

    constructor (splitOn: Text)
      requires splitOn != []
      ensures Valid() && this.splitOn == splitOn && received == []
    {
      this.splitOn := splitOn;
      buffer := [];
      received := [];
    }

    method QueueLines(controller: Controller<Text>)
      requires splitOn != []
      modifies this`buffer, controller
      ensures controller.queue == old(controller.queue) + Lines(old(buffer), splitOn)
      ensures buffer == Rest(old(buffer), splitOn)
    {
      var parts := Split(buffer, splitOn);
      SplitParts(buffer, splitOn);
      var i := 0;
      while i < |parts| - 1
        invariant 0 <= i <= |parts| - 1
        invariant controller.queue == old(controller.queue) + parts[..i]
        invariant buffer == old(buffer)
      {
        controller.Enqueue(parts[i]);
        assert parts[..i + 1] == parts[..i] + [parts[i]];
        i := i + 1;
      }
      assert parts[..|parts| - 1] == Lines(buffer, splitOn);
      buffer := parts[|parts| - 1];
    }

    /** Emits exactly the lines that the new chunk completes. */
    method Transform(chunk: Text, controller: Controller<Text>)
      requires Valid()
      modifies this, controller
      ensures Valid() && received == old(received) + chunk
      ensures controller.queue == old(controller.queue) + Lines(old(buffer) + chunk, splitOn)
      ensures Lines(received, splitOn) == Lines(old(received), splitOn) + Lines(old(buffer) + chunk, splitOn)
    {
      buffer := buffer + chunk;
      QueueLines(controller);
      received := received + chunk;
      SplitAppend(old(received), chunk, splitOn);
    }

    /** Emits nothing: what is left in the buffer holds no delimiter. */
    method Flush(controller: Controller<Text>)
      requires Valid()
      modifies this, controller
      ensures Valid() && received == old(received) && buffer == old(buffer)
      ensures controller.queue == old(controller.queue)
    {
      if |buffer| > 0 {
        Conservation(received, splitOn);
        SplitUnique([], buffer, splitOn);
        assert Terminated([], splitOn) + buffer == buffer;
        QueueLines(controller);
      }
    }
  }

  /** A whole stream through a splitter: whatever the chunks, the lines of their concatenation.
      A stream that fails upstream is never flushed. */
  method RunSplitter(chunks: seq<Text>, failed: bool, splitOn: Text) returns (lines: seq<Text>)
    requires splitOn != []
    ensures lines == Lines(Flatten(chunks), splitOn)
  {
    var controller := new Controller<Text>();
    var splitter := new Splitter(splitOn);
    SplitUnfold([], splitOn);
    for i := 0 to |chunks|
      invariant splitter.Valid() && splitter.splitOn == splitOn
      invariant splitter.received == Flatten(chunks[..i])
      invariant controller.queue == Lines(splitter.received, splitOn)
    {
      splitter.Transform(chunks[i], controller);
      assert chunks[..i + 1] == chunks[..i] + [chunks[i]];
      FlattenSnoc(chunks[..i], chunks[i]);
    }
    assert chunks[..|chunks|] == chunks;
    if !failed {
      splitter.Flush(controller);
    }
    lines := controller.queue;
  }
}
