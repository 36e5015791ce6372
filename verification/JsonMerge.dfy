/** Objects as JavaScript sees them: of repeated keys only the last counts, and the order of keys
    does not. Damage to a value without repeated keys shows in this view too. */
module JsonMerge {
  import opened Units
  import opened Json
  import opened JsonScan
  import opened JsonDamage

  function LastIndex(members: seq<Member>, key: Text): (i: int)
    ensures -1 <= i < |members|
    ensures i >= 0 ==> members[i].key == key
    ensures forall j :: i < j < |members| ==> members[j].key != key
  {
    if members == [] then -1
    else
      var n := |members| - 1;
      if members[n].key == key then n else LastIndex(members[..n], key)
  }

  /** A property read finds the last member of that name. */
  lemma {:induction false} LookupIsLast(members: seq<Member>, key: Text)
    ensures Lookup(members, key) ==
            if LastIndex(members, key) < 0 then None else Some(members[LastIndex(members, key)].value)
  {
    if members != [] { LookupIsLast(members[..|members| - 1], key); }
  }

  /** The same to JavaScript: equal up to the order of keys and members that a later one overrides.
      Numbers are not told apart, so that no reading of their lexemes makes values less alike. */
  ghost predicate Alike(v: Value, w: Value) {
    match v
    case Number(_) => w.Number?
    case Arr(items) => w.Arr? && |w.items| == |items| && forall i :: 0 <= i < |items| ==> Alike(items[i], w.items[i])
    case Obj(members) =>
      w.Obj? && forall key: Text :: AlikeAt(members, w.members, key)
    case _ => w == v
  }

  ghost predicate AlikeAt(ms: seq<Member>, ns: seq<Member>, key: Text) {
    var i, j := LastIndex(ms, key), LastIndex(ns, key);
    (i >= 0 <==> j >= 0) && (i >= 0 && j >= 0 ==> Alike(ms[i].value, ns[j].value))
  }

  /** Two objects are alike exactly if every property read of the one finds what the other's finds. */
  lemma AlikeReads(ms: seq<Member>, ns: seq<Member>)
    ensures Alike(Obj(ms), Obj(ns)) <==> forall key: Text :: AlikeFound(Lookup(ms, key), Lookup(ns, key))
  {
    if Alike(Obj(ms), Obj(ns)) {
      forall key: Text ensures AlikeFound(Lookup(ms, key), Lookup(ns, key)) { AlikeRead(ms, ns, key); }
    } else {
      var key := UnlikeRead(ms, ns);
    }
  }

  lemma AlikeRead(ms: seq<Member>, ns: seq<Member>, key: Text)
    requires Alike(Obj(ms), Obj(ns))
    ensures AlikeFound(Lookup(ms, key), Lookup(ns, key))
  {
    LookupIsLast(ms, key);
    LookupIsLast(ns, key);
    assert AlikeAt(ms, ns, key);
  }

  lemma UnlikeRead(ms: seq<Member>, ns: seq<Member>) returns (key: Text)
    requires !Alike(Obj(ms), Obj(ns))
    ensures !AlikeFound(Lookup(ms, key), Lookup(ns, key))
  {
    key :| !AlikeAt(ms, ns, key);
    LookupIsLast(ms, key);
    LookupIsLast(ns, key);
  }

  ghost predicate AlikeFound(a: Option<Value>, b: Option<Value>) {
    (a.Some? <==> b.Some?) && (a.Some? && b.Some? ==> Alike(a.value, b.value))
  }

  ghost predicate NoRepeats(v: Value) {
    match v
    case Arr(items) => forall i :: 0 <= i < |items| ==> NoRepeats(items[i])
    case Obj(members) => UniqueKeys(members) && forall i :: 0 <= i < |members| ==> NoRepeats(members[i].value)
    case _ => true
  }

  ghost predicate UniqueKeys(members: seq<Member>) {
    forall i, j :: 0 <= i < j < |members| ==> members[i].key != members[j].key
  }

  lemma {:induction false} AlikeSelf(v: Value)
    ensures Alike(v, v)
  {
    match v
    case Arr(items) =>
      forall i | 0 <= i < |items| ensures Alike(items[i], items[i]) { AlikeSelf(items[i]); }
    case Obj(members) =>
      forall i | 0 <= i < |members| ensures Alike(members[i].value, members[i].value) { AlikeSelf(members[i].value); }
    case _ =>
  }

  // ----- The number of members in a value, however deep

  function Count(v: Value): nat {
    match v
    case Arr(items) => ItemsCount(items)
    case Obj(members) => MembersCount(members)
    case _ => 0
  }

  function ItemsCount(items: seq<Value>): nat {
    if items == [] then 0 else Count(items[0]) + ItemsCount(items[1..])
  }

  function MembersCount(members: seq<Member>): nat {
    if members == [] then 0 else 1 + Count(members[0].value) + MembersCount(members[1..])
  }

  lemma {:induction false} BlurredCount(v: Value, w: Value)
    requires BlurredValue(v, w)
    ensures Count(w) == Count(v)
    decreases v, 0
  {
    match v
    case Arr(items) => BlurredItems(items, w.items);
    case Obj(members) => BlurredMembers(members, w.members);
    case _ =>
  }

  lemma {:induction false} BlurredItems(vs: seq<Value>, ws: seq<Value>)
    requires |vs| == |ws| && forall i :: 0 <= i < |vs| ==> BlurredValue(vs[i], ws[i])
    ensures ItemsCount(ws) == ItemsCount(vs)
    decreases vs
  {
    if vs != [] {
      BlurredCount(vs[0], ws[0]);
      BlurredItems(vs[1..], ws[1..]);
    }
  }

  lemma {:induction false} BlurredMembers(vs: seq<Member>, ws: seq<Member>)
    requires |vs| == |ws| && forall i :: 0 <= i < |vs| ==> BlurredMember(vs[i], ws[i])
    ensures MembersCount(ws) == MembersCount(vs)
    decreases vs
  {
    if vs != [] {
      BlurredCount(vs[0].value, ws[0].value);
      BlurredMembers(vs[1..], ws[1..]);
    }
  }

  // ----- A value that looks the same and has no more members weighs the same

  function Without(members: seq<Member>, j: nat): seq<Member>
    requires j < |members|
  {
    members[..j] + members[j + 1..]
  }

  lemma {:induction false} WithoutSums(members: seq<Member>, j: nat)
    requires j < |members|
    ensures MembersCount(members) == MembersCount(Without(members, j)) + 1 + Count(members[j].value)
    ensures MembersWeight(members)
         == MembersWeight(Without(members, j)) + Weight(members[j].key) + ValueWeight(members[j].value)
  {
    if j == 0 {
      assert Without(members, 0) == members[1..];
    } else {
      WithoutSums(members[1..], j - 1);
      assert Without(members, j)[1..] == Without(members[1..], j - 1);
    }
  }

  /** Removing a member of another name changes no lookup. */
  lemma LastWithout(members: seq<Member>, j: nat, key: Text)
    requires j < |members| && members[j].key != key && LastIndex(members, key) >= 0
    ensures LastIndex(Without(members, j), key) >= 0
    ensures Without(members, j)[LastIndex(Without(members, j), key)] == members[LastIndex(members, key)]
  {
    var less, i := Without(members, j), LastIndex(members, key);
    var k := if i < j then i else i - 1;
    assert less[k] == members[i];
    forall x | k < x < |less| ensures less[x].key != key {
      assert less[x] == members[if x < j then x else x + 1];
    }
  }

  lemma {:induction false} AlikeWeighs(v: Value, w: Value)
    requires NoRepeats(v) && Alike(v, w)
    ensures Count(w) >= Count(v)
    ensures Count(w) == Count(v) ==> ValueWeight(w) == ValueWeight(v)
    decreases v, 0
  {
    match v
    case Arr(items) => ItemsWeigh(items, w.items);
    case Obj(members) =>
      forall i | 0 <= i < |members|
        ensures FoundIn(members[i], w.members)
      {
        assert LastIndex(members, members[i].key) == i;
        assert AlikeAt(members, w.members, members[i].key);
      }
      MembersWeigh(members, w.members);
    case _ =>
  }

  lemma {:induction false} ItemsWeigh(vs: seq<Value>, ws: seq<Value>)
    requires |vs| == |ws| && forall i :: 0 <= i < |vs| ==> NoRepeats(vs[i]) && Alike(vs[i], ws[i])
    ensures ItemsCount(ws) >= ItemsCount(vs)
    ensures ItemsCount(ws) == ItemsCount(vs) ==> ItemsWeight(ws) == ItemsWeight(vs)
    decreases vs
  {
    if vs != [] {
      AlikeWeighs(vs[0], ws[0]);
      ItemsWeigh(vs[1..], ws[1..]);
    }
  }

  ghost predicate FoundIn(m: Member, ws: seq<Member>) {
    LastIndex(ws, m.key) >= 0 && Alike(m.value, ws[LastIndex(ws, m.key)].value)
  }

  lemma {:induction false} MembersWeigh(vs: seq<Member>, ws: seq<Member>)
    requires UniqueKeys(vs) && forall i :: 0 <= i < |vs| ==> NoRepeats(vs[i].value) && FoundIn(vs[i], ws)
    ensures MembersCount(ws) >= MembersCount(vs)
    ensures MembersCount(ws) == MembersCount(vs) ==> MembersWeight(ws) == MembersWeight(vs)
    decreases vs
  {
    if vs != [] {
      var j := LastIndex(ws, vs[0].key);
      var rest, others := vs[1..], Without(ws, j);
      assert FoundIn(vs[0], ws);
      AlikeWeighs(vs[0].value, ws[j].value);
      forall i | 0 <= i < |rest| ensures NoRepeats(rest[i].value) && FoundIn(rest[i], others) {
        assert FoundIn(vs[i + 1], ws);
        LastWithout(ws, j, rest[i].key);
      }
      MembersWeigh(rest, others);
      WithoutSums(ws, j);
    }
  }

  /** A damaged value that looks the same as the original, one without repeated keys, has gained no
      weight: nothing in it was damaged. */
  lemma DamageIsVisible(v: Value, w: Value)
    requires NoRepeats(v) && BlurredValue(v, w) && Alike(v, w)
    ensures ValueWeight(w) == ValueWeight(v)
  {
    BlurredCount(v, w);
    AlikeWeighs(v, w);
  }
}
