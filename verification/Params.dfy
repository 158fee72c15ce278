/** TParameterList of sy_param.cpp: an ordered list of named values, looked up ignoring case. */
module Params {
  import opened Bytes

  const EQUALS: byte := '=' as int
  const TILDE: byte := '~' as int

  datatype Pair = Pair(name: seq<byte>, value: seq<byte>)

  /** The first parameter of that name, ignoring case; the length of the list if there is none. */
  function IndexOf(items: seq<Pair>, name: seq<byte>): (k: nat)
    ensures k <= |items|
  {
    if items == [] || SameIgnoringCase(items[0].name, name) then 0 else 1 + IndexOf(items[1..], name)
  }

  function Tilded(name: seq<byte>): seq<byte> {
    if name == [] then [] else [if name[0] == EQUALS then TILDE else name[0]] + Tilded(name[1..])
  }

  /** The list after Set(name, value). */
  function Put(items: seq<Pair>, name: seq<byte>, value: seq<byte>): seq<Pair> {
    var k := IndexOf(items, name);
    if k < |items| then items[k := items[k].(value := value)] else items + [Pair(Tilded(name), value)]
  }

  class ParameterList {
    var items: seq<Pair>

    constructor ()
      ensures items == []
    {
      items := [];
    }

    method Set(name: seq<byte>, value: seq<byte>)
      modifies this
      ensures items == Put(old(items), name, value)
    {
      var k := 0;
      assert items[0..] == items;
      while k < |items| && !SameIgnoringCase(items[k].name, name)
        invariant 0 <= k <= |items| && k + IndexOf(items[k..], name) == IndexOf(items, name)
      {
        assert items[k..][1..] == items[k + 1..];
        k := k + 1;
      }
      if k < |items| {
        items := items[k := items[k].(value := value)];
      } else {
        items := items + [Pair(Tilded(name), value)];
      }
    }
  }

  /** A name that is in the list, ignoring case, gets the new value where it stands first; any other name
      is appended, with a tilde for each equals sign. Nothing else changes. */
  lemma PutFinds(items: seq<Pair>, name: seq<byte>, value: seq<byte>) returns (k: nat)
    ensures k <= |items| && forall j | 0 <= j < k :: !SameIgnoringCase(items[j].name, name)
    ensures var after := Put(items, name, value);
      if k < |items| then
        SameIgnoringCase(items[k].name, name) && after == items[k := Pair(items[k].name, value)]
      else
        && |after| == |items| + 1 && after[..k] == items && after[k].value == value && |after[k].name| == |name|
        && forall j | 0 <= j < |name| :: after[k].name[j] == if name[j] == 0x3D then 0x7E else name[j]
  {
    k := IndexOf(items, name);
    FirstIsFound(items, name);
    TildedEach(name);
  }

  lemma {:induction false} FirstIsFound(items: seq<Pair>, name: seq<byte>)
    ensures var k := IndexOf(items, name);
      && (forall j | 0 <= j < k :: !SameIgnoringCase(items[j].name, name))
      && (k < |items| ==> SameIgnoringCase(items[k].name, name))
  {
    if items != [] && !SameIgnoringCase(items[0].name, name) {
      FirstIsFound(items[1..], name);
    }
  }

  lemma {:induction false} TildedEach(name: seq<byte>)
    ensures |Tilded(name)| == |name|
    ensures forall j | 0 <= j < |name| :: Tilded(name)[j] == if name[j] == 0x3D then 0x7E else name[j]
  {
    if name != [] {
      TildedEach(name[1..]);
    }
  }

  predicate Unused(items: seq<Pair>, name: seq<byte>) {
    forall k | 0 <= k < |items| :: !SameIgnoringCase(items[k].name, name)
  }

  lemma {:induction false} PutNew(items: seq<Pair>, name: seq<byte>, value: seq<byte>)
    requires Unused(items, name) && EQUALS !in name
    ensures Put(items, name, value) == items + [Pair(name, value)]
  {
    NotFound(items, name);
    NothingTilded(name);
  }

  lemma {:induction false} NotFound(items: seq<Pair>, name: seq<byte>)
    requires Unused(items, name)
    ensures IndexOf(items, name) == |items|
  {
    if items != [] {
      NotFound(items[1..], name);
    }
  }

  lemma {:induction false} NothingTilded(name: seq<byte>)
    requires EQUALS !in name
    ensures Tilded(name) == name
  {
    if name != [] {
      NothingTilded(name[1..]);
    }
  }

  /** The value of a name, empty if it is not there. */
  function Lookup(items: seq<Pair>, name: seq<byte>): seq<byte> {
    var k := IndexOf(items, name);
    if k < |items| then items[k].value else []
  }

  // ----- Building a list from another

  /** No name is used twice, ignoring case. */
  predicate Distinct(items: seq<Pair>) {
    items == [] || ((items[0].name == [] || Unused(items[1..], items[0].name)) && Distinct(items[1..]))
  }

  /** None of the names is in use already. */
  predicate AllUnused(done: seq<Pair>, items: seq<Pair>) {
    items == [] || ((items[0].name == [] || Unused(done, items[0].name)) && AllUnused(done, items[1..]))
  }

  lemma {:induction false} StillUnused(done: seq<Pair>, p: Pair, items: seq<Pair>)
    requires AllUnused(done, items) && Unused(items, p.name)
    ensures AllUnused(done + [p], items)
  {
    if items != [] {
      StillUnused(done, p, items[1..]);
      SameIsSymmetric(p.name, items[0].name);
    }
  }

  lemma SameIsSymmetric(a: seq<byte>, b: seq<byte>)
    ensures SameIgnoringCase(a, b) == SameIgnoringCase(b, a)
  {
  }

  lemma {:induction false} NothingUsed(items: seq<Pair>)
    ensures AllUnused([], items)
  {
    if items != [] {
      NothingUsed(items[1..]);
    }
  }

  /** operator =: every pair of the other list is set in turn. */
  function PutAll(items: seq<Pair>, other: seq<Pair>): seq<Pair>
    decreases |other|
  {
    if other == [] then items else PutAll(Put(items, other[0].name, other[0].value), other[1..])
  }

  predicate NoEquals(items: seq<Pair>) {
    items == [] || (EQUALS !in items[0].name && NoEquals(items[1..]))
  }

  predicate AllNamed(items: seq<Pair>) {
    items == [] || (items[0].name != [] && AllNamed(items[1..]))
  }

  lemma {:induction false} PutAllNew(items: seq<Pair>, other: seq<Pair>)
    requires Distinct(other) && AllUnused(items, other) && NoEquals(other) && AllNamed(other)
    ensures PutAll(items, other) == items + other
    decreases |other|
  {
    if other != [] {
      PutNew(items, other[0].name, other[0].value);
      StillUnused(items, other[0], other[1..]);
      PutAllNew(items + [other[0]], other[1..]);
      FirstThenRest(items, other);
    }
  }

  lemma FirstThenRest(items: seq<Pair>, other: seq<Pair>)
    requires other != []
    ensures items + [other[0]] + other[1..] == items + other
  {
  }
}
