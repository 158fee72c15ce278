/** TEnvelope of pointer.h: handles that share an object through a counted letter and delete it
    when the last one lets go. Objects may hold handles themselves, which go with them. */
module Envelopes {
  const NULL: nat := 0

  /** What a letter was made for: an object and whether an owner wants to hear of its release. */
  datatype Made = Made(obj: nat, owner: bool)

  // ----- Specification: shared ownership, without any counter

  /** Handles are numbered in the order of their construction; home is the object that a new one is
      a part of, or NULL. */
  datatype Op =
    | Construct(home: nat, obj: nat, owner: bool)
    | Copy(home: nat, src: nat)
    | Assign(e: nat, src: nat)
    | AssignObject(e: nat, obj: nat)
    | Destroy(e: nat)

  /** Live handles with the letter each one holds, where every handle ever made lives, every letter
      ever made, and what became of their objects. */
  datatype Sharing = Sharing(holds: map<nat, nat>, homes: seq<nat>, made: seq<Made>, deleted: seq<nat>,
                             notified: seq<nat>)
  {
    function Holders(l: nat): set<nat> {
      set e | e in holds && holds[e] == l
    }

    predicate Sound() {
      forall e | e in holds :: e < |homes| && holds[e] < |made|
    }

    predicate Wrapped(obj: nat) {
      exists l | 0 <= l < |made| :: made[l].obj == obj
    }

    /** A place where a handle can be: outside all objects, or in one that has not been deleted. */
    predicate Open(home: nat) {
      home == NULL || home !in deleted
    }

    /** What C++ itself demands of the program: handles are made where there is memory and used while
        they live, and no raw pointer is handed over twice. */
    predicate Legal(op: Op) {
      match op
      case Construct(home, obj, _) => Open(home) && (obj != NULL ==> !Wrapped(obj))
      case Copy(home, src) => Open(home) && src in holds
      case Assign(e, src) => e in holds && src in holds
      case AssignObject(e, obj) => e in holds && (obj != NULL ==> !Wrapped(obj))
      case Destroy(e) => e in holds
    }

    function Take(e: nat, l: nat): Sharing {
      this.(holds := holds[e := l])
    }

    function Without(e: nat): Sharing {
      this.(holds := holds - {e})
    }

    function Make(obj: nat, owner: bool): Sharing {
      this.(made := made + [Made(obj, owner)])
    }

    /** A new handle comes to live somewhere and holds letter l. */
    function Join(home: nat, l: nat): Sharing {
      this.(homes := homes + [home]).Take(|homes|, l)
    }

    function Gone(obj: nat): Sharing {
      this.(deleted := deleted + [obj])
    }

    function Told(obj: nat): Sharing {
      this.(notified := notified + [obj])
    }
  }

  const NOTHING: Sharing := Sharing(map[], [], [], [], [])

  /** The handles among the first k that live in an object, the last one first: the order in which its
      destructor destroys them. */
  function Members(homes: seq<nat>, obj: nat, k: nat): seq<nat>
    requires k <= |homes|
  {
    if k == 0 then []
    else if homes[k - 1] == obj then [k - 1] + Members(homes, obj, k - 1)
    else Members(homes, obj, k - 1)
  }

  lemma {:induction false} MembersLiveThere(homes: seq<nat>, obj: nat, k: nat, h: nat)
    requires k <= |homes|
    ensures h in Members(homes, obj, k) <==> h < k && homes[h] == obj
  {
    if k > 0 {
      MembersLiveThere(homes, obj, k - 1, h);
    }
  }

  /** One holder of letter l less: the object goes when there is none left, and with it every handle
      that lives in it lets go as well. */
  function Released(s: Sharing, l: nat): (r: Sharing)
    requires s.Sound() && l < |s.made|
    ensures r.Sound() && r.homes == s.homes && r.made == s.made && |r.holds.Keys| <= |s.holds.Keys|
    decreases |s.holds.Keys|, 3, 0
  {
    var m, left := s.made[l], |s.Holders(l)|;
    if left == 0 then
      if m.obj == NULL then s else DropAll(s.Gone(m.obj), Members(s.homes, m.obj, |s.homes|))
    else if left == 1 && m.owner then s.Told(m.obj)
    else s
  }

  function DropAll(s: Sharing, hs: seq<nat>): (r: Sharing)
    requires s.Sound()
    ensures r.Sound() && r.homes == s.homes && r.made == s.made && |r.holds.Keys| <= |s.holds.Keys|
    decreases |s.holds.Keys|, 2, |hs|
  {
    if hs == [] then s
    else DropAll(if hs[0] in s.holds then Drop(s, hs[0]) else s, hs[1..])
  }

  /** Handle e lets go. */
  function Drop(s: Sharing, e: nat): (r: Sharing)
    requires s.Sound() && e in s.holds
    ensures r.Sound() && r.homes == s.homes && r.made == s.made && |r.holds.Keys| < |s.holds.Keys|
    decreases |s.holds.Keys|, 1, 0
  {
    KeysWithout(s, e);
    Released(s.Without(e), s.holds[e])
  }

  lemma KeysWithout(s: Sharing, e: nat)
    requires e in s.holds
    ensures |s.Without(e).holds.Keys| == |s.holds.Keys| - 1
  {
    assert s.Without(e).holds.Keys == s.holds.Keys - {e};
  }

  function Next(s: Sharing, op: Op): Sharing
    requires s.Sound() && s.Legal(op)
  {
    match op
    case Construct(home, obj, owner) => s.Make(obj, owner).Join(home, |s.made|)
    case Copy(home, src) => s.Join(home, s.holds[src])
    case Assign(e, src) => Drop(s, e).Take(e, s.holds[src])
    case AssignObject(e, obj) => Drop(s, e).Make(obj, false).Take(e, |s.made|)
    case Destroy(e) => Drop(s, e)
  }

  // ----- The one way to go wrong

  predicate Sole(s: Sharing, e: nat) {
    e in s.holds && s.Holders(s.holds[e]) == {e}
  }

  /** All holders of letter l are handle e or live in objects of x. */
  predicate HeldWithin(s: Sharing, l: nat, e: nat, x: set<nat>)
    requires s.Sound()
  {
    forall h | h in s.Holders(l) :: h == e || s.homes[h] in x
  }

  /** The objects that nobody would hold any more without e and without the handles that live in x. */
  function LeftAlone(s: Sharing, e: nat, x: set<nat>): set<nat>
    requires s.Sound()
  {
    set l | 0 <= l < |s.made| && s.made[l].obj != NULL && s.Holders(l) != {} && HeldWithin(s, l, e, x) :: s.made[l].obj
  }

  function Doomed(s: Sharing, e: nat, rounds: nat): set<nat>
    requires s.Sound()
  {
    if rounds == 0 then {} else LeftAlone(s, e, Doomed(s, e, rounds - 1))
  }

  /** The objects that hang on e alone, directly or through one another: told from who holds what, without
      letting go of anything. */
  function WhatGoes(s: Sharing, e: nat): set<nat>
    requires s.Sound()
  {
    Doomed(s, e, |s.made|)
  }

  /** Handle h lives in an object that hangs on e. */
  predicate GoesWith(s: Sharing, e: nat, h: nat)
    requires s.Sound() && e in s.holds && h < |s.homes|
  {
    s.homes[h] in WhatGoes(s, e)
  }

  /** The sole holder of a letter is given another one although the handle to be copied, or the handle
      itself, lives in an object that hangs on it. */
  predicate Suicidal(s: Sharing, op: Op)
    requires s.Sound() && s.Legal(op)
  {
    match op
    case Assign(e, src) => Sole(s, e) && (src == e || GoesWith(s, e, src) || GoesWith(s, e, e))
    case AssignObject(e, _) => Sole(s, e) && GoesWith(s, e, e)
    case Destroy(e) => Sole(s, e) && GoesWith(s, e, e)
    case _ => false
  }

  // ----- What letting go does not do

  /** Nobody gets a letter, and nothing deleted comes back. */
  predicate Shrunk(s: Sharing, r: Sharing) {
    && (forall h | h in r.holds :: h in s.holds && r.holds[h] == s.holds[h])
    && s.deleted <= r.deleted && s.notified <= r.notified && r.homes == s.homes && r.made == s.made
  }

  lemma {:induction false} ReleasedShrinks(s: Sharing, l: nat)
    requires s.Sound() && l < |s.made|
    ensures Shrunk(s, Released(s, l))
    decreases |s.holds.Keys|, 3, 0
  {
    var m := s.made[l];
    if |s.Holders(l)| == 0 && m.obj != NULL {
      DropAllShrinks(s.Gone(m.obj), Members(s.homes, m.obj, |s.homes|));
    }
  }

  lemma {:induction false} DropAllShrinks(s: Sharing, hs: seq<nat>)
    requires s.Sound()
    ensures Shrunk(s, DropAll(s, hs))
    decreases |s.holds.Keys|, 2, |hs|
  {
    if hs != [] {
      var s1 := if hs[0] in s.holds then Drop(s, hs[0]) else s;
      if hs[0] in s.holds {
        DropShrinks(s, hs[0]);
      }
      DropAllShrinks(s1, hs[1..]);
    }
  }

  lemma {:induction false} DropShrinks(s: Sharing, e: nat)
    requires s.Sound() && e in s.holds
    ensures Shrunk(s, Drop(s, e)) && e !in Drop(s, e).holds
    decreases |s.holds.Keys|, 1, 0
  {
    KeysWithout(s, e);
    ReleasedShrinks(s.Without(e), s.holds[e]);
  }

  // ----- Every live handle has a place to live

  /** Handles in deleted objects are all among the pending ones. */
  predicate SettledBut(s: Sharing, pending: set<nat>) {
    s.Sound() && forall h | h in s.holds :: s.Open(s.homes[h]) || h in pending
  }

  predicate Settled(s: Sharing) {
    SettledBut(s, {})
  }

  function AsSet(hs: seq<nat>): set<nat> {
    set h | h in hs
  }

  lemma {:induction false} ReleasedSettles(s: Sharing, l: nat, pending: set<nat>)
    requires SettledBut(s, pending) && l < |s.made|
    ensures SettledBut(Released(s, l), pending)
    decreases |s.holds.Keys|, 3, 0
  {
    var m := s.made[l];
    if |s.Holders(l)| == 0 && m.obj != NULL {
      var s1, hs := s.Gone(m.obj), Members(s.homes, m.obj, |s.homes|);
      forall h | h in s1.holds
        ensures s1.Open(s1.homes[h]) || h in pending + AsSet(hs)
      {
        MembersLiveThere(s.homes, m.obj, |s.homes|, h);
      }
      DropAllSettles(s1, hs, pending);
    }
  }

  lemma {:induction false} DropAllSettles(s: Sharing, hs: seq<nat>, pending: set<nat>)
    requires SettledBut(s, pending + AsSet(hs))
    ensures SettledBut(DropAll(s, hs), pending)
    decreases |s.holds.Keys|, 2, |hs|
  {
    if hs == [] {
      assert pending + AsSet(hs) == pending;
    } else {
      var s1 := if hs[0] in s.holds then Drop(s, hs[0]) else s;
      if hs[0] in s.holds {
        DropSettles(s, hs[0], pending + AsSet(hs));
        DropShrinks(s, hs[0]);
      }
      SettledOneMore(s1, hs, pending);
      DropAllSettles(s1, hs[1..], pending);
    }
  }

  lemma SettledOneMore(s: Sharing, hs: seq<nat>, pending: set<nat>)
    requires hs != [] && hs[0] !in s.holds && SettledBut(s, pending + AsSet(hs))
    ensures SettledBut(s, pending + AsSet(hs[1..]))
  {
    assert hs == [hs[0]] + hs[1..];
    assert AsSet(hs) == {hs[0]} + AsSet(hs[1..]);
  }

  lemma {:induction false} DropSettles(s: Sharing, e: nat, pending: set<nat>)
    requires SettledBut(s, pending) && e in s.holds
    ensures SettledBut(Drop(s, e), pending)
    decreases |s.holds.Keys|, 1, 0
  {
    KeysWithout(s, e);
    ReleasedSettles(s.Without(e), s.holds[e], pending);
  }

  // ----- Only what lives in a deleted object goes along

  lemma {:induction false} ReleasedTakesOnlyMembers(s: Sharing, l: nat, h: nat)
    requires s.Sound() && l < |s.made| && h in s.holds && h !in Released(s, l).holds
    ensures !Released(s, l).Open(s.homes[h])
    decreases |s.holds.Keys|, 3, 0
  {
    var m := s.made[l];
    var s1, hs := s.Gone(m.obj), Members(s.homes, m.obj, |s.homes|);
    DropAllTakesOnlyMembers(s1, hs, h);
    DropAllShrinks(s1, hs);
    MembersLiveThere(s.homes, m.obj, |s.homes|, h);
    assert m.obj == s1.deleted[|s.deleted|];
  }

  lemma {:induction false} DropAllTakesOnlyMembers(s: Sharing, hs: seq<nat>, h: nat)
    requires s.Sound() && h in s.holds && h !in DropAll(s, hs).holds
    ensures h in hs || !DropAll(s, hs).Open(s.homes[h])
    decreases |s.holds.Keys|, 2, |hs|
  {
    if hs != [] {
      var s1 := if hs[0] in s.holds then Drop(s, hs[0]) else s;
      if h in s1.holds {
        DropAllTakesOnlyMembers(s1, hs[1..], h);
      } else if h != hs[0] {
        DropTakesOnlyMembers(s, hs[0], h);
        DropAllShrinks(s1, hs[1..]);
      }
    }
  }

  lemma {:induction false} DropTakesOnlyMembers(s: Sharing, e: nat, h: nat)
    requires s.Sound() && e in s.holds && h in s.holds && h != e && h !in Drop(s, e).holds
    ensures !Drop(s, e).Open(s.homes[h])
    decreases |s.holds.Keys|, 1, 0
  {
    KeysWithout(s, e);
    ReleasedTakesOnlyMembers(s.Without(e), s.holds[e], h);
  }

  // ----- What goes is the least set that hangs together

  predicate Closed(s: Sharing, e: nat, x: set<nat>)
    requires s.Sound()
  {
    LeftAlone(s, e, x) <= x
  }

  lemma LeftAloneGrows(s: Sharing, e: nat, x: set<nat>, y: set<nat>)
    requires s.Sound() && x <= y
    ensures LeftAlone(s, e, x) <= LeftAlone(s, e, y)
  {
    forall l: nat | l < |s.made| && HeldWithin(s, l, e, x)
      ensures HeldWithin(s, l, e, y)
    {
    }
  }

  lemma {:induction false} DoomedGrows(s: Sharing, e: nat, k: nat)
    requires s.Sound()
    ensures Doomed(s, e, k) <= Doomed(s, e, k + 1)
  {
    if k > 0 {
      DoomedGrows(s, e, k - 1);
      LeftAloneGrows(s, e, Doomed(s, e, k - 1), Doomed(s, e, k));
    }
  }

  function Objects(made: seq<Made>): set<nat> {
    if made == [] then {} else Objects(made[..|made| - 1]) + {made[|made| - 1].obj}
  }

  lemma {:induction false} ObjectsAreFew(made: seq<Made>)
    ensures |Objects(made)| <= |made|
    ensures forall l :: 0 <= l < |made| ==> made[l].obj in Objects(made)
  {
    if made != [] {
      var front := made[..|made| - 1];
      ObjectsAreFew(front);
      assert forall l :: 0 <= l < |front| ==> made[l] == front[l];
    }
  }

  lemma SubsetIsSmaller(x: set<nat>, y: set<nat>)
    requires x <= y
    ensures |x| <= |y| && (x != y ==> |x| < |y|)
  {
    assert y == x + (y - x);
  }

  /** Of growing sets each one has another member, unless the growth has come to an end. */
  lemma {:induction false} GrowthStops(sets: seq<set<nat>>, k: nat)
    requires k + 1 < |sets|
    requires forall i :: 0 <= i <= k ==> sets[i] <= sets[i + 1]
    requires forall i :: 0 <= i < k && sets[i] == sets[i + 1] ==> sets[i + 1] == sets[i + 2]
    ensures sets[k] == sets[k + 1] || |sets[k + 1]| > k
  {
    SubsetIsSmaller(sets[k], sets[k + 1]);
    if k > 0 {
      GrowthStops(sets, k - 1);
      assert sets[k - 1] == sets[k - 1 + 1] ==> sets[k - 1 + 1] == sets[k - 1 + 2];
    }
  }

  lemma NextRound(s: Sharing, e: nat, k: nat)
    requires s.Sound() && Doomed(s, e, k) == Doomed(s, e, k + 1)
    ensures Doomed(s, e, k + 1) == Doomed(s, e, k + 2)
  {
    assert Doomed(s, e, k + 1) == LeftAlone(s, e, Doomed(s, e, k));
    assert Doomed(s, e, k + 2) == LeftAlone(s, e, Doomed(s, e, k + 1));
  }

  function Rounds(s: Sharing, e: nat, n: nat): (sets: seq<set<nat>>)
    requires s.Sound()
    ensures |sets| == n
  {
    seq(n, i requires 0 <= i < n => Doomed(s, e, i))
  }

  lemma RoundsGrow(s: Sharing, e: nat, n: nat)
    requires s.Sound()
    ensures forall i :: 0 <= i < n - 1 ==> Rounds(s, e, n)[i] <= Rounds(s, e, n)[i + 1]
  {
    forall i | 0 <= i < n - 1
      ensures Rounds(s, e, n)[i] <= Rounds(s, e, n)[i + 1]
    {
      RoundGrows(s, e, n, i);
    }
  }

  lemma RoundGrows(s: Sharing, e: nat, n: nat, i: nat)
    requires s.Sound() && i + 1 < n
    ensures Rounds(s, e, n)[i] <= Rounds(s, e, n)[i + 1]
  {
    DoomedGrows(s, e, i);
  }

  lemma RoundsStop(s: Sharing, e: nat, n: nat)
    requires s.Sound()
    ensures var sets := Rounds(s, e, n);
      forall i :: 0 <= i < n - 2 && sets[i] == sets[i + 1] ==> sets[i + 1] == sets[i + 2]
  {
    var sets := Rounds(s, e, n);
    forall i | 0 <= i < n - 2 && sets[i] == sets[i + 1]
      ensures sets[i + 1] == sets[i + 2]
    {
      NextRound(s, e, i);
    }
  }

  /** Each round adds an object or is the last one. */
  lemma DoomedStops(s: Sharing, e: nat, k: nat)
    requires s.Sound()
    ensures var sets := Rounds(s, e, k + 2); sets[k] == sets[k + 1] || |sets[k + 1]| > k
  {
    RoundsGrow(s, e, k + 2);
    RoundsStop(s, e, k + 2);
    GrowthStops(Rounds(s, e, k + 2), k);
  }

  lemma {:induction false} DoomedInClosed(s: Sharing, e: nat, x: set<nat>, k: nat)
    requires s.Sound() && Closed(s, e, x)
    ensures Doomed(s, e, k) <= x
  {
    if k > 0 {
      DoomedInClosed(s, e, x, k - 1);
      LeftAloneGrows(s, e, Doomed(s, e, k - 1), x);
    }
  }

  /** What goes with e holds every object that is left alone without it, and is the least such set. */
  lemma WhatGoesIsLeast(s: Sharing, e: nat)
    requires s.Sound()
    ensures Closed(s, e, WhatGoes(s, e)) && NULL !in WhatGoes(s, e)
    ensures forall x: set<nat> :: Closed(s, e, x) ==> WhatGoes(s, e) <= x
  {
    var n := |s.made|;
    DoomedStops(s, e, n);
    assert Rounds(s, e, n + 2)[n] == Doomed(s, e, n) && Rounds(s, e, n + 2)[n + 1] == Doomed(s, e, n + 1);
    ObjectsAreFew(s.made);
    SubsetIsSmaller(Doomed(s, e, n + 1), Objects(s.made));
    forall x: set<nat> | Closed(s, e, x)
      ensures WhatGoes(s, e) <= x
    {
      DoomedInClosed(s, e, x, n);
    }
  }

  // ----- Letting go deletes just that

  /** On the way from s to t only e and handles in x were lost, and only objects of x deleted. */
  predicate Within(s: Sharing, t: Sharing, e: nat, x: set<nat>) {
    && s.Sound() && t.Sound() && Shrunk(s, t)
    && (forall h | h in s.holds && h !in t.holds :: h == e || s.homes[h] in x)
    && (forall o | o in t.deleted :: o in s.deleted || o in x)
  }

  lemma LastHolderInside(s: Sharing, t: Sharing, e: nat, x: set<nat>, l: nat)
    requires Within(s, t, e, x) && Closed(s, e, x) && l < |s.made| && s.Holders(l) != {}
    requires t.Holders(l) == {} && s.made[l].obj != NULL
    ensures s.made[l].obj in x
  {
    forall h | h in s.Holders(l)
      ensures h == e || s.homes[h] in x
    {
      assert h in t.holds ==> h in t.Holders(l);
    }
    assert s.made[l].obj in LeftAlone(s, e, x);
  }

  lemma {:induction false} ReleasedWithin(s: Sharing, t: Sharing, e: nat, x: set<nat>, l: nat)
    requires Within(s, t, e, x) && Closed(s, e, x) && l < |s.made| && s.Holders(l) != {}
    ensures Within(s, Released(t, l), e, x)
    decreases |t.holds.Keys|, 3, 0
  {
    var obj := t.made[l].obj;
    if t.Holders(l) == {} && obj != NULL {
      LastHolderInside(s, t, e, x, l);
      MembersInside(s.homes, obj, x);
      DropAllWithin(s, t.Gone(obj), e, x, Members(s.homes, obj, |s.homes|));
    }
  }

  lemma MembersInside(homes: seq<nat>, obj: nat, x: set<nat>)
    requires obj in x
    ensures AllInside(homes, Members(homes, obj, |homes|), x)
  {
    var hs := Members(homes, obj, |homes|);
    forall k | 0 <= k < |hs|
      ensures hs[k] < |homes| && homes[hs[k]] in x
    {
      MembersLiveThere(homes, obj, |homes|, hs[k]);
    }
  }

  predicate AllInside(homes: seq<nat>, hs: seq<nat>, x: set<nat>) {
    forall k :: 0 <= k < |hs| ==> hs[k] < |homes| && homes[hs[k]] in x
  }

  lemma {:induction false} DropAllWithin(s: Sharing, t: Sharing, e: nat, x: set<nat>, hs: seq<nat>)
    requires Within(s, t, e, x) && Closed(s, e, x) && AllInside(s.homes, hs, x)
    ensures Within(s, DropAll(t, hs), e, x)
    decreases |t.holds.Keys|, 2, |hs|
  {
    if hs != [] {
      if hs[0] in t.holds {
        DropWithin(s, t, e, x, hs[0]);
      }
      DropAllWithin(s, if hs[0] in t.holds then Drop(t, hs[0]) else t, e, x, hs[1..]);
    }
  }

  lemma {:induction false} DropWithin(s: Sharing, t: Sharing, e: nat, x: set<nat>, h: nat)
    requires Within(s, t, e, x) && Closed(s, e, x) && h in t.holds && (h == e || s.homes[h] in x)
    ensures Within(s, Drop(t, h), e, x)
    decreases |t.holds.Keys|, 1, 0
  {
    KeysWithout(t, h);
    assert h in s.Holders(t.holds[h]);
    ReleasedWithin(s, t.Without(h), e, x, t.holds[h]);
  }

  /** What is deleted on the way from s to t. */
  function Lost(s: Sharing, t: Sharing): set<nat> {
    set o | o in t.deleted && o !in s.deleted
  }

  /** No live handle in a deleted object, no object deleted twice or leaked: true of every state that a
      program reaches. */
  ghost predicate Sane(s: Sharing) {
    Settled(s) && NoDoubleDeleteNoLeak(s)
  }

  lemma NobodyHoldsIt(s: Sharing, e: nat, r: Sharing, l: nat)
    requires s.Sound() && Settled(r) && Shrunk(s, r) && e !in r.holds && NULL !in r.deleted
    requires HeldWithin(s, l, e, Lost(s, r))
    ensures r.Holders(l) == {}
  {
    forall h | h in r.holds
      ensures r.holds[h] != l
    {
      assert r.Open(s.homes[h]);
      assert h in s.Holders(l) <==> r.holds[h] == l;
    }
  }

  lemma LeftAloneIsLost(s: Sharing, r: Sharing, l: nat)
    requires l < |s.made| && l < |r.made| && s.made[l] == r.made[l] && s.made[l].obj != NULL
    requires Fate(s, l) && Fate(r, l) && s.Holders(l) != {} && r.Holders(l) == {}
    ensures s.made[l].obj in Lost(s, r)
  {
  }

  lemma LostIsClosed(s: Sharing, e: nat)
    requires Sane(s) && e in s.holds
    ensures Closed(s, e, Lost(s, Drop(s, e)))
  {
    var r := Drop(s, e);
    DropShrinks(s, e);
    DropSettles(s, e, {});
    FateAfterDrop(s, e);
    forall l: nat | l < |s.made| && s.made[l].obj != NULL && s.Holders(l) != {} && HeldWithin(s, l, e, Lost(s, r))
      ensures s.made[l].obj in Lost(s, r)
    {
      NobodyHoldsIt(s, e, r, l);
      LeftAloneIsLost(s, r, l);
    }
  }

  /** When e lets go, exactly the objects that hang on it are deleted. */
  lemma LostIsWhatGoes(s: Sharing, e: nat)
    requires Sane(s) && e in s.holds
    ensures Lost(s, Drop(s, e)) == WhatGoes(s, e)
  {
    var x, lost := WhatGoes(s, e), Lost(s, Drop(s, e));
    WhatGoesIsLeast(s, e);
    LostIsClosed(s, e);
    DoomedInClosed(s, e, lost, |s.made|);
    OnlyInside(s, e, x);
  }

  lemma OnlyInside(s: Sharing, e: nat, x: set<nat>)
    requires s.Sound() && e in s.holds && Closed(s, e, x)
    ensures Lost(s, Drop(s, e)) <= x
  {
    DropWithin(s, s, e, x, e);
  }

  lemma HomeGoes(s: Sharing, e: nat, h: nat)
    requires Sane(s) && e in s.holds && h in s.holds
    ensures GoesWith(s, e, h) <==> !Drop(s, e).Open(s.homes[h])
  {
    LostIsWhatGoes(s, e);
    WhatGoesIsLeast(s, e);
    assert s.homes[h] in Lost(s, Drop(s, e)) <==> s.homes[h] in WhatGoes(s, e);
  }

  /** Another handle goes with e if and only if it lives in an object that hangs on e. */
  lemma GoesIfHomeGoes(s: Sharing, e: nat, h: nat)
    requires Sane(s) && e in s.holds && h in s.holds && h != e
    ensures h !in Drop(s, e).holds <==> GoesWith(s, e, h)
  {
    HomeGoes(s, e, h);
    DropSettles(s, e, {});
    if h !in Drop(s, e).holds {
      DropTakesOnlyMembers(s, e, h);
    }
  }

  /** As long as somebody else holds the letter, nothing goes at all. */
  lemma NothingGoesUnlessSole(s: Sharing, e: nat)
    requires s.Sound() && e in s.holds && !Sole(s, e)
    ensures Drop(s, e).holds == s.holds - {e} && Drop(s, e).deleted == s.deleted
    ensures Drop(s, e).Holders(s.holds[e]) != {}
  {
    var l, w := s.holds[e], s.Without(e);
    HoldersWithout(s, e, l);
    OnlyMember(s.Holders(l), e, e);
    StillHeld(w, l);
  }

  lemma StillHeld(s: Sharing, l: nat)
    requires s.Sound() && l < |s.made| && s.Holders(l) != {}
    ensures Released(s, l) == s.(notified := Released(s, l).notified) && Released(s, l).Holders(l) == s.Holders(l)
  {
    assert |s.Holders(l)| > 0;
  }

  lemma HoldersWithout(s: Sharing, e: nat, k: nat)
    requires e in s.holds
    ensures s.Without(e).Holders(k) == s.Holders(k) - {e}
    ensures e in s.Holders(k) <==> k == s.holds[e]
  {
  }

  lemma HoldersAfterTake(s: Sharing, e: nat, l: nat, k: nat)
    requires e !in s.holds
    ensures s.Take(e, l).Holders(k) == if k == l then s.Holders(k) + {e} else s.Holders(k)
  {
  }

  lemma OnlyMember(s: set<nat>, x: nat, e: nat)
    requires x in s
    ensures s - {e} == {} <==> x == e && s == {e}
  {
    assert x != e ==> x in s - {e};
    assert s - {e} == {} ==> forall y | y in s :: y == e || y in s - {e};
  }

  lemma SoleMember(s: set<nat>, e: nat)
    requires e in s
    ensures |s| == 1 <==> s == {e}
  {
    assert s == (s - {e}) + {e};
  }

  // ----- The implementation: memory holding handles and counted letters

  datatype Letter = Letter(obj: nat, refCount: int, owner: bool)

  /** The letter of number l is there exactly while some handle holds it, and counts them. */
  ghost predicate Counts(letters: map<nat, Letter>, s: Sharing, l: nat) {
    && (l in letters <==> s.Holders(l) != {})
    && (l in letters ==>
          l < |s.made| && letters[l] == Letter(s.made[l].obj, |s.Holders(l)|, s.made[l].owner))
  }

  lemma CountsAfterTake(letters: map<nat, Letter>, locked: map<nat, Letter>, s: Sharing, e: nat, l: nat, k: nat)
    requires e !in s.holds && l in letters && Counts(letters, s, k)
    requires locked == letters[l := letters[l].(refCount := letters[l].refCount + 1)]
    ensures Counts(locked, s.Take(e, l), k)
  {
    HoldersAfterTake(s, e, l, k);
  }

  class Memory {
    var letters: map<nat, Letter>
    var envelopes: map<nat, nat>
    var homes: seq<nat>
    var issued: nat
    var deleted: seq<nat>
    var notified: seq<nat>
    ghost var made: seq<Made>

    ghost function Abstract(): Sharing
      reads this
    {
      Sharing(envelopes, homes, made, deleted, notified)
    }

    ghost predicate Counted(s: Sharing, l: nat)
      reads this
    {
      Counts(letters, s, l)
    }

    ghost predicate Valid()
      reads this
    {
      && issued == |made|
      && Abstract().Sound()
      && forall l: nat :: Counted(Abstract(), l)
    }

    /** A holder of letter l is gone already but still counted. */
    ghost predicate Owing(l: nat)
      reads this
    {
      && issued == |made| && Abstract().Sound()
      && l in letters && l < |made|
      && letters[l] == Letter(made[l].obj, |Abstract().Holders(l)| + 1, made[l].owner)
      && forall k: nat | k != l :: Counted(Abstract(), k)
    }

    constructor ()
      ensures Valid() && Abstract() == NOTHING
    {
      letters, envelopes, homes, issued := map[], map[], [], 0;
      deleted, notified, made := [], [], [];
    }

    /** Whether the memory of a handle is still there. */
    predicate Alive(h: nat)
      requires h < |homes|
      reads this
    {
      homes[h] == NULL || homes[h] !in deleted
    }

    /** Touching a letter that has been freed is undefined behaviour: ok is false then. */
    method Lock(l: nat) returns (ok: bool)
      modifies this`letters
      ensures ok <==> l in old(letters)
      ensures ok ==> letters == old(letters)[l := old(letters)[l].(refCount := old(letters)[l].refCount + 1)]
      ensures !ok ==> letters == old(letters)
    {
      ok := l in letters;
      if ok {
        letters := letters[l := letters[l].(refCount := letters[l].refCount + 1)];
      }
    }

    /** The letter itself is taken away before its object is deleted rather than after it: nobody is
        left to look at it in between. */
    method Release(l: nat)
      requires Owing(l)
      modifies this
      ensures Valid() && Abstract() == Released(old(Abstract()), l)
      decreases |envelopes.Keys|, 3, 0
    {
      ghost var s := Abstract();
      var letter := letters[l].(refCount := letters[l].refCount - 1);
      if letter.refCount == 0 {
        letters := letters - {l};
        forall k: nat
          ensures Counted(Abstract(), k)
        {
          assert k != l ==> old(Counted(s, k));
        }
        if letter.obj != NULL { DeleteObject(letter.obj); }
      } else {
        letters := letters[l := letter];
        if letter.owner {
          if letter.refCount == 1 { notified := notified + [letter.obj]; }
        }
        forall k: nat
          ensures Counted(Abstract(), k)
        {
          assert Abstract().Holders(k) == s.Holders(k);
          assert k != l ==> old(Counted(s, k));
        }
      }
    }

    /** The object's destructor destroys the handles that are a part of it. */
    method DeleteObject(obj: nat)
      requires Valid()
      modifies this
      ensures Valid() && Abstract() == DropAll(old(Abstract()).Gone(obj), Members(old(homes), obj, |old(homes)|))
      decreases |envelopes.Keys|, 2, |homes| + 1
    {
      ghost var s := Abstract();
      deleted := deleted + [obj];
      forall k: nat
        ensures Counted(Abstract(), k)
      {
        assert Abstract().Holders(k) == s.Holders(k);
        assert old(Counted(s, k));
      }
      MembersAreFew(homes, obj, |homes|);
      LetGoAll(Members(homes, obj, |homes|));
    }

    method LetGoAll(hs: seq<nat>)
      requires Valid()
      modifies this
      ensures Valid() && Abstract() == DropAll(old(Abstract()), hs)
      decreases |envelopes.Keys|, 2, |hs|
    {
      if hs != [] {
        if hs[0] in envelopes { LetGo(hs[0]); }
        LetGoAll(hs[1..]);
      }
    }

    /** The destructor of a handle; also how an assignment starts. */
    method LetGo(e: nat)
      requires Valid() && e in envelopes
      modifies this
      ensures Valid() && Abstract() == Drop(old(Abstract()), e)
      decreases |envelopes.Keys|, 1, 0
    {
      ghost var s := Abstract();
      var l := envelopes[e];
      KeysWithout(s, e);
      assert Counted(s, l) && e in s.Holders(l);
      envelopes := envelopes - {e};
      HoldersWithout(s, e, l);
      forall k: nat | k != l
        ensures Counted(Abstract(), k)
      {
        HoldersWithout(s, e, k);
        assert old(Counted(s, k));
      }
      Release(l);
    }

    method NewLetter(obj: nat, owner: bool) returns (l: nat)
      requires Valid()
      modifies this`letters, this`issued, this`made
      ensures l == |old(made)| == |made| - 1 && issued == |made|
      ensures Abstract() == old(Abstract()).Make(obj, owner)
      ensures letters == old(letters)[l := Letter(obj, 1, owner)]
    {
      l := issued;
      letters := letters[l := Letter(obj, 1, owner)];
      issued := issued + 1;
      made := made + [Made(obj, owner)];
    }

    /** A handle that holds nothing gets a letter of its own. */
    method HoldNew(e: nat, obj: nat, owner: bool)
      requires Valid() && e !in envelopes && e < |homes|
      modifies this`letters, this`issued, this`made, this`envelopes
      ensures Valid() && Abstract() == old(Abstract()).Make(obj, owner).Take(e, |old(made)|)
    {
      ghost var s := Abstract();
      var l := NewLetter(obj, owner);
      envelopes := envelopes[e := l];
      forall k: nat
        ensures Counted(Abstract(), k)
      {
        HoldersAfterTake(s.Make(obj, owner), e, l, k);
        assert s.Make(obj, owner).Holders(k) == s.Holders(k);
        assert old(Counted(s, k));
      }
    }

    /** Points a handle that holds nothing at a letter and locks it. */
    method Hold(e: nat, l: nat) returns (ok: bool)
      requires Valid() && e !in envelopes && e < |homes|
      modifies this`letters, this`envelopes
      ensures ok <==> old(Abstract()).Holders(l) != {}
      ensures Abstract() == old(Abstract()).Take(e, l)
      ensures ok ==> Valid()
      ensures !ok ==> l !in letters
    {
      ghost var s := Abstract();
      assert Counted(s, l);
      ok := Lock(l);
      envelopes := envelopes[e := l];
      assert Abstract() == s.Take(e, l);
      if ok {
        forall k: nat
          ensures Counted(Abstract(), k)
        {
          assert old(Counted(s, k));
          CountsAfterTake(old(letters), letters, s, e, l, k);
        }
      }
    }

    method MoveIn(home: nat) returns (e: nat)
      requires Valid()
      modifies this`homes
      ensures Valid() && e == |old(homes)| && e !in envelopes && e < |homes|
      ensures Abstract() == old(Abstract()).(homes := old(homes) + [home])
    {
      ghost var s := Abstract();
      e := |homes|;
      homes := homes + [home];
      forall k: nat
        ensures Counted(Abstract(), k)
      {
        assert Abstract().Holders(k) == s.Holders(k);
        assert old(Counted(s, k));
      }
    }

    method Construct(home: nat, obj: nat, owner: bool) returns (e: nat)
      requires Valid() && Abstract().Legal(Op.Construct(home, obj, owner))
      modifies this
      ensures Valid() && Abstract() == Next(old(Abstract()), Op.Construct(home, obj, owner))
      ensures e == |old(homes)|
    {
      e := MoveIn(home);
      HoldNew(e, obj, owner);
    }

    method Copy(home: nat, src: nat) returns (e: nat, ok: bool)
      requires Valid() && Abstract().Legal(Op.Copy(home, src))
      modifies this
      ensures ok && Valid() && Abstract() == Next(old(Abstract()), Op.Copy(home, src))
      ensures e == |old(homes)|
    {
      e := MoveIn(home);
      assert src in Abstract().Holders(envelopes[src]);
      ok := Hold(e, envelopes[src]);
    }

    method Destroy(e: nat)
      requires Valid() && Abstract().Legal(Op.Destroy(e)) && !Suicidal(Abstract(), Op.Destroy(e))
      modifies this
      ensures Valid() && Abstract() == Next(old(Abstract()), Op.Destroy(e))
    {
      LetGo(e);
    }

    /**
     operator =(const TEnvelope&). The letter is released before the source is looked at. That goes
     wrong if and only if this handle is the sole holder and the source is this handle, or one of the two
     lives in an object that hangs on this handle.
     */
    method Assign(e: nat, src: nat) returns (ok: bool)
      requires Valid() && Sane(Abstract()) && Abstract().Legal(Op.Assign(e, src))
      modifies this
      ensures ok <==> !Suicidal(old(Abstract()), Op.Assign(e, src))
      ensures ok ==> Valid() && Abstract() == Next(old(Abstract()), Op.Assign(e, src))
    {
      ghost var s := Abstract();
      var was := envelopes[e];
      BeforeAssign(s, e, src);
      LetGo(e);
      if !Alive(src) || !Alive(e) { return false; }
      var l := if src == e then was else envelopes[src];
      ok := Hold(e, l);
    }

    /** operator =(T*). Only the handle's own memory can be gone when the new letter is stored. */
    method AssignObject(e: nat, obj: nat) returns (ok: bool)
      requires Valid() && Sane(Abstract()) && Abstract().Legal(Op.AssignObject(e, obj))
      modifies this
      ensures ok <==> !Suicidal(old(Abstract()), Op.AssignObject(e, obj))
      ensures ok ==> Valid() && Abstract() == Next(old(Abstract()), Op.AssignObject(e, obj))
    {
      BeforeAssign(Abstract(), e, e);
      LetGo(e);
      if !Alive(e) { return false; }
      HoldNew(e, obj, false);
      ok := true;
    }

    /** Asked of a live handle: is it the only one on its letter? */
    method IsMine(e: nat) returns (mine: bool)
      requires Valid() && e in envelopes
      ensures mine <==> Sole(Abstract(), e)
    {
      ghost var s := Abstract();
      assert Counted(s, envelopes[e]) && e in s.Holders(envelopes[e]);
      SoleMember(s.Holders(envelopes[e]), e);
      mine := letters[envelopes[e]].refCount == 1;
    }
  }

  lemma {:induction false} MembersAreFew(homes: seq<nat>, obj: nat, k: nat)
    requires k <= |homes|
    ensures |Members(homes, obj, k)| <= k
  {
    if k > 0 {
      MembersAreFew(homes, obj, k - 1);
    }
  }

  lemma HoldersShrink(s: Sharing, r: Sharing, k: nat)
    requires Shrunk(s, r)
    ensures r.Holders(k) <= s.Holders(k)
  {
  }

  /** What an assignment finds once it has let go. */
  lemma BeforeAssign(s: Sharing, e: nat, src: nat)
    requires Sane(s) && e in s.holds && src in s.holds
    ensures var d := Drop(s, e);
      && e !in d.holds && s.Open(s.homes[e]) && s.Open(s.homes[src])
      && (d.Open(s.homes[e]) <==> !GoesWith(s, e, e))
      && (d.Open(s.homes[src]) <==> !GoesWith(s, e, src))
      && (!Sole(s, e) ==> d.Open(s.homes[e]) && d.Open(s.homes[src]) && d.Holders(s.holds[e]) != {})
      && (Sole(s, e) ==> d.Holders(s.holds[e]) == {})
      && (src != e && d.Open(s.homes[src]) ==>
            src in d.holds && d.holds[src] == s.holds[src] && d.Holders(s.holds[src]) != {})
  {
    var d := Drop(s, e);
    DropShrinks(s, e);
    HomeGoes(s, e, e);
    HomeGoes(s, e, src);
    if !Sole(s, e) {
      NothingGoesUnlessSole(s, e);
    } else {
      HoldersShrink(s, d, s.holds[e]);
      assert e !in d.Holders(s.holds[e]);
    }
    if src != e {
      GoesIfHomeGoes(s, e, src);
      if d.Open(s.homes[src]) {
        assert src in d.Holders(s.holds[src]);
      }
    }
  }

  // ----- Whole runs

  /** A program that C++ allows and that never loses what it is about to use. */
  predicate Plays(s: Sharing, ops: seq<Op>)
    decreases |ops|
  {
    ops == [] ||
    (s.Sound() && s.Legal(ops[0]) && !Suicidal(s, ops[0]) && Plays(Next(s, ops[0]), ops[1..]))
  }

  function Final(s: Sharing, ops: seq<Op>): Sharing
    requires Plays(s, ops)
    decreases |ops|
  {
    if ops == [] then s else Final(Next(s, ops[0]), ops[1..])
  }

  lemma TakeSettles(s: Sharing, e: nat, l: nat)
    requires Settled(s) && e < |s.homes| && s.Open(s.homes[e]) && l < |s.made|
    ensures Settled(s.Take(e, l))
  {
  }

  lemma JoinSettles(s: Sharing, home: nat, l: nat)
    requires Settled(s) && s.Open(home) && l < |s.made|
    ensures Settled(s.Join(home, l))
  {
    var t := s.(homes := s.homes + [home]);
    assert Settled(t);
    TakeSettles(t, |s.homes|, l);
  }

  lemma AssignedHomeIsOpen(s: Sharing, e: nat, d: Sharing)
    requires Sane(s) && e in s.holds && d == Drop(s, e) && (Sole(s, e) ==> !GoesWith(s, e, e))
    ensures Settled(d) && d.Open(s.homes[e])
  {
    DropSettles(s, e, {});
    BeforeAssign(s, e, e);
  }

  lemma AssignSettles(s: Sharing, e: nat, src: nat)
    requires Sane(s) && e in s.holds && src in s.holds && (Sole(s, e) ==> !GoesWith(s, e, e))
    ensures Settled(Next(s, Assign(e, src)))
  {
    var d := Drop(s, e);
    AssignedHomeIsOpen(s, e, d);
    TakeSettles(d, e, s.holds[src]);
  }

  lemma AssignObjectSettles(s: Sharing, e: nat, obj: nat)
    requires Sane(s) && s.Legal(AssignObject(e, obj)) && (Sole(s, e) ==> !GoesWith(s, e, e))
    ensures Settled(Next(s, AssignObject(e, obj)))
  {
    var d := Drop(s, e);
    AssignedHomeIsOpen(s, e, d);
    TakeSettles(d.Make(obj, false), e, |s.made|);
  }

  lemma StepSettles(s: Sharing, op: Op)
    requires Sane(s) && s.Legal(op) && !Suicidal(s, op)
    ensures Settled(Next(s, op))
  {
    match op
    case Construct(home, obj, owner) => JoinSettles(s.Make(obj, owner), home, |s.made|);
    case Copy(home, src) => JoinSettles(s, home, s.holds[src]);
    case Assign(e, src) => AssignSettles(s, e, src);
    case AssignObject(e, obj) => AssignObjectSettles(s, e, obj);
    case Destroy(e) => DropSettles(s, e, {});
  }

  /** The counted handles do what shared ownership asks for, over any such program, and never touch
      memory that is gone. */
  method Perform(m: Memory, ops: seq<Op>)
    requires m.Valid() && Sane(m.Abstract()) && Plays(m.Abstract(), ops)
    modifies m
    ensures m.Valid() && Sane(m.Abstract()) && m.Abstract() == Final(old(m.Abstract()), ops)
  {
    for i := 0 to |ops|
      invariant m.Valid() && Sane(m.Abstract()) && Plays(m.Abstract(), ops[i..])
      invariant Final(m.Abstract(), ops[i..]) == Final(old(m.Abstract()), ops)
    {
      assert ops[i..][0] == ops[i] && ops[i..][1..] == ops[i + 1..];
      var ok := PerformOne(m, ops[i]);
    }
  }

  method PerformOne(m: Memory, op: Op) returns (ok: bool)
    requires m.Valid() && Sane(m.Abstract()) && m.Abstract().Legal(op) && !Suicidal(m.Abstract(), op)
    modifies m
    ensures ok && m.Valid() && Sane(m.Abstract()) && m.Abstract() == Next(old(m.Abstract()), op)
  {
    StepSettles(m.Abstract(), op);
    FateAfterStep(m.Abstract(), op);
    ok := true;
    match op {
      case Construct(home, obj, owner) => var e := m.Construct(home, obj, owner);
      case Copy(home, src) => var e; e, ok := m.Copy(home, src);
      case Assign(e, src) => ok := m.Assign(e, src);
      case AssignObject(e, obj) => ok := m.AssignObject(e, obj);
      case Destroy(e) => m.Destroy(e);
    }
  }

  // ----- Every object is deleted once

  predicate Distinct(made: seq<Made>) {
    forall i, j | 0 <= i < j < |made| :: made[j].obj != NULL ==> made[i].obj != made[j].obj
  }

  /** How often the object of letter l has been deleted. */
  function Deletions(s: Sharing, l: nat): nat
    requires l < |s.made|
  {
    if s.made[l].obj == NULL then 0 else multiset(s.deleted)[s.made[l].obj]
  }

  /** Once if nobody holds the letter, else not at all. */
  predicate Fate(s: Sharing, l: nat)
    requires l < |s.made|
  {
    s.made[l].obj != NULL ==> Deletions(s, l) == if s.Holders(l) == {} then 1 else 0
  }

  predicate OnlyWrapped(s: Sharing) {
    forall o | o in s.deleted :: o != NULL && s.Wrapped(o)
  }

  ghost predicate NoDoubleDeleteNoLeak(s: Sharing) {
    && s.Sound() && Distinct(s.made) && OnlyWrapped(s)
    && forall l: nat | l < |s.made| :: Fate(s, l)
  }

  /** The same but for letter l, whose object is still there. */
  ghost predicate OwesFate(s: Sharing, l: nat) {
    && s.Sound() && Distinct(s.made) && OnlyWrapped(s)
    && l < |s.made| && Deletions(s, l) == 0
    && forall k: nat | k < |s.made| && k != l :: Fate(s, k)
  }

  lemma FateAfterDeletion(s: Sharing, l: nat)
    requires OwesFate(s, l) && s.Holders(l) == {} && s.made[l].obj != NULL
    ensures NoDoubleDeleteNoLeak(s.Gone(s.made[l].obj))
  {
    var d := s.Gone(s.made[l].obj);
    forall k: nat | k < |s.made|
      ensures Fate(d, k)
    {
      assert d.Holders(k) == s.Holders(k);
      if k != l {
        assert Fate(s, k);
        assert s.made[k].obj != NULL ==> s.made[k].obj != s.made[l].obj;
      }
    }
    forall o | o in d.deleted
      ensures o != NULL && d.Wrapped(o)
    {
      if o in s.deleted {
        assert s.Wrapped(o);
      } else {
        assert d.made[l].obj == o;
      }
    }
  }

  lemma {:induction false} FateAfterRelease(s: Sharing, l: nat)
    requires OwesFate(s, l)
    ensures NoDoubleDeleteNoLeak(Released(s, l))
    decreases |s.holds.Keys|, 3, 0
  {
    var m := s.made[l];
    if s.Holders(l) == {} && m.obj != NULL {
      FateAfterDeletion(s, l);
      FateAfterDropAll(s.Gone(m.obj), Members(s.homes, m.obj, |s.homes|));
    } else {
      SameFates(s, Released(s, l), l);
    }
  }

  lemma SameFates(s: Sharing, r: Sharing, l: nat)
    requires OwesFate(s, l) && (s.Holders(l) != {} || s.made[l].obj == NULL)
    requires r == s.(notified := r.notified)
    ensures NoDoubleDeleteNoLeak(r)
  {
    forall k: nat | k < |s.made|
      ensures Fate(r, k)
    {
      assert r.Holders(k) == s.Holders(k);
      assert k != l ==> Fate(s, k);
    }
    forall o | o in r.deleted
      ensures o != NULL && r.Wrapped(o)
    {
      assert s.Wrapped(o);
    }
  }

  lemma {:induction false} FateAfterDropAll(s: Sharing, hs: seq<nat>)
    requires NoDoubleDeleteNoLeak(s)
    ensures NoDoubleDeleteNoLeak(DropAll(s, hs))
    decreases |s.holds.Keys|, 2, |hs|
  {
    if hs != [] {
      if hs[0] in s.holds {
        FateAfterDrop(s, hs[0]);
      }
      FateAfterDropAll(if hs[0] in s.holds then Drop(s, hs[0]) else s, hs[1..]);
    }
  }

  lemma {:induction false} FateAfterDrop(s: Sharing, e: nat)
    requires NoDoubleDeleteNoLeak(s) && e in s.holds
    ensures NoDoubleDeleteNoLeak(Drop(s, e))
    decreases |s.holds.Keys|, 1, 0
  {
    KeysWithout(s, e);
    OwesFateWithout(s, e);
    FateAfterRelease(s.Without(e), s.holds[e]);
  }

  lemma OwesFateWithout(s: Sharing, e: nat)
    requires NoDoubleDeleteNoLeak(s) && e in s.holds
    ensures OwesFate(s.Without(e), s.holds[e])
  {
    var w, l := s.Without(e), s.holds[e];
    assert Fate(s, l) && e in s.Holders(l);
    forall k: nat | k < |s.made| && k != l
      ensures Fate(w, k)
    {
      assert Fate(s, k);
      HoldersWithout(s, e, k);
      assert w.Holders(k) == s.Holders(k);
    }
    forall o | o in w.deleted
      ensures o != NULL && w.Wrapped(o)
    {
      assert s.Wrapped(o);
    }
  }

  lemma FateAfterTake(s: Sharing, e: nat, l: nat)
    requires NoDoubleDeleteNoLeak(s) && e !in s.holds && e < |s.homes| && l < |s.made| && s.Holders(l) != {}
    ensures NoDoubleDeleteNoLeak(s.Take(e, l))
  {
    var t := s.Take(e, l);
    forall k: nat | k < |t.made|
      ensures Fate(t, k)
    {
      assert Fate(s, k);
      HoldersAfterTake(s, e, l, k);
    }
    forall o | o in t.deleted
      ensures o != NULL && t.Wrapped(o)
    {
      assert s.Wrapped(o);
    }
  }

  lemma FateAfterMoving(s: Sharing, home: nat)
    requires NoDoubleDeleteNoLeak(s)
    ensures NoDoubleDeleteNoLeak(s.(homes := s.homes + [home]))
  {
    var t := s.(homes := s.homes + [home]);
    forall k: nat | k < |t.made|
      ensures Fate(t, k)
    {
      assert Fate(s, k) && t.Holders(k) == s.Holders(k);
    }
    forall o | o in t.deleted
      ensures o != NULL && t.Wrapped(o)
    {
      assert s.Wrapped(o);
    }
  }

  lemma FateAfterMake(s: Sharing, e: nat, obj: nat, owner: bool)
    requires NoDoubleDeleteNoLeak(s) && e !in s.holds && e < |s.homes| && (obj != NULL ==> !s.Wrapped(obj))
    ensures NoDoubleDeleteNoLeak(s.Make(obj, owner).Take(e, |s.made|))
  {
    var m := s.Make(obj, owner);
    var t := m.Take(e, |s.made|);
    forall k: nat | k < |t.made|
      ensures Fate(t, k)
    {
      HoldersAfterTake(m, e, |s.made|, k);
      assert m.Holders(k) == s.Holders(k);
      assert k < |s.made| ==> Fate(s, k) && m.made[k] == s.made[k];
      assert k == |s.made| ==> e in t.Holders(k);
      assert obj in s.deleted ==> s.Wrapped(obj);
    }
    forall o | o in t.deleted
      ensures o != NULL && t.Wrapped(o)
    {
      assert s.Wrapped(o);
      var i :| 0 <= i < |s.made| && s.made[i].obj == o;
      assert t.made[i] == s.made[i];
    }
    assert forall i | 0 <= i < |s.made| :: s.made[i].obj == obj ==> s.Wrapped(obj);
  }

  lemma FateAfterStep(s: Sharing, op: Op)
    requires Sane(s) && s.Legal(op) && !Suicidal(s, op)
    ensures NoDoubleDeleteNoLeak(Next(s, op))
  {
    match op
    case Construct(home, obj, owner) =>
      var t := s.(homes := s.homes + [home]);
      FateAfterMoving(s, home);
      assert t.Wrapped(obj) ==> s.Wrapped(obj);
      FateAfterMake(t, |s.homes|, obj, owner);
      assert Next(s, op) == t.Make(obj, owner).Take(|s.homes|, |s.made|);
    case Copy(home, src) =>
      var t := s.(homes := s.homes + [home]);
      FateAfterMoving(s, home);
      assert src in t.Holders(s.holds[src]);
      FateAfterTake(t, |s.homes|, s.holds[src]);
    case Assign(e, src) =>
      FateAfterDrop(s, e);
      BeforeAssign(s, e, src);
      FateAfterTake(Drop(s, e), e, s.holds[src]);
    case AssignObject(e, obj) =>
      FateAfterDrop(s, e);
      DropShrinks(s, e);
      assert Drop(s, e).Wrapped(obj) ==> s.Wrapped(obj);
      FateAfterMake(Drop(s, e), e, obj, false);
    case Destroy(e) => FateAfterDrop(s, e);
  }

  lemma {:induction false} SaneOverRuns(s: Sharing, ops: seq<Op>)
    requires Sane(s) && Plays(s, ops)
    ensures Sane(Final(s, ops))
    decreases |ops|
  {
    if ops != [] {
      FateAfterStep(s, ops[0]);
      StepSettles(s, ops[0]);
      SaneOverRuns(Next(s, ops[0]), ops[1..]);
    }
  }

  /** After any program an object has been deleted exactly once if no live handle reaches it, and not
      at all otherwise. */
  lemma DeletedExactlyOnce(ops: seq<Op>, l: nat)
    requires Plays(NOTHING, ops) && l < |Final(NOTHING, ops).made|
    requires Final(NOTHING, ops).made[l].obj != NULL
    ensures var end := Final(NOTHING, ops);
      multiset(end.deleted)[end.made[l].obj] == if exists e :: e in end.holds && end.holds[e] == l then 0 else 1
  {
    SaneOverRuns(NOTHING, ops);
    var end := Final(NOTHING, ops);
    assert Fate(end, l);
    assert forall e | e in end.holds && end.holds[e] == l :: e in end.Holders(l);
    assert forall e | e in end.Holders(l) :: e in end.holds && end.holds[e] == l;
  }

  // ----- When the owner hears of it

  /** Of the letters before k, how many with an owner and object o went from two or more holders in s to
      one or none in r. */
  function Tells(s: Sharing, r: Sharing, o: nat, k: nat): nat
    requires k <= |s.made|
  {
    if k == 0 then 0
    else
      var told := s.made[k - 1] == Made(o, true) && |s.Holders(k - 1)| >= 2 && |r.Holders(k - 1)| <= 1;
      Tells(s, r, o, k - 1) + if told then 1 else 0
  }

  lemma {:induction false} TellsAdd(s: Sharing, t: Sharing, r: Sharing, o: nat, k: nat)
    requires Shrunk(s, t) && Shrunk(t, r) && k <= |s.made|
    ensures Tells(s, r, o, k) == Tells(s, t, o, k) + Tells(t, r, o, k)
  {
    if k > 0 {
      TellsAdd(s, t, r, o, k - 1);
      HoldersShrink(s, t, k - 1);
      HoldersShrink(t, r, k - 1);
      SubsetIsSmaller(t.Holders(k - 1), s.Holders(k - 1));
      SubsetIsSmaller(r.Holders(k - 1), t.Holders(k - 1));
    }
  }

  lemma {:induction false} TellsSame(s: Sharing, r: Sharing, s': Sharing, r': Sharing, o: nat, k: nat)
    requires k <= |s.made| && s'.made == s.made && s'.holds == s.holds && r'.holds == r.holds
    ensures Tells(s, r, o, k) == Tells(s', r', o, k)
  {
    if k > 0 {
      TellsSame(s, r, s', r', o, k - 1);
      assert s.Holders(k - 1) == s'.Holders(k - 1) && r.Holders(k - 1) == r'.Holders(k - 1);
    }
  }

  lemma {:induction false} TellsNothing(s: Sharing, r: Sharing, o: nat, k: nat)
    requires k <= |s.made| && r.holds == s.holds
    ensures Tells(s, r, o, k) == 0
  {
    if k > 0 {
      TellsNothing(s, r, o, k - 1);
      assert s.Holders(k - 1) == r.Holders(k - 1);
    }
  }

  /** One handle less concerns its own letter only. */
  lemma {:induction false} TellsOfOne(s: Sharing, e: nat, o: nat, k: nat)
    requires s.Sound() && e in s.holds && k <= |s.made|
    ensures var l := s.holds[e];
      Tells(s, s.Without(e), o, k) ==
        if l < k && s.made[l] == Made(o, true) && |s.Without(e).Holders(l)| == 1 then 1 else 0
  {
    if k > 0 {
      TellsOfOne(s, e, o, k - 1);
      HoldersWithout(s, e, k - 1);
      if k - 1 == s.holds[e] {
        assert s.Holders(k - 1) == s.Without(e).Holders(k - 1) + {e};
      } else {
        assert s.Holders(k - 1) == s.Without(e).Holders(k - 1);
      }
    }
  }

  function CountOf(o: nat, told: seq<nat>): nat {
    multiset(told)[o]
  }

  lemma {:induction false} ReleasedTells(s: Sharing, l: nat, o: nat)
    requires s.Sound() && l < |s.made|
    ensures var r := Released(s, l);
      CountOf(o, r.notified) == CountOf(o, s.notified) + Tells(s, r, o, |s.made|)
        + if s.made[l] == Made(o, true) && |s.Holders(l)| == 1 then 1 else 0
    decreases |s.holds.Keys|, 3, 0
  {
    var m, r := s.made[l], Released(s, l);
    if s.Holders(l) == {} && m.obj != NULL {
      var g, hs := s.Gone(m.obj), Members(s.homes, m.obj, |s.homes|);
      DropAllTells(g, hs, o);
      TellsSame(s, r, g, r, o, |s.made|);
    } else {
      TellsNothing(s, r, o, |s.made|);
    }
  }

  lemma {:induction false} DropAllTells(s: Sharing, hs: seq<nat>, o: nat)
    requires s.Sound()
    ensures var r := DropAll(s, hs);
      CountOf(o, r.notified) == CountOf(o, s.notified) + Tells(s, r, o, |s.made|)
    decreases |s.holds.Keys|, 2, |hs|
  {
    if hs == [] {
      TellsNothing(s, s, o, |s.made|);
    } else if hs[0] in s.holds {
      var t := Drop(s, hs[0]);
      DropTells(s, hs[0], o);
      DropAllTells(t, hs[1..], o);
      DropShrinks(s, hs[0]);
      DropAllShrinks(t, hs[1..]);
      TellsAdd(s, t, DropAll(t, hs[1..]), o, |s.made|);
    } else {
      DropAllTells(s, hs[1..], o);
    }
  }

  /** Whatever goes in a cascade, an owner is told once of each letter of its own that goes from two or
      more holders to one or none. */
  lemma {:induction false} DropTells(s: Sharing, e: nat, o: nat)
    requires s.Sound() && e in s.holds
    ensures var r := Drop(s, e);
      CountOf(o, r.notified) == CountOf(o, s.notified) + Tells(s, r, o, |s.made|)
    decreases |s.holds.Keys|, 1, 0
  {
    KeysWithout(s, e);
    var w, l := s.Without(e), s.holds[e];
    ReleasedTells(w, l, o);
    ReleasedShrinks(w, l);
    TellsOfOne(s, e, o, |s.made|);
    TellsAdd(s, w, Released(w, l), o, |s.made|);
  }

  /** Exactly one live handle other than e holds the letter of e. */
  ghost predicate OneOther(s: Sharing, e: nat)
    requires e in s.holds
  {
    exists h :: h != e && h in s.holds && s.holds[h] == s.holds[e]
      && forall g :: g in s.holds && s.holds[g] == s.holds[e] ==> g == e || g == h
  }

  /** A handle that is not the sole holder lets go: the owner is told of the object if and only if there
      is one and one other handle is left, and nobody is told anything else. */
  lemma ToldWhenOneIsLeft(s: Sharing, e: nat)
    requires s.Sound() && e in s.holds && !Sole(s, e)
    ensures var m := s.made[s.holds[e]];
      Drop(s, e).notified == s.notified + if m.owner && OneOther(s, e) then [m.obj] else []
  {
    var l, w := s.holds[e], s.Without(e);
    HoldersWithout(s, e, l);
    OnlyMember(s.Holders(l), e, e);
    StillHeld(w, l);
    OneLeft(s, e);
  }

  lemma OneLeft(s: Sharing, e: nat)
    requires e in s.holds
    ensures OneOther(s, e) <==> |s.Without(e).Holders(s.holds[e])| == 1
  {
    var left := s.Without(e).Holders(s.holds[e]);
    assert forall g :: g in left <==> g != e && g in s.holds && s.holds[g] == s.holds[e];
    if OneOther(s, e) {
      var h :| h in left && forall g :: g in left ==> g == h;
      assert left == {h};
    }
    if |left| == 1 {
      var h :| h in left;
      SoleMember(left, h);
      assert forall g :: g in left ==> g == h;
    }
  }

  /** What is held without e and without the handles that live in objects of x. */
  function Spared(s: Sharing, e: nat, x: set<nat>): Sharing
    requires s.Sound()
  {
    s.(holds := map h | h in s.holds && h != e && s.homes[h] !in x :: s.holds[h])
  }

  /** What is held once e has let go: told from who holds what before. */
  function Left(s: Sharing, e: nat): Sharing
    requires s.Sound()
  {
    Spared(s, e, WhatGoes(s, e))
  }

  lemma LeftIsHeld(s: Sharing, e: nat)
    requires Sane(s) && e in s.holds
    ensures Drop(s, e).holds == Left(s, e).holds
  {
    forall h | h in s.holds && h != e
      ensures h in Drop(s, e).holds <==> s.homes[h] !in WhatGoes(s, e)
    {
      GoesIfHomeGoes(s, e, h);
    }
    DropShrinks(s, e);
    SparedIsHeld(s, e, Drop(s, e), WhatGoes(s, e));
  }

  lemma SparedIsHeld(s: Sharing, e: nat, r: Sharing, x: set<nat>)
    requires s.Sound() && Shrunk(s, r) && e !in r.holds
    requires forall h | h in s.holds && h != e :: h in r.holds <==> s.homes[h] !in x
    ensures r.holds == Spared(s, e, x).holds
  {
  }

  /** How often owners are told of object o in one step. */
  function Heard(s: Sharing, op: Op, o: nat): nat
    requires s.Sound() && s.Legal(op)
  {
    match op
    case Construct(_, _, _) => 0
    case Copy(_, _) => 0
    case Assign(e, _) => Tells(s, Left(s, e), o, |s.made|)
    case AssignObject(e, _) => Tells(s, Left(s, e), o, |s.made|)
    case Destroy(e) => Tells(s, Left(s, e), o, |s.made|)
  }

  lemma StepTells(s: Sharing, op: Op, o: nat)
    requires Sane(s) && s.Legal(op)
    ensures CountOf(o, Next(s, op).notified) == CountOf(o, s.notified) + Heard(s, op, o)
  {
    if op.Assign? || op.AssignObject? || op.Destroy? {
      DropTells(s, op.e, o);
      LeftIsHeld(s, op.e);
      TellsSame(s, Drop(s, op.e), s, Left(s, op.e), o, |s.made|);
    }
  }

  function HeardOver(s: Sharing, ops: seq<Op>, o: nat): nat
    requires Plays(s, ops)
    decreases |ops|
  {
    if ops == [] then 0 else Heard(s, ops[0], o) + HeardOver(Next(s, ops[0]), ops[1..], o)
  }

  /** Over any program the owners hear of an object as often as steps of the program, cascades included,
      leave a letter of theirs for it with one holder or none. */
  lemma {:induction false} NotifiedOverRuns(s: Sharing, ops: seq<Op>, o: nat)
    requires Sane(s) && Plays(s, ops)
    ensures CountOf(o, Final(s, ops).notified) == CountOf(o, s.notified) + HeardOver(s, ops, o)
    decreases |ops|
  {
    if ops != [] {
      StepTells(s, ops[0], o);
      FateAfterStep(s, ops[0]);
      StepSettles(s, ops[0]);
      NotifiedOverRuns(Next(s, ops[0]), ops[1..], o);
    }
  }

  // ----- Who holds what behind each step

  /** An owner is named at construction or not at all. */
  function NewLetters(op: Op): seq<Made> {
    match op
    case Construct(_, obj, owner) => [Made(obj, owner)]
    case AssignObject(_, obj) => [Made(obj, false)]
    case _ => []
  }

  function Letters(ops: seq<Op>): seq<Made> {
    if ops == [] then [] else NewLetters(ops[0]) + Letters(ops[1..])
  }

  lemma StepMakes(s: Sharing, op: Op)
    requires s.Sound() && s.Legal(op)
    ensures Next(s, op).made == s.made + NewLetters(op)
  {
  }

  lemma AssocMade(a: seq<Made>, b: seq<Made>, c: seq<Made>)
    ensures a + b + c == a + (b + c)
  {
  }

  lemma {:induction false} LettersOverRuns(s: Sharing, ops: seq<Op>)
    requires Plays(s, ops)
    ensures Final(s, ops).made == s.made + Letters(ops)
    decreases |ops|
  {
    if ops != [] {
      StepMakes(s, ops[0]);
      LettersOverRuns(Next(s, ops[0]), ops[1..]);
      AssocMade(s.made, NewLetters(ops[0]), Letters(ops[1..]));
    }
  }

  /** A step gives one handle a letter: a new one, or that of the source. All other handles keep theirs,
      except those that live in what goes. */
  lemma StepHolds(s: Sharing, op: Op)
    requires Sane(s) && s.Legal(op)
    ensures Next(s, op).holds ==
      match op
      case Construct(_, _, _) => s.holds[|s.homes| := |s.made|]
      case Copy(_, src) => s.holds[|s.homes| := s.holds[src]]
      case Assign(e, src) => Left(s, e).holds[e := s.holds[src]]
      case AssignObject(e, _) => Left(s, e).holds[e := |s.made|]
      case Destroy(e) => Left(s, e).holds
  {
    if op.Assign? || op.AssignObject? || op.Destroy? {
      LeftIsHeld(s, op.e);
    }
  }

  /** A destructor takes the handles of its object in the opposite order of their construction. */
  lemma {:induction false} MembersBackwards(homes: seq<nat>, obj: nat, k: nat, i: nat, j: nat)
    requires k <= |homes| && i < j < |Members(homes, obj, k)|
    ensures Members(homes, obj, k)[j] < Members(homes, obj, k)[i] < k
  {
    var hs := Members(homes, obj, k);
    if homes[k - 1] == obj {
      var rest := Members(homes, obj, k - 1);
      MembersLiveThere(homes, obj, k - 1, rest[j - 1]);
      if i > 0 {
        MembersBackwards(homes, obj, k - 1, i - 1, j - 1);
      }
    } else {
      MembersBackwards(homes, obj, k - 1, i, j);
    }
  }

  // ----- Programs that go wrong

  /** Walking down a list by assigning a node's own link to the handle of the node: p = p->next. */
  lemma LinkOfTheNodeIsLost(s: Sharing, p: nat, next: nat)
    requires Sane(s) && Sole(s, p) && next in s.holds
    requires s.homes[next] == s.made[s.holds[p]].obj != NULL
    ensures Suicidal(s, Assign(p, next)) && (next != p ==> next !in Drop(s, p).holds)
  {
    SoleObjectGoes(s, p);
    if next != p {
      GoesIfHomeGoes(s, p, next);
    }
  }

  lemma SoleObjectGoes(s: Sharing, e: nat)
    requires s.Sound() && Sole(s, e) && s.made[s.holds[e]].obj != NULL
    ensures s.made[s.holds[e]].obj in WhatGoes(s, e)
  {
    WhatGoesIsLeast(s, e);
    assert HeldWithin(s, s.holds[e], e, WhatGoes(s, e));
    assert s.made[s.holds[e]].obj in LeftAlone(s, e, WhatGoes(s, e));
  }

  /** Two lines of a program lead there: a handle on a node, and a handle on another node as its link. */
  lemma LostLinkIsReached()
    ensures var ops := [Construct(NULL, 1, false), Construct(1, 2, false)];
      && Plays(NOTHING, ops) && Sane(Final(NOTHING, ops))
      && Final(NOTHING, ops).Legal(Assign(0, 1)) && Suicidal(Final(NOTHING, ops), Assign(0, 1))
  {
    var first, second := Construct(NULL, 1, false), Construct(1, 2, false);
    var s1, s2, ops := Next(NOTHING, first), Next(Next(NOTHING, first), second), [first, second];
    assert ops[1..] == [second] && [second][1..] == [];
    assert Plays(s2, []) && Final(s2, []) == s2;
    assert Plays(s1, [second]) && Final(s1, [second]) == s2;
    SaneOverRuns(NOTHING, ops);
    TwoNodes(s2);
    LinkOfTheNodeIsLost(s2, 0, 1);
  }

  lemma TwoNodes(s: Sharing)
    requires s == Next(Next(NOTHING, Construct(NULL, 1, false)), Construct(1, 2, false))
    ensures Sole(s, 0) && 1 in s.holds && s.homes[1] == s.made[s.holds[0]].obj == 1
  {
  }

  /** Assigning the sole holder of an object to itself deletes an object that it then still holds. */
  lemma SelfAssignmentDeletesAHeldObject(s: Sharing, e: nat)
    requires NoDoubleDeleteNoLeak(s) && Sole(s, e) && s.made[s.holds[e]].obj != NULL
    ensures var obj := s.made[s.holds[e]].obj;
      Suicidal(s, Assign(e, e)) && obj !in s.deleted && obj in Drop(s, e).deleted
  {
    var l := s.holds[e];
    var w, obj := s.Without(e), s.made[l].obj;
    assert Fate(s, l) && e in s.Holders(l);
    HoldersWithout(s, e, l);
    assert w.Holders(l) == {};
    var hs := Members(s.homes, obj, |s.homes|);
    DropAllShrinks(w.Gone(obj), hs);
    assert w.Gone(obj).deleted[|s.deleted|] == obj;
    assert Drop(s, e) == DropAll(w.Gone(obj), hs);
    assert multiset(s.deleted)[obj] == 0;
  }
}
