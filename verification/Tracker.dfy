/** The finger tracker itself: fingers and contact arrays updated in place, one method for each phase. */
module Tracker {
  import opened Machine
  import opened CoordBuffer
  import opened Matching
  import opened Events
  import opened TrackerSpec

  class Finger {
    const coords: CoordBuf
    var id: int
    var state: GestureState
    var minDist: int
    var minDistId: int
    var lastWeight: int

    ghost function Val(): FingerVal
      reads this, coords
    {
      FingerVal(id, state, minDist, minDistId, lastWeight, coords.samples)
    }

    constructor (bufSize: int)
      requires bufSize >= 1
      ensures coords.Valid() && coords.size == bufSize && state == Unused
      ensures fresh(coords) && fresh(coords.pCoords)
    {
      coords := new CoordBuf(bufSize);
      id, state, minDist, minDistId, lastWeight := 0, Unused, 0, 0, 0;
    }

    /** Takes the contact the finger was matched with. */
    method Absorb(s: Settings, x: int, y: int, weight: int)
      requires coords.Valid() && coords.samples != []
      modifies this`minDist, this`minDistId, this`lastWeight, coords, coords.pCoords
      ensures coords.Valid() && coords.samples != []
      ensures Val() == TrackerSpec.Absorb(s, old(Val()), Contact(x, y, weight))
    {
      if Half(lastWeight) < weight {
        coords.Update(s.positionFilter, x, y);
      }
      lastWeight := weight;
      minDist := 0;
      minDistId := 0;
    }

    /** Starts the finger's life at a contact. */
    method PutDown(s: Settings, newId: int, x: int, y: int, weight: int)
      requires coords.Valid()
      modifies this, coords, coords.pCoords
      ensures coords.Valid() && coords.samples != []
      ensures Val() == FingerVal(newId, Start, 0, 0, weight, [Point(x, y)])
    {
      state := Start;
      id := newId;
      minDist := 0;
      minDistId := 0;
      lastWeight := weight;
      coords.Reset();
      coords.Update(s.positionFilter, x, y);
    }

    /** Writes the finger's block of events; says whether the finger was released. */
    method Report(events: array<InputEvent>, numEvents: nat) returns (n: nat, release: bool)
      requires coords.Valid() && coords.samples != []
      requires numEvents + |Encode(BlockOf(Val()))| <= events.Length
      modifies this`state, this`minDist, events
      ensures n == numEvents + |Encode(BlockOf(old(Val())))|
      ensures events[..n] == old(events[..numEvents]) + Encode(BlockOf(old(Val())))
      ensures release <==> Released(old(Val()))
      ensures !release ==> Val() == Settled(old(Val()))
    {
      hide ToInt32;
      ghost var b, before := BlockOf(Val()), events[..numEvents];
      var x, y := coords.GetLast();
      n := SetEvent(events, numEvents, EV_FINGERID, 0, ToInt32(id));
      match state {
        case Start =>
          state := FingerDown;
          n := SetEvent(events, n, EV_KEY, BTN_TOUCH, 1);
        case FingerDown =>
        case Unused =>
      }
      ghost var opening := if b.down then [InputEvent(EV_KEY, BTN_TOUCH, 1)] else [];
      assert events[..n] == before + ([InputEvent(EV_FINGERID, 0, ToInt32(b.id))] + opening);
      n := SetEvent(events, n, EV_ABS, ABS_X, x);
      n := SetEvent(events, n, EV_ABS, ABS_Y, y);
      release := minDist > 0;
      if release {
        n := SetEvent(events, n, EV_KEY, BTN_TOUCH, 0);
      } else {
        minDist := INT_MAX;
      }
    }
  }

  /** Writes one event after the first `n`. */
  method SetEvent(events: array<InputEvent>, n: nat, typ: int, code: int, value: int) returns (n': nat)
    requires n < events.Length
    modifies events
    ensures n' == n + 1
    ensures events[..n'] == old(events[..n]) + [InputEvent(typ, code, value)]
  {
    events[n] := InputEvent(typ, code, value);
    n' := n + 1;
  }

  /** What a sequence of fingers amounts to. */
  ghost function Vals(fs: seq<Finger>): (vs: seq<FingerVal>)
    reads set f | f in fs, set f | f in fs :: f.coords
    ensures |vs| == |fs| && forall i :: 0 <= i < |fs| ==> vs[i] == fs[i].Val()
  {
    if fs == [] then [] else Vals(fs[..|fs| - 1]) + [fs[|fs| - 1].Val()]
  }

  ghost function ContactsOf(xs: array<int>, ys: array<int>, ws: array<int>, n: nat): (cs: seq<Contact>)
    requires n <= xs.Length && n <= ys.Length && n <= ws.Length
    reads xs, ys, ws
    ensures |cs| == n && forall j :: 0 <= j < n ==> cs[j] == Contact(xs[j], ys[j], ws[j])
  {
    seq(n, j requires 0 <= j < n && n <= xs.Length && n <= ys.Length && n <= ws.Length reads xs, ys, ws =>
      Contact(xs[j], ys[j], ws[j]))
  }

  /** Two different fingers, sharing no storage. */
  ghost predicate Apart(f: Finger, g: Finger) {
    f != g && f.coords != g.coords && f.coords.pCoords != g.coords.pCoords
  }

  ghost predicate AllApart(fs: seq<Finger>) {
    forall i, k :: 0 <= i < k < |fs| ==> Apart(fs[i], fs[k])
  }

  /** A list of fingers that are down. */
  ghost predicate Down(fs: seq<Finger>)
    reads set f | f in fs :: f.coords, set f | f in fs :: f.coords.pCoords
  {
    && AllApart(fs)
    && forall i :: 0 <= i < |fs| ==> fs[i].coords.Valid() && fs[i].coords.samples != []
  }

  /** The inner loop of the matching: the first of the nearest fingers that would take the contact. */
  method FindNearest(fs: seq<Finger>, x: int, y: int, ghost c: Contact) returns (minId: int, minDist: int)
    requires Down(fs) && c.x == x && c.y == y
    ensures -1 <= minId < |fs|
    ensures minId == Choose(RowOf(Vals(fs), c), MarksOf(Vals(fs)), |fs|)
    ensures minDist == if minId < 0 then INT_MAX else RowOf(Vals(fs), c)[minId]
  {
    hide Distance, RowOf, AllApart, Vals;
    ghost var vs := Vals(fs);
    ghost var row, marks := RowOf(vs, c), MarksOf(vs);
    minDist, minId := INT_MAX, -1;
    for i := 0 to |fs|
      invariant -1 <= minId < i
      invariant minId == Choose(row, marks, i)
      invariant minDist == if minId < 0 then INT_MAX else row[minId]
    {
      var finger := fs[i];
      RowAt(vs, c, i);
      ChooseStep(row, marks, i);
      assert finger.Val() == vs[i];
      var xPrev, yPrev := finger.coords.GetLast();
      assert Point(xPrev, yPrev) == vs[i].Position();
      var dist := Distance(x, y, xPrev, yPrev);
      assert dist == row[i];
      if dist <= finger.minDist && dist < minDist {
        minId := i;
        minDist := dist;
      }
    }
  }

  /** Marks the finger that takes contact number `j`, if one does. */
  method OfferContact(fs: seq<Finger>, x: int, y: int, j: nat, ghost c: Contact)
    requires Down(fs) && c.x == x && c.y == y
    modifies (set f | f in fs)`minDist, (set f | f in fs)`minDistId
    ensures Down(fs)
    ensures Vals(fs) == OfferTo(old(Vals(fs)), c, j)
  {
    hide RowOf, Choose;
    var minId, minDist := FindNearest(fs, x, y, c);
    if minId >= 0 {
      var finger := fs[minId];
      finger.minDistId := j;
      finger.minDist := minDist;
    }
  }

  /** Leaves on every finger the mark of the contact it keeps. */
  method MatchContacts(fs: seq<Finger>, xs: array<int>, ys: array<int>, numFingers: nat, ghost cs: seq<Contact>)
    requires Down(fs)
    requires numFingers == |cs| <= xs.Length && numFingers <= ys.Length
    requires forall j :: 0 <= j < numFingers ==> cs[j].x == xs[j] && cs[j].y == ys[j]
    modifies (set f | f in fs)`minDist, (set f | f in fs)`minDistId
    ensures Down(fs)
    ensures Vals(fs) == OfferUpTo(old(Vals(fs)), cs, numFingers)
  {
    hide OfferTo, AllApart, Vals;
    ghost var vs := Vals(fs);
    for j := 0 to numFingers
      invariant Down(fs)
      invariant Vals(fs) == OfferUpTo(vs, cs, j)
    {
      OfferContact(fs, xs[j], ys[j], j, cs[j]);
    }
  }

  ghost function Coords(fs: seq<Finger>): set<CoordBuf> {
    set f | f in fs :: f.coords
  }

  ghost function Slots(fs: seq<Finger>): set<array<Point>> {
    set f | f in fs :: f.coords.pCoords
  }

  /** Lets one finger of the list take its contact. */
  method AbsorbOne(fs: seq<Finger>, k: nat, s: Settings, x: int, y: int, weight: int)
    requires Down(fs) && k < |fs|
    modifies (set f | f in fs)`minDist, (set f | f in fs)`minDistId, (set f | f in fs)`lastWeight, Coords(fs), Slots(fs)
    ensures Down(fs)
    ensures Vals(fs) == old(Vals(fs))[k := Absorb(s, old(Vals(fs)[k]), Contact(x, y, weight))]
  {
    var finger := fs[k];
    assert finger.coords in Coords(fs) && finger.coords.pCoords in Slots(fs);
    finger.Absorb(s, x, y, weight);
    forall i | 0 <= i < |fs| && i != k
      ensures fs[i].coords.Valid() && fs[i].coords.samples != [] && fs[i].Val() == old(fs[i].Val())
    {
      assert Apart(fs[i], finger);
    }
  }

  /** Takes a contact out of the arrays. */
  method Blank(xs: array<int>, ys: array<int>, ws: array<int>, j: nat, ghost n: nat)
    requires xs != ys && ws != xs && ws != ys
    requires j < n <= xs.Length && n <= ys.Length && n <= ws.Length
    modifies xs, ys
    ensures ContactsOf(xs, ys, ws, n) == old(ContactsOf(xs, ys, ws, n))[j := Contact(0, 0, ws[j])]
  {
    xs[j], ys[j] := 0, 0;
  }

  /** Moves one matched finger to its contact and takes that contact out of the arrays. */
  method MoveOne(fs: seq<Finger>, k: nat, s: Settings, xs: array<int>, ys: array<int>, ws: array<int>, ghost n: nat)
    requires Down(fs) && k < |fs| && 0 <= fs[k].minDistId < n
    requires xs != ys && ws != xs && ws != ys
    requires n <= xs.Length && n <= ys.Length && n <= ws.Length
    modifies (set f | f in fs)`minDist, (set f | f in fs)`minDistId, (set f | f in fs)`lastWeight
    modifies Coords(fs), Slots(fs), xs, ys
    ensures Down(fs)
    ensures Vals(fs) == old(Vals(fs))[k := Absorb(s, old(Vals(fs)[k]), old(ContactsOf(xs, ys, ws, n)[fs[k].minDistId]))]
    ensures ContactsOf(xs, ys, ws, n)
         == old(ContactsOf(xs, ys, ws, n))[old(fs[k].minDistId) := Contact(0, 0, ws[old(fs[k].minDistId)])]
  {
    hide AllApart, Vals, Absorb;
    var j := fs[k].minDistId;
    AbsorbOne(fs, k, s, xs[j], ys[j], ws[j]);
    Blank(xs, ys, ws, j, n);
  }

  /** Moves every matched finger to its contact and takes that contact out of the arrays. */
  method MoveMatched(fs: seq<Finger>, s: Settings, xs: array<int>, ys: array<int>, ws: array<int>, ghost cs: seq<Contact>)
    requires Down(fs) && xs != ys && ws != xs && ws != ys
    requires |cs| <= xs.Length && |cs| <= ys.Length && |cs| <= ws.Length && cs == ContactsOf(xs, ys, ws, |cs|)
    requires Fit(MarksOf(Vals(fs)), |cs|)
    modifies (set f | f in fs)`minDist, (set f | f in fs)`minDistId, (set f | f in fs)`lastWeight
    modifies Coords(fs), Slots(fs), xs, ys
    ensures Down(fs)
    ensures Vals(fs) == Updated(s, old(Vals(fs)), MarksOf(old(Vals(fs))), cs)
    ensures ContactsOf(xs, ys, ws, |cs|) == Left(cs, MarksOf(old(Vals(fs))), |fs|)
  {
    hide AllApart, Taken, Left, Moved, Updated, MarksOf, Vals, Absorb, Fit, Coords, Slots, ContactsOf, CoordBuf.Valid;
    ghost var vs := Vals(fs);
    NothingMoved(s, vs, cs);
    AllMoved(s, vs, cs);
    for k := 0 to |fs|
      invariant Down(fs)
      invariant Vals(fs) == Moved(s, vs, cs, k)
      invariant ContactsOf(xs, ys, ws, |cs|) == Left(cs, MarksOf(vs), k)
    {
      MoveOneMore(s, vs, cs, k);
      assert Vals(fs)[k] == fs[k].Val();
      if fs[k].minDist == INT_MAX {
        continue;
      }
      MoveOne(fs, k, s, xs, ys, ws, |cs|);
    }
  }

  /** No finger of one list is in the other, nor shares its storage. */
  ghost predicate Across(fs: seq<Finger>, gs: seq<Finger>) {
    forall i, k :: 0 <= i < |fs| && 0 <= k < |gs| ==> Apart(fs[i], gs[k])
  }

  /** Fingers waiting to be used. */
  ghost predicate Waiting(gs: seq<Finger>)
    reads (set g | g in gs)`state, set g | g in gs :: g.coords, set g | g in gs :: g.coords.pCoords
  {
    && AllApart(gs)
    && forall k :: 0 <= k < |gs| ==> gs[k].coords.Valid() && gs[k].state == Unused
  }

  method Allocate(n: nat, bufSize: int) returns (fingers: seq<Finger>, ghost all: set<Finger>)
    requires bufSize >= 1
    ensures |fingers| == n == |all| && Waiting(fingers)
    ensures forall f :: f in all <==> f in fingers
    ensures forall f :: f in fingers ==> fresh(f) && fresh(f.coords) && fresh(f.coords.pCoords) && f.coords.size == bufSize
  {
    fingers, all := [], {};
    for i := 0 to n
      invariant |fingers| == i == |all| && Waiting(fingers)
      invariant forall f :: f in all <==> f in fingers
      invariant forall f :: f in fingers ==>
                  fresh(f) && fresh(f.coords) && fresh(f.coords.pCoords) && f.coords.size == bufSize
    {
      var finger := new Finger(bufSize);
      fingers := fingers + [finger];
      all := all + {finger};
    }
  }

  lemma FirstMovesOver(fs: seq<Finger>, gs: seq<Finger>)
    requires AllApart(fs) && AllApart(gs) && Across(fs, gs) && gs != []
    ensures AllApart([gs[0]] + fs) && AllApart(gs[1..]) && Across([gs[0]] + fs, gs[1..])
    ensures Across([gs[0]], fs) && Across([gs[0]], gs[1..])
  {}

  /** Puts down the first waiting finger, in front of those that are down already. */
  method PutDownFirst(fs: seq<Finger>, gs: seq<Finger>, s: Settings, id: int, x: int, y: int, weight: int)
    requires Down(fs) && Waiting(gs) && Across(fs, gs) && gs != []
    modifies gs[0], gs[0].coords, gs[0].coords.pCoords
    ensures Down([gs[0]] + fs) && Waiting(gs[1..]) && Across([gs[0]] + fs, gs[1..])
    ensures Vals([gs[0]] + fs) == [FingerVal(id, Start, 0, 0, weight, [Point(x, y)])] + old(Vals(fs))
  {
    hide AllApart;
    FirstMovesOver(fs, gs);
    var finger, rest := gs[0], gs[1..];
    finger.PutDown(s, id, x, y, weight);
    forall k | 0 <= k < |rest| ensures rest[k].coords.Valid() && rest[k].state == Unused {
      assert rest[k] == gs[k + 1] && Apart([finger][0], rest[k]);
    }
    forall i | 0 <= i < |fs|
      ensures fs[i].coords.Valid() && fs[i].coords.samples != [] && fs[i].Val() == old(fs[i].Val())
    {
      assert Apart([finger][0], fs[i]);
    }
  }

  /** Reports the finger at position `i`; the rest of the list is not touched. */
  method ReportOne(fs: seq<Finger>, finger: Finger, ghost i: nat, events: array<InputEvent>, numEvents: nat)
    returns (n: nat, release: bool)
    requires Down(fs) && i < |fs| && finger == fs[i]
    requires numEvents + |Encode(BlockOf(Vals(fs)[i]))| <= events.Length
    modifies finger`state, finger`minDist, events
    ensures Down(fs)
    ensures release <==> Released(old(Vals(fs)[i]))
    ensures Vals(fs) == old(Vals(fs))[i := finger.Val()]
    ensures !release ==> finger.Val() == Settled(old(Vals(fs)[i]))
    ensures n == numEvents + |Encode(BlockOf(old(Vals(fs)[i])))|
    ensures events[..n] == old(events[..numEvents]) + Encode(BlockOf(old(Vals(fs)[i])))
  {
    hide Encode, Released, Settled, BlockOf;
    assert finger.Val() == Vals(fs)[i];
    n, release := finger.Report(events, numEvents);
    forall k | 0 <= k < |fs| && k != i ensures fs[k].Val() == old(fs[k].Val()) {
      assert Apart(fs[k], finger);
    }
  }

  lemma NotWaiting(fs: seq<Finger>, i: nat, gs: seq<Finger>)
    requires Across(fs, gs) && i < |fs|
    ensures forall k :: 0 <= k < |gs| ==> gs[k] != fs[i]
  {}

  lemma OneMovesOver(fs: seq<Finger>, i: nat, gs: seq<Finger>)
    requires AllApart(fs) && AllApart(gs) && Across(fs, gs) && i < |fs|
    ensures AllApart(fs[..i] + fs[i + 1..]) && AllApart(gs + [fs[i]])
    ensures Across(fs[..i] + fs[i + 1..], gs + [fs[i]])
  {}

  lemma {:induction false} DistinctFillsSet(fs: seq<Finger>, all: set<Finger>)
    requires AllApart(fs) && |fs| == |all| && forall f :: f in fs ==> f in all
    ensures multiset(fs) == multiset(all)
  {
    if fs != [] {
      var n := |fs| - 1;
      forall f | f in fs[..n] ensures f in all - {fs[n]} {
        var i :| 0 <= i < n && fs[i] == f;
        assert Apart(fs[i], fs[n]);
      }
      DistinctFillsSet(fs[..n], all - {fs[n]});
      assert fs == fs[..n] + [fs[n]];
      assert all == (all - {fs[n]}) + {fs[n]};
    }
  }

  /** Two disjoint lists that together are as long as the set they are drawn from make up that set. */
  lemma EachOnce(live: seq<Finger>, avail: seq<Finger>, all: set<Finger>)
    requires AllApart(live) && AllApart(avail) && Across(live, avail) && |live| + |avail| == |all|
    requires (forall i :: 0 <= i < |live| ==> live[i] in all) && forall k :: 0 <= k < |avail| ==> avail[k] in all
    ensures multiset(avail + live) == multiset(all)
  {
    DistinctFillsSet(avail + live, all);
  }

  class FingerTracker {
    const settings: Settings
    const maxFingers: nat
    var live: seq<Finger>
    var avail: seq<Finger>
    var curFingerId: int

    /** How many fingers were ever added; `curFingerId` is this count in 32 bits. */
    ghost var created: nat
    /** Every finger allocated. */
    ghost const buffers: set<Finger>

    /** All storage the tracker owns besides itself; which objects they are never changes. */
    ghost function Storage(): set<object> {
      (set f: Finger | f in buffers :: f as object)
      + (set f: Finger | f in buffers :: f.coords as object)
      + (set f: Finger | f in buffers :: f.coords.pCoords as object)
    }

    /** What holds throughout a frame: the live and the available fingers are those allocated, each once. */
    ghost predicate Sound()
      reads this, Storage()
    {
      && (forall i :: 0 <= i < |live| ==> live[i] in buffers)
      && (forall k :: 0 <= k < |avail| ==> avail[k] in buffers)
      && Down(live) && Waiting(avail) && Across(live, avail)
      && |live| + |avail| == |buffers| == 2 * maxFingers
      && curFingerId == IdOf(created)
    }

    ghost function Val(): TrackerVal
      requires Sound()
      reads this, Storage()
    {
      TrackerVal(Vals(live), |avail|, created)
    }

    /** What holds between frames. */
    ghost predicate Valid()
      reads this, Storage()
    {
      Sound() && Idle(Val())
    }

    lemma ValidCounts()
      requires Valid()
      ensures Sound() && Idle(Val()) && |Val().live| + Val().pool == 2 * maxFingers
    {}

    constructor (settings: Settings, maxFingers: nat)
      requires settings.coordBufSize >= 1
      ensures Valid() && fresh(Storage())
      ensures Val() == TrackerVal([], 2 * maxFingers, 0)
      ensures forall f :: f in buffers ==> f.coords.size == settings.coordBufSize
      ensures this.settings == settings && this.maxFingers == maxFingers
    {
      var fingers, all := Allocate(2 * maxFingers, settings.coordBufSize);
      this.settings := settings;
      this.maxFingers := maxFingers;
      live := [];
      avail := fingers;
      curFingerId := 0;
      created := 0;
      buffers := all;
    }

    /** Takes a buffer from the pool for a new finger, which goes to the front of the list. */
    method AddNewFinger(x: int, y: int, weight: int)
      requires Sound()
      modifies this`live, this`avail, this`curFingerId, this`created, Storage()
      ensures Sound()
      ensures Val() == WithNewFinger(old(Val()), Contact(x, y, weight))
    {
      hide Down, Waiting, AllApart, Across, Vals, NextId, IdOf;
      if |avail| == 0 {
        return;
      }
      NextIdOf(created);
      PutDownFirst(live, avail, settings, curFingerId, x, y, weight);
      live := [avail[0]] + live;
      avail := avail[1..];
      curFingerId := NextId(curFingerId);
      created := created + 1;
    }

    /** The second phase of a frame: matched fingers move. */
    method MoveMatchedFingers(xs: array<int>, ys: array<int>, ws: array<int>, ghost cs: seq<Contact>)
      requires Sound() && xs != ys && ws != xs && ws != ys
      requires |cs| <= xs.Length && |cs| <= ys.Length && |cs| <= ws.Length && cs == ContactsOf(xs, ys, ws, |cs|)
      requires Fit(MarksOf(Vals(live)), |cs|)
      modifies buffers`minDist, buffers`minDistId, buffers`lastWeight, Coords(live), Slots(live), xs, ys
      ensures Sound()
      ensures Vals(live) == Updated(settings, old(Vals(live)), MarksOf(old(Vals(live))), cs)
      ensures ContactsOf(xs, ys, ws, |cs|) == Left(cs, MarksOf(old(Vals(live))), |live|)
    {
      hide AllApart, Updated, Left, Fit, MarksOf, ContactsOf, Vals;
      MoveMatched(live, settings, xs, ys, ws, cs);
      forall k | 0 <= k < |avail| ensures avail[k].coords.Valid() {
        forall f | f in live ensures Apart(f, avail[k]) {}
      }
    }

    /** The third phase: contacts that are left put new fingers down. */
    method AddNewFingers(xs: array<int>, ys: array<int>, ws: array<int>, numFingers: nat,
                         ghost cs: seq<Contact>, ghost marks: seq<Mark>)
      requires Sound() && |cs| == numFingers
      requires numFingers <= xs.Length && numFingers <= ys.Length && numFingers <= ws.Length
      requires ContactsOf(xs, ys, ws, numFingers) == Left(cs, marks, |marks|)
      modifies this`live, this`avail, this`curFingerId, this`created, Storage()
      ensures Sound()
      ensures Val() == Joined(old(Val()), Spawned(settings, old(Val()), marks, cs, numFingers))
    {
      hide Sound, AllApart, Across, Vals, Spawned, Starts, Taken, Left, IdOf, WithNewFinger;
      ghost var v := Val();
      NoneSpawned(settings, v, marks, cs);
      for j := 0 to numFingers
        invariant Sound()
        invariant Val() == Joined(v, Spawned(settings, v, marks, cs, j))
        invariant ContactsOf(xs, ys, ws, numFingers) == Left(cs, marks, |marks|)
      {
        SpawnOneMore(settings, v, marks, cs, j);
        assert ContactsOf(xs, ys, ws, numFingers)[j] == Contact(xs[j], ys[j], ws[j]);
        if xs[j] == 0 && ys[j] == 0 {
          continue;
        }
        if ws[j] < settings.fingerDownThreshold {
          continue;
        }
        AddNewFinger(xs[j], ys[j], ws[j]);
      }
    }

    /** Moves the live finger at position `i`, just released, to the end of the pool. */
    method Retire(i: nat)
      requires Sound() && i < |live|
      modifies this`live, this`avail, buffers`state
      ensures Sound()
      ensures live == old(live[..i] + live[i + 1..]) && avail == old(avail + [live[i]])
      ensures Vals(live) == old(Vals(live)[..i] + Vals(live)[i + 1..])
    {
      hide Vals, IdOf;
      OneMovesOver(live, i, avail);
      var finger := live[i];
      finger.state := Unused;
      avail := avail + [finger];
      live := live[..i] + live[i + 1..];
    }

    /** Reports the live finger at position `i` and returns it to the pool if it was released. */
    method ProcessFinger(i: nat, events: array<InputEvent>, numEvents: nat) returns (n: nat, release: bool)
      requires Sound() && i < |live|
      requires numEvents + |Encode(BlockOf(Vals(live)[i]))| <= events.Length
      modifies this`live, this`avail, buffers`state, buffers`minDist, events
      ensures Sound()
      ensures release <==> Released(old(Vals(live)[i]))
      ensures Vals(live) == AfterReport(old(Vals(live)), i)
      ensures |live| + |avail| == old(|live| + |avail|) && |live| == old(|live|) - (if release then 1 else 0)
      ensures n == numEvents + |Encode(BlockOf(old(Vals(live)[i])))|
      ensures events[..n] == old(events[..numEvents]) + Encode(BlockOf(old(Vals(live)[i])))
    {
      hide AllApart, Across, Vals, Encode, IdOf, Released, Settled, BlockOf;
      NotWaiting(live, i, avail);
      n, release := ReportOne(live, live[i], i, events, numEvents);
      if release {
        Retire(i);
      }
    }

    /** The last phase: every finger is reported, and released ones return to the pool. */
    method ProcessFingers(events: array<InputEvent>, numEvents: nat) returns (n: nat)
      requires Sound()
      requires numEvents + |EncodeAll(BlocksOf(Vals(live)))| <= events.Length
      modifies this`live, this`avail, buffers`state, buffers`minDist, events
      ensures Sound()
      ensures Vals(live) == Survivors(old(Vals(live))) && |live| + |avail| == old(|live| + |avail|)
      ensures n == numEvents + |EncodeAll(BlocksOf(old(Vals(live))))|
      ensures events[..n] == old(events[..numEvents]) + EncodeAll(BlocksOf(old(Vals(live))))
    {
      hide Sound, AllApart, Across, Vals, Encode, EncodeAll, IdOf, Released, AfterReport, BlockOf, Swept, Survivors;
      hide BlocksOf;
      ghost var ps := Vals(live);
      SweepEnds(ps);
      n := numEvents;
      var i := 0;
      ghost var k := 0;
      while i < |live|
        invariant Sound() && k <= |ps|
        invariant Vals(live) == Swept(ps, k) && i == |Survivors(ps[..k])|
        invariant |live| + |avail| == old(|live| + |avail|)
        invariant n == numEvents + |EncodeAll(BlocksOf(ps[..k]))|
        invariant n <= events.Length && events[..n] == old(events[..numEvents]) + EncodeAll(BlocksOf(ps[..k]))
        decreases |ps| - k
      {
        SweepOneMore(ps, k);
        var release;
        n, release := ProcessFinger(i, events, n);
        if !release {
          i := i + 1;
        }
        k := k + 1;
      }
    }

    /** The first two phases: matched fingers move, and their contacts are blanked. */
    method MatchAndMove(xs: array<int>, ys: array<int>, ws: array<int>, numFingers: nat, ghost cs: seq<Contact>)
      requires Valid() && xs != ys && ws != xs && ws != ys
      requires numFingers <= xs.Length && numFingers <= ys.Length && numFingers <= ws.Length
      requires cs == ContactsOf(xs, ys, ws, numFingers)
      modifies Storage(), xs, ys
      ensures Sound()
      ensures Val() == AfterMoves(settings, old(Val()), cs)
      ensures ContactsOf(xs, ys, ws, numFingers) == Blanked(old(Val()), cs)
    {
      hide AllApart, Across, Vals, Left, Matches, Fit, Updated, OfferUpTo, MarksOf, Idle;
      OffersThenMoves(settings, Val(), cs);
      MatchContacts(live, xs, ys, numFingers, cs);
      MoveMatchedFingers(xs, ys, ws, cs);
    }

    /** The last two phases: new fingers are added, and everything is reported. */
    method AddAndReport(xs: array<int>, ys: array<int>, ws: array<int>, numFingers: nat,
                        events: array<InputEvent>, numEvents: nat, ghost v: TrackerVal, ghost cs: seq<Contact>)
      returns (n: nat)
      requires Idle(v) && Sound() && Val() == AfterMoves(settings, v, cs) && |cs| == numFingers
      requires numFingers <= xs.Length && numFingers <= ys.Length && numFingers <= ws.Length
      requires ContactsOf(xs, ys, ws, numFingers) == Blanked(v, cs)
      requires numEvents + |FrameEvents(settings, v, cs, numEvents)| <= events.Length
      modifies this`live, this`avail, this`curFingerId, this`created, Storage(), events
      ensures Sound() && Val() == Frame(settings, v, cs)
      ensures n == numEvents + |FrameEvents(settings, v, cs, numEvents)|
      ensures events[..n] == old(events[..numEvents]) + FrameEvents(settings, v, cs, numEvents)
    {
      hide Sound, AllApart, Across, Vals, Left, Matches, Processed, News, Spawned, BlocksOf, EncodeAll, Survivors;
      hide Idle, AfterMoves;
      MovesThenAdds(settings, v, cs);
      AddNewFingers(xs, ys, ws, numFingers, cs, Matches(v.live, cs));
      assert Val() == AfterAdds(settings, v, cs);
      n := ProcessFingers(events, numEvents);
      if 0 < n {
        n := SetEvent(events, n, EV_SYN, 0, 0);
      }
    }

    /** One frame of contacts: match, move, add, report; then a synchronisation event if there is anything to
        report. The contact arrays come back with the taken contacts blanked. */
    method GestureStateMachine(xs: array<int>, ys: array<int>, ws: array<int>, numFingers: nat,
                               events: array<InputEvent>, numEvents: nat, ghost cs: seq<Contact>) returns (n: nat)
      requires Valid() && xs != ys && ws != xs && ws != ys
      requires numFingers <= xs.Length && numFingers <= ys.Length && numFingers <= ws.Length
      requires cs == ContactsOf(xs, ys, ws, numFingers)
      requires numEvents + |FrameEvents(settings, Val(), cs, numEvents)| <= events.Length
      modifies this`live, this`avail, this`curFingerId, this`created, Storage(), xs, ys, events
      ensures Valid() && Val() == Frame(settings, old(Val()), cs)
      ensures n == numEvents + |FrameEvents(settings, old(Val()), cs, numEvents)|
      ensures events[..n] == old(events[..numEvents]) + FrameEvents(settings, old(Val()), cs, numEvents)
      ensures ContactsOf(xs, ys, ws, numFingers) == Blanked(old(Val()), cs)
    {
      hide Sound, Blanked, FrameEvents, Frame, Idle, AfterMoves, ContactsOf, Vals;
      FrameKeepsIdle(settings, Val(), cs);
      ghost var v := Val();
      MatchAndMove(xs, ys, ws, numFingers, cs);
      n := AddAndReport(xs, ys, ws, numFingers, events, numEvents, v, cs);
    }

    /** Frees the pool, then the fingers still down; the list of live fingers is not reset. `freed` is the
        sequence of calls to free: every allocated finger is in it exactly once. */
    method Deinit() returns (freed: seq<Finger>)
      requires Sound()
      modifies this`avail
      ensures avail == [] && live == old(live)
      ensures multiset(freed) == multiset(buffers)
    {
      hide AllApart, Across, IdOf, Vals;
      ghost var all := avail + live;
      EachOnce(live, avail, buffers);
      freed := [];
      while |avail| > 0
        invariant freed + avail + live == all
      {
        freed := freed + [avail[0]];
        avail := avail[1..];
      }
      var l := live;
      while |l| > 0
        invariant freed + l == all
      {
        freed := freed + [l[0]];
        l := l[1..];
      }
      assert freed == all;
    }
  }
}
