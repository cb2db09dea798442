/** How many finger buffers a frame needs, and why twice `maxFingers` of them are enough. */
module Allocator {
  import opened Machine
  import opened CoordBuffer
  import opened Matching
  import opened TrackerSpec

  /** The taken contacts among the first `n`. */
  ghost function TakenBelow(marks: seq<Mark>, n: nat): set<int> {
    set j | 0 <= j < n && Taken(marks, j)
  }

  lemma {:induction false} EachContactOnce(s: Settings, v: TrackerVal, marks: seq<Mark>, cs: seq<Contact>, j: nat)
    requires j <= |cs|
    ensures |Spawned(s, v, marks, cs, j)| + |TakenBelow(marks, j)| <= j
  {
    if j == 0 {
      assert TakenBelow(marks, 0) == {};
    } else {
      EachContactOnce(s, v, marks, cs, j - 1);
      assert TakenBelow(marks, j) == TakenBelow(marks, j - 1) + if Taken(marks, j - 1) then {j - 1} else {};
    }
  }

  lemma TakenByLast(marks: seq<Mark>, n: nat)
    requires marks != [] && Fit(marks, n)
    ensures var front, last := marks[..|marks| - 1], marks[|marks| - 1];
            && TakenBelow(marks, n) == TakenBelow(front, n) + (if last.Matched() then {last.id} else {})
            && (last.Matched() ==> last.id !in TakenBelow(front, n))
  {
    forall j {
      TakenByPrefix(marks, |marks| - 1, j);
    }
    assert marks[..|marks|] == marks;
  }

  lemma NothingTaken(marks: seq<Mark>, n: nat)
    requires marks == []
    ensures TakenBelow(marks, n) == {}
  {}

  /** Distinct matched fingers take distinct contacts. */
  lemma {:induction false} SurvivorsAreTakers(s: Settings, fs: seq<FingerVal>, marks: seq<Mark>, cs: seq<Contact>)
    requires |marks| == |fs| && Fit(marks, |cs|)
    requires forall i :: 0 <= i < |marks| && !marks[i].Matched() ==> marks[i].dist > 0
    ensures |Survivors(Updated(s, fs, marks, cs))| == |TakenBelow(marks, |cs|)|
  {
    hide Half, Record, Settled, Taken, TakenBelow;
    if fs == [] {
      NothingTaken(marks, |cs|);
    } else {
      var n := |fs| - 1;
      SurvivorsAreTakers(s, fs[..n], marks[..n], cs);
      TakenByLast(marks, |cs|);
      assert Updated(s, fs, marks, cs)[..n] == Updated(s, fs[..n], marks[..n], cs);
    }
  }

  /** Every finger live after a frame has a contact of its own in that frame. */
  lemma LiveAtMostContacts(s: Settings, v: TrackerVal, cs: seq<Contact>)
    requires Idle(v)
    ensures |Frame(s, v, cs).live| == |News(s, v, cs)| + |TakenBelow(Matches(v.live, cs), |cs|)| <= |cs|
  {
    var marks := Matches(v.live, cs);
    MatchesFit(v, cs);
    MatchIsInjective(Rows(v.live, cs), MarksOf(v.live), |cs|);
    SurvivorsAreTakers(s, v.live, marks, cs);
    EachContactOnce(s, v, marks, cs, |cs|);
    SpawnedAreFresh(s, v, marks, cs, |cs|);
    SurvivorsOfConcat(News(s, v, cs), Updated(s, v.live, marks, cs));
    AllSurvive(News(s, v, cs));
  }

  /** With a live finger and a contact, some finger survives the frame. */
  lemma SomeFingerSurvives(s: Settings, v: TrackerVal, cs: seq<Contact>)
    requires Idle(v) && v.live != [] && cs != []
    ensures TakenBelow(Matches(v.live, cs), |cs|) != {}
    ensures Frame(s, v, cs).live != []
  {
    MatchesFit(v, cs);
    var g := SomeFingerIsMatched(Rows(v.live, cs), MarksOf(v.live));
    var marks := Matches(v.live, cs);
    assert Taken(marks, marks[g].id);
    assert marks[g].id in TakenBelow(marks, |cs|);
    LiveAtMostContacts(s, v, cs);
  }

  /** The buffers in use at the height of a frame: released fingers return only after new ones were added. */
  ghost function PeakUse(s: Settings, v: TrackerVal, cs: seq<Contact>): nat
    requires Idle(v)
  {
    |Processed(s, v, cs)|
  }

  /** With at most `max` contacts a frame and 2 * max buffers, a buffer is there for every contact
      examined; one buffer is never used at all. */
  lemma PoolNeverRunsDry(s: Settings, v: TrackerVal, cs: seq<Contact>, max: nat)
    requires Idle(v) && 0 < max
    requires |v.live| + v.pool == 2 * max && |v.live| <= max && |cs| <= max
    ensures |Frame(s, v, cs).live| <= max
    ensures forall j :: 0 <= j < |cs| ==> |Spawned(s, v, Matches(v.live, cs), cs, j)| < v.pool
    ensures PeakUse(s, v, cs) <= 2 * max - 1
  {
    LiveAtMostContacts(s, v, cs);
    if v.live != [] && cs != [] {
      SomeFingerSurvives(s, v, cs);
    }
  }

  /** The contacts among the first `j` that start a finger, latest first. */
  ghost function Starters(s: Settings, marks: seq<Mark>, cs: seq<Contact>, j: nat): (ks: seq<nat>)
    requires j <= |cs|
    ensures forall i :: 0 <= i < |ks| ==> ks[i] < j && Starts(s, marks, cs, ks[i])
  {
    if j == 0 then [] else
      (if Starts(s, marks, cs, j - 1) then [j - 1] else []) + Starters(s, marks, cs, j - 1)
  }

  lemma {:induction false} StartersAreExact(s: Settings, marks: seq<Mark>, cs: seq<Contact>, j: nat, k: nat)
    requires k < j <= |cs|
    ensures k in Starters(s, marks, cs, j) <==> Starts(s, marks, cs, k)
    ensures forall a, b :: 0 <= a < b < |Starters(s, marks, cs, j)| ==>
              Starters(s, marks, cs, j)[b] < Starters(s, marks, cs, j)[a]
  {
    var rest := Starters(s, marks, cs, j - 1);
    if k < j - 1 {
      StartersAreExact(s, marks, cs, j - 1, k);
    } else if k > 0 {
      StartersAreExact(s, marks, cs, j - 1, k - 1);
    }
  }

  /** The fingers added for these contacts, each with the place and the weight of its own, and with the id of its
      turn: the last in the list came first. */
  ghost predicate AddedFor(news: seq<FingerVal>, cs: seq<Contact>, ks: seq<nat>, first: nat)
    requires forall i :: 0 <= i < |ks| ==> ks[i] < |cs|
  {
    && |news| == |ks|
    && forall i :: 0 <= i < |news| ==>
         && news[i].id == IdOf(first + (|news| - 1 - i)) && news[i].state == Start && news[i].minDist == 0
         && news[i].lastWeight == cs[ks[i]].weight && news[i].samples == [Point(cs[ks[i]].x, cs[ks[i]].y)]
  }

  lemma AddedForMore(news: seq<FingerVal>, cs: seq<Contact>, ks: seq<nat>, first: nat, k: nat)
    requires k < |cs| && (forall i :: 0 <= i < |ks| ==> ks[i] < |cs|) && AddedFor(news, cs, ks, first)
    ensures AddedFor([NewFinger(first + |news|, cs[k])] + news, cs, [k] + ks, first)
  {
    hide IdOf;
  }

  /** While the pool lasts, the starters become fingers, each with its own contact and id. */
  lemma {:induction false} EveryStarterIsAdded(s: Settings, v: TrackerVal, marks: seq<Mark>, cs: seq<Contact>, j: nat)
    requires j <= |cs|
    ensures var news, ks := Spawned(s, v, marks, cs, j), Starters(s, marks, cs, j);
            && |news| == (if |ks| <= v.pool then |ks| else v.pool)
            && AddedFor(news, cs, ks[|ks| - |news|..], v.created)
  {
    hide Starts, NewFinger, AddedFor;
    if j == 0 {
      NoneAdded(cs, v.created);
    } else {
      EveryStarterIsAdded(s, v, marks, cs, j - 1);
      var news, before := Spawned(s, v, marks, cs, j), Spawned(s, v, marks, cs, j - 1);
      var ks, ks0 := Starters(s, marks, cs, j), Starters(s, marks, cs, j - 1);
      if Starts(s, marks, cs, j - 1) && |before| < v.pool {
        AddedForMore(before, cs, ks0[|ks0| - |before|..], v.created, j - 1);
        assert ks0[|ks0| - |before|..] == ks0 && ks[|ks| - |news|..] == [j - 1] + ks0;
      } else {
        assert ks[|ks| - |news|..] == ks0[|ks0| - |before|..];
      }
    }
  }

  lemma NoneAdded(cs: seq<Contact>, first: nat)
    ensures AddedFor([], cs, [], first)
  {}

  /** A pool that never ran dry was large enough for every starter. */
  lemma {:induction false} NoneRejected(s: Settings, v: TrackerVal, marks: seq<Mark>, cs: seq<Contact>, j: nat)
    requires j <= |cs|
    requires forall k :: 0 <= k < j ==> |Spawned(s, v, marks, cs, k)| < v.pool
    ensures |Spawned(s, v, marks, cs, j)| == |Starters(s, marks, cs, j)|
  {
    hide Starts;
    if j > 0 {
      NoneRejected(s, v, marks, cs, j - 1);
    }
  }

  // ---- one buffer fewer would not do ----------------------------------------------------

  ghost predicate AllAt(fs: seq<FingerVal>, p: Point) {
    forall i :: 0 <= i < |fs| ==> fs[i].Position() == p
  }

  function Same(c: Contact, n: nat): seq<Contact> {
    seq(n, _ => c)
  }

  /** With no finger live, a pile of heavy contacts at one point puts one finger down for each. */
  lemma {:induction false} PileLands(s: Settings, v: TrackerVal, c: Contact, n: nat, j: nat)
    requires v.live == [] && j <= n <= v.pool
    requires c.weight >= s.fingerDownThreshold && c.x != 0
    ensures |Spawned(s, v, [], Same(c, n), j)| == j
    ensures AllAt(Spawned(s, v, [], Same(c, n), j), Point(c.x, c.y))
  {
    if j > 0 {
      PileLands(s, v, c, n, j - 1);
    }
  }

  lemma PileRow(fs: seq<FingerVal>, c: Contact)
    requires AllAt(fs, Point(c.x, c.y))
    ensures forall i :: 0 <= i < |fs| ==> RowOf(fs, c)[i] == 0
  {
    assert Distance(c.x, c.y, c.x, c.y) == 0;
  }

  /** Contacts at the very point where all fingers lie displace one another on the first finger. */
  lemma {:induction false} PileDisplaces(fs: seq<FingerVal>, c: Contact, n: nat, j: nat)
    requires fs != [] && AllAt(fs, Point(c.x, c.y)) && AllFree(MarksOf(fs)) && 0 < j <= n
    ensures MatchUpTo(Rows(fs, Same(c, n)), MarksOf(fs), j) == MarksOf(fs)[0 := Mark(0, j - 1)]
  {
    hide Distance, RowOf;
    PileRow(fs, c);
    var rows, free := Rows(fs, Same(c, n)), MarksOf(fs);
    var before := MatchUpTo(rows, free, j - 1);
    if j > 1 {
      PileDisplaces(fs, c, n, j - 1);
    }
    assert Row(rows[j - 1], |free|) && rows[j - 1][0] == 0;
    assert Eligible(rows[j - 1], before, 0);
    assert Choose(rows[j - 1], before, |free|) == 0;
  }

  lemma {:induction false} AllButLastStart(s: Settings, v: TrackerVal, marks: seq<Mark>, c: Contact, n: nat, j: nat)
    requires j < n <= v.pool && c.weight >= s.fingerDownThreshold && c.x != 0
    requires forall k :: 0 <= k < n ==> (Taken(marks, k) <==> k == n - 1)
    ensures |Spawned(s, v, marks, Same(c, n), j)| == j
  {
    if j > 0 {
      AllButLastStart(s, v, marks, c, n, j - 1);
    }
  }

  lemma FirstPile(s: Settings, max: nat) returns (v: TrackerVal)
    requires 0 < max
    ensures Idle(TrackerVal([], 2 * max, 0))
    ensures v == Frame(s, TrackerVal([], 2 * max, 0), Same(Contact(1, 1, s.fingerDownThreshold), max))
    ensures Idle(v) && |v.live| == v.pool == max && AllAt(v.live, Point(1, 1))
  {
    hide IdOf, Distance, Updated, Matches, Absorb;
    var c := Contact(1, 1, s.fingerDownThreshold);
    var cs := Same(c, max);
    var v0 := TrackerVal([], 2 * max, 0);
    v := Frame(s, v0, cs);
    FrameKeepsIdle(s, v0, cs);
    PileLands(s, v0, c, max, max);
    assert Matches(v0.live, cs) == [];
    SpawnedAreFresh(s, v0, [], cs, max);
    AllSurvive(News(s, v0, cs));
    assert Processed(s, v0, cs) == News(s, v0, cs);
  }

  /** For every `max`, two frames of `max` contacts use 2 * max - 1 buffers at once. */
  lemma PoolIsTight(s: Settings, max: nat)
    requires 0 < max
    ensures var cs := Same(Contact(1, 1, s.fingerDownThreshold), max);
            var v0 := TrackerVal([], 2 * max, 0);
            Idle(v0) && Idle(Frame(s, v0, cs)) && PeakUse(s, Frame(s, v0, cs), cs) == 2 * max - 1
  {
    hide Frame, Distance, Updated;
    var c := Contact(1, 1, s.fingerDownThreshold);
    var v := FirstPile(s, max);
    PileDisplaces(v.live, c, max, max);
    var marks := Matches(v.live, Same(c, max));
    assert marks[0].id == max - 1;
    AllButLastStart(s, v, marks, c, max, max - 1);
  }
}
