/** Whole runs of the tracker: any sequence of frames, from the empty list of fingers. */
module TrackerRuns {
  import opened Machine
  import opened CoordBuffer
  import opened Matching
  import opened Events
  import opened TrackerSpec
  import Allocator

  ghost function Run(s: Settings, max: nat, frames: seq<seq<Contact>>): (v: TrackerVal)
    ensures Idle(v) && |v.live| + v.pool == 2 * max
  {
    if frames == [] then TrackerVal([], 2 * max, 0) else
      var v := Run(s, max, frames[..|frames| - 1]);
      FrameKeepsIdle(s, v, frames[|frames| - 1]);
      Frame(s, v, frames[|frames| - 1])
  }

  // ---- the allocator over a run ---------------------------------------------------------

  /** If no frame has more than `max` contacts, no more than `max` fingers are ever live between frames. */
  lemma {:induction false} LiveWithinBound(s: Settings, max: nat, frames: seq<seq<Contact>>)
    requires 0 < max && forall k :: 0 <= k < |frames| ==> |frames[k]| <= max
    ensures |Run(s, max, frames).live| <= max
  {
    if frames != [] {
      var front := frames[..|frames| - 1];
      LiveWithinBound(s, max, front);
      Allocator.PoolNeverRunsDry(s, Run(s, max, front), frames[|frames| - 1], max);
    }
  }

  /** ... and each further such frame gives every contact that should start a finger its finger. */
  lemma NoTouchIsRejected(s: Settings, max: nat, frames: seq<seq<Contact>>, cs: seq<Contact>)
    requires 0 < max && |cs| <= max && forall k :: 0 <= k < |frames| ==> |frames[k]| <= max
    ensures var v := Run(s, max, frames);
            && Allocator.AddedFor(News(s, v, cs), cs, Allocator.Starters(s, Matches(v.live, cs), cs, |cs|), v.created)
            && Allocator.PeakUse(s, v, cs) <= 2 * max - 1
  {
    var v := Run(s, max, frames);
    var ks := Allocator.Starters(s, Matches(v.live, cs), cs, |cs|);
    LiveWithinBound(s, max, frames);
    Allocator.PoolNeverRunsDry(s, v, cs, max);
    Allocator.NoneRejected(s, v, Matches(v.live, cs), cs, |cs|);
    Allocator.EveryStarterIsAdded(s, v, Matches(v.live, cs), cs, |cs|);
    assert ks[0..] == ks;
  }

  // ---- the life of one touch ------------------------------------------------------------

  datatype Kind = Down | Move | Up

  function KindOf(b: Block): Kind {
    if b.down then Down else if b.up then Up else Move
  }

  /** What a list of blocks says about the finger called `id`. */
  function KindsFor(id: int, bs: seq<Block>): seq<Kind> {
    if bs == [] then [] else
      KindsFor(id, bs[..|bs| - 1]) + if bs[|bs| - 1].id == id then [KindOf(bs[|bs| - 1])] else []
  }

  ghost predicate At(fs: seq<FingerVal>, id: int, i: int) {
    0 <= i < |fs| && fs[i].id == id
  }

  ghost predicate Has(fs: seq<FingerVal>, id: int) {
    exists i :: At(fs, id, i)
  }

  ghost predicate DistinctIds(fs: seq<FingerVal>) {
    forall i, k :: 0 <= i < k < |fs| ==> fs[i].id != fs[k].id
  }

  /** Live fingers have distinct ids, all handed out before. */
  ghost predicate Named(v: TrackerVal) {
    DistinctIds(v.live) && forall i :: 0 <= i < |v.live| ==> 0 <= v.live[i].id < v.created
  }

  lemma {:induction false} NoBlockNoKind(fs: seq<FingerVal>, id: int)
    requires !Has(fs, id)
    ensures KindsFor(id, BlocksOf(fs)) == [] && !Has(Survivors(fs), id)
  {
    if fs != [] {
      var n := |fs| - 1;
      assert !At(fs, id, n);
      forall i ensures !At(fs[..n], id, i) {
        assert !At(fs, id, i);
      }
      NoBlockNoKind(fs[..n], id);
      assert BlocksOf(fs)[..n] == BlocksOf(fs[..n]);
      forall i ensures !At(Survivors(fs), id, i) {
        assert !At(Survivors(fs[..n]), id, i);
      }
    }
  }

  /** A finger in the list has one block, and survives unless that block releases it. */
  lemma {:induction false} OneBlockOneKind(fs: seq<FingerVal>, id: int, i: nat)
    requires DistinctIds(fs) && At(fs, id, i)
    ensures KindsFor(id, BlocksOf(fs)) == [KindOf(BlockOf(fs[i]))]
    ensures Has(Survivors(fs), id) <==> !Released(fs[i])
  {
    var n := |fs| - 1;
    var kept := Survivors(fs[..n]);
    assert BlocksOf(fs)[..n] == BlocksOf(fs[..n]);
    if i < n {
      OneBlockOneKind(fs[..n], id, i);
      forall k ensures At(Survivors(fs), id, k) <==> At(kept, id, k) {}
    } else {
      forall k ensures !At(fs[..n], id, k) {}
      NoBlockNoKind(fs[..n], id);
      forall k | 0 <= k < |kept| ensures kept[k].id != id {
        assert !At(kept, id, k);
      }
      if !Released(fs[n]) {
        assert At(Survivors(fs), id, |kept|);
      }
    }
  }

  lemma {:induction false} SurvivorsStayNamed(fs: seq<FingerVal>, bound: nat)
    requires DistinctIds(fs) && forall i :: 0 <= i < |fs| ==> 0 <= fs[i].id < bound
    ensures DistinctIds(Survivors(fs))
    ensures forall i :: 0 <= i < |Survivors(fs)| ==> 0 <= Survivors(fs)[i].id < bound
  {
    if fs != [] {
      var n := |fs| - 1;
      var kept := Survivors(fs[..n]);
      SurvivorsStayNamed(fs[..n], bound);
      forall k | 0 <= k < |kept| ensures kept[k].id != fs[n].id {
        forall i ensures !At(fs[..n], fs[n].id, i) {}
        NoBlockNoKind(fs[..n], fs[n].id);
        assert !At(kept, fs[n].id, k);
      }
    }
  }

  /** The ids of a frame's fingers: those added continue the numbering, the old ones are kept. */
  lemma ProcessedIds(s: Settings, v: TrackerVal, cs: seq<Contact>)
    requires Idle(v) && Named(v) && Frame(s, v, cs).created <= TWO_32
    ensures var p, n := Processed(s, v, cs), |News(s, v, cs)|;
            && |p| == n + |v.live|
            && (forall i :: 0 <= i < n ==> p[i].id == v.created + (n - 1 - i))
            && (forall i :: 0 <= i < n ==> p[i].state == Start && !Released(p[i]))
            && (forall i :: n <= i < |p| ==> p[i].id == v.live[i - n].id && p[i].state != Start)
            && DistinctIds(p)
            && (forall i :: 0 <= i < |p| ==> 0 <= p[i].id < Frame(s, v, cs).created)
  {
    hide News, Processed, Frame, Matches, Distance, Stored, IdOf, Resting;
    var p, n := Processed(s, v, cs), |News(s, v, cs)|;
    ProcessedParts(s, v, cs);
    FreshIds(News(s, v, cs), v.created);
    forall i | 0 <= i < n
      ensures p[i].id == v.created + (n - 1 - i) && p[i].state == Start && !Released(p[i])
    {
      assert p[..n][i] == p[i];
    }
    forall i | n <= i < |p|
      ensures p[i].id == v.live[i - n].id && p[i].state != Start
    {
      OldFingerFate(s, v, cs, i - n);
    }
  }

  lemma FreshIds(news: seq<FingerVal>, first: nat)
    requires FreshFingers(news, first) && first + |news| <= TWO_32
    ensures forall i :: 0 <= i < |news| ==> news[i].id == first + (|news| - 1 - i)
  {}

  /** One frame, seen by one finger: a live finger moves or is released, a new one goes down,
      and nobody else is mentioned. */
  lemma FrameOnTouch(s: Settings, v: TrackerVal, cs: seq<Contact>, id: int)
    requires Idle(v) && Named(v) && Frame(s, v, cs).created <= TWO_32
    ensures var kinds, v' := KindsFor(id, FrameBlocks(s, v, cs)), Frame(s, v, cs);
            && Named(v')
            && (Has(v.live, id) ==> kinds == if Has(v'.live, id) then [Move] else [Up])
            && (v.created <= id < v'.created ==> kinds == [Down] && Has(v'.live, id))
            && (!Has(v.live, id) && !(v.created <= id < v'.created) ==> kinds == [] && !Has(v'.live, id))
  {
    hide Processed, News, Frame, Survivors, BlocksOf, KindsFor, Resting;
    ProcessedIds(s, v, cs);
    ProcessedParts(s, v, cs);
    var p, n, v' := Processed(s, v, cs), |News(s, v, cs)|, Frame(s, v, cs);
    SurvivorsStayNamed(p, v'.created);
    if Has(v.live, id) {
      var i :| At(v.live, id, i);
      OneBlockOneKind(p, id, n + i);
    } else if v.created <= id < v'.created {
      OneBlockOneKind(p, id, n - 1 - (id - v.created));
    } else {
      forall i ensures !At(p, id, i) {
        assert i >= n ==> !At(v.live, id, i - n);
      }
      NoBlockNoKind(p, id);
    }
  }

  /** A touch whose contact is strictly the nearest to it, and it to that contact, goes on under its id. */
  lemma NearestContactContinuesTouch(s: Settings, v: TrackerVal, cs: seq<Contact>, j: nat, i: nat)
    requires Idle(v) && Named(v) && Frame(s, v, cs).created <= TWO_32
    requires j < |cs| && i < |v.live| && MutuallyNearest(Rows(v.live, cs), |v.live|, j, i)
    ensures var id := v.live[i].id;
            KindsFor(id, FrameBlocks(s, v, cs)) == [Move] && Has(Frame(s, v, cs).live, id)
  {
    hide Processed, News, Rows, Matches, Updated, Spawned;
    var p, k := Processed(s, v, cs), |News(s, v, cs)| + i;
    ProcessedIds(s, v, cs);
    NearestContactIsAbsorbed(s, v, cs, j, i);
    OneBlockOneKind(p, p[k].id, k);
  }

  /** Everything a run says about the finger called `id`. */
  ghost function Trace(s: Settings, max: nat, frames: seq<seq<Contact>>, id: int): seq<Kind> {
    if frames == [] then [] else
      var front := frames[..|frames| - 1];
      Trace(s, max, front, id) + KindsFor(id, FrameBlocks(s, Run(s, max, front), frames[|frames| - 1]))
  }

  /** Down, then any number of moves. */
  predicate Pressed(t: seq<Kind>) {
    |t| > 0 && t[0] == Down && forall i :: 0 < i < |t| ==> t[i] == Move
  }

  predicate Finished(t: seq<Kind>) {
    |t| > 1 && Pressed(t[..|t| - 1]) && t[|t| - 1] == Up
  }

  /** The grammar of a touch. With fewer than 2^32 touches, what a whole run says about an id is nothing
      before it is handed out, Down Move* while the finger is live, and Down Move* Up ever after. */
  lemma {:induction false} TouchGrammar(s: Settings, max: nat, frames: seq<seq<Contact>>, id: int)
    requires Run(s, max, frames).created <= TWO_32
    ensures var v, t := Run(s, max, frames), Trace(s, max, frames, id);
            && Named(v)
            && (id < 0 || id >= v.created <==> t == [])
            && (Has(v.live, id) <==> Pressed(t))
            && (0 <= id < v.created && !Has(v.live, id) <==> Finished(t))
  {
    if frames != [] {
      var front := frames[..|frames| - 1];
      TouchGrammar(s, max, front, id);
      FrameOnTouch(s, Run(s, max, front), frames[|frames| - 1], id);
      StepGrammar(Trace(s, max, front, id), KindsFor(id, FrameBlocks(s, Run(s, max, front), frames[|frames| - 1])));
    }
  }

  lemma StepGrammar(t: seq<Kind>, kinds: seq<Kind>)
    ensures t == [] && kinds == [Down] ==> Pressed(t + kinds)
    ensures Pressed(t) && kinds == [Move] ==> Pressed(t + kinds)
    ensures Pressed(t) && kinds == [Up] ==> Finished(t + kinds)
    ensures !(Pressed(t) && Finished(t)) && (t == [] ==> !Pressed(t) && !Finished(t))
    ensures kinds == [] ==> t + kinds == t
  {
    assert (t + kinds)[..|t|] == t;
  }

  // ---- ranges over a run ----------------------------------------------------------------

  ghost predicate ContactsWithin(cs: seq<Contact>, lo: Point, hi: Point) {
    forall j :: 0 <= j < |cs| ==> Within(Point(cs[j].x, cs[j].y), lo, hi)
  }

  ghost predicate TrackWithin(f: FingerVal, lo: Point, hi: Point) {
    forall k :: 0 <= k < |f.samples| ==> Within(f.samples[k], lo, hi)
  }

  ghost predicate AllWithin(fs: seq<FingerVal>, lo: Point, hi: Point) {
    forall i :: 0 <= i < |fs| ==> TrackWithin(fs[i], lo, hi)
  }

  lemma {:induction false} SurvivorsStayWithin(fs: seq<FingerVal>, lo: Point, hi: Point)
    requires AllWithin(fs, lo, hi)
    ensures AllWithin(Survivors(fs), lo, hi)
  {
    if fs != [] {
      SurvivorsStayWithin(fs[..|fs| - 1], lo, hi);
    }
  }

  lemma {:induction false} SpawnedWithin(s: Settings, v: TrackerVal, marks: seq<Mark>, cs: seq<Contact>, j: nat,
                                         lo: Point, hi: Point)
    requires j <= |cs| && ContactsWithin(cs, lo, hi)
    ensures AllWithin(Spawned(s, v, marks, cs, j), lo, hi)
  {
    if j > 0 {
      SpawnedWithin(s, v, marks, cs, j - 1, lo, hi);
    }
  }

  lemma FrameKeepsRange(s: Settings, v: TrackerVal, cs: seq<Contact>, lo: Point, hi: Point)
    requires Idle(v) && AllWithin(v.live, lo, hi) && ContactsWithin(cs, lo, hi)
    ensures AllWithin(Processed(s, v, cs), lo, hi)
  {
    hide Processed, Frame, Matches, Spawned, Distance, Half, Released, FreshFingers, Survivors;
    var p, n := Processed(s, v, cs), |News(s, v, cs)|;
    ProcessedParts(s, v, cs);
    SpawnedWithin(s, v, Matches(v.live, cs), cs, |cs|, lo, hi);
    forall i | 0 <= i < |p| ensures TrackWithin(p[i], lo, hi) {
      if i < n {
        assert p[..n][i] == p[i];
      } else {
        OldFingerFate(s, v, cs, i - n);
        var before := v.live[i - n];
        assert TrackWithin(before, lo, hi);
        assert Within(before.samples[|before.samples| - 1], lo, hi);
      }
    }
  }

  /** A rectangle that encloses every contact of a run encloses every position ever stored. */
  lemma {:induction false} RunKeepsRange(s: Settings, max: nat, frames: seq<seq<Contact>>, lo: Point, hi: Point)
    requires forall k :: 0 <= k < |frames| ==> ContactsWithin(frames[k], lo, hi)
    ensures AllWithin(Run(s, max, frames).live, lo, hi)
  {
    if frames != [] {
      var front := frames[..|frames| - 1];
      RunKeepsRange(s, max, front, lo, hi);
      FrameKeepsRange(s, Run(s, max, front), frames[|frames| - 1], lo, hi);
      SurvivorsStayWithin(Processed(s, Run(s, max, front), frames[|frames| - 1]), lo, hi);
    }
  }

  /** With every contact of a run in [0, 32767], the matching always sees true squared distances. */
  lemma RunMeasuresTruly(s: Settings, max: nat, frames: seq<seq<Contact>>, cs: seq<Contact>, j: nat, i: nat)
    requires forall k :: 0 <= k < |frames| ==> ContactsWithin(frames[k], Point(0, 0), Point(32767, 32767))
    requires ContactsWithin(cs, Point(0, 0), Point(32767, 32767))
    requires j < |cs| && i < |Run(s, max, frames).live|
    ensures var live := Run(s, max, frames).live;
            var dx, dy := cs[j].x - live[i].Position().x, cs[j].y - live[i].Position().y;
            0 <= Rows(live, cs)[j][i] == dx * dx + dy * dy < INT_MAX
  {
    RunKeepsRange(s, max, frames, Point(0, 0), Point(32767, 32767));
    var f := Run(s, max, frames).live[i];
    assert TrackWithin(f, Point(0, 0), Point(32767, 32767));
    DistanceIsExactUpTo32767(32767);
    assert InRange(cs[j].x, 32767) && InRange(cs[j].y, 32767);
    assert InRange(f.Position().x, 32767) && InRange(f.Position().y, 32767);
    SquareBound(cs[j].x - f.Position().x, 32767);
    SquareBound(cs[j].y - f.Position().y, 32767);
  }

  // ---- the size of the output -----------------------------------------------------------

  lemma {:induction false} UpsAreReleases(fs: seq<FingerVal>)
    ensures Ups(BlocksOf(fs)) == |fs| - |Survivors(fs)|
  {
    if fs != [] {
      UpsAreReleases(fs[..|fs| - 1]);
      assert BlocksOf(fs)[..|fs| - 1] == BlocksOf(fs[..|fs| - 1]);
    }
  }

  lemma {:induction false} DownsAreStarts(fs: seq<FingerVal>, n: nat)
    requires n <= |fs| && forall i :: 0 <= i < |fs| ==> (fs[i].state == Start <==> i < n)
    ensures Downs(BlocksOf(fs)) == n
  {
    if fs != [] {
      var front := fs[..|fs| - 1];
      assert BlocksOf(fs)[..|front|] == BlocksOf(front);
      DownsAreStarts(front, if n == |fs| then n - 1 else n);
    }
  }

  /** The exact number of events a frame emits into a list that holds `n`. */
  lemma OutputSize(s: Settings, v: TrackerVal, cs: seq<Contact>, n: nat)
    requires Idle(v)
    ensures var processed, added := |Processed(s, v, cs)|, |News(s, v, cs)|;
            var released := processed - |Frame(s, v, cs).live|;
            && |FrameEvents(s, v, cs, n)| == 3 * processed + added + released + (if n + processed > 0 then 1 else 0)
            && added + released <= processed
  {
    hide Processed, News, EncodeAll, BlocksOf, Downs, Ups, Survivors, Idle;
    var p := Processed(s, v, cs);
    StartsComeFirst(s, v, cs);
    BatchSize(BlocksOf(p));
    UpsAreReleases(p);
    DownsAreStarts(p, |News(s, v, cs)|);
    BlocksAreSingle(s, v, cs);
    CountsExclude(BlocksOf(p));
  }

  lemma StartsComeFirst(s: Settings, v: TrackerVal, cs: seq<Contact>)
    requires Idle(v)
    ensures var p, n := Processed(s, v, cs), |News(s, v, cs)|;
            n <= |p| && forall i :: 0 <= i < |p| ==> (p[i].state == Start <==> i < n)
  {
    hide News, Processed, Frame, Matches, Distance, Stored, IdOf, Resting;
    var p, n := Processed(s, v, cs), |News(s, v, cs)|;
    ProcessedParts(s, v, cs);
    forall i | 0 <= i < |p| ensures p[i].state == Start <==> i < n {
      if i < n {
        assert p[..n][i] == p[i];
      } else {
        OldFingerFate(s, v, cs, i - n);
      }
    }
  }

  /** With at most `max` contacts a frame, no frame of a run emits more than 8 * max - 3 events; for up to
      twelve fingers that is below the hundred the source allows for. */
  lemma OutputFits(s: Settings, max: nat, frames: seq<seq<Contact>>, cs: seq<Contact>)
    requires 0 < max && |cs| <= max && forall k :: 0 <= k < |frames| ==> |frames[k]| <= max
    ensures var n := |FrameEvents(s, Run(s, max, frames), cs, 0)|;
            n <= 8 * max - 3 && (max <= 12 ==> n < 100)
  {
    hide FrameEvents, Processed, News, Frame;
    NoTouchIsRejected(s, max, frames, cs);
    OutputSize(s, Run(s, max, frames), cs, 0);
  }
}
