/** Which contacts each live finger has had, over any sequence of frames, and what they make of it. */
module TrackerHistory {
  import opened Machine
  import opened CoordBuffer
  import opened Matching
  import opened TrackerSpec
  import opened TrackerRuns

  /** The contacts one finger was added for and matched with, oldest first. */
  type History = seq<Contact>

  /** The points of a history that are stored: the first, and each whose weight exceeds half the weight before it. */
  function StoredPoints(h: History): seq<Point> {
    if h == [] then [] else
      var n := |h| - 1;
      StoredPoints(h[..n])
      + if n == 0 || Half(h[n - 1].weight) < h[n].weight then [Point(h[n].x, h[n].y)] else []
  }

  /** The histories of the fingers added for the first `j` contacts, newest first: each begins with its contact. */
  ghost function SpawnedHistories(s: Settings, marks: seq<Mark>, cs: seq<Contact>, pool: nat, j: nat): (hs: seq<History>)
    requires j <= |cs|
    ensures |hs| <= pool
  {
    if j == 0 then [] else
      var hs := SpawnedHistories(s, marks, cs, pool, j - 1);
      if Starts(s, marks, cs, j - 1) && |hs| < pool then [[cs[j - 1]]] + hs else hs
  }

  /** A history continued by the contact a finger is matched with, if any. */
  function Continued(h: History, m: Mark, cs: seq<Contact>): History {
    if m.Matched() && 0 <= m.id < |cs| then h + [cs[m.id]] else h
  }

  /** The histories of the fingers a frame processes: the added ones, then the old ones. */
  ghost function ProcessedHistories(s: Settings, v: TrackerVal, cs: seq<Contact>, hs: seq<History>): seq<History>
    requires |hs| == |v.live|
  {
    var marks := Matches(v.live, cs);
    SpawnedHistories(s, marks, cs, v.pool, |cs|)
    + seq(|hs|, i requires 0 <= i < |hs| => Continued(hs[i], marks[i], cs))
  }

  /** The histories of the fingers that are not released. */
  function KeptHistories(fs: seq<FingerVal>, hs: seq<History>): (kept: seq<History>)
    requires |hs| == |fs|
    ensures |kept| == |Survivors(fs)|
  {
    if fs == [] then [] else
      var n := |fs| - 1;
      KeptHistories(fs[..n], hs[..n]) + if Released(fs[n]) then [] else [hs[n]]
  }

  /** A finger's samples are what the position filter makes of the stored points, and its weight is the last one. */
  ghost predicate Recorded(filter: bool, f: FingerVal, h: History) {
    h != [] && f.samples == Replay(filter, StoredPoints(h)) && f.lastWeight == h[|h| - 1].weight
  }

  ghost predicate AllRecorded(filter: bool, fs: seq<FingerVal>, hs: seq<History>) {
    |hs| == |fs| && forall i :: 0 <= i < |fs| ==> Recorded(filter, fs[i], hs[i])
  }

  lemma StoredMore(h: History, c: Contact)
    requires h != []
    ensures StoredPoints(h + [c])
         == StoredPoints(h) + if Half(h[|h| - 1].weight) < c.weight then [Point(c.x, c.y)] else []
  {
    hide Half;
    var more := h + [c];
    assert more[..|h|] == h && more[|h| - 1] == h[|h| - 1] && more[|h|] == c;
  }

  lemma StoredFirst(filter: bool, c: Contact)
    ensures StoredPoints([c]) == [Point(c.x, c.y)] == Replay(filter, [Point(c.x, c.y)])
  {
    assert [c][..0] == [];
  }

  lemma ReplayMore(filter: bool, raws: seq<Point>, raw: Point)
    ensures Replay(filter, raws + [raw]) == Replay(filter, raws) + [Stored(filter, Replay(filter, raws), raw)]
    ensures raws + [] == raws
  {
    assert (raws + [raw])[..|raws|] == raws;
  }

  lemma {:induction false} SpawnedRecorded(s: Settings, v: TrackerVal, marks: seq<Mark>, cs: seq<Contact>, j: nat)
    requires j <= |cs|
    ensures AllRecorded(s.positionFilter, Spawned(s, v, marks, cs, j), SpawnedHistories(s, marks, cs, v.pool, j))
  {
    hide Replay, StoredPoints;
    if j > 0 {
      SpawnedRecorded(s, v, marks, cs, j - 1);
      StoredFirst(s.positionFilter, cs[j - 1]);
    }
  }

  /** What the update does with a matched contact continues the record. */
  lemma ContinuedRecorded(filter: bool, before: FingerVal, after: FingerVal, c: Contact, h: History)
    requires Recorded(filter, before, h)
    requires after.lastWeight == c.weight
    requires after.samples == (if Half(before.lastWeight) < c.weight
                               then before.samples + [Stored(filter, before.samples, Point(c.x, c.y))]
                               else before.samples)
    ensures Recorded(filter, after, h + [c])
  {
    hide Replay, Stored, StoredPoints, Half;
    StoredMore(h, c);
    ReplayMore(filter, StoredPoints(h), Point(c.x, c.y));
  }

  lemma ProcessedCounts(s: Settings, v: TrackerVal, cs: seq<Contact>, hs: seq<History>)
    requires Idle(v) && |hs| == |v.live|
    ensures |ProcessedHistories(s, v, cs, hs)| == |Processed(s, v, cs)| == |News(s, v, cs)| + |hs|
    ensures AllRecorded(s.positionFilter, News(s, v, cs), ProcessedHistories(s, v, cs, hs)[..|News(s, v, cs)|])
    ensures Processed(s, v, cs)[..|News(s, v, cs)|] == News(s, v, cs)
    ensures forall i :: 0 <= i < |hs| ==> ProcessedHistories(s, v, cs, hs)[|News(s, v, cs)| + i]
                                          == Continued(hs[i], Matches(v.live, cs)[i], cs)
  {
    hide Processed, Frame, Matches, Spawned, SpawnedHistories, Recorded, Continued, FreshFingers;
    ProcessedParts(s, v, cs);
    SpawnedRecorded(s, v, Matches(v.live, cs), cs, |cs|);
    assert ProcessedHistories(s, v, cs, hs)[..|News(s, v, cs)|]
        == SpawnedHistories(s, Matches(v.live, cs), cs, v.pool, |cs|);
  }

  lemma OldRecorded(s: Settings, v: TrackerVal, cs: seq<Contact>, i: nat, h: History)
    requires Idle(v) && i < |v.live| && Recorded(s.positionFilter, v.live[i], h)
    requires !Released(Processed(s, v, cs)[|News(s, v, cs)| + i])
    ensures Recorded(s.positionFilter, Processed(s, v, cs)[|News(s, v, cs)| + i], Continued(h, Matches(v.live, cs)[i], cs))
  {
    hide Matches, News, Processed, Distance, Stored, Half, Recorded, Released, Frame, FreshFingers;
    ProcessedParts(s, v, cs);
    OldFingerFate(s, v, cs, i);
    var m := Matches(v.live, cs)[i];
    ContinuedRecorded(s.positionFilter, v.live[i], Processed(s, v, cs)[|News(s, v, cs)| + i], cs[m.id], h);
  }

  /** The histories kept are recorded by the fingers kept, if those of all fingers that stay are. */
  lemma {:induction false} SurvivorsRecorded(filter: bool, fs: seq<FingerVal>, hs: seq<History>)
    requires |hs| == |fs| && forall i :: 0 <= i < |fs| && !Released(fs[i]) ==> Recorded(filter, fs[i], hs[i])
    ensures AllRecorded(filter, Survivors(fs), KeptHistories(fs, hs))
  {
    hide Released, Replay, StoredPoints;
    if fs != [] {
      SurvivorsRecorded(filter, fs[..|fs| - 1], hs[..|fs| - 1]);
    }
  }

  lemma FrameRecorded(s: Settings, v: TrackerVal, cs: seq<Contact>, hs: seq<History>)
    requires Idle(v) && AllRecorded(s.positionFilter, v.live, hs)
    ensures |ProcessedHistories(s, v, cs, hs)| == |Processed(s, v, cs)|
    ensures AllRecorded(s.positionFilter, Survivors(Processed(s, v, cs)),
                        KeptHistories(Processed(s, v, cs), ProcessedHistories(s, v, cs, hs)))
  {
    hide Matches, News, Processed, ProcessedHistories, Continued, Recorded, Released;
    var p, q, n := Processed(s, v, cs), ProcessedHistories(s, v, cs, hs), |News(s, v, cs)|;
    ProcessedCounts(s, v, cs, hs);
    forall i | 0 <= i < |p| && !Released(p[i]) ensures Recorded(s.positionFilter, p[i], q[i]) {
      if i < n {
        assert p[..n][i] == p[i] && q[..n][i] == q[i];
      } else {
        OldRecorded(s, v, cs, i - n, hs[i - n]);
        assert q[n + (i - n)] == q[i];
      }
    }
    SurvivorsRecorded(s.positionFilter, p, q);
  }

  /** The contacts each live finger has had after a run, in list order. */
  ghost function Histories(s: Settings, max: nat, frames: seq<seq<Contact>>): (hs: seq<History>)
    ensures |hs| == |Run(s, max, frames).live|
  {
    if frames == [] then [] else
      var front, cs := frames[..|frames| - 1], frames[|frames| - 1];
      var v := Run(s, max, front);
      ProcessedCounts(s, v, cs, Histories(s, max, front));
      KeptHistories(Processed(s, v, cs), ProcessedHistories(s, v, cs, Histories(s, max, front)))
  }

  /** Over any run, the samples of every live finger are the filter's replay of the contacts it stored, and its
      weight is that of the last contact it was added for or matched with. */
  lemma {:induction false} SamplesAreReplayed(s: Settings, max: nat, frames: seq<seq<Contact>>)
    ensures AllRecorded(s.positionFilter, Run(s, max, frames).live, Histories(s, max, frames))
  {
    hide Processed, ProcessedHistories, Recorded;
    if frames != [] {
      var front, cs := frames[..|frames| - 1], frames[|frames| - 1];
      SamplesAreReplayed(s, max, front);
      FrameRecorded(s, Run(s, max, front), cs, Histories(s, max, front));
    }
  }

  /** So the position of a live finger is within one unit of the last contact it stored, and is that contact
      when the filter is off. */
  lemma PositionFollowsContact(s: Settings, max: nat, frames: seq<seq<Contact>>, i: nat)
    requires i < |Run(s, max, frames).live|
    ensures var points := StoredPoints(Histories(s, max, frames)[i]);
            var position := Run(s, max, frames).live[i].Position();
            points != [] && Close(position, points[|points| - 1])
            && (!s.positionFilter ==> position == points[|points| - 1])
  {
    SamplesAreReplayed(s, max, frames);
    var h := Histories(s, max, frames)[i];
    assert Resting(Run(s, max, frames).live[i]) && Recorded(s.positionFilter, Run(s, max, frames).live[i], h);
    FilterFollowsInput(s.positionFilter, StoredPoints(h), |StoredPoints(h)| - 1);
  }
}
