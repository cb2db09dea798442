/** What one frame of contacts does to the tracked fingers, stated on values. */
module TrackerSpec {
  import opened Machine
  import opened CoordBuffer
  import opened Matching
  import opened Events

  datatype GestureState = Unused | Start | FingerDown

  datatype Settings = Settings(coordBufSize: int, fingerDownThreshold: int, positionFilter: bool)

  datatype Contact = Contact(x: int, y: int, weight: int)

  datatype FingerVal = FingerVal(id: int, state: GestureState, minDist: int, minDistId: int,
                                 lastWeight: int, samples: seq<Point>) {
    /** The newest sample; a finger that is down always has one. */
    function Position(): Point {
      if samples == [] then Point(0, 0) else samples[|samples| - 1]
    }
  }

  /** The list of live fingers, the number of available buffers, and how many fingers were ever added. */
  datatype TrackerVal = TrackerVal(live: seq<FingerVal>, pool: nat, created: nat)

  /** A finger between frames. */
  predicate Resting(f: FingerVal) {
    f.minDist == INT_MAX && f.state == FingerDown && f.samples != []
  }

  ghost predicate Idle(v: TrackerVal) {
    forall i :: 0 <= i < |v.live| ==> Resting(v.live[i])
  }

  // ---- matching -------------------------------------------------------------------------

  function RowOf(fs: seq<FingerVal>, c: Contact): (row: seq<int>)
    ensures Row(row, |fs|)
  {
    seq(|fs|, i requires 0 <= i < |fs| => Distance(c.x, c.y, fs[i].Position().x, fs[i].Position().y))
  }

  function Rows(fs: seq<FingerVal>, cs: seq<Contact>): (rows: seq<seq<int>>)
    ensures |rows| == |cs| && Table(rows, |fs|)
  {
    seq(|cs|, j requires 0 <= j < |cs| => RowOf(fs, cs[j]))
  }

  function MarksOf(fs: seq<FingerVal>): (marks: seq<Mark>)
    ensures |marks| == |fs|
  {
    seq(|fs|, i requires 0 <= i < |fs| => Mark(fs[i].minDist, fs[i].minDistId))
  }

  function Matches(fs: seq<FingerVal>, cs: seq<Contact>): (marks: seq<Mark>)
    ensures |marks| == |fs|
  {
    Match(Rows(fs, cs), MarksOf(fs))
  }

  ghost predicate Fit(marks: seq<Mark>, contacts: nat) {
    && (forall i :: 0 <= i < |marks| && marks[i].Matched() ==> 0 <= marks[i].id < contacts)
    && (forall i, k :: 0 <= i < k < |marks| && marks[i].Matched() && marks[k].Matched() ==>
          marks[i].id != marks[k].id)
  }

  lemma MatchesFit(v: TrackerVal, cs: seq<Contact>)
    requires Idle(v)
    ensures Fit(Matches(v.live, cs), |cs|)
  {
    MatchIsInjective(Rows(v.live, cs), MarksOf(v.live), |cs|);
  }

  /** The fingers once the matching has left its marks on them. */
  function WithMarks(fs: seq<FingerVal>, marks: seq<Mark>): (ms: seq<FingerVal>)
    requires |marks| == |fs|
    ensures |ms| == |fs|
  {
    seq(|fs|, i requires 0 <= i < |fs| => fs[i].(minDist := marks[i].dist, minDistId := marks[i].id))
  }

  lemma RowAt(fs: seq<FingerVal>, c: Contact, i: nat)
    requires i < |fs|
    ensures RowOf(fs, c)[i] == Distance(c.x, c.y, fs[i].Position().x, fs[i].Position().y)
  {
    hide Distance;
  }

  /** Offers contact number `j` to fingers that already carry marks. */
  function OfferTo(ms: seq<FingerVal>, c: Contact, j: nat): (offered: seq<FingerVal>)
    ensures |offered| == |ms|
  {
    var row := RowOf(ms, c);
    var i := Choose(row, MarksOf(ms), |ms|);
    if i < 0 then ms else ms[i := ms[i].(minDist := row[i], minDistId := j)]
  }

  function OfferUpTo(fs: seq<FingerVal>, cs: seq<Contact>, j: nat): (offered: seq<FingerVal>)
    requires j <= |cs|
    ensures |offered| == |fs|
  {
    if j == 0 then fs else OfferTo(OfferUpTo(fs, cs, j - 1), cs[j - 1], j - 1)
  }

  lemma MarksLeaveRow(fs: seq<FingerVal>, marks: seq<Mark>, c: Contact)
    requires |marks| == |fs|
    ensures RowOf(WithMarks(fs, marks), c) == RowOf(fs, c) && MarksOf(WithMarks(fs, marks)) == marks
  {
    forall i | 0 <= i < |fs| ensures RowOf(WithMarks(fs, marks), c)[i] == RowOf(fs, c)[i] {
      RowAt(fs, c, i);
      RowAt(WithMarks(fs, marks), c, i);
      assert WithMarks(fs, marks)[i].Position() == fs[i].Position();
    }
  }

  lemma OfferLeavesMark(fs: seq<FingerVal>, marks: seq<Mark>, c: Contact, j: nat)
    requires |marks| == |fs|
    ensures var i := Choose(RowOf(fs, c), marks, |fs|);
            OfferTo(WithMarks(fs, marks), c, j)
            == WithMarks(fs, if i < 0 then marks else marks[i := Mark(RowOf(fs, c)[i], j)])
  {
    hide RowOf, Choose;
    MarksLeaveRow(fs, marks, c);
  }

  lemma MarksOfSelf(fs: seq<FingerVal>)
    ensures WithMarks(fs, MarksOf(fs)) == fs
  {}

  lemma MatchOneMore(fs: seq<FingerVal>, cs: seq<Contact>, j: nat)
    requires j < |cs|
    ensures var before := MatchUpTo(Rows(fs, cs), MarksOf(fs), j);
            var row := RowOf(fs, cs[j]);
            var i := Choose(row, before, |fs|);
            MatchUpTo(Rows(fs, cs), MarksOf(fs), j + 1) == if i < 0 then before else before[i := Mark(row[i], j)]
  {
    hide RowOf, Choose;
  }

  /** The marks the offers leave are those of the matching. */
  lemma {:induction false} OffersLeaveMarks(fs: seq<FingerVal>, cs: seq<Contact>, j: nat)
    requires j <= |cs|
    ensures OfferUpTo(fs, cs, j) == WithMarks(fs, MatchUpTo(Rows(fs, cs), MarksOf(fs), j))
  {
    hide RowOf, OfferTo, WithMarks, Choose;
    if j == 0 {
      MarksOfSelf(fs);
    } else {
      OffersLeaveMarks(fs, cs, j - 1);
      OfferLeavesMark(fs, MatchUpTo(Rows(fs, cs), MarksOf(fs), j - 1), cs[j - 1], j - 1);
      MatchOneMore(fs, cs, j - 1);
    }
  }

  ghost predicate Taken(marks: seq<Mark>, j: int) {
    exists i :: 0 <= i < |marks| && marks[i].Matched() && marks[i].id == j
  }

  lemma TakenByPrefix(marks: seq<Mark>, k: nat, j: int)
    requires k < |marks|
    ensures Taken(marks[..k + 1], j) <==> Taken(marks[..k], j) || (marks[k].Matched() && marks[k].id == j)
  {
    var more, fewer := marks[..k + 1], marks[..k];
    if Taken(more, j) {
      var i :| 0 <= i < |more| && more[i].Matched() && more[i].id == j;
      assert i < k ==> fewer[i] == more[i];
    }
    if Taken(fewer, j) {
      var i :| 0 <= i < |fewer| && fewer[i].Matched() && fewer[i].id == j;
      assert more[i] == fewer[i];
    }
    assert more[k] == marks[k];
  }

  /** In every frame: no finger is nearer to another finger's contact than that finger is, unless it has
      a contact of its own that is nearer still. */
  lemma FrameIsStable(v: TrackerVal, cs: seq<Contact>, g: nat, f: nat)
    requires Idle(v) && g < |v.live| && f < |v.live| && Matches(v.live, cs)[g].Matched()
    ensures var marks := Matches(v.live, cs);
            var j := marks[g].id;
            && 0 <= j < |cs|
            && var mine := Distance(cs[j].x, cs[j].y, v.live[g].Position().x, v.live[g].Position().y);
            && var theirs := Distance(cs[j].x, cs[j].y, v.live[f].Position().x, v.live[f].Position().y);
            theirs < mine ==> marks[f].Matched() && marks[f].dist < theirs
  {
    hide Distance;
    NoBlockingPair(Rows(v.live, cs), MarksOf(v.live), g, f);
    MatchIsInjective(Rows(v.live, cs), MarksOf(v.live), |cs|);
    var j := Matches(v.live, cs)[g].id;
    RowAt(v.live, cs[j], g);
    RowAt(v.live, cs[j], f);
  }

  // ---- moving matched fingers -----------------------------------------------------------

  function Absorb(s: Settings, f: FingerVal, c: Contact): FingerVal {
    f.(minDist := 0, minDistId := 0, lastWeight := c.weight,
       samples := if Half(f.lastWeight) < c.weight
                  then Record(s.positionFilter, f.samples, Point(c.x, c.y)) else f.samples)
  }

  /** Each finger after the update: it absorbs the contact it was matched with, if any. */
  ghost function Updated(s: Settings, fs: seq<FingerVal>, marks: seq<Mark>, cs: seq<Contact>): (us: seq<FingerVal>)
    requires |marks| == |fs| && Fit(marks, |cs|)
    ensures |us| == |fs|
  {
    seq(|fs|, i requires 0 <= i < |fs| =>
      if marks[i].Matched() then Absorb(s, fs[i], cs[marks[i].id])
      else fs[i].(minDist := marks[i].dist, minDistId := marks[i].id))
  }

  lemma UpdatedFromMarks(s: Settings, fs: seq<FingerVal>, marks: seq<Mark>, cs: seq<Contact>)
    requires |marks| == |fs| && Fit(marks, |cs|)
    ensures MarksOf(WithMarks(fs, marks)) == marks
    ensures Updated(s, WithMarks(fs, marks), marks, cs) == Updated(s, fs, marks, cs)
  {}

  /** The contacts as left by the first `k` fingers: those they took are blanked at the origin. */
  ghost function Left(cs: seq<Contact>, marks: seq<Mark>, k: nat): (left: seq<Contact>)
    requires k <= |marks|
    ensures |left| == |cs|
  {
    seq(|cs|, j requires 0 <= j < |cs| => if Taken(marks[..k], j) then cs[j].(x := 0, y := 0) else cs[j])
  }

  /** The fingers once the first `k` of them have been updated. */
  ghost function Moved(s: Settings, fs: seq<FingerVal>, cs: seq<Contact>, k: nat): (ms: seq<FingerVal>)
    requires Fit(MarksOf(fs), |cs|) && k <= |fs|
    ensures |ms| == |fs|
  {
    Updated(s, fs, MarksOf(fs), cs)[..k] + fs[k..]
  }

  /** The next finger finds its own contact untouched, because no other finger took it. */
  lemma MoveOneMore(s: Settings, fs: seq<FingerVal>, cs: seq<Contact>, k: nat)
    requires Fit(MarksOf(fs), |cs|) && k < |fs|
    ensures var marks, f := MarksOf(fs), Moved(s, fs, cs, k)[k];
            && f == fs[k]
            && (f.minDist == INT_MAX ==>
                  Left(cs, marks, k + 1) == Left(cs, marks, k) && Moved(s, fs, cs, k + 1) == Moved(s, fs, cs, k))
            && (f.minDist != INT_MAX ==>
                  && 0 <= f.minDistId < |cs|
                  && Left(cs, marks, k)[f.minDistId] == cs[f.minDistId]
                  && Left(cs, marks, k + 1) == Left(cs, marks, k)[f.minDistId := cs[f.minDistId].(x := 0, y := 0)]
                  && Moved(s, fs, cs, k + 1) == Moved(s, fs, cs, k)[k := Absorb(s, f, cs[f.minDistId])])
  {
    hide Absorb, Taken;
    var marks := MarksOf(fs);
    forall j {
      TakenByPrefix(marks, k, j);
    }
    if marks[k].Matched() {
      NotYetTaken(marks, |cs|, k);
    }
  }

  lemma NotYetTaken(marks: seq<Mark>, n: nat, k: nat)
    requires Fit(marks, n) && k < |marks| && marks[k].Matched()
    ensures !Taken(marks[..k], marks[k].id)
  {}

  lemma NothingMoved(s: Settings, fs: seq<FingerVal>, cs: seq<Contact>)
    requires Fit(MarksOf(fs), |cs|)
    ensures Moved(s, fs, cs, 0) == fs && Left(cs, MarksOf(fs), 0) == cs
  {}

  lemma AllMoved(s: Settings, fs: seq<FingerVal>, cs: seq<Contact>)
    requires Fit(MarksOf(fs), |cs|)
    ensures Moved(s, fs, cs, |fs|) == Updated(s, fs, MarksOf(fs), cs)
  {}

  // ---- adding fingers -------------------------------------------------------------------

  /** A contact that puts a new finger down: taken by no finger, not at the origin, heavy enough. */
  ghost predicate Starts(s: Settings, marks: seq<Mark>, cs: seq<Contact>, j: nat)
    requires j < |cs|
  {
    && !Taken(marks, j)
    && !(cs[j].x == 0 && cs[j].y == 0)
    && cs[j].weight >= s.fingerDownThreshold
  }

  /** The id of the finger with this serial number: a wrapping unsigned 32-bit counter. */
  function IdOf(serial: int): int { serial % TWO_32 }

  /** Incrementing an unsigned 32-bit counter. */
  function NextId(id: int): int { (id + 1) % TWO_32 }

  lemma NextIdOf(serial: nat)
    ensures IdOf(serial + 1) == NextId(IdOf(serial))
  {}

  function NewFinger(serial: nat, c: Contact): FingerVal {
    FingerVal(IdOf(serial), Start, 0, 0, c.weight, [Point(c.x, c.y)])
  }

  /** One more finger for a contact, if a buffer is available. */
  ghost function WithNewFinger(v: TrackerVal, c: Contact): TrackerVal {
    if v.pool == 0 then v else TrackerVal([NewFinger(v.created, c)] + v.live, v.pool - 1, v.created + 1)
  }

  /** The fingers added for the first `j` contacts, newest first, while buffers are available. */
  ghost function Spawned(s: Settings, v: TrackerVal, marks: seq<Mark>, cs: seq<Contact>, j: nat): (news: seq<FingerVal>)
    requires j <= |cs|
    ensures |news| <= j && |news| <= v.pool
  {
    if j == 0 then [] else
      var news := Spawned(s, v, marks, cs, j - 1);
      if Starts(s, marks, cs, j - 1) && |news| < v.pool
      then [NewFinger(v.created + |news|, cs[j - 1])] + news
      else news
  }

  /** The tracker with these fingers added. */
  ghost function Joined(v: TrackerVal, news: seq<FingerVal>): TrackerVal
    requires |news| <= v.pool
  {
    TrackerVal(news + v.live, v.pool - |news|, v.created + |news|)
  }

  lemma NoneSpawned(s: Settings, v: TrackerVal, marks: seq<Mark>, cs: seq<Contact>)
    ensures Joined(v, Spawned(s, v, marks, cs, 0)) == v
  {}

  /** Looking at the blanked arrays decides as `Starts` does. */
  lemma SpawnOneMore(s: Settings, v: TrackerVal, marks: seq<Mark>, cs: seq<Contact>, j: nat)
    requires j < |cs|
    ensures var c := Left(cs, marks, |marks|)[j];
            var before, after := Joined(v, Spawned(s, v, marks, cs, j)), Joined(v, Spawned(s, v, marks, cs, j + 1));
            after == if (c.x == 0 && c.y == 0) || c.weight < s.fingerDownThreshold then before else WithNewFinger(before, c)
  {
    hide NewFinger, Taken;
    assert marks[..|marks|] == marks;
  }

  // ---- reporting and releasing ----------------------------------------------------------

  function Released(f: FingerVal): bool { f.minDist > 0 }

  function Settled(f: FingerVal): FingerVal {
    f.(minDist := INT_MAX, state := if f.state == Start then FingerDown else f.state)
  }

  function Survivors(fs: seq<FingerVal>): (kept: seq<FingerVal>)
    ensures |kept| <= |fs|
  {
    if fs == [] then [] else
      var kept := Survivors(fs[..|fs| - 1]);
      if Released(fs[|fs| - 1]) then kept else kept + [Settled(fs[|fs| - 1])]
  }

  function BlockOf(f: FingerVal): Block {
    Block(f.id, f.state == Start, f.Position().x, f.Position().y, Released(f))
  }

  function BlocksOf(fs: seq<FingerVal>): (bs: seq<Block>)
    ensures |bs| == |fs|
  {
    seq(|fs|, i requires 0 <= i < |fs| => BlockOf(fs[i]))
  }

  /** The list once the finger at position `i` has been reported. */
  function AfterReport(fs: seq<FingerVal>, i: nat): seq<FingerVal>
    requires i < |fs|
  {
    if Released(fs[i]) then fs[..i] + fs[i + 1..] else fs[i := Settled(fs[i])]
  }

  /** The list when the walk has passed its first `k` fingers. */
  function Swept(ps: seq<FingerVal>, k: nat): (swept: seq<FingerVal>)
    requires k <= |ps|
    ensures |swept| == |Survivors(ps[..k])| + |ps| - k
  {
    Survivors(ps[..k]) + ps[k..]
  }

  lemma SweepOneMore(ps: seq<FingerVal>, k: nat)
    requires k < |ps|
    ensures var a, i := Swept(ps, k), |Survivors(ps[..k])|;
            && i < |a| && a[i] == ps[k]
            && Swept(ps, k + 1) == AfterReport(a, i)
            && |Survivors(ps[..k + 1])| == (if Released(ps[k]) then i else i + 1)
            && EncodeAll(BlocksOf(ps[..k + 1])) == EncodeAll(BlocksOf(ps[..k])) + Encode(BlockOf(ps[k]))
            && |EncodeAll(BlocksOf(ps[..k + 1]))| <= |EncodeAll(BlocksOf(ps))|
  {
    hide Settled, BlockOf, Released, Encode;
    assert ps[..k + 1][..k] == ps[..k];
    assert BlocksOf(ps[..k + 1])[..k] == BlocksOf(ps[..k]);
    assert BlocksOf(ps)[..k + 1] == BlocksOf(ps[..k + 1]);
    PrefixIsShorter(BlocksOf(ps), k + 1);
  }

  lemma SweepEnds(ps: seq<FingerVal>)
    ensures Swept(ps, 0) == ps && Survivors(ps[..0]) == [] && EncodeAll(BlocksOf(ps[..0])) == []
    ensures ps[..|ps|] == ps && Swept(ps, |ps|) == Survivors(ps)
  {
    assert ps[..|ps|] == ps;
  }

  // ---- the frame ------------------------------------------------------------------------

  ghost function News(s: Settings, v: TrackerVal, cs: seq<Contact>): seq<FingerVal>
  {
    Spawned(s, v, Matches(v.live, cs), cs, |cs|)
  }

  /** The fingers the last phase walks over: the added ones, newest first, then the old ones. */
  ghost function Processed(s: Settings, v: TrackerVal, cs: seq<Contact>): seq<FingerVal>
    requires Idle(v)
  {
    MatchesFit(v, cs);
    News(s, v, cs) + Updated(s, v.live, Matches(v.live, cs), cs)
  }

  ghost function Frame(s: Settings, v: TrackerVal, cs: seq<Contact>): TrackerVal
    requires Idle(v)
  {
    var processed := Processed(s, v, cs);
    var kept := Survivors(processed);
    TrackerVal(kept, v.pool - |News(s, v, cs)| + (|processed| - |kept|), v.created + |News(s, v, cs)|)
  }

  ghost function FrameBlocks(s: Settings, v: TrackerVal, cs: seq<Contact>): seq<Block>
    requires Idle(v)
  {
    BlocksOf(Processed(s, v, cs))
  }

  // ---- what a frame means ---------------------------------------------------------------

  lemma {:induction false} SurvivorsOfConcat(a: seq<FingerVal>, b: seq<FingerVal>)
    ensures Survivors(a + b) == Survivors(a) + Survivors(b)
  {
    if b == [] {
      assert a + b == a;
    } else {
      SurvivorsOfConcat(a, b[..|b| - 1]);
      assert (a + b)[..|a + b| - 1] == a + b[..|b| - 1];
    }
  }

  lemma {:induction false} AllSurvive(fs: seq<FingerVal>)
    requires forall i :: 0 <= i < |fs| ==> !Released(fs[i])
    ensures Survivors(fs) == seq(|fs|, i requires 0 <= i < |fs| => Settled(fs[i]))
  {
    if fs != [] {
      AllSurvive(fs[..|fs| - 1]);
    }
  }

  /** Fingers just added, newest first: none is released, and ids were handed out in order from `first`. */
  ghost predicate FreshFingers(news: seq<FingerVal>, first: nat) {
    forall i :: 0 <= i < |news| ==>
      && !Released(news[i]) && news[i].state == Start && news[i].samples != []
      && news[i].id == IdOf(first + (|news| - 1 - i))
  }

  lemma {:induction false} SpawnedAreFresh(s: Settings, v: TrackerVal, marks: seq<Mark>, cs: seq<Contact>, j: nat)
    requires j <= |cs|
    ensures FreshFingers(Spawned(s, v, marks, cs, j), v.created)
  {
    if j > 0 {
      hide IdOf;
      SpawnedAreFresh(s, v, marks, cs, j - 1);
      var before := Spawned(s, v, marks, cs, j - 1);
      var added := NewFinger(v.created + |before|, cs[j - 1]);
      assert FreshFingers([added] + before, v.created);
    }
  }

  /** The fingers a frame processes are the added ones, then the old ones. */
  lemma ProcessedParts(s: Settings, v: TrackerVal, cs: seq<Contact>)
    requires Idle(v)
    ensures var p, n := Processed(s, v, cs), |News(s, v, cs)|;
            && |p| == n + |v.live|
            && p[..n] == News(s, v, cs)
            && FreshFingers(News(s, v, cs), v.created)
            && Frame(s, v, cs).live == Survivors(p) && Frame(s, v, cs).created == v.created + n
  {
    hide Matches, Updated, Spawned, IdOf, Released, Survivors;
    SpawnedAreFresh(s, v, Matches(v.live, cs), cs, |cs|);
  }

  lemma {:induction false} SurvivorsRest(fs: seq<FingerVal>)
    requires forall i :: 0 <= i < |fs| ==> fs[i].state != Unused && fs[i].samples != []
    ensures forall i :: 0 <= i < |Survivors(fs)| ==> Resting(Survivors(fs)[i])
  {
    if fs != [] {
      SurvivorsRest(fs[..|fs| - 1]);
    }
  }

  /** An old finger is released exactly when no contact was matched with it; one that is kept takes
      its contact's position exactly when the weight did not drop to half or less. */
  lemma OldFingerFate(s: Settings, v: TrackerVal, cs: seq<Contact>, i: nat)
    requires Idle(v) && i < |v.live|
    ensures var m := Matches(v.live, cs)[i];
            var before, after := v.live[i], Processed(s, v, cs)[|News(s, v, cs)| + i];
            && after.id == before.id && after.state == FingerDown
            && (Released(after) <==> !m.Matched())
            && (!m.Matched() ==> after.samples == before.samples)
            && (m.Matched() ==>
                  && 0 <= m.id < |cs|
                  && m.dist == Distance(cs[m.id].x, cs[m.id].y, before.Position().x, before.Position().y)
                  && after.lastWeight == cs[m.id].weight
                  && after.samples == (if Half(before.lastWeight) < cs[m.id].weight
                                       then before.samples
                                            + [Stored(s.positionFilter, before.samples, Point(cs[m.id].x, cs[m.id].y))]
                                       else before.samples))
  {
    MatchesFit(v, cs);
    MatchIsInjective(Rows(v.live, cs), MarksOf(v.live), |cs|);
  }

  /** A finger and a contact of the frame that are strictly nearest to each other: the finger absorbs it. */
  lemma NearestContactIsAbsorbed(s: Settings, v: TrackerVal, cs: seq<Contact>, j: nat, i: nat)
    requires Idle(v) && j < |cs| && i < |v.live| && MutuallyNearest(Rows(v.live, cs), |v.live|, j, i)
    ensures Processed(s, v, cs)[|News(s, v, cs)| + i] == Absorb(s, v.live[i], cs[j])
  {
    hide Absorb, Rows;
    MatchesFit(v, cs);
    MutuallyNearestAreMatched(Rows(v.live, cs), MarksOf(v.live), j, i);
    assert Row(Rows(v.live, cs)[j], |v.live|);
  }

  /** Between frames every live finger rests, and no buffer is lost. */
  lemma FrameKeepsIdle(s: Settings, v: TrackerVal, cs: seq<Contact>)
    requires Idle(v)
    ensures Idle(Frame(s, v, cs))
    ensures |Frame(s, v, cs).live| + Frame(s, v, cs).pool == |v.live| + v.pool
  {
    hide News, Processed, Matches, Distance, Stored, IdOf;
    var p, n := Processed(s, v, cs), |News(s, v, cs)|;
    ProcessedParts(s, v, cs);
    forall i | 0 <= i < |p| ensures p[i].state != Unused && p[i].samples != [] {
      if i < n {
        assert p[..n][i] == p[i];
      } else {
        OldFingerFate(s, v, cs, i - n);
      }
    }
    SurvivorsRest(p);
  }

  /** No block reports a finger going down and up at once. */
  lemma BlocksAreSingle(s: Settings, v: TrackerVal, cs: seq<Contact>)
    requires Idle(v)
    ensures NeverBoth(FrameBlocks(s, v, cs))
  {
    hide News, Processed, Frame, Matches, Distance, Stored, IdOf;
    var p, n := Processed(s, v, cs), |News(s, v, cs)|;
    ProcessedParts(s, v, cs);
    forall i | 0 <= i < |p| ensures p[i].state == Start ==> !Released(p[i]) {
      if i < n {
        assert p[..n][i] == p[i];
      } else {
        OldFingerFate(s, v, cs, i - n);
      }
    }
  }

  /** The tracker once matched fingers have moved. */
  ghost function AfterMoves(s: Settings, v: TrackerVal, cs: seq<Contact>): TrackerVal
    requires Idle(v)
  {
    MatchesFit(v, cs);
    TrackerVal(Updated(s, v.live, Matches(v.live, cs), cs), v.pool, v.created)
  }

  /** The tracker once new fingers have been added, too. */
  ghost function AfterAdds(s: Settings, v: TrackerVal, cs: seq<Contact>): TrackerVal
    requires Idle(v)
  {
    TrackerVal(Processed(s, v, cs), v.pool - |News(s, v, cs)|, v.created + |News(s, v, cs)|)
  }

  /** The contact arrays as a frame leaves them. */
  ghost function Blanked(v: TrackerVal, cs: seq<Contact>): (left: seq<Contact>)
    ensures |left| == |cs|
  {
    Left(cs, Matches(v.live, cs), |v.live|)
  }

  /** The events a frame appends to a list that already holds `n`. */
  ghost function FrameEvents(s: Settings, v: TrackerVal, cs: seq<Contact>, n: nat): seq<InputEvent>
    requires Idle(v)
  {
    Batch(n, FrameBlocks(s, v, cs))
  }

  lemma OffersThenMoves(s: Settings, v: TrackerVal, cs: seq<Contact>)
    requires Idle(v)
    ensures MarksOf(OfferUpTo(v.live, cs, |cs|)) == Matches(v.live, cs) && Fit(Matches(v.live, cs), |cs|)
    ensures Updated(s, OfferUpTo(v.live, cs, |cs|), Matches(v.live, cs), cs) == AfterMoves(s, v, cs).live
  {
    hide Matches, Updated, Fit, Idle;
    MatchesFit(v, cs);
    MatchesAreMarks(v.live, cs);
    UpdatedFromMarks(s, v.live, Matches(v.live, cs), cs);
  }

  lemma MatchesAreMarks(fs: seq<FingerVal>, cs: seq<Contact>)
    ensures OfferUpTo(fs, cs, |cs|) == WithMarks(fs, Matches(fs, cs))
  {
    OffersLeaveMarks(fs, cs, |cs|);
  }

  lemma MovesThenAdds(s: Settings, v: TrackerVal, cs: seq<Contact>)
    requires Idle(v)
    ensures Joined(AfterMoves(s, v, cs), Spawned(s, AfterMoves(s, v, cs), Matches(v.live, cs), cs, |cs|))
         == AfterAdds(s, v, cs)
  {
    hide Updated, Matches, Idle;
    SpawnedIgnoresLive(s, v, AfterMoves(s, v, cs), Matches(v.live, cs), cs, |cs|);
  }

  lemma {:induction false} SpawnedIgnoresLive(s: Settings, v: TrackerVal, w: TrackerVal, marks: seq<Mark>,
                                              cs: seq<Contact>, j: nat)
    requires j <= |cs| && v.pool == w.pool && v.created == w.created
    ensures Spawned(s, v, marks, cs, j) == Spawned(s, w, marks, cs, j)
  {
    if j > 0 {
      SpawnedIgnoresLive(s, v, w, marks, cs, j - 1);
    }
  }
}
