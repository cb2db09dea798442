/** The single-touch driver: raw mouse events become frames of at most one contact, and frames become batches. */
module MouseDriver {
  import opened Machine
  import opened CoordBuffer
  import opened Events
  import opened TrackerSpec
  import opened Wrappers
  import opened TrackerRuns
  import Allocator

  /** The settings and the number of fingers the emulator configures. */
  const MOUSE: Settings := Settings(6, 0, false)
  const MOUSE_FINGERS: nat := 1

  /** The scaling of each axis, truncated to an integer. */
  datatype Scale = Scale(x: int -> int, y: int -> int)

  datatype DriverVal = DriverVal(tracker: TrackerVal, cachedX: int, cachedY: int, button: int)

  const AT_REST: DriverVal := DriverVal(TrackerVal([], 2 * MOUSE_FINGERS, 0), 0, 0, 0)

  /** The frame the driver makes up: the cached point while the button is down, and nothing otherwise. */
  function Touch(d: DriverVal, pressed: bool): seq<Contact> {
    if pressed then [Contact(d.cachedX, d.cachedY, 1)] else []
  }

  predicate IsTouchButton(ev: InputEvent) {
    ev.typ == EV_KEY && (ev.code == BTN_TOUCH || ev.code == BTN_LEFT)
  }

  /** Events passed on as they are. */
  predicate IsForwarded(ev: InputEvent) {
    || (ev.typ == EV_REL && ev.code == REL_WHEEL)
    || (ev.typ == EV_KEY && ev.code in {BTN_MIDDLE, BTN_SIDE, BTN_EXTRA, BTN_FORWARD, BTN_BACK, BTN_TASK})
  }

  /** The state in which an event's frame, if it makes one, is processed. */
  function Noted(scale: Scale, d: DriverVal, ev: InputEvent): DriverVal {
    if ev.typ == EV_ABS && ev.code == ABS_X then d.(cachedX := scale.x(ev.value))
    else if ev.typ == EV_ABS && ev.code == ABS_Y then d.(cachedY := scale.y(ev.value))
    else if IsTouchButton(ev) then d.(button := ev.value)
    else d
  }

  /** The frame an event makes: a release repeats the point, a synchronisation reports the button. */
  function FrameFor(scale: Scale, d: DriverVal, ev: InputEvent): Option<seq<Contact>> {
    var noted := Noted(scale, d, ev);
    if IsTouchButton(ev) && ev.value == 0 then Some(Touch(noted, true))
    else if ev.typ == EV_SYN then Some(Touch(noted, noted.button != 0))
    else None
  }

  ghost function Handle(scale: Scale, d: DriverVal, ev: InputEvent): DriverVal
    requires Idle(d.tracker)
  {
    var noted, frame := Noted(scale, d, ev), FrameFor(scale, d, ev);
    if frame.Some? then noted.(tracker := Frame(MOUSE, d.tracker, frame.value)) else noted
  }

  ghost function BlocksFor(scale: Scale, d: DriverVal, ev: InputEvent): seq<Block>
    requires Idle(d.tracker)
  {
    var frame := FrameFor(scale, d, ev);
    if frame.Some? then FrameBlocks(MOUSE, d.tracker, frame.value) else []
  }

  /** The batch that replaces the event list, if the event produces one. */
  ghost function BatchFor(scale: Scale, d: DriverVal, ev: InputEvent): Option<seq<InputEvent>>
    requires Idle(d.tracker)
  {
    if FrameFor(scale, d, ev).Some? then Some(Batch(0, BlocksFor(scale, d, ev)))
    else if IsForwarded(ev) then Some([ev, InputEvent(EV_SYN, SYN_START, 0)])
    else None
  }

  // ---- at most one finger ---------------------------------------------------------------

  /** At most one finger is live, and it is as heavy as the driver makes every contact. */
  ghost predicate Lone(v: TrackerVal) {
    && Idle(v)
    && |v.live| <= 1
    && |v.live| + v.pool == 2 * MOUSE_FINGERS
    && (v.live != [] ==> v.live[0].lastWeight == 1)
  }

  ghost predicate Single(d: DriverVal) {
    Lone(d.tracker)
  }

  predicate Says(bs: seq<Block>, id: int, kind: Kind, p: Point) {
    |bs| == 1 && bs[0].id == id && KindOf(bs[0]) == kind && bs[0].x == p.x && bs[0].y == p.y
  }

  /** What one frame of the driver says: at most one thing, about at most one finger. */
  ghost predicate SingleFrame(v: TrackerVal, cs: seq<Contact>)
    requires Idle(v)
  {
    var bs, v' := FrameBlocks(MOUSE, v, cs), Frame(MOUSE, v, cs);
    if cs == [] then
      && v'.live == [] && v'.created == v.created
      && (if v.live == [] then bs == [] else Says(bs, v.live[0].id, Up, v.live[0].Position()))
    else if v.live == [] && cs[0].x == 0 && cs[0].y == 0 then
      v'.live == [] && v'.created == v.created && bs == []
    else
      var id := if v.live == [] then IdOf(v.created) else v.live[0].id;
      && |v'.live| == 1 && v'.live[0].Position() == Point(cs[0].x, cs[0].y) && v'.live[0].lastWeight == 1
      && v'.live[0].id == id && v'.created == (if v.live == [] then v.created + 1 else v.created)
      && Says(bs, id, if v.live == [] then Down else Move, Point(cs[0].x, cs[0].y))
  }

  lemma LiftFrame(v: TrackerVal)
    requires Lone(v)
    ensures SingleFrame(v, [])
  {
    hide Updated, Matches, Spawned, Survivors, Distance, Absorb;
    var p := Processed(MOUSE, v, []);
    assert News(MOUSE, v, []) == [];
    Allocator.LiveAtMostContacts(MOUSE, v, []);
    if v.live != [] {
      assert |p| == 1;
      OldFingerFate(MOUSE, v, [], 0);
    }
  }

  lemma TouchFrame(v: TrackerVal, c: Contact)
    requires Lone(v) && c.weight == 1
    ensures SingleFrame(v, [c])
  {
    if v.live == [] {
      FirstTouchFrame(v, c);
    } else {
      NextTouchFrame(v, c);
    }
  }

  lemma FirstTouchFrame(v: TrackerVal, c: Contact)
    requires v.live == [] && v.pool == 2 && c.weight == 1
    ensures Idle(v) && SingleFrame(v, [c])
  {
    var marks := Matches(v.live, [c]);
    assert marks == [];
    assert Spawned(MOUSE, v, marks, [c], 0) == [];
    SpawnedAreFresh(MOUSE, v, marks, [c], 1);
    var news := News(MOUSE, v, [c]);
    assert Processed(MOUSE, v, [c]) == news;
    AllSurvive(news);
  }

  lemma NextTouchFrame(v: TrackerVal, c: Contact)
    requires Lone(v) && v.live != [] && c.weight == 1
    ensures SingleFrame(v, [c])
  {
    Allocator.SomeFingerSurvives(MOUSE, v, [c]);
    Allocator.LiveAtMostContacts(MOUSE, v, [c]);
    SomethingTaken(Allocator.TakenBelow(Matches(v.live, [c]), 1));
    assert News(MOUSE, v, [c]) == [];
    var p := Processed(MOUSE, v, [c]);
    assert |p| == 1;
    OldFingerFate(MOUSE, v, [c], 0);
    SurvivorsOfOne(p);
  }

  lemma SomethingTaken(taken: set<int>)
    requires taken != {}
    ensures |taken| >= 1
  {}

  lemma SurvivorsOfOne(p: seq<FingerVal>)
    requires |p| == 1
    ensures Survivors(p) == if Released(p[0]) then [] else [Settled(p[0])]
  {
    assert p[..0] == [];
  }

  lemma DriverFrame(scale: Scale, d: DriverVal, ev: InputEvent)
    requires Single(d)
    ensures FrameFor(scale, d, ev).Some? ==> SingleFrame(d.tracker, FrameFor(scale, d, ev).value)
    ensures Single(Handle(scale, d, ev))
  {
    var frame := FrameFor(scale, d, ev);
    if frame.Some? {
      FrameKeepsIdle(MOUSE, d.tracker, frame.value);
      if frame.value == [] {
        LiftFrame(d.tracker);
      } else {
        TouchFrame(d.tracker, frame.value[0]);
        assert frame.value == [frame.value[0]];
      }
    }
  }

  // ---- runs of raw events ---------------------------------------------------------------

  ghost function Drive(scale: Scale, raws: seq<InputEvent>): (d: DriverVal)
    ensures Single(d)
  {
    if raws == [] then AT_REST else
      var d := Drive(scale, raws[..|raws| - 1]);
      DriverFrame(scale, d, raws[|raws| - 1]);
      Handle(scale, d, raws[|raws| - 1])
  }

  /** Everything the frames of a run say about fingers, in order. */
  ghost function Reported(scale: Scale, raws: seq<InputEvent>): seq<Block> {
    if raws == [] then [] else
      Reported(scale, raws[..|raws| - 1]) + BlocksFor(scale, Drive(scale, raws[..|raws| - 1]), raws[|raws| - 1])
  }

  /** Where the raw events put the pointer: at the last position of each axis, scaled, or at 0 if there is none. */
  function PointX(scale: Scale, raws: seq<InputEvent>): int {
    var last := LastValue(raws, EV_ABS, {ABS_X});
    if last.Some? then scale.x(last.value) else 0
  }

  function PointY(scale: Scale, raws: seq<InputEvent>): int {
    var last := LastValue(raws, EV_ABS, {ABS_Y});
    if last.Some? then scale.y(last.value) else 0
  }

  /** The last value of the touch button; 0 if it was never mentioned. */
  function Button(raws: seq<InputEvent>): int {
    var last := LastValue(raws, EV_KEY, {BTN_TOUCH, BTN_LEFT});
    if last.Some? then last.value else 0
  }

  /** Over any raw events, the cached point and the button are those the events last gave. */
  lemma {:induction false} CacheFollowsEvents(scale: Scale, raws: seq<InputEvent>)
    ensures var d := Drive(scale, raws);
            d.cachedX == PointX(scale, raws) && d.cachedY == PointY(scale, raws) && d.button == Button(raws)
  {
    hide Frame, Touch;
    if raws != [] {
      CacheFollowsEvents(scale, raws[..|raws| - 1]);
    }
  }

  /** Whether an event makes a frame with the pointer in it, `button` being the state of the button before:
      the release of the button does, and a synchronisation event while it is down. */
  predicate Presses(ev: InputEvent, button: int) {
    || (ev.typ == EV_KEY && ev.code in {BTN_TOUCH, BTN_LEFT} && ev.value == 0)
    || (ev.typ == EV_SYN && button != 0)
  }

  /** Where the next report puts the finger: at the last point of the raw events while the button counts as down,
      and for a release where the report before it put it. */
  lemma ReportsFollowPointer(scale: Scale, raws: seq<InputEvent>, ev: InputEvent)
    ensures var bs, before := BlocksFor(scale, Drive(scale, raws), ev), Reported(scale, raws);
            && |bs| <= 1
            && (bs != [] && Presses(ev, Button(raws)) ==>
                  KindOf(bs[0]) != Up && bs[0].x == PointX(scale, raws) && bs[0].y == PointY(scale, raws))
            && (bs != [] && !Presses(ev, Button(raws)) ==>
                  ev.typ == EV_SYN && before != [] && KindOf(bs[0]) == Up
                  && bs[0].x == before[|before| - 1].x && bs[0].y == before[|before| - 1].y)
  {
    hide Frame, FrameBlocks, Drive, Reported, PointX, PointY, Button;
    CacheFollowsEvents(scale, raws);
    DriverFrame(scale, Drive(scale, raws), ev);
    LastReport(scale, raws);
  }

  /** A live finger is where it was last reported. */
  lemma {:induction false} LastReport(scale: Scale, raws: seq<InputEvent>)
    ensures var d, bs := Drive(scale, raws), Reported(scale, raws);
            d.tracker.live != [] ==>
              bs != [] && d.tracker.live[0].Position() == Point(bs[|bs| - 1].x, bs[|bs| - 1].y)
  {
    hide Handle, BlocksFor, Single;
    if raws != [] {
      var front, ev := raws[..|raws| - 1], raws[|raws| - 1];
      LastReport(scale, front);
      HandledReport(scale, Drive(scale, front), ev);
    }
  }

  lemma HandledReport(scale: Scale, d: DriverVal, ev: InputEvent)
    requires Single(d)
    ensures var live, bs := Handle(scale, d, ev).tracker.live, BlocksFor(scale, d, ev);
            if bs == [] then live == d.tracker.live
            else live != [] ==> live[0].Position() == Point(bs[|bs| - 1].x, bs[|bs| - 1].y)
  {
    hide Frame, FrameBlocks;
    DriverFrame(scale, d, ev);
  }

  /** After a synchronisation event no finger is live if the button is up. If it is down, exactly one is,
      unless none was live before and the raw events left the pointer at the origin. */
  lemma AfterSyn(scale: Scale, raws: seq<InputEvent>, ev: InputEvent)
    requires ev.typ == EV_SYN
    ensures var before, after := Drive(scale, raws), Drive(scale, raws + [ev]);
            && |after.tracker.live| <= 1
            && (|after.tracker.live| == 1 <==>
                  Button(raws) != 0
                  && (before.tracker.live != [] || !(PointX(scale, raws) == 0 && PointY(scale, raws) == 0)))
  {
    hide PointX, PointY, Button;
    assert (raws + [ev])[..|raws|] == raws;
    CacheFollowsEvents(scale, raws);
    DriverFrame(scale, Drive(scale, raws), ev);
  }

  /** Whether a finger is down after a list of reports; None if they do not alternate. */
  function Follow(kinds: seq<Kind>): Option<bool> {
    if kinds == [] then Some(false) else
      match (Follow(kinds[..|kinds| - 1]), kinds[|kinds| - 1])
      case (Some(false), Down) => Some(true)
      case (Some(true), Move) => Some(true)
      case (Some(true), Up) => Some(false)
      case _ => None
  }

  function Kinds(bs: seq<Block>): seq<Kind> {
    seq(|bs|, i requires 0 <= i < |bs| => KindOf(bs[i]))
  }

  lemma KindsOfMore(bs: seq<Block>, b: Block)
    ensures Kinds(bs + [b]) == Kinds(bs) + [KindOf(b)] && Kinds(bs + []) == Kinds(bs)
  {
    assert bs + [] == bs;
  }

  lemma FollowOneMore(kinds: seq<Kind>, k: Kind)
    ensures Follow(kinds + [k]) == match (Follow(kinds), k)
                                   case (Some(false), Down) => Some(true)
                                   case (Some(true), Move) => Some(true)
                                   case (Some(true), Up) => Some(false)
                                   case _ => None
  {
    assert (kinds + [k])[..|kinds|] == kinds;
  }

  /** Over any raw events, what is reported is (Down Move* Up)* and possibly a touch still under way,
      which is so exactly when a finger is live. */
  lemma {:induction false} ReportsAlternate(scale: Scale, raws: seq<InputEvent>)
    ensures Follow(Kinds(Reported(scale, raws))) == Some(Drive(scale, raws).tracker.live != [])
  {
    if raws != [] {
      var front, ev := raws[..|raws| - 1], raws[|raws| - 1];
      ReportsAlternate(scale, front);
      var d := Drive(scale, front);
      DriverFrame(scale, d, ev);
      var bs := BlocksFor(scale, d, ev);
      if |bs| == 1 {
        KindsOfMore(Reported(scale, front), bs[0]);
        assert bs == [bs[0]];
        FollowOneMore(Kinds(Reported(scale, front)), KindOf(bs[0]));
      } else {
        KindsOfMore(Reported(scale, front), Block(0, false, 0, 0, false));
        assert bs == [];
      }
    }
  }
}
