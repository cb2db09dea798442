/** The whole touch panel as a client sees it: a pointer that follows the raw events. No tracker, no event list and
    no parser is mentioned in this description; the lemmas say that the panel amounts to it. */
module Pointer {
  import opened Machine
  import opened CoordBuffer
  import opened Events
  import opened TrackerSpec
  import opened TrackerRuns
  import opened TouchParser
  import opened Wrappers
  import opened PollSpec
  import opened MouseDriver
  import opened PanelSpec

  /** One report: which touch it is about, counted from 0, what happens to it, and where. */
  datatype Report = Report(touch: nat, kind: Kind, x: int, y: int)

  /** A touch is under way when the last report was not that it ended. */
  predicate Touching(said: seq<Report>) {
    said != [] && said[|said| - 1].kind != Up
  }

  /** How many touches have begun. */
  function Touches(said: seq<Report>): nat {
    if said == [] then 0 else said[|said| - 1].touch + 1
  }

  /** What the next raw event adds to what was said, given where the pointer is and the state of the button. */
  function Adds(said: seq<Report>, ev: InputEvent, x: int, y: int, button: int): (more: seq<Report>)
    ensures |more| <= 1
  {
    if Presses(ev, button) then
      if Touching(said) then [Report(said[|said| - 1].touch, Move, x, y)]
      else if x == 0 && y == 0 then []
      else [Report(Touches(said), Down, x, y)]
    else if ev.typ == EV_SYN && Touching(said) then
      [said[|said| - 1].(kind := Up)]
    else
      []
  }

  function SaidAfter(scale: Scale, raws: seq<InputEvent>, ev: InputEvent, said: seq<Report>): (more: seq<Report>)
    ensures |more| <= 1
  {
    Adds(said, ev, PointX(scale, raws), PointY(scale, raws), Button(raws))
  }

  /** Everything said about a sequence of raw events. */
  function Said(scale: Scale, raws: seq<InputEvent>): seq<Report> {
    if raws == [] then [] else
      var front, said := raws[..|raws| - 1], Said(scale, raws[..|raws| - 1]);
      said + SaidAfter(scale, front, raws[|raws| - 1], said)
  }

  function ItemFor(r: Report): TouchItem {
    TouchItem(FingerNumber(ToInt32(r.touch % TWO_32), 0),
              match r.kind case Down => TouchDown case Up => TouchUp case Move => Undefined, r.x, r.y)
  }

  function ItemsFor(said: seq<Report>): (items: seq<TouchItem>)
    ensures |items| == |said|
  {
    seq(|said|, i requires 0 <= i < |said| => ItemFor(said[i]))
  }

  // ---- the driver is a pointer ----------------------------------------------------------

  /** The driver's state between events, as far as the reports go. */
  ghost predicate Mirrors(v: TrackerVal, said: seq<Report>) {
    && v.created == Touches(said)
    && (v.live != [] <==> Touching(said))
    && (v.live != [] ==>
          var last := said[|said| - 1];
          v.live[0].id == IdOf(last.touch) && v.live[0].Position() == Point(last.x, last.y))
  }

  lemma HandledEvent(scale: Scale, raws: seq<InputEvent>, ev: InputEvent, said: seq<Report>)
    requires Mirrors(Drive(scale, raws).tracker, said)
    ensures var d, more := Drive(scale, raws), SaidAfter(scale, raws, ev, said);
            && Mirrors(Handle(scale, d, ev).tracker, said + more)
            && ItemsOf(BlocksFor(scale, d, ev)) == ItemsFor(more)
  {
    hide Frame, FrameBlocks, Drive, PointX, PointY, Button, FingerNumber, ToInt32;
    var d := Drive(scale, raws);
    CacheFollowsEvents(scale, raws);
    DriverFrame(scale, d, ev);
    FrameIsSingle(scale, d, ev);
    if SaidAfter(scale, raws, ev, said) == [] {
      assert said + [] == said;
    }
  }

  /** The driver, the tracker and its matching, with one pointer: over any raw events, what is reported is what
      the last positions and the button say, touch by touch. */
  lemma {:induction false} DriverIsPointer(scale: Scale, raws: seq<InputEvent>)
    ensures Mirrors(Drive(scale, raws).tracker, Said(scale, raws))
    ensures ItemsOf(Reported(scale, raws)) == ItemsFor(Said(scale, raws))
  {
    hide Handle, SaidAfter, BlocksFor, ItemsFor, ItemsOf, Mirrors;
    if raws == [] {
      NothingSaid(scale);
    } else {
      var front, ev := raws[..|raws| - 1], raws[|raws| - 1];
      var said := Said(scale, front);
      DriverIsPointer(scale, front);
      HandledEvent(scale, front, ev, said);
      ItemsOfConcat(Reported(scale, front), BlocksFor(scale, Drive(scale, front), ev));
      ItemsForConcat(said, SaidAfter(scale, front, ev, said));
    }
  }

  lemma NothingSaid(scale: Scale)
    ensures Mirrors(AT_REST.tracker, []) && ItemsOf([]) == ItemsFor([])
  {}

  lemma ItemsForConcat(a: seq<Report>, b: seq<Report>)
    ensures ItemsFor(a + b) == ItemsFor(a) + ItemsFor(b)
  {}

  // ---- the panel is a pointer -----------------------------------------------------------

  /** The wheel and the buttons beside left and right are passed on. */
  predicate PassedOn(ev: InputEvent) {
    (ev.typ == EV_REL && ev.code == REL_WHEEL) || (ev.typ == EV_KEY && BTN_MIDDLE <= ev.code <= BTN_TASK)
  }

  /** What the call that reads `ev` returns, when `read` was read before: a touch event of one item for a report,
      one without items for an event passed on, and NULL otherwise. */
  function Answer(scale: Scale, read: seq<InputEvent>, ev: InputEvent): Option<seq<TouchItem>> {
    var more := SaidAfter(scale, read, ev, Said(scale, read));
    if more != [] then Some([ItemFor(more[0])]) else if PassedOn(ev) then Some([]) else None
  }

  /** The raw events read so far, and what each call returned. */
  datatype Session = Session(read: seq<InputEvent>, results: seq<Option<seq<TouchItem>>>) {
    /** A call after one that returned something only finds the list at its end. */
    predicate Busy() {
      results != [] && results[|results| - 1].Some?
    }
  }

  /** Any sequence of calls; `raws[i]` is what the device has at the i-th. */
  function Served(scale: Scale, raws: seq<Option<InputEvent>>): Session {
    if raws == [] then Session([], []) else
      var before, raw := Served(scale, raws[..|raws| - 1]), raws[|raws| - 1];
      if before.Busy() || raw == None then before.(results := before.results + [None])
      else Session(before.read + [raw.value], before.results + [Answer(scale, before.read, raw.value)])
  }

  /** The touch events among the results. */
  function Returned(results: seq<Option<seq<TouchItem>>>): seq<seq<TouchItem>> {
    if results == [] then [] else
      var last := results[|results| - 1];
      Returned(results[..|results| - 1]) + if last.Some? then [last.value] else []
  }

  /** What the calls of a run do return. */
  ghost function Results(max: nat, scale: Scale, raws: seq<Option<InputEvent>>): seq<Option<seq<TouchItem>>> {
    if raws == [] then [] else
      var front := raws[..|raws| - 1];
      Results(max, scale, front) + [Call(max, scale, Watch(max, scale, front).Panel(), raws[|raws| - 1]).1]
  }

  lemma OneChunk(max: nat, item: TouchItem)
    requires max >= 1
    ensures Chunks(max, [item]) == [[item]]
  {}

  lemma BatchAnswers(max: nat, scale: Scale, read: seq<InputEvent>, ev: InputEvent)
    requires max >= 1
    ensures var batch, answer := BatchFor(scale, Drive(scale, read), ev), Answer(scale, read, ev);
            && (batch.Some? ==> Complete(batch.value))
            && (answer.Some? ==> batch.Some? && batch.value != [] && Decode(max, [], batch.value) == [answer.value])
            && (answer == None ==> batch.None? || batch.value == [])
  {
    hide Drive, Said, FrameBlocks, Handle, Decode, EncodeAll, ItemFor, ItemOf, Chunks, Noted, Touch, PointX, PointY, Button;
    var d, more := Drive(scale, read), SaidAfter(scale, read, ev, Said(scale, read));
    var bs := BlocksFor(scale, d, ev);
    DriverIsPointer(scale, read);
    HandledEvent(scale, read, ev, Said(scale, read));
    BatchDecodes(max, scale, d, ev);
    assert |bs| == |ItemsOf(bs)| == |more|;
    if FrameFor(scale, d, ev).Some? {
      RoundTrip(max, bs);
      BatchSize(bs);
      if more != [] {
        OneChunk(max, ItemFor(more[0]));
        assert ItemsOf(bs) == [ItemFor(more[0])];
      }
    } else if PassedOn(ev) {
      ForwardedDecodes(max, ev);
    }
  }

  /** A call that has nothing to read. */
  lemma IdlePoll(max: nat, v: ParserVal, input: Option<seq<InputEvent>>)
    requires v.pending == [] && (v.readInput || input.None? || input.value == [])
    ensures Poll(max, v, input).1 == None && Poll(max, v, input).0.pending == [] && !Poll(max, v, input).0.readInput
  {}

  /** A call that reads a batch of one touch event. */
  lemma SinglePoll(max: nat, v: ParserVal, batch: seq<InputEvent>, items: seq<TouchItem>)
    requires !v.readInput && batch != [] && Complete(batch) && Decode(max, [], batch) == [items]
    ensures Poll(max, v, Some(batch)).1 == Some(items)
    ensures Poll(max, v, Some(batch)).0.pending == [] && Poll(max, v, Some(batch)).0.readInput
  {
    hide Decode, Scan;
    var reading := ParserVal(batch, [], true);
    DrainStep(max, reading, None);
    var (after, out) := Poll(max, reading, None);
    assert items == ([out.value] + Decode(max, after.items, after.pending))[0];
    if after.pending != [] {
      DrainStep(max, after, None);
    }
  }

  lemma CallAnswers(max: nat, scale: Scale, h: History, raw: Option<InputEvent>)
    requires max >= 1 && Idle(h.driver.tracker) && h.driver == Drive(scale, h.read) && h.log.v.pending == []
    ensures var (p, out) := Call(max, scale, h.Panel(), raw);
            && p.parser.pending == [] && (p.parser.readInput <==> out.Some?)
            && out == (if h.log.v.readInput || raw == None then None else Answer(scale, h.read, raw.value))
  {
    hide Drive, Answer, BatchFor, Handle, Poll;
    if h.log.v.readInput || raw == None {
      IdlePoll(max, h.log.v, Input(scale, h.Panel(), raw));
    } else {
      var batch, answer := BatchFor(scale, h.driver, raw.value), Answer(scale, h.read, raw.value);
      BatchAnswers(max, scale, h.read, raw.value);
      if answer.Some? {
        SinglePoll(max, h.log.v, batch.value, answer.value);
      } else {
        IdlePoll(max, h.log.v, batch);
      }
    }
  }

  /** The whole panel is this pointer: over any calls and whatever the device has at each, every call returns what
      `Served` says, exactly the events it lists were read, and no list is left half read. */
  lemma {:induction false} PanelIsPointer(max: nat, scale: Scale, raws: seq<Option<InputEvent>>)
    requires max >= 1
    ensures var h, w := Watch(max, scale, raws), Served(scale, raws);
            && Results(max, scale, raws) == w.results
            && h.read == w.read && h.log.delivered == Returned(w.results)
            && h.log.v.pending == [] && (h.log.v.readInput <==> w.Busy())
  {
    hide Drive, Call, Next, Answer;
    if raws != [] {
      var front, raw := raws[..|raws| - 1], raws[|raws| - 1];
      PanelIsPointer(max, scale, front);
      var h := Watch(max, scale, front);
      CallAnswers(max, scale, h, raw);
      NextIsCall(max, scale, h, raw);
      NextReads(max, scale, h, raw);
      ReturnedMore(Served(scale, front).results, Call(max, scale, h.Panel(), raw).1);
    }
  }

  /** A call that is not still reading a list reads whatever the device has, and any other call nothing. */
  lemma EveryEventIsRead(max: nat, scale: Scale, raws: seq<Option<InputEvent>>, raw: Option<InputEvent>)
    ensures var h, h' := Watch(max, scale, raws), Watch(max, scale, raws + [raw]);
            && h'.read == h.read + (if h.log.v.readInput || raw == None then [] else [raw.value])
            && h'.driver == Drive(scale, h'.read)
  {
    assert (raws + [raw])[..|raws|] == raws;
    NextReads(max, scale, Watch(max, scale, raws), raw);
  }

  /** At every moment the client has been given exactly the items for what was said about the events read. */
  lemma ClientSeesPointer(max: nat, scale: Scale, raws: seq<Option<InputEvent>>)
    requires max >= 1
    ensures var h := Watch(max, scale, raws);
            Flatten(h.log.delivered) == ItemsFor(Said(scale, h.read))
  {
    hide Watch, Drive, Reported, Said, ItemsFor, ItemsOf, Flatten;
    var h := Watch(max, scale, raws);
    PanelIsPointer(max, scale, raws);
    ClientSeesReports(max, scale, raws);
    DriverIsPointer(scale, h.read);
    NothingDecoded(max, h.log.v.items);
    NothingFlattened();
  }

  lemma NothingFlattened()
    ensures Flatten([]) == []
  {}

  lemma NextReads(max: nat, scale: Scale, h: History, raw: Option<InputEvent>)
    requires Idle(h.driver.tracker)
    ensures Next(max, scale, h, raw).read
         == h.read + if h.log.v.readInput || raw == None then [] else [raw.value]
  {
    hide Call, LogPoll;
  }

  lemma ReturnedMore(results: seq<Option<seq<TouchItem>>>, result: Option<seq<TouchItem>>)
    ensures Returned(results + [result]) == Returned(results) + if result.Some? then [result.value] else []
  {
    assert (results + [result])[..|results|] == results;
  }
}
