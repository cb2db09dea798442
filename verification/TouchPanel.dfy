/** The touch panel module itself: the event list, the driver that fills it and the parser that empties it. */
module TouchPanel {
  import opened Events
  import opened TrackerSpec
  import opened TouchParser
  import opened Wrappers
  import opened PollSpec
  import opened MouseDriver
  import opened PanelSpec
  import Pointer
  import Tracker

  /** A touch event under construction, or handed to the client. */
  class TouchEvent {
    const itemArray: array<TouchItem>
    var itemCount: int

    ghost predicate Valid()
      reads this
    {
      0 <= itemCount <= itemArray.Length
    }

    ghost function Items(): seq<TouchItem>
      requires Valid()
      reads this, itemArray
    {
      itemArray[..itemCount]
    }

    constructor (max: nat)
      ensures Valid() && Items() == [] && itemArray.Length == max && fresh(itemArray)
    {
      itemArray := new TouchItem[max](_ => TouchItem(0, Undefined, 0, 0));
      itemCount := 0;
    }

    /** The index of a further item, or -1 if the event is full. */
    method GetNextItem() returns (i: int)
      requires Valid()
      modifies this
      ensures Valid()
      ensures i == (if old(itemCount) < itemArray.Length then old(itemCount) else -1)
      ensures itemCount == if i >= 0 then old(itemCount) + 1 else old(itemCount)
    {
      i := -1;
      if itemCount < itemArray.Length {
        i := itemCount;
        itemCount := itemCount + 1;
      }
    }

    /** The index of the newest item, or -1 if there is none. */
    method GetCurrentItem() returns (i: int)
      requires Valid()
      ensures i == itemCount - 1
    {
      i := -1;
      if itemCount > 0 {
        i := itemCount - 1;
      }
    }
  }

  /** Takes one event of the list: `kept` is the event under construction afterwards, `out` a finished one. */
  method Parse(max: nat, current: TouchEvent, ev: InputEvent) returns (kept: TouchEvent?, out: TouchEvent?)
    requires max >= 1 && current.Valid() && current.itemArray.Length == max
    modifies current, current.itemArray
    ensures var r := React(max, old(current.Items()), ev);
            && current.Valid()
            && (kept == null || kept == current || (fresh(kept) && fresh(kept.itemArray)))
            && (kept != null ==> kept.Valid() && kept.itemArray.Length == max)
            && r.items == (if kept == null then [] else kept.Items())
            && (r.out == None <==> out == null) && (out == null ==> kept != null)
            && (out != null ==> out == current && kept != current && r.out == Some(out.Items()))
  {
    kept, out := current, null;
    if ev.typ == EV_FINGERID {
      var i := current.GetNextItem();
      if i < 0 {
        out := current;
        kept := new TouchEvent(max);
        i := kept.GetNextItem();
      }
      kept.itemArray[i] := FreshItem(ev);
    } else if ev.typ == EV_ABS {
      var i := current.GetCurrentItem();
      if i >= 0 {
        if ev.code == ABS_X {
          current.itemArray[i] := current.itemArray[i].(x := ev.value);
        } else if ev.code == ABS_Y {
          current.itemArray[i] := current.itemArray[i].(y := ev.value);
        }
      }
    } else if ev.typ == EV_KEY {
      var i := current.GetCurrentItem();
      if i >= 0 && ev.code == BTN_TOUCH {
        current.itemArray[i] := current.itemArray[i].(state := if ev.value == 1 then TouchDown else TouchUp);
      }
    } else if ev.typ == EV_SYN {
      out := current;
      kept := null;
    }
  }

  class Panel {
    const max: nat
    const scale: Scale
    const tracker: Tracker.FingerTracker
    const input: array<InputEvent>
    var inputFilled: int
    var inputRead: int
    var readInput: bool
    var currentEvent: TouchEvent?
    var cachedX: int
    var cachedY: int
    var touchButtonState: int

    ghost function EventStorage(): set<object>
      reads this`currentEvent
    {
      if currentEvent == null then {} else {currentEvent, currentEvent.itemArray}
    }

    /** The module keeps no hold on an event, nor on its items. */
    ghost predicate HandedOver(e: TouchEvent)
      reads this`currentEvent
    {
      {e as object, e.itemArray} !! EventStorage()
    }

    ghost predicate ListValid()
      reads this`inputFilled, this`inputRead, this`currentEvent, EventStorage()
    {
      && 0 <= inputRead <= inputFilled <= input.Length
      && max >= 1
      && (currentEvent != null ==> currentEvent.Valid() && currentEvent.itemArray.Length == max)
    }

    ghost function ListVal(): ParserVal
      requires ListValid()
      reads this`inputFilled, this`inputRead, this`readInput, this`currentEvent, input, EventStorage()
    {
      ParserVal(input[inputRead..inputFilled], if currentEvent == null then [] else currentEvent.Items(), readInput)
    }

    ghost predicate DriverValid()
      reads tracker, tracker.Storage()
    {
      && tracker.Valid() && tracker.settings == MOUSE
      && Lone(tracker.Val()) && tracker.maxFingers == MOUSE_FINGERS
      && input.Length >= 5
    }

    ghost function Driver(): DriverVal
      requires DriverValid()
      reads this`cachedX, this`cachedY, this`touchButtonState, tracker, tracker.Storage()
    {
      DriverVal(tracker.Val(), cachedX, cachedY, touchButtonState)
    }

    ghost predicate Valid()
      reads this, tracker, tracker.Storage(), EventStorage()
    {
      ListValid() && DriverValid()
    }

    ghost function Val(): PanelVal
      requires Valid()
      reads this, tracker, tracker.Storage(), input, EventStorage()
    {
      PanelVal(Driver(), ListVal())
    }

    /** `max` is the most items a touch event can hold; `listSize` the room for events, far above what is needed. */
    constructor (max: nat, listSize: nat, scale: Scale)
      requires max >= 1 && listSize >= 5
      ensures Valid() && Val() == OPENED
      ensures this.max == max && this.scale == scale
      ensures fresh(tracker) && fresh(tracker.Storage()) && fresh(input) && fresh(EventStorage())
    {
      this.max := max;
      this.scale := scale;
      tracker := new Tracker.FingerTracker(MOUSE, MOUSE_FINGERS);
      input := new InputEvent[listSize](_ => SYN);
      inputFilled, inputRead := 0, 0;
      readInput := false;
      currentEvent := null;
      cachedX, cachedY, touchButtonState := 0, 0, 0;
    }

    // ---- filling the list -----------------------------------------------------------------

    /** Runs the tracker on the cached point, or on no contact, and puts what it reports into the list. */
    method GenerateMouseGesture(pressed: bool)
      requires DriverValid()
      modifies this`inputFilled, this`inputRead, tracker, tracker.Storage(), input
      ensures DriverValid()
      ensures Driver() == WithFrame(old(Driver()), pressed)
      ensures inputRead == 0 <= inputFilled <= input.Length
      ensures input[..inputFilled] == GestureEvents(old(Driver()), pressed)
    {
      hide Frame, FrameEvents, Idle, Tracker.FingerTracker.Valid;
      tracker.ValidCounts();
      DriverFrameFits(Driver(), pressed);
      inputFilled := RunFrame(tracker, cachedX, cachedY, pressed, input, Touch(Driver(), pressed));
      inputRead := 0;
    }

    /** Notes what a raw event says about the point and the button, and makes the frames it calls for. */
    method NoteEvent(ev: InputEvent)
      requires DriverValid()
      modifies this`cachedX, this`cachedY, this`touchButtonState, this`inputFilled, this`inputRead
      modifies tracker, tracker.Storage(), input
      ensures DriverValid()
      ensures Driver() == Handle(scale, old(Driver()), ev)
      ensures ListAfter(GestureFor(scale, old(Driver()), ev), inputRead, inputFilled, input[..],
                        old(inputRead), old(inputFilled), old(input[..]))
    {
      hide Frame, FrameEvents, Idle, Tracker.FingerTracker.Valid, Handle, GestureFor, WithFrame, GestureEvents;
      tracker.ValidCounts();
      HandleIsGesture(scale, Driver(), ev);
      if ev.typ == EV_ABS && ev.code == ABS_X {
        cachedX := scale.x(ev.value);
      } else if ev.typ == EV_ABS && ev.code == ABS_Y {
        cachedY := scale.y(ev.value);
      } else if ev.typ == EV_KEY && (ev.code == BTN_TOUCH || ev.code == BTN_LEFT) {
        touchButtonState := ev.value;
        if touchButtonState == 0 {
          GenerateMouseGesture(true);
        }
      } else if ev.typ == EV_SYN {
        GenerateMouseGesture(touchButtonState != 0);
      }
    }

    /** Passes the wheel and the other buttons on, with a synchronisation event after them. */
    method ForwardEvent(ev: InputEvent)
      requires input.Length >= 2
      modifies this`inputFilled, this`inputRead, input
      ensures ListAfter(if IsForwarded(ev) then Some([ev, InputEvent(EV_SYN, SYN_START, 0)]) else None,
                        inputRead, inputFilled, input[..], old(inputRead), old(inputFilled), old(input[..]))
    {
      if IsForwarded(ev) {
        input[0] := ev;
        input[1] := InputEvent(EV_SYN, SYN_START, 0);
        inputFilled := 2;
        inputRead := 0;
      }
    }

    /** Digests one raw event; most leave the list as it is. */
    method HandleNewEvent(ev: InputEvent)
      requires DriverValid()
      modifies this`cachedX, this`cachedY, this`touchButtonState, this`inputFilled, this`inputRead
      modifies tracker, tracker.Storage(), input
      ensures DriverValid()
      ensures cachedX == if ev.typ == EV_ABS && ev.code == ABS_X then scale.x(ev.value) else old(cachedX)
      ensures cachedY == if ev.typ == EV_ABS && ev.code == ABS_Y then scale.y(ev.value) else old(cachedY)
      ensures touchButtonState
           == if ev.typ == EV_KEY && ev.code in {BTN_TOUCH, BTN_LEFT} then ev.value else old(touchButtonState)
      ensures Driver() == Handle(scale, old(Driver()), ev)
      ensures ListAfter(BatchFor(scale, old(Driver()), ev), inputRead, inputFilled, input[..],
                        old(inputRead), old(inputFilled), old(input[..]))
    {
      hide Handle, BatchFor, GestureFor, Idle, Tracker.FingerTracker.Valid, Tracker.FingerTracker.Sound, Tracker.Vals;
      tracker.ValidCounts();
      HandleCaches(scale, Driver(), ev);
      BatchIsGesture(scale, Driver(), ev);
      NoteEvent(ev);
      ForwardEvent(ev);
    }

    // ---- emptying the list ----------------------------------------------------------------

    /** The event under construction, a new one if there is none. */
    method EnsureCurrent()
      requires ListValid()
      modifies this`currentEvent
      ensures ListValid() && ListVal() == old(ListVal()) && currentEvent != null
      ensures currentEvent == old(currentEvent) || fresh(EventStorage())
    {
      if currentEvent == null {
        currentEvent := new TouchEvent(max);
      }
    }

    /** Reads one event of the list. */
    method ReadOne() returns (e: TouchEvent?)
      requires ListValid() && currentEvent != null && inputRead < inputFilled
      modifies this`inputRead, this`currentEvent, EventStorage()
      ensures ListValid() && fresh(EventStorage() - old(EventStorage()))
      ensures var before := old(ListVal());
              var r := React(max, before.items, before.pending[0]);
              && ListVal() == ParserVal(before.pending[1..], r.items, readInput)
              && (e == null ==> r.out == None && currentEvent != null)
              && (e != null ==> e.Valid() && r.out == Some(e.Items()) && HandedOver(e))
    {
      hide React;
      var ev := input[inputRead];
      assert ev == ListVal().pending[0];
      inputRead := inputRead + 1;
      currentEvent, e := Parse(max, currentEvent, ev);
    }

    /** Reads the list until a touch event is complete or the list ends. */
    method ReadList() returns (e: TouchEvent?)
      requires ListValid()
      modifies this`inputRead, this`currentEvent, EventStorage()
      ensures ListValid() && fresh(EventStorage() - old(EventStorage()))
      ensures var before := old(ListVal());
              var r := Scan(max, before.items, before.pending);
              && ListVal() == ParserVal(r.rest, r.items, readInput)
              && (e == null ==> r.out == None)
              && (e != null ==> e.Valid() && r.out == Some(e.Items()) && HandedOver(e))
    {
      hide React, TouchEvent.Items;
      e := null;
      EnsureCurrent();
      ghost var before := ListVal();
      while inputRead < inputFilled
        invariant ListValid() && currentEvent != null && e == null
        invariant fresh(EventStorage() - old(EventStorage()))
        invariant Scan(max, ListVal().items, ListVal().pending) == Scan(max, before.items, before.pending)
      {
        e := ReadOne();
        if e != null {
          break;
        }
      }
    }

    /** Looks at the device if the list has been read to its end. */
    method Refill(raw: Option<InputEvent>)
      requires Valid()
      modifies this, tracker, tracker.Storage(), input
      ensures Valid() && (currentEvent == null || currentEvent == old(currentEvent))
      ensures Driver() == if Reads(old(Val()), raw) then Handle(scale, old(Driver()), raw.value) else old(Driver())
      ensures ListVal() == PollSpec.Refill(old(ListVal()), Input(scale, old(Val()), raw)) && readInput
    {
      hide Idle, Lone, Handle, BatchFor, TouchEvent.Valid, TouchEvent.Items;
      hide Tracker.FingerTracker.Valid, Tracker.FingerTracker.Sound, Tracker.Vals;
      tracker.ValidCounts();
      if !readInput {
        if raw.Some? {
          HandleNewEvent(raw.value);
        }
        currentEvent := null;
        readInput := true;
      }
    }

    /** Notes that the list has been read to its end, if so. */
    method NoteEnd()
      requires Valid() && readInput
      modifies this`readInput
      ensures Valid() && Driver() == old(Driver())
      ensures ListVal() == old(ListVal()).(readInput := old(ListVal()).pending != [])
    {
      assert |ListVal().pending| == inputFilled - inputRead;
      if inputRead == inputFilled {
        readInput := false;
      }
    }

    /** What a call does before it reads the list. */
    method StartCall(raw: Option<InputEvent>)
      requires Valid()
      modifies this, tracker, tracker.Storage(), input
      ensures Valid() && (currentEvent == null || currentEvent == old(currentEvent))
      ensures Driver() == if Reads(old(Val()), raw) then Handle(scale, old(Driver()), raw.value) else old(Driver())
      ensures var refilled := PollSpec.Refill(old(ListVal()), Input(scale, old(Val()), raw));
              ListVal() == refilled.(readInput := refilled.pending != [])
    {
      hide Idle, Handle, PollSpec.Refill, Input, Reads;
      hide Tracker.FingerTracker.Valid, Tracker.FingerTracker.Sound, Tracker.Vals, TouchEvent.Items;
      Refill(raw);
      NoteEnd();
    }

    /** Reading the list does not touch the driver. */
    method ReadListAlone() returns (e: TouchEvent?)
      requires ListValid() && DriverValid()
      modifies this`inputRead, this`currentEvent, EventStorage()
      ensures ListValid() && DriverValid() && Driver() == old(Driver())
      ensures fresh(EventStorage() - old(EventStorage()))
      ensures var before := old(ListVal());
              var r := Scan(max, before.items, before.pending);
              && ListVal() == ParserVal(r.rest, r.items, readInput)
              && (e == null ==> r.out == None)
              && (e != null ==> e.Valid() && r.out == Some(e.Items()) && HandedOver(e))
    {
      hide Scan, Tracker.FingerTracker.Valid, Tracker.FingerTracker.Sound, Idle;
      Elsewhere();
      e := ReadList();
    }

    lemma Elsewhere()
      requires DriverValid()
      ensures tracker.Storage() !! EventStorage()
    {}

    /** One call of the module: `raw` is the event the device has, if it has one. */
    method GetEvent(raw: Option<InputEvent>) returns (e: TouchEvent?)
      requires Valid()
      modifies this, tracker, tracker.Storage(), input, EventStorage()
      ensures Valid()
      ensures Driver() == Call(max, scale, old(Val()), raw).0.driver
      ensures ListVal() == Call(max, scale, old(Val()), raw).0.parser
      ensures e == null ==> Call(max, scale, old(Val()), raw).1 == None
      ensures e != null ==> e.Valid() && Call(max, scale, old(Val()), raw).1 == Some(e.Items()) && HandedOver(e)
      ensures fresh(EventStorage() - old(EventStorage()))
      ensures !old(readInput) && raw.Some? ==> Driver() == Handle(scale, old(Driver()), raw.value)
      ensures old(readInput) || raw == None ==> Driver() == old(Driver())
    {
      hide Idle, Handle, BatchFor, Scan, Call, Poll, PollSpec.Refill, Input, Reads;
      hide Tracker.FingerTracker.Valid, Tracker.FingerTracker.Sound, Tracker.Vals, TouchEvent.Items;
      tracker.ValidCounts();
      CallIs(max, scale, Val(), raw);
      CallReads(max, scale, Val(), raw);
      StartCall(raw);
      e := ReadListAlone();
    }
  }

  lemma CallIs(max: nat, scale: Scale, p: PanelVal, raw: Option<InputEvent>)
    requires Idle(p.driver.tracker)
    ensures var start := PollSpec.Refill(p.parser, Input(scale, p, raw));
            var r := Scan(max, start.items, start.pending);
            Call(max, scale, p, raw)
            == (PanelVal(if Reads(p, raw) then Handle(scale, p.driver, raw.value) else p.driver,
                         ParserVal(r.rest, r.items, start.pending != [])), r.out)
  {
    hide Scan, Handle, BatchFor;
  }

  lemma CallReads(max: nat, scale: Scale, p: PanelVal, raw: Option<InputEvent>)
    requires Idle(p.driver.tracker)
    ensures Call(max, scale, p, raw).0.driver
         == if !p.parser.readInput && raw.Some? then Handle(scale, p.driver, raw.value) else p.driver
  {
    hide Handle, Poll, BatchFor;
  }

  lemma HandleCaches(scale: Scale, d: DriverVal, ev: InputEvent)
    requires Idle(d.tracker)
    ensures var d' := Handle(scale, d, ev);
            && d'.cachedX == (if ev.typ == EV_ABS && ev.code == ABS_X then scale.x(ev.value) else d.cachedX)
            && d'.cachedY == (if ev.typ == EV_ABS && ev.code == ABS_Y then scale.y(ev.value) else d.cachedY)
            && d'.button == (if ev.typ == EV_KEY && ev.code in {BTN_TOUCH, BTN_LEFT} then ev.value else d.button)
  {
    hide Frame;
  }

  /** An event makes a frame's batch, or is forwarded, or leaves the list alone; none does two of these. */
  lemma BatchIsGesture(scale: Scale, d: DriverVal, ev: InputEvent)
    requires Idle(d.tracker)
    ensures BatchFor(scale, d, ev)
         == if IsForwarded(ev) then Some([ev, InputEvent(EV_SYN, SYN_START, 0)]) else GestureFor(scale, d, ev)
    ensures IsForwarded(ev) ==> GestureFor(scale, d, ev) == None
  {
    hide BlocksFor, Batch;
  }

  /** The event list after an event: replaced by the batch, if there is one, and unchanged otherwise. */
  ghost predicate ListAfter(batch: Option<seq<InputEvent>>, read: int, filled: int, input: seq<InputEvent>,
                            oldRead: int, oldFilled: int, oldInput: seq<InputEvent>)
  {
    match batch
    case Some(b) => read == 0 <= filled <= |input| && input[..filled] == b
    case None => read == oldRead && filled == oldFilled && input == oldInput
  }

  /** The batch of an event that makes a frame. */
  ghost function GestureFor(scale: Scale, d: DriverVal, ev: InputEvent): Option<seq<InputEvent>>
    requires Idle(d.tracker)
  {
    if FrameFor(scale, d, ev).Some? then Some(Batch(0, BlocksFor(scale, d, ev))) else None
  }

  lemma HandleIsGesture(scale: Scale, d: DriverVal, ev: InputEvent)
    requires Idle(d.tracker)
    ensures var noted := Noted(scale, d, ev);
            && noted.tracker == d.tracker
            && (Handle(scale, d, ev), GestureFor(scale, d, ev))
               == if IsTouchButton(ev) && ev.value == 0 then
                    (WithFrame(noted, true), Some(GestureEvents(noted, true)))
                  else if ev.typ == EV_SYN then
                    (WithFrame(noted, d.button != 0), Some(GestureEvents(noted, d.button != 0)))
                  else
                    (noted, None)
  {
    hide Frame, FrameBlocks, Batch;
  }

  ghost function WithFrame(d: DriverVal, pressed: bool): DriverVal
    requires Idle(d.tracker)
  {
    d.(tracker := Frame(MOUSE, d.tracker, Touch(d, pressed)))
  }

  ghost function GestureEvents(d: DriverVal, pressed: bool): seq<InputEvent>
    requires Idle(d.tracker)
  {
    FrameEvents(MOUSE, d.tracker, Touch(d, pressed), 0)
  }

  /** Runs the tracker on one contact, or on none. */
  method RunFrame(tracker: Tracker.FingerTracker, x: int, y: int, pressed: bool, input: array<InputEvent>,
                  ghost cs: seq<Contact>) returns (n: nat)
    requires tracker.Valid()
    requires cs == if pressed then [Contact(x, y, 1)] else []
    requires |FrameEvents(tracker.settings, tracker.Val(), cs, 0)| <= input.Length
    modifies tracker, tracker.Storage(), input
    ensures tracker.Valid() && tracker.Val() == Frame(tracker.settings, old(tracker.Val()), cs)
    ensures n <= input.Length && input[..n] == FrameEvents(tracker.settings, old(tracker.Val()), cs, 0)
  {
    hide Frame, FrameEvents, Idle, Tracker.FingerTracker.Sound, Tracker.FingerTracker.Valid, Tracker.ContactsOf;
    var xOrd, yOrd, wOrd, fingers := OneContact(x, y, pressed);
    n := tracker.GestureStateMachine(xOrd, yOrd, wOrd, fingers, input, 0, cs);
  }

  /** The contact arrays of the driver: room for two, of which at most the first is used. */
  method OneContact(x: int, y: int, pressed: bool)
    returns (xOrd: array<int>, yOrd: array<int>, wOrd: array<int>, fingers: nat)
    ensures fresh(xOrd) && fresh(yOrd) && fresh(wOrd) && xOrd != yOrd && wOrd != xOrd && wOrd != yOrd
    ensures fingers <= xOrd.Length && fingers <= yOrd.Length && fingers <= wOrd.Length
    ensures Tracker.ContactsOf(xOrd, yOrd, wOrd, fingers) == if pressed then [Contact(x, y, 1)] else []
  {
    xOrd := new int[2](_ => 0);
    yOrd := new int[2](_ => 0);
    wOrd := new int[2](_ => 0);
    xOrd[0], yOrd[0], wOrd[0] := x, y, if pressed then 1 else 0;
    fingers := if pressed then 1 else 0;
  }

  /** The driver's frames are small, and leave at most one finger. */
  lemma DriverFrameFits(d: DriverVal, pressed: bool)
    requires Single(d)
    ensures Lone(WithFrame(d, pressed).tracker)
    ensures |GestureEvents(d, pressed)| <= 5
  {
    hide Frame, FrameBlocks, EncodeAll;
    var v, cs := d.tracker, Touch(d, pressed);
    FrameKeepsIdle(MOUSE, v, cs);
    if cs == [] {
      LiftFrame(v);
    } else {
      TouchFrame(v, cs[0]);
    }
    BatchSize(FrameBlocks(MOUSE, v, cs));
    BlocksAreSingle(MOUSE, v, cs);
    CountsExclude(FrameBlocks(MOUSE, v, cs));
  }

  // ---- a client -------------------------------------------------------------------------

  /** The events a client holds are, now, what was delivered. */
  ghost predicate Hold(events: seq<TouchEvent>, delivered: seq<seq<TouchItem>>)
    reads events, set e | e in events :: e.itemArray
  {
    |events| == |delivered| && forall k :: 0 <= k < |events| ==> events[k].Valid() && events[k].Items() == delivered[k]
  }

  /** No event a client holds is, or shares items with, the one the module is building. */
  ghost predicate Apart(panel: Panel, events: seq<TouchEvent>)
    reads panel`currentEvent
  {
    forall k :: 0 <= k < |events| ==> panel.HandedOver(events[k])
  }

  /** Everything a call may change. */
  ghost function Footprint(panel: Panel): set<object>
    reads panel`currentEvent
  {
    {panel as object, panel.tracker, panel.input} + panel.tracker.Storage() + panel.EventStorage()
  }

  lemma HeldElsewhere(panel: Panel, events: seq<TouchEvent>)
    requires Apart(panel, events)
    ensures forall k :: 0 <= k < |events| ==> events[k] !in Footprint(panel) && events[k].itemArray !in Footprint(panel)
  {}

  /** One more call by a client that holds some events already; none of those is touched. */
  method ServeOne(panel: Panel, events: seq<TouchEvent>, raw: Option<InputEvent>, ghost delivered: seq<seq<TouchItem>>)
    returns (held: seq<TouchEvent>)
    requires panel.Valid() && Hold(events, delivered) && Apart(panel, events)
    modifies panel, panel.tracker, panel.tracker.Storage(), panel.input, panel.EventStorage()
    ensures panel.Valid() && panel.Val() == Call(panel.max, panel.scale, old(panel.Val()), raw).0
    ensures fresh(panel.EventStorage() - old(panel.EventStorage())) && Apart(panel, held)
    ensures var out := Call(panel.max, panel.scale, old(panel.Val()), raw).1;
            Hold(held, delivered + if out.Some? then [out.value] else [])
  {
    hide Call, Idle, Panel.Valid, Tracker.FingerTracker.Valid, Tracker.FingerTracker.Storage;
    HeldElsewhere(panel, events);
    var e := panel.GetEvent(raw);
    assert Hold(events, delivered);
    held := events;
    if e != null {
      held := events + [e];
    }
  }

  /** A client that opens the module and calls it again and again, whatever the device has at each call: the
      events it holds at the end, none of which the module has touched since, are those a pointer that follows the
      raw events gives, and their items go down, move and up in turn. */
  method Serve(max: nat, listSize: nat, scale: Scale, raws: seq<Option<InputEvent>>)
    returns (panel: Panel, events: seq<TouchEvent>)
    requires max >= 1 && listSize >= 5
    ensures panel.Valid() && panel.Val() == Watch(max, scale, raws).Panel()
    ensures Hold(events, Watch(max, scale, raws).log.delivered)
    ensures Hold(events, Pointer.Returned(Pointer.Served(scale, raws).results))
    ensures Follow(KindsOfItems(Flatten(Watch(max, scale, raws).log.delivered))).Some?
  {
    hide Call, Next, Idle, Watch, Hold, Apart, Follow, KindsOfItems, Flatten, Panel.Valid, Tracker.FingerTracker.Storage;
    panel := new Panel(max, listSize, scale);
    events := [];
    NobodyWatched(max, scale);
    NothingHeld(panel);
    for i := 0 to |raws|
      invariant panel.Valid() && panel.max == max && panel.scale == scale
      invariant fresh(panel) && fresh(panel.tracker) && fresh(panel.tracker.Storage()) && fresh(panel.input)
      invariant fresh(panel.EventStorage())
      invariant panel.Val() == Watch(max, scale, raws[..i]).Panel()
      invariant Hold(events, Watch(max, scale, raws[..i]).log.delivered) && Apart(panel, events)
    {
      WatchOneMore(max, scale, raws, i);
      events := ServeOne(panel, events, raws[i], Watch(max, scale, raws[..i]).log.delivered);
    }
    assert raws[..|raws|] == raws;
    ClientSeesTouches(max, scale, raws);
    Pointer.PanelIsPointer(max, scale, raws);
  }

  lemma NothingHeld(panel: Panel)
    ensures Hold([], []) && Apart(panel, [])
  {}

  lemma NobodyWatched(max: nat, scale: Scale)
    ensures Watch(max, scale, []).Panel() == OPENED && Watch(max, scale, []).log.delivered == []
  {}

  lemma WatchOneMore(max: nat, scale: Scale, raws: seq<Option<InputEvent>>, i: nat)
    requires i < |raws|
    ensures var h, h' := Watch(max, scale, raws[..i]), Watch(max, scale, raws[..i + 1]);
            var (p, out) := Call(max, scale, h.Panel(), raws[i]);
            && h'.Panel() == p
            && h'.log.delivered == h.log.delivered + if out.Some? then [out.value] else []
  {
    hide Call, Next;
    assert raws[..i + 1][..i] == raws[..i];
    NextIsCall(max, scale, Watch(max, scale, raws[..i]), raws[i]);
  }
}
