/** The keypad module: a resumable reader that turns batches of raw input into key events. */
module Keys {
  import opened Events
  import opened Wrappers

  const MAX_EVENTS: nat := 64

  const KEY_END: int := 107
  const KEY_HOME: int := 102
  const KEY_MUTE: int := 113
  const KEY_VOLUMEDOWN: int := 114
  const KEY_VOLUMEUP: int := 115
  const KEY_PAUSE: int := 119
  const KEY_STOP: int := 128
  const KEY_REWIND: int := 168
  const KEY_PLAY: int := 207
  const KEY_FASTFORWARD: int := 208
  const KEY_SEARCH: int := 217
  const KEY_BRIGHTNESSDOWN: int := 224
  const KEY_BRIGHTNESSUP: int := 225
  const KEY_NEXT: int := 407
  const KEY_PREVIOUS: int := 412

  /** The custom keys of the client interface. */
  datatype CustomKey = Home | VolUp | VolDown | PowerOn | MediaPlay | MediaPause | MediaStop | MediaNext
                     | MediaPrevious | Search | BrightnessDown | BrightnessUp | VolMute | MediaRewind
                     | MediaFastForward

  /** A key as the client sees it: a custom key, or a standard one under its raw code. */
  datatype Key = Custom(name: CustomKey) | Standard(code: int)

  datatype KeyVal = KeyVal(key: Key, isPress: bool, isAutoRepeat: bool)

  /** The meaning of a key code. */
  function Meaning(code: int): Key {
    if code == KEY_HOME then Custom(Home)
    else if code == KEY_VOLUMEUP then Custom(VolUp)
    else if code == KEY_VOLUMEDOWN then Custom(VolDown)
    else if code == KEY_END then Custom(PowerOn)
    else if code == KEY_PLAY then Custom(MediaPlay)
    else if code == KEY_PAUSE then Custom(MediaPause)
    else if code == KEY_STOP then Custom(MediaStop)
    else if code == KEY_NEXT then Custom(MediaNext)
    else if code == KEY_PREVIOUS then Custom(MediaPrevious)
    else if code == KEY_SEARCH then Custom(Search)
    else if code == KEY_BRIGHTNESSDOWN then Custom(BrightnessDown)
    else if code == KEY_BRIGHTNESSUP then Custom(BrightnessUp)
    else if code == KEY_MUTE then Custom(VolMute)
    else if code == KEY_REWIND then Custom(MediaRewind)
    else if code == KEY_FASTFORWARD then Custom(MediaFastForward)
    else Standard(code)
  }

  /** The code behind a key: every key the client sees comes from exactly one. */
  function CodeOf(key: Key): int {
    match key
    case Standard(code) => code
    case Custom(name) =>
      match name
      case Home => KEY_HOME
      case VolUp => KEY_VOLUMEUP
      case VolDown => KEY_VOLUMEDOWN
      case PowerOn => KEY_END
      case MediaPlay => KEY_PLAY
      case MediaPause => KEY_PAUSE
      case MediaStop => KEY_STOP
      case MediaNext => KEY_NEXT
      case MediaPrevious => KEY_PREVIOUS
      case Search => KEY_SEARCH
      case BrightnessDown => KEY_BRIGHTNESSDOWN
      case BrightnessUp => KEY_BRIGHTNESSUP
      case VolMute => KEY_MUTE
      case MediaRewind => KEY_REWIND
      case MediaFastForward => KEY_FASTFORWARD
  }

  lemma EveryKeyHasOneCode(code: int, name: CustomKey)
    ensures CodeOf(Meaning(code)) == code
    ensures Meaning(CodeOf(Custom(name))) == Custom(name)
  {
    match name {
      case Home => case VolUp => case VolDown => case PowerOn => case MediaPlay => case MediaPause =>
      case MediaStop => case MediaNext => case MediaPrevious => case Search => case BrightnessDown =>
      case BrightnessUp => case VolMute => case MediaRewind => case MediaFastForward =>
    }
  }

  /** The lookup by number: fifteen codes of Linux's input interface are custom keys, and all others stay as they are. */
  lemma MeaningOfCodes(code: int)
    ensures Meaning(102) == Custom(Home) && Meaning(107) == Custom(PowerOn)
    ensures Meaning(113) == Custom(VolMute) && Meaning(114) == Custom(VolDown) && Meaning(115) == Custom(VolUp)
    ensures Meaning(207) == Custom(MediaPlay) && Meaning(119) == Custom(MediaPause) && Meaning(128) == Custom(MediaStop)
    ensures Meaning(407) == Custom(MediaNext) && Meaning(412) == Custom(MediaPrevious)
    ensures Meaning(168) == Custom(MediaRewind) && Meaning(208) == Custom(MediaFastForward)
    ensures Meaning(217) == Custom(Search)
    ensures Meaning(224) == Custom(BrightnessDown) && Meaning(225) == Custom(BrightnessUp)
    ensures code !in {102, 107, 113, 114, 115, 207, 119, 128, 407, 412, 168, 208, 217, 224, 225} ==>
              Meaning(code) == Standard(code)
  {}

  function KeyFrom(ev: InputEvent): KeyVal {
    KeyVal(Meaning(ev.code), ev.value != 0, ev.value > 1)
  }

  // ---- one call -------------------------------------------------------------------------

  /** The key events among raw events, in order. */
  function KeysIn(evs: seq<InputEvent>): seq<KeyVal> {
    if evs == [] then [] else
      (if evs[0].typ == EV_KEY then [KeyFrom(evs[0])] else []) + KeysIn(evs[1..])
  }

  /** What is left after the first key event, and that event. */
  function TakeKey(evs: seq<InputEvent>): (r: (seq<InputEvent>, Option<KeyVal>))
    ensures |r.0| <= |evs|
  {
    if evs == [] then ([], None)
    else if evs[0].typ == EV_KEY then (evs[1..], Some(KeyFrom(evs[0])))
    else TakeKey(evs[1..])
  }

  /** Where the first key event is; the length if there is none. */
  function FirstKey(evs: seq<InputEvent>): (k: nat)
    ensures k <= |evs|
    ensures forall i :: 0 <= i < k ==> evs[i].typ != EV_KEY
    ensures k < |evs| ==> evs[k].typ == EV_KEY
  {
    if evs == [] || evs[0].typ == EV_KEY then 0 else 1 + FirstKey(evs[1..])
  }

  lemma {:induction false} TakeKeyIsFirst(evs: seq<InputEvent>)
    ensures var k := FirstKey(evs);
            TakeKey(evs) == if k < |evs| then (evs[k + 1..], Some(KeyFrom(evs[k]))) else ([], None)
  {
    hide KeyFrom;
    if evs != [] && evs[0].typ != EV_KEY {
      TakeKeyIsFirst(evs[1..]);
    }
  }

  /** A key event as the client sees it tells the code, press and repetition of its record. */
  predicate Tells(k: KeyVal, record: InputEvent) {
    CodeOf(k.key) == record.code && (k.isPress <==> record.value != 0) && (k.isAutoRepeat <==> record.value > 1)
  }

  lemma KeyTellsRecord(ev: InputEvent)
    ensures Tells(KeyFrom(ev), ev)
  {
    EveryKeyHasOneCode(ev.code, Home);
  }

  lemma TakeKeyTells(evs: seq<InputEvent>)
    ensures var (rest, out), k := TakeKey(evs), FirstKey(evs);
            && rest == (if k < |evs| then evs[k + 1..] else [])
            && (out == None <==> k == |evs|)
            && (out.Some? ==> Tells(out.value, evs[k]))
  {
    hide KeyFrom, Tells;
    TakeKeyIsFirst(evs);
    if FirstKey(evs) < |evs| {
      KeyTellsRecord(evs[FirstKey(evs)]);
    }
  }

  lemma TakeKeyOnce(evs: seq<InputEvent>)
    ensures evs == [] ==> TakeKey(evs) == ([], None)
    ensures evs != [] ==>
              TakeKey(evs) == if evs[0].typ == EV_KEY then (evs[1..], Some(KeyFrom(evs[0]))) else TakeKey(evs[1..])
  {
    hide KeyFrom;
  }

  function Delivered(out: Option<KeyVal>): seq<KeyVal> {
    if out.Some? then [out.value] else []
  }

  /** One call: `batch` is looked at only if nothing is pending. */
  function Poll(pending: seq<InputEvent>, batch: seq<InputEvent>): (seq<InputEvent>, Option<KeyVal>) {
    TakeKey(if pending == [] then batch else pending)
  }

  /** What a read of the device brings; a failed one brings nothing. */
  function Received(batch: Option<seq<InputEvent>>): seq<InputEvent> {
    if batch.Some? then batch.value else []
  }

  // ---- whole runs -----------------------------------------------------------------------

  /** A run so far: what is pending, every raw event read, and every key event delivered. */
  datatype KeyLog = KeyLog(pending: seq<InputEvent>, stream: seq<InputEvent>, delivered: seq<KeyVal>)

  function LogPoll(l: KeyLog, batch: seq<InputEvent>): KeyLog {
    var (pending, out) := Poll(l.pending, batch);
    KeyLog(pending, l.stream + (if l.pending == [] then batch else []),
           l.delivered + Delivered(out))
  }

  function Listen(batches: seq<seq<InputEvent>>): KeyLog {
    if batches == [] then KeyLog([], [], []) else LogPoll(Listen(batches[..|batches| - 1]), batches[|batches| - 1])
  }

  lemma KeysInMore(ev: InputEvent, evs: seq<InputEvent>)
    ensures KeysIn([ev] + evs) == KeysIn([ev]) + KeysIn(evs)
  {
    assert ([ev] + evs)[1..] == evs;
  }

  lemma {:induction false} KeysInConcat(a: seq<InputEvent>, b: seq<InputEvent>)
    ensures KeysIn(a + b) == KeysIn(a) + KeysIn(b)
  {
    hide KeysIn;
    if a == [] {
      NothingIn();
      assert a + b == b;
    } else {
      var first, rest := a[0], a[1..];
      KeysInConcat(rest, b);
      KeysInMore(first, rest);
      KeysInMore(first, rest + b);
      assert [first] + rest == a;
      assert [first] + (rest + b) == a + b;
    }
  }

  lemma {:induction false} TakeKeyUses(evs: seq<InputEvent>)
    ensures TakeKey(evs).0 == evs[|evs| - |TakeKey(evs).0|..]
    ensures KeysIn(evs) == Delivered(TakeKey(evs).1) + KeysIn(TakeKey(evs).0)
    ensures TakeKey(evs).1 == None ==> TakeKey(evs).0 == []
  {
    hide KeyFrom, Delivered;
    if evs == [] {
      DeliveredIs(KeyFrom(SYN));
    } else {
      DeliveredIs(KeyFrom(evs[0]));
      TakeKeyUses(evs[1..]);
      assert evs[1..][|evs| - 1 - |TakeKey(evs[1..]).0|..] == evs[|evs| - |TakeKey(evs[1..]).0|..];
    }
  }

  lemma DeliveredIs(k: KeyVal)
    ensures Delivered(None) == [] && Delivered(Some(k)) == [k]
  {}

  /** Pending events are the end of what was read, and the rest has been delivered. */
  ghost predicate Faithful(l: KeyLog) {
    && |l.pending| <= |l.stream|
    && l.pending == l.stream[|l.stream| - |l.pending|..]
    && KeysIn(l.stream) == l.delivered + KeysIn(l.pending)
  }

  lemma EndOfEnd(a: seq<InputEvent>, b: seq<InputEvent>, c: seq<InputEvent>)
    requires |b| <= |a| && b == a[|a| - |b|..] && |c| <= |b| && c == b[|b| - |c|..]
    ensures c == a[|a| - |c|..]
  {}

  lemma TakeKeyIsFaithful(l: KeyLog)
    requires Faithful(l)
    ensures var (pending, out) := TakeKey(l.pending);
            Faithful(KeyLog(pending, l.stream, l.delivered + Delivered(out)))
  {
    hide KeysIn, TakeKey, Delivered;
    TakeKeyUses(l.pending);
    EndOfEnd(l.stream, l.pending, TakeKey(l.pending).0);
  }

  lemma PollIsFaithful(l: KeyLog, batch: seq<InputEvent>)
    requires Faithful(l)
    ensures Faithful(LogPoll(l, batch))
  {
    hide KeysIn, TakeKey, Delivered;
    NothingIn();
    if l.pending == [] {
      KeysInConcat(l.stream, batch);
      assert batch == (l.stream + batch)[|l.stream + batch| - |batch|..];
      TakeKeyIsFaithful(KeyLog(batch, l.stream + batch, l.delivered));
    } else {
      assert l.stream + [] == l.stream;
      TakeKeyIsFaithful(l);
    }
  }

  lemma NothingIn()
    ensures KeysIn([]) == []
  {}

  /** The reader is a filter: over any batches and any calls, the key events delivered, followed by those
      pending, are those of everything read, in order, each once. */
  lemma {:induction false} ReaderIsFilter(batches: seq<seq<InputEvent>>)
    ensures var l := Listen(batches);
            && Faithful(l)
            && (l.pending == [] ==> l.delivered == KeysIn(l.stream))
  {
    hide KeysIn, LogPoll;
    NothingIn();
    if batches != [] {
      ReaderIsFilter(batches[..|batches| - 1]);
      PollIsFaithful(Listen(batches[..|batches| - 1]), batches[|batches| - 1]);
    }
  }

  /** The records of keys among raw events. */
  function Records(evs: seq<InputEvent>): seq<InputEvent> {
    if evs == [] then [] else
      var n := |evs| - 1;
      Records(evs[..n]) + if evs[n].typ == EV_KEY then [evs[n]] else []
  }

  ghost predicate AllTell(keys: seq<KeyVal>, records: seq<InputEvent>) {
    |keys| == |records| && forall k :: 0 <= k < |keys| ==> Tells(keys[k], records[k])
  }

  lemma KeysOfOne(ev: InputEvent)
    ensures AllTell(KeysIn([ev]), if ev.typ == EV_KEY then [ev] else [])
  {
    hide Tells;
    KeyTellsRecord(ev);
    assert [ev][1..] == [];
  }

  lemma {:induction false} KeysTellRecords(evs: seq<InputEvent>)
    ensures AllTell(KeysIn(evs), Records(evs))
  {
    hide Tells, KeysIn;
    if evs == [] {
      NothingIn();
    } else {
      var n := |evs| - 1;
      KeysTellRecords(evs[..n]);
      KeysInConcat(evs[..n], [evs[n]]);
      KeysOfOne(evs[n]);
      assert evs == evs[..n] + [evs[n]];
    }
  }

  /** Over any batches and calls, the k-th key event delivered tells the k-th key record of what was read, and none
      is outstanding when nothing is pending. */
  lemma DeliveredTellRecords(batches: seq<seq<InputEvent>>)
    ensures var l := Listen(batches);
            && |l.delivered| <= |Records(l.stream)|
            && (l.pending == [] ==> |l.delivered| == |Records(l.stream)|)
            && forall k :: 0 <= k < |l.delivered| ==> Tells(l.delivered[k], Records(l.stream)[k])
  {
    hide Tells, KeysIn, Records, Listen;
    ReaderIsFilter(batches);
    KeysTellRecords(Listen(batches).stream);
  }

  /** A batch is read exactly when nothing is pending, and then as a whole. */
  lemma WholeBatchesAreRead(batches: seq<seq<InputEvent>>, batch: seq<InputEvent>)
    ensures Listen(batches + [batch]).stream
         == Listen(batches).stream + if Listen(batches).pending == [] then batch else []
  {
    assert (batches + [batch])[..|batches|] == batches;
  }

  // ---- the module -----------------------------------------------------------------------

  class KeyEvent {
    var key: Key
    var isPress: bool
    var isAutoRepeat: bool

    function Val(): KeyVal
      reads this
    {
      KeyVal(key, isPress, isAutoRepeat)
    }

    constructor ()
      ensures Val() == KeyVal(Standard(0), false, false)
    {
      key, isPress, isAutoRepeat := Standard(0), false, false;
    }
  }

  class KeysDevice {
    const rawEvents: array<InputEvent>
    var eventCount: int
    var eventIter: int
    var currentEvent: KeyEvent?

    ghost predicate Valid()
      reads this
    {
      && rawEvents.Length == MAX_EVENTS
      && eventCount <= MAX_EVENTS
      && (eventIter == 0 || 0 < eventIter < eventCount)
    }

    /** The events read and not yet looked at; none once the iterator is back at zero. */
    ghost function Pending(): seq<InputEvent>
      requires Valid()
      reads this, rawEvents
    {
      if eventIter == 0 then [] else rawEvents[eventIter..eventCount]
    }

    constructor ()
      ensures Valid() && Pending() == []
      ensures fresh(rawEvents) && currentEvent == null
    {
      rawEvents := new InputEvent[MAX_EVENTS](_ => SYN);
      eventCount, eventIter := 0, 0;
      currentEvent := null;
    }

    /** Copies what the device has into the buffer; `None` is a failed read, which counts as -1 events. */
    method ReadInput(batch: Option<seq<InputEvent>>) returns (n: int)
      requires rawEvents.Length == MAX_EVENTS && (batch.Some? ==> |batch.value| <= MAX_EVENTS)
      modifies rawEvents
      ensures n == if batch.Some? then |batch.value| else -1
      ensures batch.Some? ==> rawEvents[..n] == batch.value
    {
      if batch == None {
        return -1;
      }
      n := |batch.value|;
      for i := 0 to n
        invariant rawEvents[..i] == batch.value[..i]
      {
        rawEvents[i] := batch.value[i];
      }
    }

    /** What holds while the buffer is being read. */
    ghost predicate Reading()
      reads this
    {
      && rawEvents.Length == MAX_EVENTS >= eventCount
      && 0 <= eventIter && (eventIter == 0 || eventIter <= eventCount)
      && currentEvent != null
    }

    ghost function Unread(): seq<InputEvent>
      requires rawEvents.Length == MAX_EVENTS >= eventCount && 0 <= eventIter && (eventIter == 0 || eventIter <= eventCount)
      reads this, rawEvents
    {
      if eventCount < 0 then [] else rawEvents[eventIter..eventCount]
    }

    /** Reads the device if nothing is pending, and has an event ready to be filled in. */
    method StartReading(batch: Option<seq<InputEvent>>)
      requires Valid() && (batch.Some? ==> |batch.value| <= MAX_EVENTS)
      modifies this, rawEvents
      ensures Reading() && (currentEvent == old(currentEvent) || fresh(currentEvent))
      ensures Unread() == if old(Pending()) != [] then old(Pending()) else Received(batch)
    {
      if eventIter == 0 {
        eventCount := ReadInput(batch);
        currentEvent := null;
      }
      if currentEvent == null {
        currentEvent := new KeyEvent();
      }
    }

    /** Looks at one event; returns the key event it makes, if it is of that type. */
    method ReadOne() returns (e: KeyEvent?)
      requires Reading() && eventIter < eventCount
      modifies this, currentEvent
      ensures rawEvents.Length == MAX_EVENTS >= eventCount && 0 < eventIter <= eventCount
      ensures eventCount == old(eventCount) && Unread() == old(Unread())[1..] && eventIter == old(eventIter) + 1
      ensures e == null ==> old(Unread())[0].typ != EV_KEY && currentEvent == old(currentEvent)
      ensures e != null ==> old(Unread())[0].typ == EV_KEY && e.Val() == KeyFrom(old(Unread())[0])
      ensures e != null ==> e == old(currentEvent) && currentEvent == null
    {
      hide Meaning;
      e := null;
      var ev := rawEvents[eventIter];
      eventIter := eventIter + 1;
      if ev.typ != EV_KEY {
        return;
      }
      currentEvent.key := LookupKey(ev.code);
      currentEvent.isPress := ev.value != 0;
      currentEvent.isAutoRepeat := ev.value > 1;
      e := currentEvent;
      currentEvent := null;
    }

    /** One call of the module; it returns null when the source leaves the client's pointer alone. */
    method GetEvent(batch: Option<seq<InputEvent>>) returns (e: KeyEvent?)
      requires Valid() && (batch.Some? ==> |batch.value| <= MAX_EVENTS)
      modifies this, rawEvents, currentEvent
      ensures Valid()
      ensures currentEvent == null || currentEvent == old(currentEvent) || fresh(currentEvent)
      ensures var start := if old(Pending()) != [] then old(Pending()) else if batch.Some? then batch.value else [];
              var k := FirstKey(start);
              && (e == null <==> k == |start|)
              && Pending() == (if k < |start| then start[k + 1..] else [])
              && (e != null ==> CodeOf(e.key) == start[k].code
                                && (e.isPress <==> start[k].value != 0) && (e.isAutoRepeat <==> start[k].value > 1))
      ensures Pending() == Poll(old(Pending()), Received(batch)).0
      ensures e == null ==> Poll(old(Pending()), Received(batch)).1 == None
      ensures e != null ==> Poll(old(Pending()), Received(batch)).1 == Some(e.Val())
      ensures e != null ==> e != currentEvent && (e == old(currentEvent) || fresh(e))
    {
      hide KeyFrom, CodeOf, FirstKey, TakeKey;
      e := null;
      StartReading(batch);
      ghost var start := Unread();
      TakeKeyTells(start);
      while eventIter < eventCount
        invariant Reading() && e == null
        invariant currentEvent == old(currentEvent) || fresh(currentEvent)
        invariant TakeKey(start) == TakeKey(Unread())
      {
        TakeKeyOnce(Unread());
        e := ReadOne();
        if e != null {
          break;
        }
      }
      TakeKeyOnce([]);
      if eventIter >= eventCount {
        eventIter := 0;
      }
    }

    /** The lookup table; a key type other than custom leaves the code as it is. */
    method LookupKey(code: int) returns (key: Key)
      ensures key == Meaning(code)
    {
      key := Standard(code);
      if code == KEY_HOME {
        key := Custom(Home);
      } else if code == KEY_VOLUMEUP {
        key := Custom(VolUp);
      } else if code == KEY_VOLUMEDOWN {
        key := Custom(VolDown);
      } else if code == KEY_END {
        key := Custom(PowerOn);
      } else if code == KEY_PLAY {
        key := Custom(MediaPlay);
      } else if code == KEY_PAUSE {
        key := Custom(MediaPause);
      } else if code == KEY_STOP {
        key := Custom(MediaStop);
      } else if code == KEY_NEXT {
        key := Custom(MediaNext);
      } else if code == KEY_PREVIOUS {
        key := Custom(MediaPrevious);
      } else if code == KEY_SEARCH {
        key := Custom(Search);
      } else if code == KEY_BRIGHTNESSDOWN {
        key := Custom(BrightnessDown);
      } else if code == KEY_BRIGHTNESSUP {
        key := Custom(BrightnessUp);
      } else if code == KEY_MUTE {
        key := Custom(VolMute);
      } else if code == KEY_REWIND {
        key := Custom(MediaRewind);
      } else if code == KEY_FASTFORWARD {
        key := Custom(MediaFastForward);
      }
    }
  }
  // ---- a client -------------------------------------------------------------------------

  /** The key events a client holds are, now, what was delivered. */
  ghost predicate Hold(events: seq<KeyEvent>, delivered: seq<KeyVal>)
    reads events
  {
    |events| == |delivered| && forall k :: 0 <= k < |events| ==> events[k].Val() == delivered[k]
  }

  /** One more call by a client that holds some events already; none of those is touched. */
  method ServeOne(device: KeysDevice, events: seq<KeyEvent>, batch: Option<seq<InputEvent>>, ghost delivered: seq<KeyVal>)
    returns (held: seq<KeyEvent>)
    requires device.Valid() && (batch.Some? ==> |batch.value| <= MAX_EVENTS)
    requires Hold(events, delivered) && device.currentEvent !in events
    modifies device, device.rawEvents, device.currentEvent
    ensures device.Valid() && device.currentEvent !in held
    ensures device.currentEvent == null || device.currentEvent == old(device.currentEvent) || fresh(device.currentEvent)
    ensures var (pending, out) := Poll(old(device.Pending()), Received(batch));
            device.Pending() == pending && Hold(held, delivered + Delivered(out))
  {
    hide Poll, Received, KeysDevice.Valid;
    var e := device.GetEvent(batch);
    held := events;
    if e != null {
      held := events + [e];
    }
  }

  lemma ListenOneMore(received: seq<seq<InputEvent>>, i: nat)
    requires i < |received|
    ensures Listen(received[..i + 1]) == LogPoll(Listen(received[..i]), received[i])
  {
    assert received[..i + 1][..i] == received[..i];
  }

  /** A client that opens the module and calls it again and again, whatever each read brings: the key events
      it holds at the end, none of which the module has touched since, are those of the specified run. */
  method Serve(batches: seq<Option<seq<InputEvent>>>) returns (device: KeysDevice, events: seq<KeyEvent>)
    requires forall i :: 0 <= i < |batches| && batches[i].Some? ==> |batches[i].value| <= MAX_EVENTS
    ensures var received := seq(|batches|, i requires 0 <= i < |batches| =>
                                  if batches[i].Some? then batches[i].value else []);
            var l := Listen(received);
            device.Valid() && device.Pending() == l.pending && Hold(events, l.delivered)
  {
    hide Poll, Delivered, KeysDevice.Valid;
    ghost var received := seq(|batches|, i requires 0 <= i < |batches| => Received(batches[i]));
    device := new KeysDevice();
    events := [];
    for i := 0 to |batches|
      invariant device.Valid() && fresh(device) && fresh(device.rawEvents)
      invariant device.currentEvent == null || fresh(device.currentEvent)
      invariant device.currentEvent !in events
      invariant device.Pending() == Listen(received[..i]).pending
      invariant Hold(events, Listen(received[..i]).delivered)
    {
      ListenOneMore(received, i);
      events := ServeOne(device, events, batches[i], Listen(received[..i]).delivered);
    }
    assert received[..|batches|] == received;
    assert received == seq(|batches|, i requires 0 <= i < |batches| => if batches[i].Some? then batches[i].value else []);
  }
}
