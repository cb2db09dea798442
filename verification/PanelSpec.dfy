/** The whole touch panel: raw events in, touch events out. */
module PanelSpec {
  import opened Machine
  import opened Events
  import opened TrackerSpec
  import opened TrackerRuns
  import opened TouchParser
  import opened Wrappers
  import opened PollSpec
  import opened MouseDriver

  datatype PanelVal = PanelVal(driver: DriverVal, parser: ParserVal)

  const OPENED: PanelVal := PanelVal(AT_REST, UNREAD)

  /** Whether a call looks at the device, and finds an event. */
  predicate Reads(p: PanelVal, raw: Option<InputEvent>) {
    !p.parser.readInput && raw.Some?
  }

  ghost function Input(scale: Scale, p: PanelVal, raw: Option<InputEvent>): Option<seq<InputEvent>>
    requires Idle(p.driver.tracker)
  {
    if Reads(p, raw) then BatchFor(scale, p.driver, raw.value) else None
  }

  /** One call to get an event while `raw` is what the device has, if anything. */
  ghost function Call(max: nat, scale: Scale, p: PanelVal, raw: Option<InputEvent>): (PanelVal, Option<seq<TouchItem>>)
    requires Idle(p.driver.tracker)
  {
    var (parser, out) := Poll(max, p.parser, Input(scale, p, raw));
    (PanelVal(if Reads(p, raw) then Handle(scale, p.driver, raw.value) else p.driver, parser), out)
  }

  /** A run so far: the raw events read, and the parser's log. */
  datatype History = History(driver: DriverVal, read: seq<InputEvent>, log: Log) {
    function Panel(): PanelVal { PanelVal(driver, log.v) }
  }

  ghost function Next(max: nat, scale: Scale, h: History, raw: Option<InputEvent>): History
    requires Idle(h.driver.tracker)
  {
    History(Call(max, scale, h.Panel(), raw).0.driver,
            h.read + (if Reads(h.Panel(), raw) then [raw.value] else []),
            LogPoll(max, h.log, Input(scale, h.Panel(), raw)))
  }

  /** The log is that of the calls. */
  lemma NextIsCall(max: nat, scale: Scale, h: History, raw: Option<InputEvent>)
    requires Idle(h.driver.tracker)
    ensures var (p, out) := Call(max, scale, h.Panel(), raw);
            && Next(max, scale, h, raw).Panel() == p
            && Next(max, scale, h, raw).log.delivered == h.log.delivered + if out.Some? then [out.value] else []
  {
    hide Poll;
  }

  lemma NextIsDriven(max: nat, scale: Scale, h: History, raw: Option<InputEvent>)
    requires Idle(h.driver.tracker) && h.driver == Drive(scale, h.read)
    ensures var h' := Next(max, scale, h, raw);
            h'.driver == Drive(scale, h'.read) && Idle(h'.driver.tracker)
  {
    hide Poll, LogPoll, Handle, Single, BatchFor;
    if Reads(h.Panel(), raw) {
      DriveOneMore(scale, h.read, raw.value);
    } else {
      assert h.read + [] == h.read;
    }
  }

  lemma DriveOneMore(scale: Scale, raws: seq<InputEvent>, ev: InputEvent)
    ensures Drive(scale, raws + [ev]) == Handle(scale, Drive(scale, raws), ev)
    ensures Idle(Handle(scale, Drive(scale, raws), ev).tracker)
  {
    hide Handle;
    assert (raws + [ev])[..|raws|] == raws;
    DriverFrame(scale, Drive(scale, raws), ev);
  }

  /** Any sequence of calls: `raws[i]` is what the device has at the i-th. */
  ghost function Watch(max: nat, scale: Scale, raws: seq<Option<InputEvent>>): (h: History)
    ensures Idle(h.driver.tracker) && h.driver == Drive(scale, h.read)
  {
    if raws == [] then History(AT_REST, [], Log(UNREAD, [], [])) else
      var h := Watch(max, scale, raws[..|raws| - 1]);
      NextIsDriven(max, scale, h, raws[|raws| - 1]);
      Next(max, scale, h, raws[|raws| - 1])
  }

  // ---- one frame, encoded and decoded ---------------------------------------------------

  /** What the client is told about the `i`-th finger of a frame: the added ones come first. */
  ghost predicate TellsOf(s: Settings, v: TrackerVal, cs: seq<Contact>, items: seq<TouchItem>, i: nat)
    requires Idle(v) && i < |items| == |Processed(s, v, cs)|
  {
    var n, f := |News(s, v, cs)|, Processed(s, v, cs)[i];
    && items[i].finger == FingerNumber(ToInt32(f.id), 0)
    && items[i].x == f.Position().x && items[i].y == f.Position().y
    && (items[i].state == TouchDown <==> i < n)
    && (items[i].state == TouchUp <==> i >= n && !Matches(v.live, cs)[i - n].Matched())
  }

  /** From a frame of any number of contacts to the client: one item for each finger, in list order, DOWN exactly
      for the added ones and UP exactly for the old ones without a contact. */
  lemma FrameDecodes(max: nat, s: Settings, v: TrackerVal, cs: seq<Contact>)
    requires max >= 1 && Idle(v)
    ensures var items := Flatten(Decode(max, [], FrameEvents(s, v, cs, 0)));
            && |items| == |Processed(s, v, cs)| == |News(s, v, cs)| + |v.live|
            && forall i :: 0 <= i < |items| ==> TellsOf(s, v, cs, items, i)
  {
    hide Decode, Flatten, Batch, News, Processed, Frame, Matches, TellsOf, FreshFingers;
    RoundTrip(max, FrameBlocks(s, v, cs));
    ProcessedParts(s, v, cs);
    forall i | 0 <= i < |Processed(s, v, cs)| ensures TellsOf(s, v, cs, ItemsOf(FrameBlocks(s, v, cs)), i) {
      FingerDecodes(s, v, cs, i);
    }
  }

  lemma FingerDecodes(s: Settings, v: TrackerVal, cs: seq<Contact>, i: nat)
    requires Idle(v) && i < |Processed(s, v, cs)|
    ensures TellsOf(s, v, cs, ItemsOf(FrameBlocks(s, v, cs)), i)
  {
    hide News, Processed, Frame, Matches, Distance, IdOf, ToInt32, FingerNumber;
    ProcessedParts(s, v, cs);
    var p, n := Processed(s, v, cs), |News(s, v, cs)|;
    assert ItemsOf(BlocksOf(p))[i] == ItemOf(BlockOf(p[i]));
    if i < n {
      assert p[..n][i] == p[i];
    } else {
      OldFingerFate(s, v, cs, i - n);
    }
  }

  // ---- what the stream says -------------------------------------------------------------

  lemma FlattenMore(items: seq<TouchItem>, rest: seq<seq<TouchItem>>)
    ensures Flatten([items] + rest) == items + Flatten(rest) && Flatten([]) == []
  {
    assert ([items] + rest)[1..] == rest;
  }

  lemma {:induction false} FlattenConcat(a: seq<seq<TouchItem>>, b: seq<seq<TouchItem>>)
    ensures Flatten(a + b) == Flatten(a) + Flatten(b)
  {
    hide Flatten;
    if a == [] {
      FlattenMore([], b);
      assert a + b == b;
    } else {
      FlattenConcat(a[1..], b);
      FlattenMore(a[0], a[1..]);
      FlattenMore(a[0], a[1..] + b);
      assert [a[0]] + a[1..] == a;
      assert [a[0]] + (a[1..] + b) == a + b;
    }
  }

  /** A batch is complete and decodes to exactly what its frame reports; a forwarded event decodes to
      a touch event without items. */
  lemma BatchDecodes(max: nat, scale: Scale, d: DriverVal, ev: InputEvent)
    requires max >= 1 && Idle(d.tracker)
    ensures var batch := BatchFor(scale, d, ev);
            && (batch.Some? ==> Complete(batch.value)
                                && Flatten(Decode(max, [], batch.value)) == ItemsOf(BlocksFor(scale, d, ev)))
            && (batch == None ==> BlocksFor(scale, d, ev) == [])
  {
    hide Drive;
    if FrameFor(scale, d, ev).Some? {
      RoundTrip(max, BlocksFor(scale, d, ev));
    } else if IsForwarded(ev) {
      ForwardedDecodes(max, ev);
    }
  }

  lemma ForwardedDecodes(max: nat, ev: InputEvent)
    requires IsForwarded(ev)
    ensures Decode(max, [], [ev, InputEvent(EV_SYN, SYN_START, 0)]) == [[]]
  {
    var syn := InputEvent(EV_SYN, SYN_START, 0);
    OneEvent(max, [], ev);
    OneEvent(max, [], syn);
    DecodeConcat(max, [], [ev], [syn]);
    assert [ev] + [syn] == [ev, syn];
  }

  lemma ItemsOfConcat(a: seq<Block>, b: seq<Block>)
    ensures ItemsOf(a + b) == ItemsOf(a) + ItemsOf(b)
  {}

  /** What is known of a run: the parser is faithful to the stream, and the stream to the reports. */
  ghost predicate Kept(max: nat, scale: Scale, h: History) {
    && Faithful(max, h.log)
    && Flatten(Decode(max, [], h.log.stream)) == ItemsOf(Reported(scale, h.read))
  }

  lemma NextKeeps(max: nat, scale: Scale, h: History, raw: Option<InputEvent>)
    requires max >= 1 && Idle(h.driver.tracker) && h.driver == Drive(scale, h.read) && Kept(max, scale, h)
    ensures Kept(max, scale, Next(max, scale, h, raw))
  {
    hide Drive, Decode, Residue, Poll, BatchFor, BlocksFor, Handle;
    var input := Input(scale, h.Panel(), raw);
    if Reads(h.Panel(), raw) {
      BatchDecodes(max, scale, h.driver, raw.value);
      ReportedMore(scale, h.read, raw.value);
      StreamDecodesMore(max, h.log.stream, if input.Some? then input.value else []);
      ItemsOfConcat(Reported(scale, h.read), BlocksFor(scale, h.driver, raw.value));
      NothingDecoded(max, []);
    } else {
      assert h.read + [] == h.read;
      assert h.log.stream + [] == h.log.stream;
    }
    PollIsFaithful(max, h.log, input);
  }

  lemma ReportedMore(scale: Scale, raws: seq<InputEvent>, ev: InputEvent)
    ensures Reported(scale, raws + [ev]) == Reported(scale, raws) + BlocksFor(scale, Drive(scale, raws), ev)
  {
    assert (raws + [ev])[..|raws|] == raws;
  }

  lemma StreamDecodesMore(max: nat, stream: seq<InputEvent>, batch: seq<InputEvent>)
    requires Complete(stream)
    ensures Flatten(Decode(max, [], stream + batch)) == Flatten(Decode(max, [], stream)) + Flatten(Decode(max, [], batch))
  {
    DecodeConcat(max, [], stream, batch);
    if stream == [] {
      NothingDecoded(max, []);
    } else {
      CompleteLeavesNothing(max, [], stream);
    }
    FlattenConcat(Decode(max, [], stream), Decode(max, [], batch));
  }

  lemma {:induction false} WatchKeeps(max: nat, scale: Scale, raws: seq<Option<InputEvent>>)
    requires max >= 1
    ensures Kept(max, scale, Watch(max, scale, raws))
  {
    if raws == [] {
      NothingDecoded(max, []);
    } else {
      WatchKeeps(max, scale, raws[..|raws| - 1]);
      NextKeeps(max, scale, Watch(max, scale, raws[..|raws| - 1]), raws[|raws| - 1]);
    }
  }

  /** From the device to the client, over any raw events and any calls: the items returned, followed by those
      still in the list, are the tracker's reports about the events read, in order, each once. */
  lemma ClientSeesReports(max: nat, scale: Scale, raws: seq<Option<InputEvent>>)
    requires max >= 1
    ensures var h := Watch(max, scale, raws);
            var seen := Flatten(h.log.delivered);
            && seen + Flatten(Decode(max, h.log.v.items, h.log.v.pending)) == ItemsOf(Reported(scale, h.read))
            && (!h.log.v.readInput ==> seen == ItemsOf(Reported(scale, h.read)))
  {
    hide Drive, Decode, Residue, Reported;
    WatchKeeps(max, scale, raws);
    var h := Watch(max, scale, raws);
    var consumed := h.log.stream[..|h.log.stream| - |h.log.v.pending|];
    DecodeConcat(max, [], consumed, h.log.v.pending);
    FlattenConcat(h.log.delivered, Decode(max, h.log.v.items, h.log.v.pending));
    NothingDecoded(max, h.log.v.items);
  }

  // ---- what the client sees -------------------------------------------------------------

  function KindOfItem(item: TouchItem): Kind {
    match item.state
    case TouchDown => Down
    case TouchUp => Up
    case Undefined => Move
  }

  function KindsOfItems(items: seq<TouchItem>): (kinds: seq<Kind>)
    ensures |kinds| == |items|
  {
    seq(|items|, i requires 0 <= i < |items| => KindOfItem(items[i]))
  }

  lemma {:induction false} ReportsAreSingle(scale: Scale, raws: seq<InputEvent>)
    ensures KindsOfItems(ItemsOf(Reported(scale, raws))) == Kinds(Reported(scale, raws))
  {
    hide Drive, BlocksFor, KindsOfItems, ItemsOf, Kinds;
    if raws == [] {
      SingleKinds([]);
    } else {
      var front, ev := raws[..|raws| - 1], raws[|raws| - 1];
      ReportsAreSingle(scale, front);
      var bs := BlocksFor(scale, Drive(scale, front), ev);
      FrameIsSingle(scale, Drive(scale, front), ev);
      SingleKinds(bs);
      ItemsOfConcat(Reported(scale, front), bs);
      KindsOfConcat(Reported(scale, front), bs);
      KindsOfItemsConcat(ItemsOf(Reported(scale, front)), ItemsOf(bs));
    }
  }

  lemma FrameIsSingle(scale: Scale, d: DriverVal, ev: InputEvent)
    requires Idle(d.tracker)
    ensures NeverBoth(BlocksFor(scale, d, ev))
  {
    hide FrameBlocks;
    if FrameFor(scale, d, ev).Some? {
      BlocksAreSingle(MOUSE, d.tracker, FrameFor(scale, d, ev).value);
    }
  }

  lemma KindsOfConcat(a: seq<Block>, b: seq<Block>)
    ensures Kinds(a + b) == Kinds(a) + Kinds(b)
  {}

  lemma KindsOfItemsConcat(a: seq<TouchItem>, b: seq<TouchItem>)
    ensures KindsOfItems(a + b) == KindsOfItems(a) + KindsOfItems(b)
  {}

  lemma SingleKinds(bs: seq<Block>)
    requires NeverBoth(bs)
    ensures KindsOfItems(ItemsOf(bs)) == Kinds(bs)
  {
    forall i | 0 <= i < |bs| ensures KindsOfItems(ItemsOf(bs))[i] == Kinds(bs)[i] {
      assert ItemsOf(bs)[i] == ItemOf(bs[i]);
    }
  }

  lemma {:induction false} FollowPrefix(a: seq<Kind>, b: seq<Kind>)
    requires Follow(a + b).Some?
    ensures Follow(a).Some?
  {
    if b == [] {
      assert a + b == a;
    } else {
      assert (a + b)[..|a + b| - 1] == a + b[..|b| - 1];
      FollowPrefix(a, b[..|b| - 1]);
    }
  }

  /** At every moment of every run, the items returned so far go down, move and up in turn. */
  lemma ClientSeesTouches(max: nat, scale: Scale, raws: seq<Option<InputEvent>>)
    requires max >= 1
    ensures Follow(KindsOfItems(Flatten(Watch(max, scale, raws).log.delivered))).Some?
  {
    hide Watch, Decode, Drive, Reported, Flatten, KindsOfItems, Kinds, Follow, ItemsOf;
    var h := Watch(max, scale, raws);
    var seen, rest := Flatten(h.log.delivered), Flatten(Decode(max, h.log.v.items, h.log.v.pending));
    ClientSeesReports(max, scale, raws);
    ReportsAreSingle(scale, h.read);
    ReportsAlternate(scale, h.read);
    KindsOfItemsConcat(seen, rest);
    FollowPrefix(KindsOfItems(seen), KindsOfItems(rest));
  }
}
