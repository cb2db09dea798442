/** How touch events are rebuilt from the flat event stream, a few items at a time. */
module TouchParser {
  import opened Machine
  import opened Events
  import opened Wrappers

  datatype TouchState = Undefined | TouchDown | TouchUp

  /** One touch item. The fields that every item gets at reset and keeps are left out. */
  datatype TouchItem = TouchItem(finger: int, state: TouchState, x: int, y: int)

  /** The finger number of an item, in 32-bit arithmetic. */
  function FingerNumber(value: int, code: int): int {
    ToInt32(ToInt32(value * 1000) + code)
  }

  function FreshItem(ev: InputEvent): TouchItem {
    TouchItem(FingerNumber(ev.value, ev.code), Undefined, 0, 0)
  }

  // ---- one event ------------------------------------------------------------------------

  /** The items collected after an event, and the touch event it completes, if any. */
  datatype Reaction = Reaction(items: seq<TouchItem>, out: Option<seq<TouchItem>>)

  function SetLast(items: seq<TouchItem>, item: TouchItem): seq<TouchItem>
    requires items != []
  {
    items[|items| - 1 := item]
  }

  /** `max` is the most items a touch event can hold. */
  function React(max: nat, items: seq<TouchItem>, ev: InputEvent): Reaction {
    if ev.typ == EV_FINGERID then
      if |items| < max then Reaction(items + [FreshItem(ev)], None) else Reaction([FreshItem(ev)], Some(items))
    else if ev.typ == EV_ABS then
      if items == [] then Reaction(items, None)
      else
        var last := items[|items| - 1];
        if ev.code == ABS_X then Reaction(SetLast(items, last.(x := ev.value)), None)
        else if ev.code == ABS_Y then Reaction(SetLast(items, last.(y := ev.value)), None)
        else Reaction(items, None)
    else if ev.typ == EV_KEY then
      if items == [] || ev.code != BTN_TOUCH then Reaction(items, None)
      else
        var last := items[|items| - 1];
        Reaction(SetLast(items, last.(state := if ev.value == 1 then TouchDown else TouchUp)), None)
    else if ev.typ == EV_SYN then
      Reaction([], Some(items))
    else
      Reaction(items, None)
  }

  /** The touch event a reaction hands over, as a sequence. */
  function Handed(r: Reaction): seq<seq<TouchItem>> {
    if r.out.Some? then [r.out.value] else []
  }

  // ---- the whole stream -----------------------------------------------------------------

  /** The touch events a stream completes, given the items collected so far. */
  function Decode(max: nat, items: seq<TouchItem>, evs: seq<InputEvent>): seq<seq<TouchItem>>
    decreases |evs|
  {
    if evs == [] then [] else
      var r := React(max, items, evs[0]);
      Handed(r) + Decode(max, r.items, evs[1..])
  }

  /** The items still being collected at the end of a stream. */
  function Residue(max: nat, items: seq<TouchItem>, evs: seq<InputEvent>): seq<TouchItem>
    decreases |evs|
  {
    if evs == [] then items else Residue(max, React(max, items, evs[0]).items, evs[1..])
  }

  lemma NothingDecoded(max: nat, items: seq<TouchItem>)
    ensures Decode(max, items, []) == [] && Residue(max, items, []) == items
  {}

  lemma {:induction false} DecodeConcat(max: nat, items: seq<TouchItem>, a: seq<InputEvent>, b: seq<InputEvent>)
    ensures Decode(max, items, a + b) == Decode(max, items, a) + Decode(max, Residue(max, items, a), b)
    ensures Residue(max, items, a + b) == Residue(max, Residue(max, items, a), b)
    decreases |a|
  {
    hide React, Handed;
    if a == [] {
      assert a + b == b;
    } else {
      var r := React(max, items, a[0]);
      DecodeConcat(max, r.items, a[1..], b);
      assert (a + b)[1..] == a[1..] + b;
      assert Decode(max, items, a + b) == Handed(r) + Decode(max, r.items, a[1..] + b);
    }
  }

  /** A stream is complete when it is empty or ends in a synchronisation event. */
  predicate Complete(evs: seq<InputEvent>) {
    evs == [] || evs[|evs| - 1].typ == EV_SYN
  }

  lemma CompleteLeavesNothing(max: nat, items: seq<TouchItem>, evs: seq<InputEvent>)
    requires Complete(evs) && evs != []
    ensures Residue(max, items, evs) == []
  {
    var n := |evs| - 1;
    DecodeConcat(max, items, evs[..n], [evs[n]]);
    assert evs == evs[..n] + [evs[n]];
    assert Residue(max, Residue(max, items, evs[..n]), [evs[n]]) == [];
  }

  // ---- encoding and decoding a frame ----------------------------------------------------

  function ItemOf(b: Block): TouchItem {
    TouchItem(FingerNumber(ToInt32(b.id), 0), if b.up then TouchUp else if b.down then TouchDown else Undefined, b.x, b.y)
  }

  function ItemsOf(bs: seq<Block>): (items: seq<TouchItem>)
    ensures |items| == |bs|
  {
    seq(|bs|, i requires 0 <= i < |bs| => ItemOf(bs[i]))
  }

  /** Pieces of `max` items, and what remains. */
  function Chunks(max: nat, items: seq<TouchItem>): seq<seq<TouchItem>>
    requires max >= 1
  {
    if |items| <= max then [items] else [items[..max]] + Chunks(max, items[max..])
  }

  function Flatten(cs: seq<seq<TouchItem>>): seq<TouchItem> {
    if cs == [] then [] else cs[0] + Flatten(cs[1..])
  }

  lemma {:induction false} ChunksAreEven(max: nat, items: seq<TouchItem>)
    requires max >= 1
    ensures Flatten(Chunks(max, items)) == items
    ensures forall c :: c in Chunks(max, items) ==> |c| <= max
    ensures items != [] ==> IsCeiling(|Chunks(max, items)|, |items|, max)
    ensures forall i :: 0 <= i < |Chunks(max, items)| - 1 ==> |Chunks(max, items)[i]| == max
  {
    var cs := Chunks(max, items);
    if |items| > max {
      ChunksAreEven(max, items[max..]);
      assert cs[1..] == Chunks(max, items[max..]);
      CeilingGrows(|cs[1..]|, |items| - max, max);
    } else {
      assert cs[1..] == [];
    }
  }

  /** `c` is n / max, rounded up. */
  predicate IsCeiling(c: int, n: int, max: int) {
    c * max - max < n <= c * max
  }

  lemma CeilingGrows(c: int, n: int, max: nat)
    requires IsCeiling(c, n, max)
    ensures IsCeiling(c + 1, n + max, max)
  {
    assert (c + 1) * max == c * max + max;
  }

  lemma {:induction false} EncodeFromFront(bs: seq<Block>)
    requires bs != []
    ensures EncodeAll(bs) == Encode(bs[0]) + EncodeAll(bs[1..])
  {
    hide Encode;
    if |bs| > 1 {
      EncodeFromFront(bs[..|bs| - 1]);
      assert bs[..|bs| - 1][1..] == bs[1..][..|bs| - 2];
    }
  }

  /** The events of one block: one new item, after handing over a full touch event. */
  lemma DecodeBlock(max: nat, items: seq<TouchItem>, b: Block)
    requires max >= 1
    ensures Decode(max, items, Encode(b)) == if |items| < max then [] else [items]
    ensures Residue(max, items, Encode(b)) == (if |items| < max then items else []) + [ItemOf(b)]
  {
    hide FingerNumber, ToInt32, Decode, Residue;
    var first := InputEvent(EV_FINGERID, 0, ToInt32(b.id));
    var head := [first];
    var down := Key(b.down, 1);
    var axes := [InputEvent(EV_ABS, ABS_X, b.x), InputEvent(EV_ABS, ABS_Y, b.y)];
    var up := Key(b.up, 0);
    var kept := if |items| < max then items else [];
    var item := FreshItem(first);
    var item1 := item.(state := if b.down then TouchDown else item.state);
    var item2 := item1.(x := b.x, y := b.y);
    assert Encode(b) == head + (down + (axes + up));
    DecodeConcat(max, items, head, down + (axes + up));
    DecodeConcat(max, kept + [item], down, axes + up);
    DecodeConcat(max, kept + [item1], axes, up);
    OneEvent(max, items, first);
    DecodeKey(max, kept, item, b.down, 1);
    DecodeAxes(max, kept, item1, b.x, b.y);
    DecodeKey(max, kept, item2, b.up, 0);
    assert [] + [item] == [item];
    assert Residue(max, items, head) == kept + [item];
    assert Residue(max, kept + [item], down) == kept + [item1];
    assert Residue(max, kept + [item1], axes) == kept + [item2];
    assert item2.(state := if b.up then TouchUp else item2.state) == ItemOf(b);
    assert Decode(max, kept + [item], down + (axes + up)) == [] + ([] + []);
  }

  function Key(present: bool, value: int): seq<InputEvent> {
    if present then [InputEvent(EV_KEY, BTN_TOUCH, value)] else []
  }

  lemma DecodeKey(max: nat, kept: seq<TouchItem>, item: TouchItem, present: bool, value: int)
    ensures Decode(max, kept + [item], Key(present, value)) == []
    ensures Residue(max, kept + [item], Key(present, value))
         == kept + [item.(state := if !present then item.state else if value == 1 then TouchDown else TouchUp)]
  {
    if present {
      OneEvent(max, kept + [item], Key(present, value)[0]);
    }
  }

  lemma OneEvent(max: nat, items: seq<TouchItem>, ev: InputEvent)
    ensures var r := React(max, items, ev);
            && Decode(max, items, [ev]) == Handed(r)
            && Residue(max, items, [ev]) == r.items
  {
    hide React, Handed;
  }

  lemma DecodeAxes(max: nat, kept: seq<TouchItem>, item: TouchItem, x: int, y: int)
    ensures var axes := [InputEvent(EV_ABS, ABS_X, x), InputEvent(EV_ABS, ABS_Y, y)];
            && Decode(max, kept + [item], axes) == []
            && Residue(max, kept + [item], axes) == kept + [item.(x := x, y := y)]
  {
    var ex, ey := InputEvent(EV_ABS, ABS_X, x), InputEvent(EV_ABS, ABS_Y, y);
    DecodeConcat(max, kept + [item], [ex], [ey]);
    OneEvent(max, kept + [item], ex);
    assert SetLast(kept + [item], item.(x := x)) == kept + [item.(x := x)];
    OneEvent(max, kept + [item.(x := x)], ey);
    assert SetLast(kept + [item.(x := x)], item.(x := x, y := y)) == kept + [item.(x := x, y := y)];
    assert [ex] + [ey] == [ex, ey];
  }

  lemma FirstItem(bs: seq<Block>)
    requires bs != []
    ensures ItemsOf(bs) == [ItemOf(bs[0])] + ItemsOf(bs[1..])
  {
    hide ItemOf;
  }

  lemma FullChunk(max: nat, full: seq<TouchItem>, more: seq<TouchItem>)
    requires |full| == max >= 1 && more != []
    ensures Chunks(max, full + more) == [full] + Chunks(max, more)
  {
    assert (full + more)[..max] == full && (full + more)[max..] == more;
  }

  lemma {:induction false} DecodeBlocks(max: nat, items: seq<TouchItem>, bs: seq<Block>)
    requires max >= 1 && |items| <= max
    ensures Decode(max, items, EncodeAll(bs) + [SYN]) == Chunks(max, items + ItemsOf(bs))
    decreases |bs|
  {
    hide Encode, ItemOf, React, Decode, Residue, Chunks, ItemsOf;
    if bs == [] {
      SynDelivers(max, items);
      assert EncodeAll(bs) + [SYN] == [SYN];
    } else {
      var rest := EncodeAll(bs[1..]) + [SYN];
      EncodeFromFront(bs);
      FirstItem(bs);
      assert EncodeAll(bs) + [SYN] == Encode(bs[0]) + rest;
      DecodeConcat(max, items, Encode(bs[0]), rest);
      DecodeBlock(max, items, bs[0]);
      if |items| < max {
        DecodeBlocks(max, items + [ItemOf(bs[0])], bs[1..]);
        assert items + ItemsOf(bs) == items + [ItemOf(bs[0])] + ItemsOf(bs[1..]);
      } else {
        DecodeBlocks(max, [] + [ItemOf(bs[0])], bs[1..]);
        assert ItemsOf(bs) == [] + [ItemOf(bs[0])] + ItemsOf(bs[1..]);
        FullChunk(max, items, ItemsOf(bs));
      }
    }
  }

  lemma SynDelivers(max: nat, items: seq<TouchItem>)
    requires max >= 1 && |items| <= max
    ensures Decode(max, items, [SYN]) == [items] == Chunks(max, items + ItemsOf([]))
  {
    assert items + ItemsOf([]) == items;
    OneEvent(max, items, SYN);
  }

  /** Encoder and decoder: the batch a frame emits decodes to its fingers, in order, `max` at a time. */
  lemma RoundTrip(max: nat, bs: seq<Block>)
    requires max >= 1
    ensures Decode(max, [], Batch(0, bs)) == if bs == [] then [] else Chunks(max, ItemsOf(bs))
    ensures Flatten(Decode(max, [], Batch(0, bs))) == ItemsOf(bs)
    ensures bs != [] ==> IsCeiling(|Decode(max, [], Batch(0, bs))|, |bs|, max)
    ensures Complete(Batch(0, bs))
  {
    DecodeBlocks(max, [], bs);
    ChunksAreEven(max, ItemsOf(bs));
    BatchSize(bs);
    assert [] + ItemsOf(bs) == ItemsOf(bs);
    if bs == [] {
      assert Batch(0, bs) == [];
    }
  }

  /** What any events between a finger's id and the next finger or synchronisation event make of its item: the axes
      are the last ones given, the state is that of the last BTN_TOUCH, and everything else is passed over. */
  lemma {:induction false} SpanDecodes(max: nat, kept: seq<TouchItem>, item: TouchItem, evs: seq<InputEvent>)
    requires forall i :: 0 <= i < |evs| ==> evs[i].typ != EV_FINGERID && evs[i].typ != EV_SYN
    ensures Decode(max, kept + [item], evs) == []
    ensures var x, y := LastValue(evs, EV_ABS, {ABS_X}), LastValue(evs, EV_ABS, {ABS_Y});
            var touch := LastValue(evs, EV_KEY, {BTN_TOUCH});
            Residue(max, kept + [item], evs)
            == kept + [TouchItem(item.finger,
                                 match touch case None => item.state
                                             case Some(v) => if v == 1 then TouchDown else TouchUp,
                                 if x.Some? then x.value else item.x, if y.Some? then y.value else item.y)]
  {
    hide Decode, Residue;
    if evs == [] {
      NothingDecoded(max, kept + [item]);
    } else {
      var n := |evs| - 1;
      SpanDecodes(max, kept, item, evs[..n]);
      DecodeConcat(max, kept + [item], evs[..n], [evs[n]]);
      assert evs == evs[..n] + [evs[n]];
      OneEvent(max, Residue(max, kept + [item], evs[..n]), evs[n]);
    }
  }

  /** Without an item, events other than these two are passed over. */
  lemma {:induction false} StrayEventsAreDropped(max: nat, evs: seq<InputEvent>)
    requires forall i :: 0 <= i < |evs| ==> evs[i].typ != EV_FINGERID && evs[i].typ != EV_SYN
    ensures Decode(max, [], evs) == [] && Residue(max, [], evs) == []
  {
    if evs != [] {
      StrayEventsAreDropped(max, evs[1..]);
    }
  }

  /** A finger event begins an item with nothing known but its number, which is value * 1000 + code up to a multiple
      of 2^32; a synchronisation event hands over what there is. */
  lemma MarkersDecode(max: nat, items: seq<TouchItem>, value: int, code: int)
    requires max >= 1
    ensures var ev := InputEvent(EV_FINGERID, code, value);
            var number := FingerNumber(value, code);
            && Decode(max, items, [ev]) == (if |items| < max then [] else [items])
            && Residue(max, items, [ev]) == (if |items| < max then items else []) + [TouchItem(number, Undefined, 0, 0)]
            && -INT_MAX - 1 <= number <= INT_MAX && (value * 1000 + code - number) % TWO_32 == 0
    ensures Decode(max, items, [InputEvent(EV_SYN, code, value)]) == [items]
    ensures Residue(max, items, [InputEvent(EV_SYN, code, value)]) == []
  {
    hide ToInt32, Decode, Residue;
    OneEvent(max, items, InputEvent(EV_FINGERID, code, value));
    OneEvent(max, items, InputEvent(EV_SYN, code, value));
  }

  /** Exactly which ids reach the client as id * 1000. */
  lemma FingerNumberIsExact(id: int)
    requires 0 <= id < TWO_32
    ensures FingerNumber(ToInt32(id), 0) == id * 1000 <==> id <= 2147483
  {}
}
