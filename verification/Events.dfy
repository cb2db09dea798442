/** The flat event stream between the finger tracker and the touch event parser. */
module Events {
  import opened Machine
  import opened Wrappers

  /** An input event without its time stamp. Types and codes are those of Linux's input interface. */
  datatype InputEvent = InputEvent(typ: int, code: int, value: int)

  const EV_SYN: int := 0x00
  const EV_KEY: int := 0x01
  const EV_REL: int := 0x02
  const EV_ABS: int := 0x03
  const EV_FINGERID: int := 0x07

  const ABS_X: int := 0x00
  const ABS_Y: int := 0x01
  const REL_WHEEL: int := 0x08
  const BTN_LEFT: int := 0x110
  const BTN_MIDDLE: int := 0x112
  const BTN_SIDE: int := 0x113
  const BTN_EXTRA: int := 0x114
  const BTN_FORWARD: int := 0x115
  const BTN_BACK: int := 0x116
  const BTN_TASK: int := 0x117
  const BTN_TOUCH: int := 0x14a
  const SYN_START: int := 8

  const SYN: InputEvent := InputEvent(EV_SYN, 0, 0)

  /** The value of the last event of a type with one of these codes. */
  function LastValue(evs: seq<InputEvent>, typ: int, codes: set<int>): Option<int> {
    if evs == [] then None else
      var last := evs[|evs| - 1];
      if last.typ == typ && last.code in codes then Some(last.value) else LastValue(evs[..|evs| - 1], typ, codes)
  }

  lemma LastValueOfMore(evs: seq<InputEvent>, ev: InputEvent, typ: int, codes: set<int>)
    ensures LastValue(evs + [ev], typ, codes)
         == if ev.typ == typ && ev.code in codes then Some(ev.value) else LastValue(evs, typ, codes)
  {
    assert (evs + [ev])[..|evs|] == evs;
  }

  /** What one frame says about one finger. */
  datatype Block = Block(id: int, down: bool, x: int, y: int, up: bool)

  function Encode(b: Block): seq<InputEvent> {
    [InputEvent(EV_FINGERID, 0, ToInt32(b.id))]
    + (if b.down then [InputEvent(EV_KEY, BTN_TOUCH, 1)] else [])
    + [InputEvent(EV_ABS, ABS_X, b.x), InputEvent(EV_ABS, ABS_Y, b.y)]
    + (if b.up then [InputEvent(EV_KEY, BTN_TOUCH, 0)] else [])
  }

  function EncodeAll(bs: seq<Block>): seq<InputEvent> {
    if bs == [] then [] else EncodeAll(bs[..|bs| - 1]) + Encode(bs[|bs| - 1])
  }

  /** What a frame appends to an event list that already holds `n` events. */
  function Batch(n: nat, bs: seq<Block>): seq<InputEvent> {
    EncodeAll(bs) + if n + |EncodeAll(bs)| > 0 then [SYN] else []
  }

  function Downs(bs: seq<Block>): nat {
    if bs == [] then 0 else Downs(bs[..|bs| - 1]) + if bs[|bs| - 1].down then 1 else 0
  }

  function Ups(bs: seq<Block>): nat {
    if bs == [] then 0 else Ups(bs[..|bs| - 1]) + if bs[|bs| - 1].up then 1 else 0
  }

  /** The exact number of events a frame of `|bs|` blocks emits into a list that holds `n`. */
  lemma {:induction false} BatchSize(bs: seq<Block>)
    ensures |EncodeAll(bs)| == 3 * |bs| + Downs(bs) + Ups(bs)
    ensures forall n: nat :: |Batch(n, bs)| == |EncodeAll(bs)| + if n == 0 && bs == [] then 0 else 1
  {
    if bs != [] {
      BatchSize(bs[..|bs| - 1]);
    }
  }

  lemma {:induction false} EncodedAt(bs: seq<Block>, i: nat)
    requires i < |bs|
    ensures var at := |EncodeAll(bs[..i])|;
            && at + |Encode(bs[i])| <= |EncodeAll(bs)|
            && forall k :: 0 <= k < |Encode(bs[i])| ==> EncodeAll(bs)[at + k] == Encode(bs[i])[k]
  {
    hide Encode;
    var n := |bs| - 1;
    if i < n {
      EncodedAt(bs[..n], i);
      assert bs[..n][..i] == bs[..i];
    }
  }

  lemma EncodedBlock(b: Block)
    ensures var part, axes := Encode(b), if b.down then 2 else 1;
            && |part| == axes + (if b.up then 3 else 2)
            && part[0] == InputEvent(EV_FINGERID, 0, ToInt32(b.id))
            && (b.down ==> part[1] == InputEvent(EV_KEY, BTN_TOUCH, 1))
            && part[axes] == InputEvent(EV_ABS, ABS_X, b.x) && part[axes + 1] == InputEvent(EV_ABS, ABS_Y, b.y)
            && (b.up ==> part[axes + 2] == InputEvent(EV_KEY, BTN_TOUCH, 0))
  {
    hide ToInt32;
  }

  /** Where the events of the `i`-th finger of a frame are and what they say, in this order: its id, that it went
      down, where it is, and that it went up. */
  lemma BlockLayout(n: nat, bs: seq<Block>, i: nat)
    requires i < |bs|
    ensures var b, evs, at := bs[i], Batch(n, bs), 3 * i + Downs(bs[..i]) + Ups(bs[..i]);
            var axes := if b.down then at + 2 else at + 1;
            && axes + 2 < |evs| && evs[|evs| - 1] == InputEvent(EV_SYN, 0, 0)
            && evs[at] == InputEvent(EV_FINGERID, 0, ToInt32(b.id))
            && (b.down ==> evs[at + 1] == InputEvent(EV_KEY, BTN_TOUCH, 1))
            && evs[axes] == InputEvent(EV_ABS, ABS_X, b.x) && evs[axes + 1] == InputEvent(EV_ABS, ABS_Y, b.y)
            && (b.up ==> evs[axes + 2] == InputEvent(EV_KEY, BTN_TOUCH, 0))
  {
    hide ToInt32, EncodeAll, Encode;
    BatchSize(bs[..i]);
    EncodedAt(bs, i);
    EncodedBlock(bs[i]);
  }

  /** No block reports a finger going down and up at once. */
  ghost predicate NeverBoth(bs: seq<Block>) {
    forall i :: 0 <= i < |bs| ==> !(bs[i].down && bs[i].up)
  }

  lemma {:induction false} CountsExclude(bs: seq<Block>)
    requires NeverBoth(bs)
    ensures Downs(bs) + Ups(bs) <= |bs|
  {
    if bs != [] {
      CountsExclude(bs[..|bs| - 1]);
    }
  }

  lemma {:induction false} PrefixIsShorter(bs: seq<Block>, k: nat)
    requires k <= |bs|
    ensures |EncodeAll(bs[..k])| <= |EncodeAll(bs)|
  {
    if k == |bs| {
      assert bs[..k] == bs;
    } else {
      PrefixIsShorter(bs[..|bs| - 1], k);
      assert bs[..|bs| - 1][..k] == bs[..k];
    }
  }
}
