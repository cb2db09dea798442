/** Reading the event list a call at a time: what one call does, and what any sequence of calls amounts to. */
module PollSpec {
  import opened Events
  import opened TouchParser
  import opened Wrappers

  /** Between calls: the unread part of the list, the items collected, and whether the list is being read. */
  datatype ParserVal = ParserVal(pending: seq<InputEvent>, items: seq<TouchItem>, readInput: bool)

  const UNREAD: ParserVal := ParserVal([], [], false)

  /** What reading a list until a touch event is complete leaves behind. */
  datatype ScanResult = ScanResult(items: seq<TouchItem>, rest: seq<InputEvent>, out: Option<seq<TouchItem>>)

  function Scan(max: nat, items: seq<TouchItem>, evs: seq<InputEvent>): (r: ScanResult)
    ensures |r.rest| <= |evs|
    decreases |evs|
  {
    if evs == [] then ScanResult(items, [], None) else
      var r := React(max, items, evs[0]);
      if r.out.Some? then ScanResult(r.items, evs[1..], r.out) else Scan(max, r.items, evs[1..])
  }

  /** Where a call starts: `input`, if it is looked at, is a batch that replaces the list. */
  function Refill(v: ParserVal, input: Option<seq<InputEvent>>): ParserVal {
    if v.readInput then v
    else ParserVal(if input.Some? then input.value else v.pending, [], true)
  }

  /** One call: the state it leaves and the touch event it returns, if any. */
  function Poll(max: nat, v: ParserVal, input: Option<seq<InputEvent>>): (ParserVal, Option<seq<TouchItem>>) {
    var start := Refill(v, input);
    var r := Scan(max, start.items, start.pending);
    (ParserVal(r.rest, r.items, start.pending != []), r.out)
  }

  /** The list is replaced only when it has been read to its end, and no item is half collected then. */
  ghost predicate Between(v: ParserVal) {
    && Complete(v.pending)
    && (!v.readInput ==> v.pending == [])
    && (v.pending == [] ==> v.items == [])
  }

  lemma {:induction false} ScanUses(max: nat, items: seq<TouchItem>, evs: seq<InputEvent>)
    ensures var r := Scan(max, items, evs);
            var used := evs[..|evs| - |r.rest|];
            && evs == used + r.rest
            && Decode(max, items, used) == (if r.out.Some? then [r.out.value] else [])
            && Residue(max, items, used) == r.items
            && (r.out == None ==> r.rest == [])
    decreases |evs|
  {
    hide React, Decode, Residue;
    NothingDecoded(max, items);
    if evs != [] {
      var e := React(max, items, evs[0]);
      OneEvent(max, items, evs[0]);
      if e.out.Some? {
        assert evs[..1] == [evs[0]];
      } else {
        ScanUses(max, e.items, evs[1..]);
        var r := Scan(max, e.items, evs[1..]);
        var used := evs[1..][..|evs| - 1 - |r.rest|];
        assert evs[..|evs| - |r.rest|] == [evs[0]] + used;
        DecodeConcat(max, items, [evs[0]], used);
        assert [] + Decode(max, e.items, used) == Decode(max, e.items, used);
      }
    }
  }

  lemma {:induction false} ScanOfComplete(max: nat, items: seq<TouchItem>, evs: seq<InputEvent>)
    requires Complete(evs)
    ensures Complete(Scan(max, items, evs).rest)
    ensures evs != [] ==> Scan(max, items, evs).out.Some?
    ensures evs != [] && Scan(max, items, evs).rest == [] ==> Scan(max, items, evs).items == []
    ensures evs == [] ==> Scan(max, items, evs) == ScanResult(items, [], None)
    decreases |evs|
  {
    if |evs| > 1 {
      ScanOfComplete(max, React(max, items, evs[0]).items, evs[1..]);
    }
  }

  lemma PollKeepsBetween(max: nat, v: ParserVal, input: Option<seq<InputEvent>>)
    requires Between(v) && (input.Some? ==> Complete(input.value))
    ensures Between(Poll(max, v, input).0)
    ensures Poll(max, v, input).0.readInput <==> Poll(max, v, input).1.Some?
    ensures Poll(max, v, input).1.Some? <==> Refill(v, input).pending != []
  {
    var start := Refill(v, input);
    ScanOfComplete(max, start.items, start.pending);
  }

  // ---- draining one batch ---------------------------------------------------------------

  /** The results of consecutive calls. */
  function Results(max: nat, v: ParserVal, inputs: seq<Option<seq<InputEvent>>>): seq<Option<seq<TouchItem>>>
    decreases |inputs|
  {
    if inputs == [] then [] else
      var (v', out) := Poll(max, v, inputs[0]);
      [out] + Results(max, v', inputs[1..])
  }

  function Wrap(cs: seq<seq<TouchItem>>): seq<Option<seq<TouchItem>>> {
    seq(|cs|, i requires 0 <= i < |cs| => Some(cs[i]))
  }

  lemma DrainStep(max: nat, v: ParserVal, input: Option<seq<InputEvent>>)
    requires Between(v) && v.readInput
    ensures var (v', out) := Poll(max, v, input);
            && Between(v')
            && (v.pending == [] ==> out == None && Decode(max, v.items, v.pending) == [])
            && (v.pending != [] ==>
                  out.Some? && v'.readInput
                  && Decode(max, v.items, v.pending) == [out.value] + Decode(max, v'.items, v'.pending))
  {
    hide React, Scan;
    var r := Scan(max, v.items, v.pending);
    ScanUses(max, v.items, v.pending);
    ScanOfComplete(max, v.items, v.pending);
    DecodeConcat(max, v.items, v.pending[..|v.pending| - |r.rest|], r.rest);
    PollKeepsBetween(max, v, None);
  }

  /** While a list is being read, consecutive calls return its touch events in order and then one NULL,
      whatever else there is to read meanwhile. */
  lemma {:induction false} Draining(max: nat, v: ParserVal, inputs: seq<Option<seq<InputEvent>>>)
    requires Between(v) && v.readInput
    requires |inputs| == |Decode(max, v.items, v.pending)| + 1
    ensures Results(max, v, inputs) == Wrap(Decode(max, v.items, v.pending)) + [None]
    decreases |inputs|
  {
    hide Poll, Between, Decode;
    DrainStep(max, v, inputs[0]);
    var (v', out) := Poll(max, v, inputs[0]);
    if v.pending == [] {
      assert inputs[1..] == [];
    } else {
      Draining(max, v', inputs[1..]);
      var ds := Decode(max, v'.items, v'.pending);
      assert Wrap([out.value] + ds) == [out] + Wrap(ds);
    }
  }

  /** A frame of k >= 1 fingers, read with any calls: k / max touch events, rounded up, then one NULL. */
  lemma FrameIsDelivered(max: nat, bs: seq<Block>, inputs: seq<Option<seq<InputEvent>>>)
    requires max >= 1 && bs != []
    requires inputs != [] && inputs[0] == Some(Batch(0, bs)) && |inputs| == |Chunks(max, ItemsOf(bs))| + 1
    ensures Results(max, UNREAD, inputs) == Wrap(Chunks(max, ItemsOf(bs))) + [None]
    ensures IsCeiling(|inputs| - 1, |bs|, max)
    ensures Flatten(Chunks(max, ItemsOf(bs))) == ItemsOf(bs)
    ensures forall c :: c in Chunks(max, ItemsOf(bs)) ==> |c| <= max
  {
    RoundTrip(max, bs);
    ChunksAreEven(max, ItemsOf(bs));
    var reading := ParserVal(Batch(0, bs), [], true);
    BatchSize(bs);
    Draining(max, reading, inputs);
    assert Poll(max, UNREAD, inputs[0]) == Poll(max, reading, inputs[0]);
  }

  // ---- whole runs -----------------------------------------------------------------------

  /** A run so far: the state, all batches that were read, and all touch events that were returned. */
  datatype Log = Log(v: ParserVal, stream: seq<InputEvent>, delivered: seq<seq<TouchItem>>)

  function LogPoll(max: nat, l: Log, input: Option<seq<InputEvent>>): Log {
    var (v', out) := Poll(max, l.v, input);
    Log(v',
        l.stream + (if !l.v.readInput && input.Some? then input.value else []),
        l.delivered + (if out.Some? then [out.value] else []))
  }

  /** What was returned is what the part of the stream read so far decodes to. */
  ghost predicate Faithful(max: nat, l: Log) {
    && Between(l.v) && Complete(l.stream)
    && |l.v.pending| <= |l.stream|
    && var consumed := l.stream[..|l.stream| - |l.v.pending|];
    && l.stream == consumed + l.v.pending
    && l.delivered == Decode(max, [], consumed)
    && l.v.items == Residue(max, [], consumed)
  }

  lemma RefillIsFaithful(max: nat, l: Log, input: Option<seq<InputEvent>>)
    requires Faithful(max, l) && (input.Some? ==> Complete(input.value))
    ensures Faithful(max, Log(Refill(l.v, input),
                              l.stream + (if !l.v.readInput && input.Some? then input.value else []), l.delivered))
  {
    if !l.v.readInput {
      var more := if input.Some? then input.value else [];
      assert (l.stream + more)[..|l.stream|] == l.stream;
    } else {
      assert l.stream + [] == l.stream;
    }
  }

  lemma SplitEnd(stream: seq<InputEvent>, before: seq<InputEvent>, used: seq<InputEvent>, rest: seq<InputEvent>)
    requires stream == before + (used + rest)
    ensures stream == before + used + rest
    ensures stream[..|stream| - |rest|] == before + used && stream[..|stream| - |used + rest|] == before
  {}

  lemma ScanIsFaithful(max: nat, l: Log)
    requires Faithful(max, l)
    ensures var r := Scan(max, l.v.items, l.v.pending);
            Faithful(max, Log(ParserVal(r.rest, r.items, l.v.pending != []), l.stream,
                              l.delivered + (if r.out.Some? then [r.out.value] else [])))
  {
    hide React, Decode, Residue, Scan, Complete;
    var r := Scan(max, l.v.items, l.v.pending);
    var used := l.v.pending[..|l.v.pending| - |r.rest|];
    var before := l.stream[..|l.stream| - |l.v.pending|];
    ScanUses(max, l.v.items, l.v.pending);
    ScanOfComplete(max, l.v.items, l.v.pending);
    DecodeConcat(max, [], before, used);
    SplitEnd(l.stream, before, used, r.rest);
  }

  lemma PollIsFaithful(max: nat, l: Log, input: Option<seq<InputEvent>>)
    requires Faithful(max, l) && (input.Some? ==> Complete(input.value))
    ensures Faithful(max, LogPoll(max, l, input))
  {
    hide Decode, Residue, Scan;
    RefillIsFaithful(max, l, input);
    ScanIsFaithful(max, Log(Refill(l.v, input),
                            l.stream + (if !l.v.readInput && input.Some? then input.value else []), l.delivered));
  }

  function Listen(max: nat, inputs: seq<Option<seq<InputEvent>>>): Log {
    if inputs == [] then Log(UNREAD, [], []) else
      LogPoll(max, Listen(max, inputs[..|inputs| - 1]), inputs[|inputs| - 1])
  }

  /** No loss and no duplication: over any calls and any complete batches, what was returned, followed by
      what is still to come, is what the concatenated batches decode to. */
  lemma {:induction false} NoLossNoDuplication(max: nat, inputs: seq<Option<seq<InputEvent>>>)
    requires forall i :: 0 <= i < |inputs| && inputs[i].Some? ==> Complete(inputs[i].value)
    ensures var l := Listen(max, inputs);
            && Faithful(max, l)
            && l.delivered + Decode(max, l.v.items, l.v.pending) == Decode(max, [], l.stream)
            && (!l.v.readInput ==> l.delivered == Decode(max, [], l.stream))
  {
    var l := Listen(max, inputs);
    if inputs != [] {
      NoLossNoDuplication(max, inputs[..|inputs| - 1]);
      PollIsFaithful(max, Listen(max, inputs[..|inputs| - 1]), inputs[|inputs| - 1]);
    }
    DecodeConcat(max, [], l.stream[..|l.stream| - |l.v.pending|], l.v.pending);
  }
}
