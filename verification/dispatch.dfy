// The update loop every server and client runs: MultiUpdate asks each
// stream container for its pre-select events, gathers the streams to watch,
// waits on them, and hands each ready stream to its container's read, write
// and exceptional handlers, in that order.
//
// The wait itself is outside the model: what it reports is an input. So is
// whether a stream is still open when the write and exceptional handlers
// are reached (the handlers that ran before may have closed it). The model
// computes which handler runs for which stream, in which order; the
// handlers are the connection methods of the Connections module.

module Dispatch {
  import opened Wrappers

  /** A stream container as the gathering loop sees it: the number of its
      stream and whether it has nothing to write. */
  datatype Entry = Entry(stream: nat, writeBufferEmpty: bool)

  /** What stream_select reports: failure, or the ready streams of each of
      the three sets. */
  datatype Selection = Failed | Selected(read: seq<nat>, write: seq<nat>, exceptional: seq<nat>)

  /** One step of an update pass, in the order the events of the pass are
      yielded. */
  datatype Step =
    | BeforeSelect(stream: nat)
    | SelectError
    | HandleRead(stream: nat)
    | HandleWrite(stream: nat)
    | HandleExceptional(stream: nat)

  /** The streams of the containers, in order. */
  function Streams(entries: seq<Entry>): (r: seq<nat>)
    ensures |r| == |entries|
    ensures forall i :: 0 <= i < |entries| ==> r[i] == entries[i].stream
  {
    seq(|entries|, i requires 0 <= i < |entries| => entries[i].stream)
  }

  /** The streams of the containers with something to write, in order. */
  function Pending(entries: seq<Entry>): seq<nat>
  {
    if entries == [] then []
    else
      var last := entries[|entries| - 1];
      Pending(entries[..|entries| - 1]) + (if last.writeBufferEmpty then [] else [last.stream])
  }

  /** A stream is waited on for writing exactly when a container with that
      stream has something to write. */
  lemma {:induction false} PendingMembers(entries: seq<Entry>, s: nat)
    ensures s in Pending(entries) <==> exists i :: 0 <= i < |entries| && entries[i].stream == s && !entries[i].writeBufferEmpty
  {
    if entries != [] {
      var init := entries[..|entries| - 1];
      PendingMembers(init, s);
      if s in Pending(init) {
        var i :| 0 <= i < |init| && init[i].stream == s && !init[i].writeBufferEmpty;
        assert entries[i] == init[i];
      }
      if exists i :: 0 <= i < |entries| && entries[i].stream == s && !entries[i].writeBufferEmpty {
        var i :| 0 <= i < |entries| && entries[i].stream == s && !entries[i].writeBufferEmpty;
        if i < |init| {
          assert init[i] == entries[i];
        }
      }
    }
  }

  /** The gathering loop: every stream is watched for reading and for
      exceptional conditions, and for writing only when its container has
      something to write; each container's pre-select events come first. */
  method Gather(entries: seq<Entry>) returns (before: seq<Step>, read: seq<nat>, write: seq<nat>, exceptional: seq<nat>)
    ensures read == Streams(entries) && exceptional == Streams(entries)
    ensures write == Pending(entries)
    ensures before == BeforeSteps(entries)
  {
    before, read, write, exceptional := [], [], [], [];
    var i := 0;
    while i < |entries|
      invariant 0 <= i <= |entries|
      invariant read == Streams(entries[..i]) && exceptional == Streams(entries[..i])
      invariant write == Pending(entries[..i]) && before == BeforeSteps(entries[..i])
    {
      assert entries[..i + 1][..i] == entries[..i];
      var e := entries[i];
      before := before + [BeforeSelect(e.stream)];
      exceptional := exceptional + [e.stream];
      if !e.writeBufferEmpty {
        write := write + [e.stream];
      }
      read := read + [e.stream];
      i := i + 1;
    }
    assert entries[..i] == entries;
  }

  /** The pre-select steps of the containers, in order. */
  function BeforeSteps(entries: seq<Entry>): (r: seq<Step>)
    ensures |r| == |entries|
    ensures forall i :: 0 <= i < |entries| ==> r[i] == BeforeSelect(entries[i].stream)
  {
    seq(|entries|, i requires 0 <= i < |entries| => BeforeSelect(entries[i].stream))
  }

  /** The handler steps for a ready set: a stream no container owns is
      skipped, and so is one that is no longer open when `open` is given. */
  function Handlers(ready: seq<nat>, known: seq<nat>, open: Option<set<nat>>, kind: nat): (r: seq<Step>)
    requires 1 <= kind <= 3
    ensures |r| <= |ready|
    ensures forall i :: 0 <= i < |r| ==> Rank(r[i]) == kind + 1
    ensures forall i :: 0 <= i < |r| ==> !r[i].SelectError? && r[i].stream in ready && r[i].stream in known
    ensures open.Some? ==> forall i :: 0 <= i < |r| ==> !r[i].SelectError? && r[i].stream in open.value
  {
    if ready == [] then []
    else
      var s := ready[|ready| - 1];
      var step := if kind == 1 then HandleRead(s) else if kind == 2 then HandleWrite(s) else HandleExceptional(s);
      Handlers(ready[..|ready| - 1], known, open, kind)
      + (if s in known && (open.None? || s in open.value) then [step] else [])
  }

  /** The place of a step in a pass. */
  function Rank(step: Step): nat
  {
    match step
    case BeforeSelect(_) => 0
    case SelectError => 1
    case HandleRead(_) => 2
    case HandleWrite(_) => 3
    case HandleExceptional(_) => 4
  }

  /** MultiUpdate. `selection` is what the wait reports; `openAfterReads`
      and `openAfterWrites` are the streams still open once the read, and
      then the write, handlers have run. Nothing is waited on, and nothing
      reported, when there are no containers. */
  method MultiUpdate(entries: seq<Entry>, selection: Selection, openAfterReads: set<nat>, openAfterWrites: set<nat>)
    returns (steps: seq<Step>)
    ensures |steps| >= |entries| && steps[..|entries|] == BeforeSteps(entries)
    ensures entries == [] ==> steps == []
    ensures entries != [] && selection.Failed? ==> steps == BeforeSteps(entries) + [SelectError]
    ensures entries != [] && selection.Selected? ==>
      steps == BeforeSteps(entries)
               + Handlers(selection.read, Streams(entries), None, 1)
               + Handlers(selection.write, Streams(entries), Some(openAfterReads), 2)
               + Handlers(selection.exceptional, Streams(entries), Some(openAfterWrites), 3)
  {
    var before, read, write, exceptional := Gather(entries);
    steps := before;
    if read != [] || write != [] || exceptional != [] {
      match selection
      case Failed =>
        steps := steps + [SelectError];
      case Selected(r, w, x) =>
        var readSteps := HandleAll(r, read, None, 1);
        var writeSteps := HandleAll(w, read, Some(openAfterReads), 2);
        var exceptionalSteps := HandleAll(x, read, Some(openAfterWrites), 3);
        steps := steps + readSteps + writeSteps + exceptionalSteps;
    }
  }

  /** One dispatch loop of MultiUpdate: each ready stream, in order, is
      looked up among the containers' streams and, when found (and still
      open, where that is checked), handed to its handler. */
  method HandleAll(ready: seq<nat>, known: seq<nat>, open: Option<set<nat>>, kind: nat) returns (steps: seq<Step>)
    requires 1 <= kind <= 3
    ensures steps == Handlers(ready, known, open, kind)
  {
    steps := [];
    var i := 0;
    while i < |ready|
      invariant 0 <= i <= |ready|
      invariant steps == Handlers(ready[..i], known, open, kind)
    {
      assert ready[..i + 1][..i] == ready[..i];
      var s := ready[i];
      if s in known && (open.None? || s in open.value) {
        var step := if kind == 1 then HandleRead(s) else if kind == 2 then HandleWrite(s) else HandleExceptional(s);
        steps := steps + [step];
      }
      i := i + 1;
    }
    assert ready[..i] == ready;
  }

  /** A pass yields its steps in order: all pre-select steps, then the
      select error or the read handlers, then the write handlers, then the
      exceptional handlers. */
  lemma PassOrdered(entries: seq<Entry>, selection: Selection, openAfterReads: set<nat>, openAfterWrites: set<nat>, steps: seq<Step>)
    requires entries != [] && selection.Selected?
    requires steps == BeforeSteps(entries)
               + Handlers(selection.read, Streams(entries), None, 1)
               + Handlers(selection.write, Streams(entries), Some(openAfterReads), 2)
               + Handlers(selection.exceptional, Streams(entries), Some(openAfterWrites), 3)
    ensures forall i, j :: 0 <= i < j < |steps| ==> Rank(steps[i]) <= Rank(steps[j])
    ensures forall i :: 0 <= i < |steps| ==> steps[i] != SelectError
  {
    var b := BeforeSteps(entries);
    var r := Handlers(selection.read, Streams(entries), None, 1);
    var w := Handlers(selection.write, Streams(entries), Some(openAfterReads), 2);
    var x := Handlers(selection.exceptional, Streams(entries), Some(openAfterWrites), 3);
    var br := b + r;
    var brw := br + w;
    assert steps == brw + x;
    forall i | 0 <= i < |steps|
      ensures Rank(steps[i]) == (if i < |b| then 0 else if i < |br| then 2
                                 else if i < |brw| then 3 else 4)
    {
      if i < |brw| {
        assert steps[i] == brw[i];
        if i < |br| {
          assert brw[i] == br[i];
          if i < |b| {
            assert br[i] == b[i];
          } else {
            assert br[i] == r[i - |b|];
          }
        } else {
          assert brw[i] == w[i - |br|];
        }
      } else {
        assert steps[i] == x[i - |brw|];
      }
    }
  }

  /** A failed wait yields exactly one select error, after the pre-select
      steps, and runs no handler. */
  lemma FailedPass(entries: seq<Entry>, steps: seq<Step>)
    requires entries != [] && steps == BeforeSteps(entries) + [SelectError]
    ensures |steps| == |entries| + 1 && steps[|entries|] == SelectError
    ensures forall i :: 0 <= i < |steps| ==> (steps[i] == SelectError <==> i == |entries|)
    ensures forall i :: 0 <= i < |steps| ==> Rank(steps[i]) <= 1
  {
    forall i | 0 <= i < |entries|
      ensures steps[i] == BeforeSelect(entries[i].stream)
    {
    }
  }

  /** The write handler runs only for a stream that a container with
      something to write owns, that the wait reported writable, and that is
      still open after the reads. */
  lemma WritesArePending(entries: seq<Entry>, w: seq<nat>, openAfterReads: set<nat>, s: nat)
    requires forall k :: 0 <= k < |w| ==> w[k] in Pending(entries)
    requires HandleWrite(s) in Handlers(w, Streams(entries), Some(openAfterReads), 2)
    ensures s in w && s in openAfterReads
    ensures exists i :: 0 <= i < |entries| && entries[i].stream == s && !entries[i].writeBufferEmpty
  {
    var steps := Handlers(w, Streams(entries), Some(openAfterReads), 2);
    var k :| 0 <= k < |steps| && steps[k] == HandleWrite(s);
    assert steps[k].stream == s;
    PendingMembers(entries, s);
  }
}
