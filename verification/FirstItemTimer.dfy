/** TimeToFirstItemStream (datafusion-cli/src/object_storage/instrumented.rs:48-93): a stream wrapper
    that records the time from its first poll to the first ready result into a shared cell.  What the
    inner stream answers and what the clock reads at each poll are parameters.
 */
module FirstItemTimer {
  import opened Wrappers
  import opened MachineIntegers

  /** Ready(None) is the end of the stream. */
  datatype Poll<T> = Pending | Ready(item: Option<T>)

  /** One poll: the clock on entry, the inner stream's answer, the clock after it. */
  datatype Event<T> = Event(now: nat, answer: Poll<T>, later: nat)

  /** v is the time from start to later as the cell holds it: exact when it fits in 64 bits, otherwise
      less a multiple of 2^64, and zero when the clock went back. */
  ghost predicate Measures(v: nat, start: nat, later: nat) {
    && v <= USIZE_MAX
    && (start <= later <= start + USIZE_MAX ==> start + v == later)
    && (start <= later ==> (later - start - v) % (USIZE_MAX + 1) == 0)
    && (later < start ==> v == 0)
  }

  lemma {:induction false} MeasuresUnique(v: nat, u: nat, start: nat, later: nat)
    requires Measures(v, start, later) && Measures(u, start, later)
    ensures v == u
  {
    var m := USIZE_MAX + 1;
    if start <= later {
      var a, b := (later - start - v) / m, (later - start - u) / m;
      assert a * m + v == b * m + u;
      assert a == b;
    }
  }

  /** start.elapsed().as_nanos() as u64: saturating at zero, then truncated to 64 bits. */
  function Nanos(start: nat, later: nat): (v: nat)
    ensures Measures(v, start, later)
  {
    var elapsed := if later >= start then later - start else 0;
    elapsed % (USIZE_MAX + 1)
  }

  /** The AtomicU64 shared with the recorded request; `stores` logs what is written to it. */
  class SharedDuration {
    var value: nat
    ghost var stores: seq<nat>

    constructor ()
      ensures value == 0 && stores == []
    {
      value, stores := 0, [];
    }

    method Store(v: nat)
      modifies this
      ensures value == v && stores == old(stores) + [v]
    {
      value, stores := v, stores + [v];
    }
  }

  class TimeToFirstItemStream<T> {
    var start: Option<nat>
    var durationRecorded: bool
    const requestDuration: SharedDuration

    constructor (cell: SharedDuration)
      ensures start == None && !durationRecorded && requestDuration == cell
    {
      start, durationRecorded, requestDuration := None, false, cell;
    }

    method PollNext(e: Event<T>) returns (r: Poll<T>)
      modifies this, requestDuration
      ensures r == e.answer
      ensures start == Some(if old(start).Some? then old(start).value else e.now)
      ensures durationRecorded == (old(durationRecorded) || e.answer.Ready?)
      ensures var store := !old(durationRecorded) && e.answer.Ready?;
        && requestDuration.value == (if store then Nanos(start.value, e.later) else old(requestDuration.value))
        && requestDuration.stores == old(requestDuration.stores)
           + (if store then [Nanos(start.value, e.later)] else [])
        && (store ==> Measures(requestDuration.value, start.value, e.later))
    {
      if start == None { start := Some(e.now); }
      var began := start.value;
      r := e.answer;
      if !durationRecorded && r.Ready? {
        durationRecorded := true;
        requestDuration.Store(Nanos(began, e.later));
      }
    }
  }

  /** The first poll that is ready, or the number of polls. */
  ghost function FirstReady<T>(events: seq<Event<T>>): (k: nat)
    ensures k <= |events| && (k < |events| ==> events[k].answer.Ready?)
    ensures forall i :: 0 <= i < k ==> events[i].answer.Pending?
  {
    if events == [] || events[0].answer.Ready? then 0 else 1 + FirstReady(events[1..])
  }

  /** What the whole history stores: nothing until a poll is ready, then one duration, for ever. */
  ghost function Stores<T>(events: seq<Event<T>>): seq<nat> {
    var k := FirstReady(events);
    if k == |events| then [] else [Nanos(events[0].now, events[k].later)]
  }

  lemma {:induction false} StoresStep<T>(events: seq<Event<T>>, e: Event<T>)
    ensures Stores(events + [e])
         == if Stores(events) == [] && e.answer.Ready? then [Nanos((events + [e])[0].now, e.later)] else Stores(events)
  {
    var k := FirstReady(events);
    var k' := FirstReady(events + [e]);
    assert forall i :: 0 <= i < |events| ==> (events + [e])[i] == events[i];
    if k < |events| {
      assert (events + [e])[k].answer.Ready?;
      assert k' <= k && !(k' < k);
    } else {
      assert forall i :: 0 <= i < |events| ==> events[i].answer.Pending?;
      assert k' >= |events| && (events + [e])[|events|] == e;
    }
  }

  ghost predicate BecomesReady<T>(events: seq<Event<T>>, k: nat) {
    k < |events| && events[k].answer.Ready? && forall i :: 0 <= i < k ==> events[i].answer.Pending?
  }

  lemma {:induction false} StoredOnce<T>(events: seq<Event<T>>)
    ensures (forall i :: 0 <= i < |events| ==> events[i].answer.Pending?) ==> Stores(events) == []
    ensures forall k: nat :: BecomesReady(events, k) ==>
      |Stores(events)| == 1 && Measures(Stores(events)[0], events[0].now, events[k].later)
  {
    forall k: nat | BecomesReady(events, k) ensures FirstReady(events) == k {
      assert !(FirstReady(events) < k) && !(k < FirstReady(events));
    }
  }

  /** Over every poll history the wrapper is transparent, starts its clock at the first poll, and
      stores exactly once, at the first ready answer, the time from the first poll to that answer. */
  method Drive<T>(events: seq<Event<T>>) returns (answers: seq<Poll<T>>, cell: SharedDuration)
    ensures |answers| == |events| && forall i :: 0 <= i < |events| ==> answers[i] == events[i].answer
    ensures fresh(cell) && cell.stores == Stores(events)
    ensures cell.value == if Stores(events) == [] then 0 else Stores(events)[0]
    ensures (forall i :: 0 <= i < |events| ==> events[i].answer.Pending?) ==> cell.stores == [] && cell.value == 0
    ensures forall k: nat :: BecomesReady(events, k) ==>
      cell.stores == [cell.value] && Measures(cell.value, events[0].now, events[k].later)
  {
    answers := [];
    cell := new SharedDuration();
    var s := new TimeToFirstItemStream<T>(cell);
    for k := 0 to |events|
      invariant fresh(s) && fresh(cell) && s.requestDuration == cell
      invariant |answers| == k && forall i :: 0 <= i < k ==> answers[i] == events[i].answer
      invariant s.start == if k == 0 then None else Some(events[0].now)
      invariant cell.stores == Stores(events[..k])
      invariant s.durationRecorded <==> cell.stores != []
      invariant cell.value == if cell.stores == [] then 0 else cell.stores[0]
    {
      assert events[..k + 1] == events[..k] + [events[k]];
      StoresStep(events[..k], events[k]);
      var r := s.PollNext(events[k]);
      answers := answers + [r];
    }
    assert events[..|events|] == events;
    StoredOnce(events);
  }
}
