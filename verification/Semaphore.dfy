/**
  The bucketed FIFO semaphore of src/lib/semaphore.js: the class, and what every run of acquires and releases keeps.
  A ticket names one call of `acquire`; its promise is pending while the ticket waits and resolved once it is granted.
 */
module Semaphore {
  import opened Prelude
  import opened Sequences

  type Ticket = int

  datatype Bucket = Bucket(currentConcurrency: int, waiting: seq<Ticket>)

  datatype Event = Acquire(bucket: string, ticket: Ticket) | Release(bucket: string, ticket: Ticket)

  function Get(data: map<string, Bucket>, bucket: string): Option<Bucket> {
    if bucket in data then Some(data[bucket]) else None
  }

  function Enter(max: int, datum: Option<Bucket>, ticket: Ticket): Bucket {
    var d := if datum.Some? then datum.value else Bucket(0, []);
    if d.currentConcurrency < max then d.(currentConcurrency := d.currentConcurrency + 1)
    else d.(waiting := d.waiting + [ticket])
  }

  function Leave(d: Bucket): Bucket {
    if d.waiting != [] then d.(waiting := d.waiting[1..]) else d.(currentConcurrency := d.currentConcurrency - 1)
  }

  function Apply(max: int, data: map<string, Bucket>, event: Event): map<string, Bucket> {
    match event
    case Acquire(b, t) => data[b := Enter(max, Get(data, b), t)]
    case Release(b, _) => if b in data then data[b := Leave(data[b])] else data
  }

  class Semaphore {
    const maxConcurrency: int
    var data: map<string, Bucket>

    constructor (maxConcurrency: int := 1)
      ensures this.maxConcurrency == maxConcurrency && data == map["" := Bucket(0, [])]
    {
      this.maxConcurrency := maxConcurrency;
      data := map["" := Bucket(0, [])];
    }

    /** `granted` is false when the caller has to wait for its promise. */
    method Acquire(bucket: string, ticket: Ticket) returns (granted: bool)
      modifies this
      ensures data == Apply(maxConcurrency, old(data), Event.Acquire(bucket, ticket))
      ensures granted <==> (if bucket in old(data) then old(data)[bucket].currentConcurrency else 0) < maxConcurrency
    {
      if bucket !in data {
        data := data[bucket := Bucket(0, [])];
      }
      var datum := data[bucket];
      if datum.currentConcurrency < maxConcurrency {
        data := data[bucket := datum.(currentConcurrency := datum.currentConcurrency + 1)];
        granted := true;
      } else {
        data := data[bucket := datum.(waiting := datum.waiting + [ticket])];
        granted := false;
      }
    }

    /** Returns the ticket whose promise the release resolves, if any. */
    method Release(bucket: string) returns (woken: Option<Ticket>)
      modifies this
      ensures forall holder :: data == Apply(maxConcurrency, old(data), Event.Release(bucket, holder))
      ensures woken == if bucket in old(data) && old(data)[bucket].waiting != []
                       then Some(old(data)[bucket].waiting[0]) else None
    {
      woken := None;
      if bucket in data {
        var datum := data[bucket];
        if |datum.waiting| > 0 {
          woken := Some(datum.waiting[0]);
          data := data[bucket := datum.(waiting := datum.waiting[1..])];
        } else {
          data := data[bucket := datum.(currentConcurrency := datum.currentConcurrency - 1)];
        }
      }
    }
  }

  // ---------- runs over all buckets, and the history of one bucket ----------

  function Run(max: int, data: map<string, Bucket>, events: seq<Event>): map<string, Bucket> {
    if events == [] then data
    else Apply(max, Run(max, data, events[..|events| - 1]), events[|events| - 1])
  }

  function ForBucket(events: seq<Event>, bucket: string): seq<Event> {
    if events == [] then []
    else
      var last := events[|events| - 1];
      var earlier := ForBucket(events[..|events| - 1], bucket);
      if last.bucket == bucket then earlier + [last] else earlier
  }

  /**
    One bucket with its past: tickets in order of arrival, tickets in order of grant, tickets granted and not yet
    released, and how many releases came from a ticket that held no slot.
   */
  datatype History = History(datum: Option<Bucket>, arrivals: seq<Ticket>, granted: seq<Ticket>,
                             holders: set<Ticket>, spurious: nat)

  function Waiting(h: History): seq<Ticket> {
    if h.datum.Some? then h.datum.value.waiting else []
  }

  function Concurrency(h: History): int {
    if h.datum.Some? then h.datum.value.currentConcurrency else 0
  }

  function Record(max: int, h: History, event: Event): History {
    match event
    case Acquire(_, t) =>
      var d := Some(Enter(max, h.datum, t));
      if Concurrency(h) < max
      then h.(datum := d, arrivals := h.arrivals + [t], granted := h.granted + [t], holders := h.holders + {t})
      else h.(datum := d, arrivals := h.arrivals + [t])
    case Release(_, t) =>
      if h.datum.None? then h
      else
        var spurious := if t in h.holders then h.spurious else h.spurious + 1;
        var woken := if Waiting(h) != [] then [Waiting(h)[0]] else [];
        History(Some(Leave(h.datum.value)), h.arrivals, h.granted + woken,
                h.holders - {t} + (set w | w in woken), spurious)
  }

  function Trace(max: int, h: History, events: seq<Event>): History {
    if events == [] then h
    else Record(max, Trace(max, h, events[..|events| - 1]), events[|events| - 1])
  }

  function Fresh(datum: Option<Bucket>): History {
    History(datum, [], [], {}, 0)
  }

  /** Every acquire of the bucket is a call of its own. */
  ghost predicate OwnTickets(h: History, events: seq<Event>) {
    (forall i :: 0 <= i < |events| && events[i].Acquire? ==> events[i].ticket !in h.arrivals) &&
    forall i, j :: 0 <= i < j < |events| && events[i].Acquire? && events[j].Acquire? ==>
      events[i].ticket != events[j].ticket
  }

  /** Buckets never affect each other: what happens to one is decided by its own events alone. */
  lemma {:induction false} BucketsIndependent(max: int, data: map<string, Bucket>, events: seq<Event>, bucket: string)
    ensures Get(Run(max, data, events), bucket) ==
            Trace(max, Fresh(Get(data, bucket)), ForBucket(events, bucket)).datum
  {
    if events != [] {
      var n := |events| - 1;
      BucketsIndependent(max, data, events[..n], bucket);
      if events[n].bucket == bucket {
        var own := ForBucket(events, bucket);
        assert own == ForBucket(events[..n], bucket) + [events[n]];
        assert own[..|own| - 1] == ForBucket(events[..n], bucket);
      }
    }
  }

  /**
    Slots are granted in arrival order, waiters exist only while the bucket is full, and the bucket counts its holders,
    short by one for each release that came from no holder.
   */
  ghost predicate Sound(max: int, h: History) {
    && h.arrivals == h.granted + Waiting(h)
    && (forall i, j :: 0 <= i < j < |h.arrivals| ==> h.arrivals[i] != h.arrivals[j])
    && (forall t :: t in h.holders ==> t in h.granted)
    && |h.holders| == Concurrency(h) + h.spurious
    && (max >= 0 ==> Concurrency(h) <= max)
    && (Waiting(h) != [] ==> Concurrency(h) >= max)
  }

  lemma AcquireSound(max: int, h: History, bucket: string, ticket: Ticket)
    requires Sound(max, h) && ticket !in h.arrivals
    ensures Sound(max, Record(max, h, Acquire(bucket, ticket)))
  {
  }

  lemma HandOverSound(max: int, h: History, bucket: string, ticket: Ticket)
    requires Sound(max, h) && Waiting(h) != []
    ensures Sound(max, Record(max, h, Release(bucket, ticket)))
  {
    var h' := Record(max, h, Release(bucket, ticket));
    var w := Waiting(h)[0];
    assert h'.granted == h.granted + [w];
    assert h'.granted + Waiting(h') == h.arrivals;
    assert w !in h.granted by {
      assert h.arrivals[|h.granted|] == w;
      assert forall i :: 0 <= i < |h.granted| ==> h.granted[i] == h.arrivals[i];
    }
    assert h'.holders == (h.holders - {ticket}) + {w} by {
      assert (set x | x in [w]) == {w};
    }
  }

  lemma {:induction false} RecordSound(max: int, h: History, event: Event)
    requires Sound(max, h) && (event.Acquire? ==> event.ticket !in h.arrivals)
    ensures Sound(max, Record(max, h, event))
  {
    if event.Acquire? {
      AcquireSound(max, h, event.bucket, event.ticket);
    } else if Waiting(h) != [] {
      HandOverSound(max, h, event.bucket, event.ticket);
    } else if h.datum.Some? {
      assert (set x: Ticket | x in []) == {};
      assert Record(max, h, event).holders == h.holders - {event.ticket};
    }
  }

  /** In every run of a bucket from its creation the invariant holds. */
  lemma {:induction false} RunSound(max: int, start: Option<Bucket>, events: seq<Event>)
    requires start == None || start == Some(Bucket(0, []))
    requires OwnTickets(Fresh(start), events)
    ensures Sound(max, Trace(max, Fresh(start), events))
  {
    if events != [] {
      var n := |events| - 1;
      OwnTicketNext(max, start, events);
      RunSound(max, start, events[..n]);
      RecordSound(max, Trace(max, Fresh(start), events[..n]), events[n]);
    }
  }

  lemma OwnTicketNext(max: int, start: Option<Bucket>, events: seq<Event>)
    requires events != [] && OwnTickets(Fresh(start), events)
    ensures var n := |events| - 1;
            OwnTickets(Fresh(start), events[..n]) &&
            (events[n].Acquire? ==> events[n].ticket !in Trace(max, Fresh(start), events[..n]).arrivals)
  {
    ArrivalsAre(max, Fresh(start), events[..|events| - 1]);
  }

  lemma ArrivalsAre(max: int, h: History, events: seq<Event>)
    ensures forall t :: t in Trace(max, h, events).arrivals ==>
              t in h.arrivals || exists i :: 0 <= i < |events| && events[i] == Acquire(events[i].bucket, t)
  {
  }

  /** Safety of the semaphore: when only holders release, a bucket never has more than `max` holders. */
  lemma {:induction false} MutualExclusion(max: nat, data: map<string, Bucket>, events: seq<Event>, bucket: string)
    requires data == map["" := Bucket(0, [])]
    requires OwnTickets(Fresh(Get(data, bucket)), ForBucket(events, bucket))
    ensures var h := Trace(max, Fresh(Get(data, bucket)), ForBucket(events, bucket));
            Get(Run(max, data, events), bucket) == h.datum && Sound(max, h) && |h.holders| <= max + h.spurious &&
            (h.spurious == 0 ==> |h.holders| == Concurrency(h) <= max && (Waiting(h) != [] ==> |h.holders| == max))
  {
    BucketsIndependent(max, data, events, bucket);
    RunSound(max, Get(data, bucket), ForBucket(events, bucket));
  }

  // ---------- the bound is reached, spurious releases included ----------

  function Acquires(bucket: string, tickets: seq<Ticket>): seq<Event> {
    if tickets == [] then []
    else Acquires(bucket, tickets[..|tickets| - 1]) + [Acquire(bucket, tickets[|tickets| - 1])]
  }

  ghost predicate FreshTickets(h: History, tickets: seq<Ticket>) {
    (forall i :: 0 <= i < |tickets| ==> tickets[i] !in h.arrivals) &&
    forall i, j :: 0 <= i < j < |tickets| ==> tickets[i] != tickets[j]
  }

  lemma TraceSnoc(max: int, h: History, events: seq<Event>, event: Event)
    ensures Trace(max, h, events + [event]) == Record(max, Trace(max, h, events), event)
  {
    assert (events + [event])[..|events|] == events;
  }

  /** Free slots go to whoever asks. */
  lemma {:induction false} SlotsGranted(max: int, h: History, bucket: string, tickets: seq<Ticket>)
    requires Sound(max, h) && FreshTickets(h, tickets) && |tickets| <= max - Concurrency(h)
    ensures var e := Trace(max, h, Acquires(bucket, tickets));
            Sound(max, e) && Concurrency(e) == Concurrency(h) + |tickets| && e.spurious == h.spurious &&
            e.arrivals == h.arrivals + tickets
  {
    if tickets == [] {
      assert h.arrivals + tickets == h.arrivals;
    } else {
      var front, last := tickets[..|tickets| - 1], tickets[|tickets| - 1];
      SlotsGranted(max, h, bucket, front);
      TraceSnoc(max, h, Acquires(bucket, front), Acquire(bucket, last));
      SlotGranted(max, Trace(max, h, Acquires(bucket, front)), bucket, last);
      Assoc(h.arrivals, front, [last]);
      Snoc(tickets);
    }
  }

  lemma SlotGranted(max: int, h: History, bucket: string, ticket: Ticket)
    requires Sound(max, h) && ticket !in h.arrivals && Concurrency(h) < max
    ensures var e := Record(max, h, Acquire(bucket, ticket));
            Sound(max, e) && Concurrency(e) == Concurrency(h) + 1 && e.spurious == h.spurious &&
            e.arrivals == h.arrivals + [ticket]
  {
    AcquireSound(max, h, bucket, ticket);
  }

  /** Asking for the free slots fills a bucket to the bound plus the spurious releases. */
  lemma BoundIsReached(max: nat, h: History, bucket: string, tickets: seq<Ticket>)
    requires Sound(max, h) && FreshTickets(h, tickets) && |tickets| == max - Concurrency(h)
    ensures |Trace(max, h, Acquires(bucket, tickets)).holders| == max + h.spurious
  {
    SlotsGranted(max, h, bucket, tickets);
  }

  function SpuriousReleases(n: nat): (r: seq<Event>)
    ensures |r| == n && forall i :: 0 <= i < n ==> r[i] == Release("", 0)
  {
    seq(n, i => Release("", 0))
  }

  lemma {:induction false} SpuriousRun(max: int, events: seq<Event>)
    requires forall i :: 0 <= i < |events| ==> events[i] == Release("", 0)
    ensures Trace(max, Fresh(Some(Bucket(0, []))), events) ==
            History(Some(Bucket(0 - |events|, [])), [], [], {}, |events|)
  {
    if events != [] {
      SpuriousRun(max, events[..|events| - 1]);
      SpuriousNext(max, |events| - 1);
    }
  }

  lemma SpuriousNext(max: int, n: nat)
    ensures Record(max, History(Some(Bucket(0 - n, [])), [], [], {}, n), Release("", 0)) ==
            History(Some(Bucket(0 - (n + 1), [])), [], [], {}, n + 1)
  {
    assert (set t: Ticket | t in []) == {};
  }

  lemma {:induction false} TraceConcat(max: int, h: History, a: seq<Event>, b: seq<Event>)
    ensures Trace(max, h, a + b) == Trace(max, Trace(max, h, a), b)
    decreases b
  {
    if b == [] {
      assert a + b == a;
    } else {
      var front, last := b[..|b| - 1], b[|b| - 1];
      TraceConcat(max, h, a, front);
      TraceSnoc(max, h, a + front, last);
      Assoc(a, front, [last]);
      Snoc(b);
    }
  }

  lemma ExcessReached(max: nat, releases: seq<Event>, tickets: seq<Ticket>)
    requires forall i :: 0 <= i < |releases| ==> releases[i] == Release("", 0)
    requires |tickets| == max + |releases| && forall i, j :: 0 <= i < j < |tickets| ==> tickets[i] != tickets[j]
    ensures var e := Trace(max, Fresh(Some(Bucket(0, []))), releases + Acquires("", tickets));
            e.spurious == |releases| && |e.holders| == max + |releases|
  {
    SpuriousRun(max, releases);
    TraceConcat(max, Fresh(Some(Bucket(0, []))), releases, Acquires("", tickets));
    SlotsGranted(max, History(Some(Bucket(0 - |releases|, [])), [], [], {}, |releases|), "", tickets);
  }

  /** For every bound and number of spurious releases there is a run in which that many holders exceed the bound. */
  lemma ExcessIsReached(max: nat, n: nat, tickets: seq<Ticket>)
    requires |tickets| == max + n && forall i, j :: 0 <= i < j < |tickets| ==> tickets[i] != tickets[j]
    ensures var e := Trace(max, Fresh(Some(Bucket(0, []))), SpuriousReleases(n) + Acquires("", tickets));
            e.spurious == n && |e.holders| == max + n
  {
    ExcessReached(max, SpuriousReleases(n), tickets);
  }

  // ---------- when a waiter gets its slot ----------

  function Releases(events: seq<Event>): nat {
    if events == [] then 0
    else Releases(events[..|events| - 1]) + if events[|events| - 1].Release? then 1 else 0
  }

  /** Grants go on from the queue: the first releases hand over one slot each, in order, and nothing else is granted. */
  lemma {:induction false} GrantsFollowReleases(max: int, h: History, events: seq<Event>)
    requires Sound(max, h) && OwnTickets(h, events) && Waiting(h) != []
    ensures var h' := Trace(max, h, events);
            Sound(max, h') && h.arrivals <= h'.arrivals && h'.datum.Some? &&
            (Releases(events) <= |Waiting(h)| ==>
               |h'.granted| == |h.granted| + Releases(events) && Concurrency(h') >= max) &&
            (Releases(events) > |Waiting(h)| ==> |h'.granted| >= |h.granted| + |Waiting(h)|)
  {
    if events != [] {
      var n := |events| - 1;
      var before := Trace(max, h, events[..n]);
      GrantsFollowReleases(max, h, events[..n]);
      ArrivalsAre(max, h, events[..n]);
      RecordSound(max, before, events[n]);
      assert |before.arrivals| == |before.granted| + |Waiting(before)| >= |h.granted| + |Waiting(h)|;
    }
  }

  /** The waiter at position `k` is granted at exactly the (k+1)-th release that follows. */
  lemma {:induction false} WaiterGrantedInTurn(max: int, h: History, events: seq<Event>, k: nat)
    requires Sound(max, h) && OwnTickets(h, events) && k < |Waiting(h)|
    ensures Waiting(h)[k] in Trace(max, h, events).granted <==> Releases(events) >= k + 1
  {
    GrantsFollowReleases(max, h, events);
    var h' := Trace(max, h, events);
    var at := |h.granted| + k;
    ArrivalAt(h, h', k);
    GrantedByPosition(max, h', at);
  }

  lemma ArrivalAt(h: History, h': History, k: nat)
    requires h.arrivals == h.granted + Waiting(h) && h.arrivals <= h'.arrivals && k < |Waiting(h)|
    ensures |h.granted| + k < |h'.arrivals| && h'.arrivals[|h.granted| + k] == Waiting(h)[k]
  {
    assert h.arrivals[|h.granted| + k] == Waiting(h)[k];
  }

  /** With distinct tickets in arrival order, being granted is a matter of position. */
  lemma GrantedByPosition(max: int, h: History, at: nat)
    requires Sound(max, h) && at < |h.arrivals|
    ensures h.arrivals[at] in h.granted <==> at < |h.granted|
  {
    assert forall i :: 0 <= i < |h.granted| ==> h.granted[i] == h.arrivals[i];
  }
}
