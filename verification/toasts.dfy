/** The notification hook: each notification gets the next id from a counter, is appended to
    the list, and is removed by its own timer. The timer's delay is not modelled; its firing is
    an event. */
module Toasts {
  import opened Wrappers
  import opened Seqs

  /** The two notification types the hook accepts. */
  datatype Kind = Success | Info

  datatype Toast = Toast(id: int, message: string, kind: Kind)

  /** `notificationIdRef.current` and the `notifications` state. */
  datatype Toasts = Toasts(counter: int, items: seq<Toast>)

  const Empty: Toasts := Toasts(0, [])

  /** Every id was issued by the counter, and the list is in issue order with no id twice. */
  predicate Valid(t: Toasts) {
    && t.counter >= 0
    && (forall i :: 0 <= i < |t.items| ==> 1 <= t.items[i].id <= t.counter)
    && (forall i, j :: 0 <= i < j < |t.items| ==> t.items[i].id < t.items[j].id)
  }

  /** Keeps every notification except the one with the given id. */
  function NotId(id: int): Toast -> bool {
    (n: Toast) => n.id != id
  }

  function IssuedBefore(a: Toast, b: Toast): bool {
    a.id < b.id
  }

  /** `addNotification(message, type)`: the new state and the id its timer will remove; the
      type defaults to info. */
  function Add(t: Toasts, message: string, kind: Option<Kind>): (r: (Toasts, int))
    ensures r.1 == t.counter + 1 && r.0.counter == r.1
    ensures r.0.items == t.items + [Toast(r.1, message, if kind.Some? then kind.value else Info)]
    ensures Valid(t) ==> Valid(r.0)
    ensures Valid(t) ==> forall i :: 0 <= i < |t.items| ==> t.items[i].id != r.1
  {
    var id := t.counter + 1;
    (Toasts(id, t.items + [Toast(id, message, if kind.Some? then kind.value else Info)]), id)
  }

  /** The timer of notification `id` fires: that notification leaves the list. */
  function Expire(t: Toasts, id: int): (r: Toasts)
    ensures r.counter == t.counter
    ensures forall n :: n in r.items <==> n in t.items && n.id != id
    ensures |r.items| <= |t.items|
  {
    Toasts(t.counter, Filter(t.items, NotId(id)))
  }

  /** Expiry keeps the list valid: what is left stays in issue order. */
  lemma ExpirePreservesValid(t: Toasts, id: int)
    requires Valid(t)
    ensures Valid(Expire(t, id))
  {
    FilterOrdered(t.items, NotId(id), IssuedBefore);
    var r := Expire(t, id).items;
    forall i | 0 <= i < |r|
      ensures 1 <= r[i].id <= t.counter
    {
      assert r[i] in r;
    }
  }

  /** A notification's own timer removes exactly it: the list returns to what it was before. */
  lemma AddThenExpire(t: Toasts, message: string, kind: Option<Kind>)
    requires Valid(t)
    ensures var (added, id) := Add(t, message, kind);
            Expire(added, id).items == t.items
  {
    var (added, id) := Add(t, message, kind);
    var n := added.items[|t.items|];
    FilterConcat(t.items, [n], NotId(id));
    FilterUnchangedIff(t.items, NotId(id));
    assert Filter([n], NotId(id)) == [];
  }

  /** Expiring an id twice is the same as expiring it once. */
  lemma ExpireIdempotent(t: Toasts, id: int)
    ensures Expire(Expire(t, id), id) == Expire(t, id)
  {
    FilterIdempotent(t.items, NotId(id));
  }

  /** Expiring an id not on the list changes nothing, and only then. */
  lemma ExpireAbsentIff(t: Toasts, id: int)
    ensures Expire(t, id) == t <==> forall i :: 0 <= i < |t.items| ==> t.items[i].id != id
  {
    FilterUnchangedIff(t.items, NotId(id));
  }

  /** Timers may fire in either order: the list left does not depend on it. */
  lemma ExpireOrderIrrelevant(t: Toasts, a: int, b: int)
    ensures Expire(Expire(t, a), b) == Expire(Expire(t, b), a)
  {
    FilterCommutes(t.items, NotId(a), NotId(b));
  }

  /** What can happen to the hook: a call of `addNotification`, or a timer firing. */
  datatype Event = Added(message: string, kind: Option<Kind>) | Fired(id: int)

  function Apply(t: Toasts, e: Event): Toasts {
    match e
    case Added(message, kind) => Add(t, message, kind).0
    case Fired(id) => Expire(t, id)
  }

  /** How many of the events are calls of `addNotification`. */
  function AddCount(events: seq<Event>): nat {
    if events == [] then 0 else (if events[0].Added? then 1 else 0) + AddCount(events[1..])
  }

  /** The hook's state after a sequence of events. The counter is never reset or reused: it
      moves by exactly the number of notifications added, whatever the timers did. */
  function Run(t: Toasts, events: seq<Event>): (r: Toasts)
    ensures r.counter == t.counter + AddCount(events)
    decreases |events|
  {
    if events == [] then t else Run(Apply(t, events[0]), events[1..])
  }

  /** Any run of adds and timers from a valid state keeps ids unique and in issue order. */
  lemma {:induction false} RunPreservesValid(t: Toasts, events: seq<Event>)
    requires Valid(t)
    ensures Valid(Run(t, events))
    decreases |events|
  {
    if events != [] {
      var next := Apply(t, events[0]);
      if events[0].Fired? {
        ExpirePreservesValid(t, events[0].id);
      }
      RunPreservesValid(next, events[1..]);
    }
  }
}
