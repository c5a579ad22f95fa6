/**
 * The toast queue (src/store/toastStore.ts): `useToastStore`, a list of
 * messages to which `addToast` appends and from which `removeToast` filters
 * by id.
 */
module ToastStore {
  import opened Wrappers
  import opened Seqs

  /** `ToastType`, whose values are the strings 'danger', 'info' and 'success'. */
  datatype ToastType = Error | Info | Success

  /** `ToastMessage`; the duration is in milliseconds. */
  datatype Toast = Toast(id: string, message: string, kind: ToastType, duration: int)

  /** The duration `addToast` records when it is given none. */
  const DefaultDuration: int := 30000

  predicate IdUnused(toasts: seq<Toast>, id: string)
  {
    forall i :: 0 <= i < |toasts| ==> toasts[i].id != id
  }

  /** `toast.id !== id`. */
  function Other(id: string): (p: Toast -> bool)
  {
    (t: Toast) => t.id != id
  }

  /** The list `removeToast(id)` leaves: the toasts with another id, in their order. */
  function Without(toasts: seq<Toast>, id: string): (r: seq<Toast>)
    ensures IdUnused(r, id)
    ensures forall t :: t in r <==> t in toasts && t.id != id
  {
    Keep(toasts, Other(id))
  }

  /** The record `addToast` appends. */
  function NewToast(id: string, message: string, kind: ToastType, duration: Option<int>): Toast
  {
    Toast(id, message, kind, duration.GetOr(DefaultDuration))
  }

  /** Removing an id no toast has leaves the list unchanged. */
  lemma RemoveUnknown(toasts: seq<Toast>, id: string)
    requires IdUnused(toasts, id)
    ensures Without(toasts, id) == toasts
  {
    KeepAll(toasts, Other(id));
  }

  /** Removing the same id twice is removing it once. */
  lemma RemoveTwice(toasts: seq<Toast>, id: string)
    ensures Without(Without(toasts, id), id) == Without(toasts, id)
  {
    KeepIdempotent(toasts, Other(id));
  }

  /** Removals of two ids, as two timers fire, give the same list in either order. */
  lemma {:induction false} RemoveCommutes(toasts: seq<Toast>, a: string, b: string)
    ensures Without(Without(toasts, a), b) == Without(Without(toasts, b), a)
  {
    if toasts != [] {
      var head, rest := [toasts[0]], toasts[1..];
      assert toasts == head + rest;
      RemoveCommutes(rest, a, b);
      KeepConcat(head, rest, Other(a));
      KeepConcat(head, rest, Other(b));
      KeepConcat(Without(head, a), Without(rest, a), Other(b));
      KeepConcat(Without(head, b), Without(rest, b), Other(a));
    }
  }

  /** With a fresh id, adding a toast and then removing it restores the list. */
  lemma AddThenRemove(toasts: seq<Toast>, t: Toast)
    requires IdUnused(toasts, t.id)
    ensures Without(toasts + [t], t.id) == toasts
  {
    KeepConcat(toasts, [t], Other(t.id));
    RemoveUnknown(toasts, t.id);
  }

  class ToastQueue {
    var toasts: seq<Toast>

    constructor ()
      ensures toasts == []
    {
      toasts := [];
    }

    /**
     * `addToast`: appends one toast with the fresh id `id`; without a
     * duration it records the default one.
     */
    method AddToast(message: string, kind: ToastType, duration: Option<int>, id: string)
      requires IdUnused(toasts, id)
      modifies this
      ensures toasts == old(toasts) + [NewToast(id, message, kind, duration)]
      ensures duration.None? ==> toasts[|toasts| - 1].duration == 30000
      ensures duration.Some? ==> toasts[|toasts| - 1].duration == duration.value
    {
      toasts := toasts + [NewToast(id, message, kind, duration)];
    }

    /** `removeToast`: drops every toast with the id and keeps the rest in order. */
    method RemoveToast(id: string)
      modifies this
      ensures toasts == Without(old(toasts), id)
    {
      toasts := Without(toasts, id);
    }
  }

  /**
   * What the timer set up by `addToast` eventually does: the toast added
   * and then removed by its own id leaves the queue as it was.
   */
  method ToastLifetime(queue: ToastQueue, message: string, kind: ToastType, duration: Option<int>, id: string)
    requires IdUnused(queue.toasts, id)
    modifies queue
    ensures queue.toasts == old(queue.toasts)
  {
    queue.AddToast(message, kind, duration, id);
    queue.RemoveToast(id);
    AddThenRemove(old(queue.toasts), NewToast(id, message, kind, duration));
  }
}
