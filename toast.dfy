/**
 * The toast queue (`useToast.ts`): one queue and one id counter shared by
 * every caller. Each message gets the next id; a message with a positive
 * duration is removed again when its timer fires. The timer is not
 * modelled: its firing is a call to `Remove` with the id `Show` returned.
 */
module Toast {
  import opened JsString
  import opened Types

  const DefaultDuration: int := 2000

  /** Every id in the queue was handed out by a counter now at `counter`. */
  predicate IdsIssued(toasts: seq<ToastMessage>, counter: int)
  {
    forall i :: 0 <= i < |toasts| ==> 0 < toasts[i].id <= counter
  }

  /** Ids increase along the queue, so no id appears twice. */
  predicate IdsIncreasing(toasts: seq<ToastMessage>)
  {
    forall i, j :: 0 <= i < j < |toasts| ==> toasts[i].id < toasts[j].id
  }

  /** `findIndex(t => t.id === id)`. */
  function IndexOfToast(toasts: seq<ToastMessage>, id: int): (r: int)
    ensures -1 <= r < |toasts|
    ensures r == -1 <==> forall i :: 0 <= i < |toasts| ==> toasts[i].id != id
    ensures r >= 0 ==> toasts[r].id == id
    ensures r >= 0 ==> forall i :: 0 <= i < r ==> toasts[i].id != id
  {
    if toasts == [] then -1
    else if toasts[0].id == id then 0
    else
      var r := IndexOfToast(toasts[1..], id);
      if r == -1 then -1 else r + 1
  }

  /** The queue after `remove(id)`. */
  function Without(toasts: seq<ToastMessage>, id: int): seq<ToastMessage>
  {
    var i := IndexOfToast(toasts, id);
    if i == -1 then toasts else toasts[..i] + toasts[i + 1..]
  }

  /** The position in the old queue of position `k` of a queue with
      position `i` removed. */
  function Skip(k: int, i: int): int
  {
    if k < i then k else k + 1
  }

  lemma SpliceAt(toasts: seq<ToastMessage>, i: int)
    requires 0 <= i < |toasts|
    ensures |toasts[..i] + toasts[i + 1..]| == |toasts| - 1
    ensures forall k :: 0 <= k < |toasts| - 1 ==> (toasts[..i] + toasts[i + 1..])[k] == toasts[Skip(k, i)]
  {
  }

  lemma SpliceIncreasing(toasts: seq<ToastMessage>, i: int)
    requires 0 <= i < |toasts| && IdsIncreasing(toasts)
    ensures IdsIncreasing(toasts[..i] + toasts[i + 1..])
  {
    var w := toasts[..i] + toasts[i + 1..];
    SpliceAt(toasts, i);
    forall a, b | 0 <= a < b < |w|
      ensures w[a].id < w[b].id
    {
      assert Skip(a, i) < Skip(b, i);
    }
  }

  lemma SpliceMembers(toasts: seq<ToastMessage>, i: int)
    requires 0 <= i < |toasts| && IdsIncreasing(toasts)
    ensures forall t :: t in toasts[..i] + toasts[i + 1..] <==> t in toasts && t.id != toasts[i].id
  {
    var w := toasts[..i] + toasts[i + 1..];
    SpliceAt(toasts, i);
    forall t | t in toasts && t.id != toasts[i].id
      ensures t in w
    {
      var k :| 0 <= k < |toasts| && toasts[k] == t;
      if k < i {
        assert w[k] == t;
      } else {
        assert k != i;
        assert w[k - 1] == t;
      }
    }
    forall t | t in w
      ensures t in toasts && t.id != toasts[i].id
    {
      var k :| 0 <= k < |w| && w[k] == t;
      var j := Skip(k, i);
      assert toasts[j] == t;
      if j < i { assert toasts[j].id < toasts[i].id; } else { assert toasts[i].id < toasts[j].id; }
    }
  }

  lemma SpliceIssued(toasts: seq<ToastMessage>, i: int, counter: int)
    requires 0 <= i < |toasts| && IdsIssued(toasts, counter)
    ensures IdsIssued(toasts[..i] + toasts[i + 1..], counter)
  {
    SpliceAt(toasts, i);
  }

  /** With increasing ids, removing drops exactly the messages carrying
      the id (at most one), keeps every other message in order, and keeps
      the ids increasing and issued. */
  lemma {:induction false} WithoutSpec(toasts: seq<ToastMessage>, id: int, counter: int)
    requires IdsIncreasing(toasts)
    ensures forall t :: t in Without(toasts, id) <==> t in toasts && t.id != id
    ensures IdsIncreasing(Without(toasts, id))
    ensures IdsIssued(toasts, counter) ==> IdsIssued(Without(toasts, id), counter)
    ensures |Without(toasts, id)| == |toasts| - (if IndexOfToast(toasts, id) == -1 then 0 else 1)
  {
    var i := IndexOfToast(toasts, id);
    if i >= 0 {
      SpliceAt(toasts, i);
      SpliceIncreasing(toasts, i);
      SpliceMembers(toasts, i);
      if IdsIssued(toasts, counter) {
        SpliceIssued(toasts, i, counter);
      }
    }
  }

  /** A message shown and then removed by its own id leaves the queue as
      it was. */
  lemma ShowThenRemove(toasts: seq<ToastMessage>, counter: int, t: ToastMessage)
    requires IdsIssued(toasts, counter) && t.id == counter + 1
    ensures Without(toasts + [t], t.id) == toasts
  {
    var q := toasts + [t];
    assert forall i :: 0 <= i < |toasts| ==> q[i].id != t.id;
    assert q[|toasts|] == t;
    assert IndexOfToast(q, t.id) == |toasts|;
    assert q[..|toasts|] == toasts;
  }

  class ToastQueue {
    var toasts: seq<ToastMessage>
    var toastId: int

    predicate Valid()
      reads this
    {
      toastId >= 0 && IdsIssued(toasts, toastId) && IdsIncreasing(toasts)
    }

    constructor ()
      ensures toasts == [] && toastId == 0 && Valid()
    {
      toasts := [];
      toastId := 0;
    }

    /** `show`: the message is queued with the next id; `scheduled` says
        whether its removal timer was started. */
    method Show(message: string, kind: ToastType, duration: int) returns (id: int, scheduled: bool)
      requires Valid()
      modifies this
      ensures Valid()
      ensures id == old(toastId) + 1 && toastId == id
      ensures toasts == old(toasts) + [ToastMessage(id, kind, message, Some(duration))]
      ensures scheduled <==> duration > 0
    {
      toastId := toastId + 1;
      id := toastId;
      toasts := toasts + [ToastMessage(id, kind, message, Some(duration))];
      scheduled := duration > 0;
    }

    /** `success`, `error`, `info` and `warning`: `show` with that type
        and, when none is given, the default duration. */
    method ShowTyped(message: string, kind: ToastType, duration: Option<int>) returns (id: int, scheduled: bool)
      requires Valid()
      modifies this
      ensures Valid()
      ensures id == old(toastId) + 1 && toastId == id
      ensures toasts == old(toasts) + [ToastMessage(id, kind, message, Some(DurationOr(duration)))]
      ensures scheduled <==> DurationOr(duration) > 0
      ensures duration.None? ==> scheduled
    {
      id, scheduled := Show(message, kind, DurationOr(duration));
    }

    /** `remove`: the message with that id leaves the queue, if it is
        still there. */
    method Remove(id: int)
      requires Valid()
      modifies this
      ensures Valid()
      ensures toasts == Without(old(toasts), id) && toastId == old(toastId)
    {
      WithoutSpec(toasts, id, toastId);
      var index := IndexOfToast(toasts, id);
      if index > -1 {
        toasts := toasts[..index] + toasts[index + 1..];
      }
    }

    /** `clear`: the counter keeps counting. */
    method Clear()
      requires Valid()
      modifies this
      ensures Valid()
      ensures toasts == [] && toastId == old(toastId)
    {
      toasts := [];
    }
  }

  /** A typed helper's duration argument, with its default. */
  function DurationOr(duration: Option<int>): (r: int)
    ensures duration.None? ==> r == DefaultDuration
  {
    if duration.Some? then duration.value else DefaultDuration
  }
}
