/** The toast queue (`toast.service.ts`): toasts are appended in order and
    removed by id; a positive duration schedules the removal. */
module Toasts {
  import opened Wrappers
  import Seqs

  datatype ToastType = Success | Error | Warning | Info

  datatype Toast = Toast(id: string, message: string, kind: ToastType, duration: int)

  /** A removal scheduled with `setTimeout(() => remove(id), duration)`. */
  datatype Removal = Removal(id: string, afterMs: int)

  /** The default display time, in milliseconds. */
  const DefaultDuration: int := 3000

  predicate HasId(toasts: seq<Toast>, id: string)
  {
    exists k :: 0 <= k < |toasts| && toasts[k].id == id
  }

  /** `show`: appends one toast and, for a positive duration, schedules its
      removal. The id is the fresh `crypto.randomUUID()` value. */
  function Show(toasts: seq<Toast>, id: string, message: string,
                kind: ToastType := Info, duration: int := DefaultDuration): (r: (seq<Toast>, Option<Removal>))
    ensures |r.0| == |toasts| + 1 && r.0[..|toasts|] == toasts
    ensures r.0[|toasts|] == Toast(id, message, kind, duration)
    ensures duration > 0 ==> r.1 == Some(Removal(id, duration))
    ensures duration <= 0 ==> r.1 == None
  {
    var next := toasts + [Toast(id, message, kind, duration)];
    (next, if duration > 0 then Some(Removal(id, duration)) else None)
  }

  /** What each typed shortcut promises: the toast goes at the end with the
      shortcut's kind and the given duration (the default when omitted), the
      earlier toasts stay as they were, and removal is scheduled after the
      default time when the duration was omitted, after the given time when it
      is positive, and never otherwise. */
  predicate ShownAs(toasts: seq<Toast>, id: string, message: string, kind: ToastType,
                    duration: Option<int>, r: (seq<Toast>, Option<Removal>))
  {
    |r.0| == |toasts| + 1 && r.0[..|toasts|] == toasts
    && r.0[|toasts|] == Toast(id, message, kind, duration.GetOr(DefaultDuration))
    && (duration.None? ==> r.1 == Some(Removal(id, DefaultDuration)))
    && (duration.Some? && duration.value > 0 ==> r.1 == Some(Removal(id, duration.value)))
    && (duration.Some? && duration.value <= 0 ==> r.1.None?)
  }

  /** `success`: `show` with the success type; an omitted duration gets the default. */
  function ShowSuccess(toasts: seq<Toast>, id: string, message: string, duration: Option<int>): (r: (seq<Toast>, Option<Removal>))
    ensures ShownAs(toasts, id, message, Success, duration, r)
  {
    Show(toasts, id, message, Success, duration.GetOr(DefaultDuration))
  }

  /** `error` */
  function ShowError(toasts: seq<Toast>, id: string, message: string, duration: Option<int>): (r: (seq<Toast>, Option<Removal>))
    ensures ShownAs(toasts, id, message, Error, duration, r)
  {
    Show(toasts, id, message, Error, duration.GetOr(DefaultDuration))
  }

  /** `warning` */
  function ShowWarning(toasts: seq<Toast>, id: string, message: string, duration: Option<int>): (r: (seq<Toast>, Option<Removal>))
    ensures ShownAs(toasts, id, message, Warning, duration, r)
  {
    Show(toasts, id, message, Warning, duration.GetOr(DefaultDuration))
  }

  /** `info` */
  function ShowInfo(toasts: seq<Toast>, id: string, message: string, duration: Option<int>): (r: (seq<Toast>, Option<Removal>))
    ensures ShownAs(toasts, id, message, Info, duration, r)
  {
    Show(toasts, id, message, Info, duration.GetOr(DefaultDuration))
  }

  function IdDiffers(id: string): Toast -> bool
  {
    (t: Toast) => t.id != id
  }

  /** `remove`: drops every toast with that id and keeps the others in order. */
  function Remove(toasts: seq<Toast>, id: string): (r: seq<Toast>)
    ensures !HasId(r, id)
    ensures forall t: Toast :: t.id != id ==> multiset(r)[t] == multiset(toasts)[t]
    ensures !HasId(toasts, id) ==> r == toasts
  {
    var r := Seqs.Filter(toasts, IdDiffers(id));
    forall t: Toast | t.id != id
      ensures multiset(r)[t] == multiset(toasts)[t]
    {
      Seqs.FilterCount(toasts, IdDiffers(id), t);
    }
    assert !HasId(toasts, id) ==> r == toasts by {
      if !HasId(toasts, id) { Seqs.FilterAll(toasts, IdDiffers(id)); }
    }
    assert forall k :: 0 <= k < |r| ==> r[k].id != id by {
      forall k | 0 <= k < |r|
        ensures r[k].id != id
      {
        assert r[k] in r;
      }
    }
    r
  }

  /** Removal keeps order: removing from a concatenation removes from each part. */
  lemma RemoveKeepsOrder(front: seq<Toast>, back: seq<Toast>, id: string)
    ensures Remove(front + back, id) == Remove(front, id) + Remove(back, id)
  {
    Seqs.FilterAppend(front, back, IdDiffers(id));
  }

  /** The scheduled removal of a toast shown with a fresh id restores the queue. */
  lemma ShowThenRemove(toasts: seq<Toast>, id: string, message: string, kind: ToastType, duration: int)
    requires !HasId(toasts, id)
    ensures Remove(Show(toasts, id, message, kind, duration).0, id) == toasts
  {
    var shown := Show(toasts, id, message, kind, duration).0;
    assert shown == toasts + [Toast(id, message, kind, duration)];
    RemoveKeepsOrder(toasts, [Toast(id, message, kind, duration)], id);
    assert Remove([Toast(id, message, kind, duration)], id) == [];
  }
}
