/** A value that is passed on only after it has stopped changing for a while. */
module DebouncedValue {
  import opened Text

  /**
   * `value` is what the hook was last rendered with, since the moment `since`; `timer` is when its pending timer is due.
   * `held` records each firing: the value, since when it had been current, and when the timer fired.
   */
  datatype State<T> = State(value: T, since: int, debounced: T, timer: Option<int>, held: seq<Held<T>>)

  datatype Held<T> = Held(value: T, since: int, at: int)

  function Mount<T>(value: T, delay: nat, at: int): State<T> {
    State(value, at, value, Some(at + delay), [])
  }

  /** A render: the effect runs again, clearing the old timer and setting a new one, only when the value changed. */
  function Render<T(==)>(s: State<T>, value: T, delay: nat, at: int): State<T> {
    if value == s.value then s else s.(value := value, since := at, timer := Some(at + delay))
  }

  /** The pending timer fires, which it may do any time from when it is due. */
  function Fire<T>(s: State<T>, at: int): State<T> {
    s.(debounced := s.value, timer := None, held := s.held + [Held(s.value, s.since, at)])
  }

  predicate CanFire<T>(s: State<T>, at: int) { s.timer.Some? && at >= s.timer.value }

  /** The pending timer belongs to the current value; without one, the current value has been passed on. */
  ghost predicate Inv<T>(s: State<T>, first: T, delay: nat) {
    && (match s.timer case Some(due) => due == s.since + delay case None => s.debounced == s.value)
    && (forall i :: 0 <= i < |s.held| ==> s.held[i].at - s.held[i].since >= delay)
    && s.debounced == if s.held == [] then first else s.held[|s.held| - 1].value
  }

  lemma StepsKeepInv<T>(s: State<T>, first: T, delay: nat, value: T, at: int)
    requires Inv(s, first, delay)
    ensures Inv(Render(s, value, delay, at), first, delay)
    ensures CanFire(s, at) ==> Inv(Fire(s, at), first, delay)
  {
  }

  /** The hook's state and its one pending timer. */
  class Debouncer<T(==)> {
    const delay: nat
    var value: T
    var since: int
    var debounced: T
    var timer: Option<int>
    ghost var held: seq<Held<T>>

    ghost function View(): State<T>
      reads this
    {
      State(value, since, debounced, timer, held)
    }

    constructor (value: T, delay: nat, at: int)
      ensures this.delay == delay && View() == Mount(value, delay, at)
      ensures Inv(View(), value, delay)
    {
      this.delay := delay;
      this.value, since, debounced, timer, held := value, at, value, Some(at + delay), [];
    }

    method OnRender(v: T, at: int)
      modifies this
      ensures View() == Render(old(View()), v, delay, at)
    {
      if v != value {
        timer := None;
        value, since := v, at;
        timer := Some(at + delay);
      }
    }

    method OnTimer(at: int)
      requires CanFire(View(), at)
      modifies this
      ensures View() == Fire(old(View()), at)
    {
      timer := None;
      held := held + [Held(value, since, at)];
      debounced := value;
    }
  }
}
