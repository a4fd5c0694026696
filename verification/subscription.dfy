/** The subscription fields of a user and the two methods that touch them,
    as a state passed in and returned. Times are whole seconds supplied by
    the caller in place of the clock. */
module Subscription {
  import opened Results

  const SecondsPerDay: int := 86400
  /** `activar_suscripcion`'s default length in days. */
  const DefaultDays: int := 30

  /** `suscripcion_activa`, `fecha_suscripcion`, `fecha_expiracion`. */
  datatype State = State(activa: bool, fechaSuscripcion: Option<int>, fechaExpiracion: Option<int>)

  /** A new user: not subscribed, no dates. */
  const NewUser: State := State(false, None, None)

  /** `activar_suscripcion(dias)` at time `now`: whatever came before, the
      subscription starts now and runs `dias` days. */
  function Activate(s: State, now: int, dias: int): (s': State)
    ensures s'.activa
    ensures s'.fechaSuscripcion == Some(now)
    ensures s'.fechaExpiracion == Some(now + dias * SecondsPerDay)
  {
    State(true, Some(now), Some(now + dias * SecondsPerDay))
  }

  /** `tiene_suscripcion_valida` at time `now`: the answer and the state
      afterwards (an expired subscription is switched off). */
  function Check(s: State, now: int): (r: (bool, State))
    ensures !s.activa ==> r == (false, s)
    ensures s.activa && s.fechaExpiracion.Some? && now > s.fechaExpiracion.value ==>
      r == (false, s.(activa := false))
    ensures s.activa && (s.fechaExpiracion.None? || now <= s.fechaExpiracion.value) ==> r == (true, s)
  {
    if !s.activa then (false, s)
    else if s.fechaExpiracion.Some? && now > s.fechaExpiracion.value then (false, s.(activa := false))
    else (true, s)
  }

  /** The state after a check is active exactly when the check said yes, and
      nothing but the flag ever changes. */
  lemma CheckKeepsDates(s: State, now: int)
    ensures Check(s, now).1.activa == Check(s, now).0
    ensures Check(s, now).1.fechaSuscripcion == s.fechaSuscripcion
    ensures Check(s, now).1.fechaExpiracion == s.fechaExpiracion
  {
  }

  /** Checking again at the same moment changes nothing. */
  lemma CheckIdempotent(s: State, now: int)
    ensures Check(Check(s, now).1, now) == Check(s, now)
  {
  }

  /** A check that passes at some time passes at every earlier time. */
  lemma ValidEarlier(s: State, t1: int, t2: int)
    requires t1 <= t2 && Check(s, t2).0
    ensures Check(s, t1).0
  {
  }

  /** Just after activation for a non-negative number of days the
      subscription is valid up to and including the expiry second, and not a
      second beyond. */
  lemma ActivationWindow(s: State, now: int, dias: int, t: int)
    requires dias >= 0 && now <= t
    ensures Check(Activate(s, now, dias), t).0 <==> t <= now + dias * SecondsPerDay
  {
  }

  /** The calls a user's subscription goes through. */
  datatype Event = Activation(now: int, dias: int) | Validation(now: int)

  /** Replays the events and collects the answers of the checks. */
  function Run(s: State, events: seq<Event>): (r: (State, seq<bool>))
    ensures |r.1| <= |events|
    decreases |events|
  {
    if events == [] then (s, [])
    else
      match events[0]
      case Activation(now, dias) => Run(Activate(s, now, dias), events[1..])
      case Validation(now) =>
        var (ok, s') := Check(s, now);
        var rest := Run(s', events[1..]);
        (rest.0, [ok] + rest.1)
  }

  /** Once inactive (after a failed check, say), every later check fails and
      the state stays put until the next activation. */
  lemma {:induction false} InactiveUntilActivated(s: State, events: seq<Event>)
    requires !s.activa
    requires forall i :: 0 <= i < |events| ==> events[i].Validation?
    ensures Run(s, events).0 == s
    ensures forall i :: 0 <= i < |Run(s, events).1| ==> !Run(s, events).1[i]
    ensures |Run(s, events).1| == |events|
    decreases |events|
  {
    if events != [] {
      InactiveUntilActivated(s, events[1..]);
    }
  }

  /** After a failed check every later check fails until reactivation. */
  lemma FailedCheckSticks(s: State, now: int, events: seq<Event>)
    requires !Check(s, now).0
    requires forall i :: 0 <= i < |events| ==> events[i].Validation?
    ensures forall i :: 0 <= i < |Run(Check(s, now).1, events).1| ==> !Run(Check(s, now).1, events).1[i]
  {
    InactiveUntilActivated(Check(s, now).1, events);
  }

  /** Reactivation forgets everything before it. */
  lemma ActivationForgets(s1: State, s2: State, now: int, dias: int, events: seq<Event>)
    ensures Run(s1, [Activation(now, dias)] + events) == Run(s2, [Activation(now, dias)] + events)
  {
    assert ([Activation(now, dias)] + events)[1..] == events;
  }

  /** A subscription with no expiry date is valid for as long as it is
      active, so it is valid at every check. */
  lemma {:induction false} NoExpiryAlwaysValid(s: State, events: seq<Event>)
    requires s.activa && s.fechaExpiracion.None?
    requires forall i :: 0 <= i < |events| ==> events[i].Validation?
    ensures forall i :: 0 <= i < |Run(s, events).1| ==> Run(s, events).1[i]
    ensures |Run(s, events).1| == |events|
    decreases |events|
  {
    if events != [] {
      NoExpiryAlwaysValid(s, events[1..]);
    }
  }

  /** A fresh account is not subscribed; thirty days from activation it
      still is, and a second later it is not. */
  lemma DefaultActivation(now: int)
    ensures !Check(NewUser, now).0
    ensures Check(Activate(NewUser, now, DefaultDays), now + 30 * SecondsPerDay).0
    ensures !Check(Activate(NewUser, now, DefaultDays), now + 30 * SecondsPerDay + 1).0
  {
  }
}
