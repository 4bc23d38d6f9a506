/** Watchers, shared by the pending queues and the timer heap. */
module EvWatcher {

  const EV_MINPRI := -2
  const EV_MAXPRI := 2

  /** The fields of ev_timer. A zero index means not active and not pending. */
  class Watcher {
    var active: nat
    var pending: nat
    var priority: int
    var at: real
    var repeat: real
  }
}
