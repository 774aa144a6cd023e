/**
 * The endless-loop monitor of one worker thread.
 *
 * Before a worker dispatches a message it records the (source, destination)
 * pair and bumps `version`; when it is done it records (0, 0) and bumps it
 * again. A monitor thread calls `Check` every few seconds: if `version` has not
 * moved since the previous check and a destination is recorded, that
 * destination has been stuck on one message and is reported.
 */
module Monitors {
  import opened Wrappers

  const INT_MIN: int := -0x8000_0000
  const INT_MAX: int := 0x7fff_ffff

  /** `version` and `check_version` are C `int`s bumped by an atomic increment. */
  type Int32 = x: int | INT_MIN <= x <= INT_MAX

  /** Service handles are `uint32_t`. */
  type Handle = x: int | 0 <= x < 0x1_0000_0000

  /** Two's-complement increment of a 32-bit counter. */
  function Inc32(v: Int32): (r: Int32)
    ensures r != v
    ensures v < INT_MAX ==> r - v == 1
    ensures v == INT_MAX ==> r == INT_MIN
  {
    if v == INT_MAX then INT_MIN else v + 1
  }

  /** The four fields of `struct skynet_monitor`. */
  datatype Watch = Watch(version: Int32, checkVersion: Int32, source: Handle, destination: Handle)

  /** State after `skynet_monitor_trigger(source, destination)`. */
  function Triggered(w: Watch, source: Handle, destination: Handle): (r: Watch)
    ensures r.source == source && r.destination == destination
    ensures r.version != w.version && r.checkVersion == w.checkVersion
  {
    Watch(Inc32(w.version), w.checkVersion, source, destination)
  }

  /**
   * State after `skynet_monitor_check`, and the destination it reports as being
   * in an endless loop, if any.
   */
  function Checked(w: Watch): (r: (Watch, Option<Handle>))
    ensures r.1.Some? <==> w.version == w.checkVersion && w.destination != 0
    ensures r.1.Some? ==> r.1.value == w.destination
    ensures r.0 == w.(checkVersion := w.version)
  {
    if w.version == w.checkVersion then
      (w, if w.destination != 0 then Some(w.destination) else None)
    else
      (w.(checkVersion := w.version), None)
  }

  /** Two checks with no trigger in between: the second reports any recorded destination. */
  lemma StalledWorkerReported(w: Watch)
    ensures var first := Checked(w).0;
      Checked(first).1 == if w.destination != 0 then Some(w.destination) else None
  {
  }

  /** A trigger between two checks always suppresses the second report. */
  lemma TriggerSuppressesReport(w: Watch, source: Handle, destination: Handle)
    ensures Checked(Triggered(Checked(w).0, source, destination)).1 == None
  {
  }

  /** A dispatch that completed (trigger before, trigger (0, 0) after) is never reported. */
  lemma CompletedDispatchNotReported(w: Watch, source: Handle, destination: Handle)
    ensures Checked(Triggered(Triggered(w, source, destination), 0, 0)).1 == None
  {
  }

  /** Checking twice in a row leaves the same state as checking once. */
  lemma CheckIdempotent(w: Watch)
    ensures Checked(Checked(w).0).0 == Checked(w).0
  {
  }

  class Monitor {
    var version: Int32
    var checkVersion: Int32
    var source: Handle
    var destination: Handle

    function State(): Watch
      reads this
    {
      Watch(version, checkVersion, source, destination)
    }

    /** `skynet_monitor_new`: a zero-filled monitor. */
    constructor ()
      ensures State() == Watch(0, 0, 0, 0)
    {
      version, checkVersion, source, destination := 0, 0, 0, 0;
    }

    /** `skynet_monitor_trigger`. */
    method Trigger(src: Handle, dst: Handle)
      modifies this
      ensures State() == Triggered(old(State()), src, dst)
    {
      source := src;
      destination := dst;
      version := Inc32(version);
    }

    /** `skynet_monitor_check`: the reported destination is what `skynet_context_endless` receives. */
    method Check() returns (endless: Option<Handle>)
      modifies this`checkVersion
      ensures (State(), endless) == Checked(old(State()))
    {
      endless := None;
      if version == checkVersion {
        if destination != 0 {
          endless := Some(destination);
        }
      } else {
        checkVersion := version;
      }
    }
  }
}
