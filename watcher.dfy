/**
 * The macOS watcher object: one native event stream at a time, recreated
 * over the common root of the watched directories on every update.
 */
module Watcher {
  import opened Events
  import opened CommonRoot

  /** Stream creation flags, a 32-bit mask. */
  type CreateFlags = bv32

  /** kFSEventStreamCreateFlagFileEvents: report events about individual files. */
  const FileEvents: CreateFlags := 0x0000_0010

  /**
   * The native event stream as the watcher configures it: the paths it
   * watches, its creation flags and whether it has been started and not
   * stopped since.
   */
  datatype EventStream = EventStream(paths: seq<string>, flags: CreateFlags, running: bool)

  /** es.Stop(): the stream stops running and keeps its paths and flags. */
  function Stopped(s: EventStream): EventStream
  {
    s.(running := false)
  }

  class FSEventsWatcher {
    /** The current native stream. */
    var es: EventStream
    /** Whether Close has closed the watcher's channels. */
    var closed: bool
    /** Every stream an update has replaced, oldest first. */
    ghost var retired: seq<EventStream>

    /**
     * The current stream always reports file events, and every stream an
     * update replaced was stopped first: at most one stream is running.
     */
    ghost predicate Valid()
      reads this
    {
      es.flags == FileEvents &&
      forall i :: 0 <= i < |retired| ==> !retired[i].running
    }

    /** NewWatcher: an open watcher over a stream that watches nothing and is not started. */
    constructor NewWatcher()
      ensures Valid()
      ensures es == EventStream([], FileEvents, false)
      ensures !closed && retired == []
    {
      es := EventStream([], FileEvents, false);
      closed := false;
      retired := [];
    }

    /**
     * UpdateAll: stops the current stream, then looks for the common root of
     * `names`. On failure the error is returned and the stopped stream stays
     * in place; otherwise a new stream over the root, with the old stream's
     * flags, replaces it and is started.
     */
    method UpdateAll(names: seq<string>) returns (err: Option<string>)
      requires Valid()
      modifies this
      ensures Valid()
      ensures closed == old(closed)
      ensures err.None? <==> RootOf(names).Ok?
      ensures RootOf(names).Err? ==>
                err == Some(RootOf(names).error) && es == Stopped(old(es)) && retired == old(retired)
      ensures RootOf(names).Ok? ==>
                es == EventStream(RootOf(names).roots, old(es).flags, true) &&
                retired == old(retired) + [Stopped(old(es))]
    {
      es := Stopped(es);
      var root := FindCommonRoot(names);
      match root
      case Err(e) =>
        return Some(e);
      case Ok(roots) =>
        retired := retired + [es];
        es := EventStream(roots, es.flags, true);
        return None;
    }

    /**
     * Close: stops the current stream and closes the channels; closing an
     * already closed channel is a run-time error, so Close may be called
     * once only.
     */
    method Close()
      requires Valid() && !closed
      modifies this
      ensures Valid()
      ensures closed
      ensures es == Stopped(old(es)) && retired == old(retired)
    {
      es := Stopped(es);
      closed := true;
    }
  }
}
