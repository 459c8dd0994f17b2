/** The mpv client handle as the player uses it: a queue of pending events that
    mpv_wait_event takes from, and mpv_command, which runs a NULL-terminated argument vector. */
module MpvClient {
  import opened Wrappers
  import opened Bytes

  const MPV_EVENT_NONE: int := 0
  const MPV_EVENT_SHUTDOWN: int := 1
  const MPV_EVENT_LOG_MESSAGE: int := 2
  const MPV_ERROR_SUCCESS: int := 0

  /** An mpv event: its id and, for a log message, the message text. */
  datatype Event = Event(id: int, text: seq<byte>)

  /** True when an argument vector is what a C caller hands mpv_command: C strings followed by
      one NULL pointer. */
  predicate IsArgv(argv: seq<Option<seq<byte>>>) {
    && |argv| > 0 && argv[|argv| - 1].None?
    && forall i :: 0 <= i < |argv| - 1 ==> argv[i].Some? && IsCString(argv[i].value)
  }

  /** The strings mpv reads from an argument vector. */
  function ReadArgv(argv: seq<Option<seq<byte>>>): (strings: seq<seq<byte>>)
    requires IsArgv(argv)
    ensures |strings| == |argv| - 1
    ensures forall i :: 0 <= i < |strings| ==> strings[i] == CString(argv[i].value)
  {
    seq(|argv| - 1, i requires 0 <= i < |argv| - 1 => CString(argv[i].value))
  }

  /** An mpv client handle. `commands` records every command mpv ran, as the strings it read;
      `result` is mpv's answer to the command run after `n` others. */
  class MpvHandle {
    var events: seq<Event>
    var commands: seq<seq<seq<byte>>>
    const result: (nat, seq<seq<byte>>) -> int

    constructor (pending: seq<Event>, result: (nat, seq<seq<byte>>) -> int)
      ensures events == pending && commands == [] && this.result == result
    {
      events := pending;
      commands := [];
      this.result := result;
    }

    /** mpv_wait_event with timeout 0: the oldest pending event, taken off the queue, or a
        NONE event when nothing is pending. */
    method WaitEvent() returns (e: Event)
      modifies this`events
      ensures old(events) == [] ==> e.id == MPV_EVENT_NONE && events == []
      ensures old(events) != [] ==> e == old(events)[0] && events == old(events)[1..]
    {
      if events == [] {
        e := Event(MPV_EVENT_NONE, []);
      } else {
        e := events[0];
        events := events[1..];
      }
    }

    /** mpv_command: runs the command the vector spells and returns mpv's status. */
    method Command(argv: seq<Option<seq<byte>>>) returns (status: int)
      requires IsArgv(argv)
      modifies this`commands
      ensures commands == old(commands) + [ReadArgv(argv)]
      ensures status == result(|old(commands)|, ReadArgv(argv))
    {
      status := result(|commands|, ReadArgv(argv));
      commands := commands + [ReadArgv(argv)];
    }
  }
}
