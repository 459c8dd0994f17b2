/** The two places where the player talks to the mpv client handle outside rendering:
    async_wakeup_cb (module/mpv_player.cpp:985-998), which drains mpv's event queue on the
    main thread, and MpvPlayer::Command (module/mpv_player.cpp:1305-1335), which hands the
    JavaScript arguments to mpv_command. */
module PlayerCallbacks {
  import opened Wrappers
  import opened Bytes
  import opened MpvClient
  import opened MpvPlayer
  import Js = JsValues

  /*************************************************************************************
   * async_wakeup_cb
   *************************************************************************************/

  /** An event that ends the drain: MPV_EVENT_NONE (the queue is empty) or
      MPV_EVENT_SHUTDOWN. */
  predicate Stops(e: Event) {
    e.id == MPV_EVENT_NONE || e.id == MPV_EVENT_SHUTDOWN
  }

  /** The position of the first pending event that ends the drain, or the length of the
      queue when none does. */
  function FirstStop(events: seq<Event>): (i: nat)
    ensures i <= |events|
    ensures i < |events| ==> Stops(events[i])
    ensures forall j :: 0 <= j < i ==> !Stops(events[j])
  {
    if events == [] then 0
    else if Stops(events[0]) then 0
    else 1 + FirstStop(events[1..])
  }

  /** The texts of the log messages among `events`, in order. */
  function LogTexts(events: seq<Event>): (texts: seq<seq<byte>>)
    ensures |texts| <= |events|
  {
    if events == [] then []
    else
      var last := events[|events| - 1];
      LogTexts(events[..|events| - 1]) + (if last.id == MPV_EVENT_LOG_MESSAGE then [last.text] else [])
  }

  /** A log message among the events is never lost and nothing else is reported. */
  lemma {:induction false} LogTextsAreLogMessages(events: seq<Event>)
    ensures forall e :: e in events && e.id == MPV_EVENT_LOG_MESSAGE ==> e.text in LogTexts(events)
    ensures forall t :: t in LogTexts(events) ==> exists e :: e in events && e.id == MPV_EVENT_LOG_MESSAGE && e.text == t
  {
    if events != [] {
      var front := events[..|events| - 1];
      var last := events[|events| - 1];
      LogTextsAreLogMessages(front);
      assert events == front + [last];
    }
  }

  /** async_wakeup_cb: when a player exists, take events off its mpv handle's queue until
      one is NONE or SHUTDOWN. Returns the texts of the log messages taken, which the
      callback prints in debug builds. The stopping event is taken too; the events after
      it stay queued; no command is run. Without a player nothing happens. */
  method AsyncWakeup(singleton: MpvPlayerImpl?) returns (logs: seq<seq<byte>>)
    requires singleton != null ==> singleton.mpv != null
    modifies if singleton != null then {singleton.mpv} else {}
    ensures singleton == null ==> logs == []
    ensures singleton != null ==>
      var pending := old(singleton.mpv.events);
      var stop := FirstStop(pending);
      && logs == LogTexts(pending[..stop])
      && singleton.mpv.events == (if stop < |pending| then pending[stop + 1..] else [])
      && singleton.mpv.commands == old(singleton.mpv.commands)
  {
    logs := [];
    if singleton == null {
      return;
    }
    var mpv := singleton.mpv;
    ghost var pending := mpv.events;
    ghost var j := 0;
    while true
      invariant j <= FirstStop(pending) && mpv.events == pending[j..]
      invariant logs == LogTexts(pending[..j])
      invariant mpv.commands == old(mpv.commands)
      decreases |mpv.events|
    {
      var e := mpv.WaitEvent();
      if e.id == MPV_EVENT_NONE || e.id == MPV_EVENT_SHUTDOWN {
        break;
      } else if e.id == MPV_EVENT_LOG_MESSAGE {
        logs := logs + [e.text];
      }
      assert pending[..j + 1][..j] == pending[..j];
      j := j + 1;
    }
  }

  /*************************************************************************************
   * MpvPlayer::Command
   *************************************************************************************/

  /** How a call of MpvPlayer::Command ends: it returns, it throws a JavaScript error with
      a fixed message, or it throws the message mpv_error_string gives for `code`. */
  datatype Outcome = Returned | Thrown(message: string) | MpvError(code: int)

  const UninitializedMessage: string := "MpvPlayer: calling a method on unintialized instance"
  const TooFewArgumentsMessage: string := "MpvPlayer::command: not enough arguments, at least one is expected"
  const NotStringsMessage: string := "MpvPlayer::command: invalid argument types, expected to be strings"

  /** Every argument is a string primitive (Value::IsString). */
  predicate AllStrings(args: seq<Js.Value>) {
    forall j :: 0 <= j < |args| ==> args[j].String?
  }

  /** The argument vector built for mpv_command: each string's UTF-8 copy (string_to_cc)
      with its terminator, then a NULL pointer. */
  function ArgvOf(args: seq<Js.Value>): (argv: seq<Option<seq<byte>>>)
    requires AllStrings(args)
    ensures IsArgv(argv) && |argv| == |args| + 1
  {
    seq(|args|, j requires 0 <= j < |args| => Some(Terminated(args[j].utf8))) + [None]
  }

  /** mpv runs exactly the arguments' texts when none holds a NUL byte; a text with a NUL
      inside reaches mpv cut short at it. */
  lemma ArgvCarriesTexts(args: seq<Js.Value>)
    requires AllStrings(args)
    ensures |ReadArgv(ArgvOf(args))| == |args|
    ensures forall j :: 0 <= j < |args| && NulFree(args[j].utf8) ==> ReadArgv(ArgvOf(args))[j] == args[j].utf8
    ensures forall j :: 0 <= j < |args| && !NulFree(args[j].utf8) ==> |ReadArgv(ArgvOf(args))[j]| < |args[j].utf8|
  {
    forall j | 0 <= j < |args|
      ensures NulFree(args[j].utf8) ==> ReadArgv(ArgvOf(args))[j] == args[j].utf8
      ensures !NulFree(args[j].utf8) ==> |ReadArgv(ArgvOf(args))[j]| < |args[j].utf8|
    {
      CStringOfTerminated(args[j].utf8);
    }
  }

  /** MpvPlayer::Command: throws without an mpv handle, without arguments, or at the first
      argument that is not a string, and then runs nothing; otherwise runs the arguments as
      one mpv command and throws mpv's error when the status is not MPV_ERROR_SUCCESS. */
  method Command(player: MpvPlayerImpl, args: seq<Js.Value>) returns (outcome: Outcome)
    modifies if player.mpv != null then {player.mpv} else {}
    ensures player.mpv == null ==> outcome == Thrown(UninitializedMessage)
    ensures player.mpv != null && args == [] ==>
      outcome == Thrown(TooFewArgumentsMessage) && player.mpv.commands == old(player.mpv.commands)
    ensures player.mpv != null && args != [] && !AllStrings(args) ==>
      outcome == Thrown(NotStringsMessage) && player.mpv.commands == old(player.mpv.commands)
    ensures player.mpv != null && args != [] && AllStrings(args) ==>
      var status := player.mpv.result(|old(player.mpv.commands)|, ReadArgv(ArgvOf(args)));
      && player.mpv.commands == old(player.mpv.commands) + [ReadArgv(ArgvOf(args))]
      && outcome == (if status == MPV_ERROR_SUCCESS then Returned else MpvError(status))
    ensures player.mpv != null ==> player.mpv.events == old(player.mpv.events)
  {
    if player.mpv == null {
      return Thrown(UninitializedMessage);
    }
    if |args| < 1 {
      return Thrown(TooFewArgumentsMessage);
    }
    var argv := new Option<seq<byte>>[|args| + 1];
    var j := 0;
    while j < |args|
      modifies argv
      invariant 0 <= j <= |args|
      invariant forall i :: 0 <= i < j ==> args[i].String? && argv[i] == Some(Terminated(args[i].utf8))
    {
      if !args[j].String? {
        return Thrown(NotStringsMessage);
      }
      argv[j] := Some(Terminated(args[j].utf8));
      j := j + 1;
    }
    argv[|args|] := None;
    assert argv[..] == ArgvOf(args);
    var status := player.mpv.Command(argv[..]);
    if status != MPV_ERROR_SUCCESS {
      return MpvError(status);
    }
    return Returned;
  }
}
