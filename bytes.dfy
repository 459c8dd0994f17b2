/** Bytes and NUL-terminated C strings, as the bridge hands them between mpv and the host. */
module Bytes {
  type byte = x: int | 0 <= x < 256

  /** True when no byte of `s` is NUL. */
  predicate NulFree(s: seq<byte>) {
    forall i :: 0 <= i < |s| ==> s[i] != 0
  }

  /** True when the buffer holds a NUL, so a C routine reading it stops inside it. */
  predicate IsCString(mem: seq<byte>) {
    exists i :: 0 <= i < |mem| && mem[i] == 0
  }

  /** What a C routine reads from a NUL-terminated buffer: every byte before the first NUL. */
  function CString(mem: seq<byte>): (s: seq<byte>)
    requires IsCString(mem)
    ensures |s| < |mem|
  {
    if mem[0] == 0 then []
    else
      assert IsCString(mem[1..]) by {
        var i :| 0 <= i < |mem| && mem[i] == 0;
        assert mem[1..][i - 1] == 0;
      }
      [mem[0]] + CString(mem[1..])
  }

  /** The string read is a NUL-free prefix of the buffer, stopped by a NUL. */
  lemma {:induction false} CStringIsPrefix(mem: seq<byte>)
    requires IsCString(mem)
    ensures var s := CString(mem); s == mem[..|s|] && mem[|s|] == 0 && NulFree(s)
  {
    if mem[0] != 0 {
      assert IsCString(mem[1..]) by {
        var i :| 0 <= i < |mem| && mem[i] == 0;
        assert mem[1..][i - 1] == 0;
      }
      CStringIsPrefix(mem[1..]);
    }
  }

  /** A buffer holding a copy of `s` followed by a terminating NUL, as `new char[len + 1]`
      plus `memcpy` plus `buf[len] = 0` builds it. */
  function Terminated(s: seq<byte>): (mem: seq<byte>)
    ensures |mem| == |s| + 1 && mem[|s|] == 0
    ensures IsCString(mem)
  {
    s + [0]
  }

  /** Reading back a terminated copy gives the text up to its first NUL; with no NUL inside,
      the whole text. */
  lemma {:induction false} CStringOfTerminated(s: seq<byte>)
    ensures NulFree(s) ==> CString(Terminated(s)) == s
    ensures !NulFree(s) ==> |CString(Terminated(s))| < |s|
  {
    CStringIsPrefix(Terminated(s));
    if !NulFree(s) {
      var i :| 0 <= i < |s| && s[i] == 0;
      assert Terminated(s)[i] == 0;
    }
  }
}
