/**
 The process identifiers of kernel/pid.c: a bitmap in 32-bit words, changed in place.
 */
module PidMapClass {
  import opened Bits
  import opened Scheduler

  const WORDS: nat := MAX_PID / 32

  function Flags(words: seq<nat>): (m: seq<bool>)
    requires |words| == WORDS
    ensures |m| == MAX_PID
  {
    seq(MAX_PID, i requires 0 <= i < MAX_PID => Bit(words[i / 32], i % 32))
  }

  lemma {:induction false} FlagsSet(words: seq<nat>, i: nat)
    requires |words| == WORDS && i < MAX_PID
    ensures Flags(words[i / 32 := Or(words[i / 32], Pow2(i % 32))]) == Flags(words)[i := true]
  {
    var words' := words[i / 32 := Or(words[i / 32], Pow2(i % 32))];
    forall k | 0 <= k < MAX_PID ensures Flags(words')[k] == Flags(words)[i := true][k] {
      SetOneBit(words[i / 32], i % 32, k % 32);
    }
  }

  lemma {:induction false} FlagsClear(words: seq<nat>, i: nat)
    requires |words| == WORDS && i < MAX_PID
    ensures Flags(words[i / 32 := AndNot(words[i / 32], Pow2(i % 32))]) == Flags(words)[i := false]
  {
    var words' := words[i / 32 := AndNot(words[i / 32], Pow2(i % 32))];
    forall k | 0 <= k < MAX_PID ensures Flags(words')[k] == Flags(words)[i := false][k] {
      ClearOneBit(words[i / 32], i % 32, k % 32);
    }
  }

  class PidMap {
    const words: array<nat>

    ghost function Taken(): (m: seq<bool>)
      reads words
      requires words.Length == WORDS
      ensures |m| == MAX_PID
    {
      Flags(words[..])
    }

    /** kernel/pid.c:8-11: identifier 0 is taken from the start. */
    constructor ()
      ensures fresh(words) && words.Length == WORDS
      ensures Taken() == Nothing().pids
    {
      words := new nat[WORDS](_ => 0);
      new;
      ghost var zeros := words[..];
      FlagsSet(zeros, 0);
      assert Flags(zeros) == seq(MAX_PID, k => false) by {
        forall k | 0 <= k < MAX_PID ensures !Flags(zeros)[k] { BitZero(k % 32); }
      }
      words[0] := Or(words[0], 1);
      assert words[..] == zeros[0 := Or(zeros[0], Pow2(0))];
    }

    /** kernel/pid.c:13-28: the lowest identifier from 1 on that is free, or -1. */
    method Alloc() returns (pid: int)
      requires words.Length == WORDS
      modifies words
      ensures pid == LowestPid(old(Taken()), 1)
      ensures pid == -1 <==> forall k :: 1 <= k < 32768 ==> old(Taken())[k]
      ensures pid != -1 ==>
                1 <= pid < 32768 && !old(Taken())[pid] && forall k :: 1 <= k < pid ==> old(Taken())[k]
      ensures Taken() == if pid < 0 then old(Taken()) else old(Taken())[pid := true]
    {
      LowestPidIs(Taken(), 1);
      var i := 1;
      while i < MAX_PID
        invariant 1 <= i <= MAX_PID && LowestPid(Taken(), 1) == LowestPid(Taken(), i) && words[..] == old(words[..])
      {
        if !Bit(words[i / 32], i % 32) {
          Mark(i);
          return i;
        }
        i := i + 1;
      }
      return -1;
    }

    method Mark(i: nat)
      requires words.Length == WORDS && i < MAX_PID
      modifies words
      ensures Taken() == old(Taken())[i := true]
    {
      FlagsSet(words[..], i);
      words[i / 32] := Or(words[i / 32], Pow2(i % 32));
      assert words[..] == old(words[..])[i / 32 := words[i / 32]];
    }

    /** kernel/pid.c:30-39: identifiers out of range are ignored. */
    method Free(pid: int)
      requires words.Length == WORDS
      modifies words
      ensures Taken() == FreePid(old(Taken()), pid)
    {
      if pid <= 0 || pid >= MAX_PID {
        return;
      }
      FlagsClear(words[..], pid);
      words[pid / 32] := AndNot(words[pid / 32], Pow2(pid % 32));
      assert words[..] == old(words[..])[pid / 32 := words[pid / 32]];
    }
  }
}
