/** Segmentation and reassembly over the CP link (cpboot_v3/ProtocolSipc.cpp): std_dl_send_bin with std_dl_tx_frame,
    std_ul_recv_data, and the step loop of std_dump_receive_cp_dump. The link keeps message boundaries: a message is a
    frame header and the payload it announces, or a single command word. */
module SipcFrames {
  import opened Bytes
  import opened Common

  const MSS: nat := 16384
  const HDR_LEN: nat := 16
  const AP2CP: nat := 0x9000
  const CP2AP: nat := 0xA000
  const DUMP_STAGE: nat := 0xD
  const SEND: nat := 1
  const EFAULT: int := 14

  type u32 = x: nat | x < 0x1_0000_0000

  /** A frame on the link; the payload is the announced length of data. */
  datatype Frame = Frame(cmd: nat, numFrames: nat, currFrame: nat, payload: seq<byte>)

  /** direction | (stage << STD_UDL_STAGE_SHIFT) | operation */
  function Command(direction: nat, stage: nat, operation: nat): nat {
    BitOr(BitOr(direction, stage * 0x100), operation)
  }

  /** The fields of a command do not overlap as long as the operation fits its byte. */
  lemma CommandFields(direction: nat, stage: nat, operation: nat)
    requires direction % 0x1000 == 0 && stage < 16 && operation < 0x100
    ensures Command(direction, stage, operation) == direction + stage * 0x100 + operation
  {
    PowersOfTwo();
    hide BitOr, IsPowerOfTwo;
    var d := direction / 0x1000;
    OrOfDisjointFields(d, stage * 0x100, 0x1000);
    OrOfDisjointFields(d * 16 + stage, operation, 0x100);
    assert (d * 16 + stage) * 0x100 == direction + stage * 0x100;
  }

  /** Then no two commands are the same word. */
  lemma CommandsDiffer(direction: nat, stage: nat, operation: nat, direction': nat, stage': nat, operation': nat)
    requires direction % 0x1000 == 0 && stage < 16 && operation < 0x100
    requires direction' % 0x1000 == 0 && stage' < 16 && operation' < 0x100
    ensures Command(direction, stage, operation) == Command(direction', stage', operation') <==>
            direction == direction' && stage == stage' && operation == operation'
  {
    hide Command;
    CommandFields(direction, stage, operation);
    CommandFields(direction', stage', operation');
    if Command(direction, stage, operation) == Command(direction', stage', operation') {
      FieldsDiffer(direction / 0x1000, stage, operation, direction' / 0x1000, stage', operation');
    }
  }

  lemma FieldsDiffer(d: nat, s: nat, o: nat, d': nat, s': nat, o': nat)
    requires s < 16 && o < 0x100 && s' < 16 && o' < 0x100
    requires d * 0x1000 + s * 0x100 + o == d' * 0x1000 + s' * 0x100 + o'
    ensures d == d' && s == s' && o == o'
  {}

  /** A dump step beyond a byte runs into the stage: step 0x101 asks with the command of step 1. */
  lemma StepsCollide()
    ensures Command(CP2AP, DUMP_STAGE, 0x101) == Command(CP2AP, DUMP_STAGE, 1) == 0xAD01
  {
    hide BitOr;
    CommandFields(CP2AP, DUMP_STAGE, 0);
    CommandFields(CP2AP, DUMP_STAGE, 1);
    OrWithBits(BitOr(CP2AP, DUMP_STAGE * 0x100));
  }

  lemma OrWithBits(a: nat)
    ensures BitOr(a, 0) == a
    ensures BitOr(0xAD00, 0x101) == 0xAD01
  {
    OrBit(a, a);
    hide BitOr;
    OrBit(0x56, 0);
    OrBit(0xAD, 1);
    OrBit(0x15A, 2);
    OrBit(0x2B4, 4);
    OrBit(0x568, 8);
    OrBit(0xAD0, 0x10);
    OrBit(0x15A0, 0x20);
    OrBit(0x2B40, 0x40);
    OrBit(0x5680, 0x80);
    OrBit(0xAD00, 0x101);
  }

  /** One bit of an or. */
  lemma OrBit(a: nat, b: nat)
    ensures BitOr(a, 0) == a
    ensures a > 0 && b > 0 ==> BitOr(a, b) == 2 * BitOr(a / 2, b / 2) + if a % 2 == 1 || b % 2 == 1 then 1 else 0
  {}

  lemma PowersOfTwo()
    ensures IsPowerOfTwo(0x100) && IsPowerOfTwo(0x1000)
  {
    assert IsPowerOfTwo(4);
    assert IsPowerOfTwo(16);
    assert IsPowerOfTwo(64);
    assert IsPowerOfTwo(0x100);
    assert IsPowerOfTwo(0x400);
  }

  // ----- Segments ---------------------------------------------------------

  /** The frames of what is left of a binary, numbered from `curr` of `num`. */
  function Segments(cmd: nat, num: nat, curr: nat, rest: seq<byte>): (frames: seq<Frame>)
    decreases |rest|
  {
    if rest == [] then []
    else
      var n := Min(|rest|, MSS);
      [Frame(cmd, num, curr, rest[..n])] + Segments(cmd, num, curr + 1, rest[n..])
  }

  /** The number of frames std_dl_send_bin announces. */
  function NumFrames(size: nat): nat {
    var n := size / MSS;
    if size > MSS * n then n + 1 else n
  }

  /** The frames of a whole binary. */
  function Frames(cmd: nat, data: seq<byte>): seq<Frame> {
    Segments(cmd, NumFrames(|data|), 1, data)
  }

  function Payloads(frames: seq<Frame>): seq<byte> {
    if frames == [] then [] else frames[0].payload + Payloads(frames[1..])
  }

  lemma NumFramesIsCeiling(size: nat)
    ensures 16384 * NumFrames(size) >= size
    ensures size > 0 ==> 16384 * (NumFrames(size) - 1) < size
    ensures size > 0 ==> NumFrames(size) == 1 + NumFrames(if size < MSS then 0 else size - MSS)
  {}

  /** The segments: as many as announced, numbered in order, all full but the last, and together the binary. */
  lemma {:induction false} SegmentsCover(cmd: nat, num: nat, curr: nat, rest: seq<byte>)
    ensures var frames := Segments(cmd, num, curr, rest);
            && |frames| == NumFrames(|rest|)
            && Payloads(frames) == rest
            && (forall i {:trigger frames[i]} | 0 <= i < |frames| ::
                  && frames[i].cmd == cmd && frames[i].numFrames == num && frames[i].currFrame == curr + i
                  && 0 < |frames[i].payload| <= 16384 && (i < |frames| - 1 ==> |frames[i].payload| == 16384))
    decreases |rest|
  {
    if rest != [] {
      NumFramesIsCeiling(|rest|);
      var n := Min(|rest|, MSS);
      SegmentsCover(cmd, num, curr + 1, rest[n..]);
      hide NumFrames;
      assert rest[..n] + rest[n..] == rest;
      assert Segments(cmd, num, curr, rest)[1..] == Segments(cmd, num, curr + 1, rest[n..]);
      if |rest| > MSS {
        assert |Segments(cmd, num, curr + 1, rest[n..])| > 0;
      } else {
        assert rest[n..] == [];
      }
    }
  }

  /** Frames of a non-empty binary are numbered 1 to n, with n their announced number. */
  lemma FramesCover(cmd: nat, data: seq<byte>)
    ensures var frames := Frames(cmd, data);
            && |frames| == NumFrames(|data|) && (data != [] ==> frames != []) && Payloads(frames) == data
            && (forall i {:trigger frames[i]} | 0 <= i < |frames| ::
                  frames[i].currFrame == i + 1 && frames[i].numFrames == |frames| && frames[i].cmd == cmd)
  {
    SegmentsCover(cmd, NumFrames(|data|), 1, data);
    NumFramesIsCeiling(|data|);
  }

  // ----- Reception --------------------------------------------------------

  /** How std_ul_recv_data ends: out of frames, a wrong command, a wrong number, or the last frame. */
  datatype Ending = LinkError | WrongCommand | WrongNumber(read: nat) | Complete(saved: nat)

  datatype Reception = Reception(ending: Ending, stored: seq<byte>, used: nat)

  function Receive(frames: seq<Frame>, exp: nat, seqn: nat, saved: nat): (r: Reception)
    ensures r.used <= |frames|
    decreases |frames|
  {
    if frames == [] then Reception(LinkError, [], 0)
    else
      var f := frames[0];
      if f.cmd != exp then Reception(WrongCommand, [], 1)
      else if f.currFrame != seqn then Reception(WrongNumber(HDR_LEN + |f.payload|), [], 1)
      else if f.currFrame < f.numFrames then
        var r := Receive(frames[1..], exp, seqn + 1, saved + |f.payload|);
        Reception(r.ending, f.payload + r.stored, r.used + 1)
      else Reception(Complete(saved + |f.payload|), f.payload, 1)
  }

  /** The value std_ul_recv_data returns: a wrong number is not turned into an error, the count of the last read stays. */
  function ReturnValue(e: Ending): int {
    match e
    case LinkError => -1
    case WrongCommand => -EFAULT
    case WrongNumber(read) => read
    case Complete(saved) => saved
  }

  /** The command words of the two directions: a binary is sent with operation 1 of its stage, a dump in steps of stage
      0xD. */
  lemma CommandWords(stage: nat, step: nat)
    requires stage < 16 && step < 0x100
    ensures Command(AP2CP, stage, SEND) == 0x9001 + stage * 0x100 && Command(CP2AP, stage, SEND) == 0xA001 + stage * 0x100
    ensures Command(AP2CP, DUMP_STAGE, step) == 0x9D00 + step && Command(CP2AP, DUMP_STAGE, step) == 0xAD00 + step
  {
    CommandFields(AP2CP, stage, SEND);
    CommandFields(CP2AP, stage, SEND);
    CommandFields(AP2CP, DUMP_STAGE, step);
    CommandFields(CP2AP, DUMP_STAGE, step);
  }

  /** When reception fails: at the first frame that is not the CP's answer, or when frames run out before the last one.
      What came before is stored. */
  lemma {:induction false} FailsWhen(frames: seq<Frame>, exp: nat, seqn: nat, saved: nat)
    ensures var r := Receive(frames, exp, seqn, saved);
            r.ending.WrongCommand? || r.ending.LinkError? ==>
              var n := if r.ending.WrongCommand? then r.used - 1 else |frames|;
              && 0 <= n <= |frames| && r.stored == Payloads(frames[..n])
              && (r.ending.WrongCommand? ==> frames[n].cmd != exp && ReturnValue(r.ending) == -14)
              && (r.ending.LinkError? ==> r.used == n && ReturnValue(r.ending) == -1)
              && forall i: nat {:trigger frames[i]} | i < n ::
                   frames[i].cmd == exp && frames[i].currFrame == seqn + i && frames[i].currFrame < frames[i].numFrames
    decreases |frames|
  {
    if frames != [] {
      var (f, r) := (frames[0], Receive(frames, exp, seqn, saved));
      if f.cmd == exp && f.currFrame == seqn && f.currFrame < f.numFrames {
        var rest := frames[1..];
        FailsWhen(rest, exp, seqn + 1, saved + |f.payload|);
        if r.ending.WrongCommand? || r.ending.LinkError? {
          var n := if r.ending.WrongCommand? then r.used - 1 else |frames|;
          assert frames[..n][1..] == rest[..n - 1];
          forall i: nat {:trigger frames[i]} | i < n
            ensures frames[i].cmd == exp && frames[i].currFrame == seqn + i && frames[i].currFrame < frames[i].numFrames
          {
            if i > 0 {
              assert frames[i] == rest[i - 1];
            }
          }
        }
      }
    }
  }

  /** Reception completes exactly on frames that carry the command, are numbered one after the other, and end at the
      announced number; then it has stored their payloads and counted their bytes. */
  lemma {:induction false} CompleteIffNumbered(frames: seq<Frame>, exp: nat, seqn: nat, saved: nat)
    ensures var r := Receive(frames, exp, seqn, saved);
            && (r.ending.Complete? <==> exists n :: Runs(frames, exp, seqn, n))
            && (r.ending.Complete? ==> Runs(frames, exp, seqn, r.used) && r.stored == Payloads(frames[..r.used])
                                       && r.ending.saved == saved + |r.stored|)
    decreases |frames|
  {
    var r := Receive(frames, exp, seqn, saved);
    if frames != [] {
      var f := frames[0];
      if f.cmd == exp && f.currFrame == seqn {
        if f.currFrame < f.numFrames {
          var rest := frames[1..];
          CompleteIffNumbered(rest, exp, seqn + 1, saved + |f.payload|);
          forall n: nat
            ensures Runs(frames, exp, seqn, n) <==> n > 0 && Runs(rest, exp, seqn + 1, n - 1)
          {
            RunsTail(frames, exp, seqn, n);
          }
          if r.ending.Complete? {
            assert Runs(rest, exp, seqn + 1, r.used - 1);
            assert Runs(frames, exp, seqn, r.used);
            assert frames[..r.used][1..] == rest[..r.used - 1];
          }
        } else {
          assert Runs(frames, exp, seqn, 1);
          assert frames[..1] == [f] && Payloads([]) == [];
        }
      } else {
        assert forall n: nat | Runs(frames, exp, seqn, n) :: InTurn(frames, exp, seqn, 0);
      }
    }
  }

  /** Frame i carries the command and is the next in number. */
  predicate InTurn(frames: seq<Frame>, exp: nat, seqn: nat, i: nat)
    requires i < |frames|
  {
    frames[i].cmd == exp && frames[i].currFrame == seqn + i
  }

  /** The first n frames are in turn, and the last of them, and no earlier one, has reached its announced number. */
  predicate Runs(frames: seq<Frame>, exp: nat, seqn: nat, n: nat) {
    && 0 < n <= |frames|
    && (forall i: nat {:trigger InTurn(frames, exp, seqn, i)} | i < n :: InTurn(frames, exp, seqn, i))
    && (forall i: nat {:trigger frames[i]} | i < n :: frames[i].currFrame < frames[i].numFrames <==> i < n - 1)
  }

  lemma RunsTail(frames: seq<Frame>, exp: nat, seqn: nat, n: nat)
    requires frames != [] && InTurn(frames, exp, seqn, 0) && frames[0].currFrame < frames[0].numFrames
    ensures Runs(frames, exp, seqn, n) <==> n > 0 && Runs(frames[1..], exp, seqn + 1, n - 1)
  {
    var rest := frames[1..];
    forall i: nat {:trigger rest[i]} | i < |rest|
      ensures rest[i] == frames[i + 1] && (InTurn(rest, exp, seqn + 1, i) <==> InTurn(frames, exp, seqn, i + 1))
    {
      assert rest[i] == frames[i + 1];
    }
    if Runs(frames, exp, seqn, n) {
      assert n > 1;
      forall i: nat | i < n - 1
        ensures InTurn(rest, exp, seqn + 1, i)
        ensures rest[i].currFrame < rest[i].numFrames <==> i < n - 2
      {
        assert InTurn(frames, exp, seqn, i + 1);
        assert rest[i] == frames[i + 1];
      }
    }
    if n > 0 && Runs(rest, exp, seqn + 1, n - 1) {
      forall i: nat | i < n
        ensures InTurn(frames, exp, seqn, i)
        ensures frames[i].currFrame < frames[i].numFrames <==> i < n - 1
      {
        if i > 0 {
          assert InTurn(rest, exp, seqn + 1, i - 1);
          assert rest[i - 1] == frames[i];
        }
      }
    }
  }

  /** The frames that carry a non-empty binary, under the command the receiver expects, are received whole: what is
      stored is the binary, what is counted its size, and frames behind them stay on the link. */
  lemma TransferIsWhole(exp: nat, data: seq<byte>, behind: seq<Frame>)
    requires data != []
    ensures Receive(Frames(exp, data) + behind, exp, 1, 0) == Reception(Complete(|data|), data, NumFrames(|data|))
  {
    hide Runs;
    var frames := Frames(exp, data) + behind;
    var n := NumFrames(|data|);
    FramesCover(exp, data);
    assert frames[..n] == Frames(exp, data);
    WholeRuns(exp, data, behind);
    CompleteIffNumbered(frames, exp, 1, 0);
    RunsIsUnique(frames, exp, 1, n, Receive(frames, exp, 1, 0).used);
  }

  /** The same frames under another command. */
  function Recommanded(frames: seq<Frame>, cmd: nat): seq<Frame> {
    seq(|frames|, i requires 0 <= i < |frames| => frames[i].(cmd := cmd))
  }

  lemma {:induction false} SegmentsRecommanded(cmd: nat, other: nat, num: nat, curr: nat, rest: seq<byte>)
    ensures Recommanded(Segments(cmd, num, curr, rest), other) == Segments(other, num, curr, rest)
    decreases |rest|
  {
    if rest != [] {
      SegmentsRecommanded(cmd, other, num, curr + 1, rest[Min(|rest|, MSS)..]);
    }
  }

  /** What std_dl_send_bin writes for a binary is what std_ul_recv_data takes for that binary, once the frames carry the
      CP's command. */
  lemma SentIsReceived(cmd: nat, exp: nat, data: seq<byte>, behind: seq<Frame>)
    requires data != []
    ensures Receive(Recommanded(Frames(cmd, data), exp) + behind, exp, 1, 0) ==
            Reception(Complete(|data|), data, NumFrames(|data|))
  {
    hide Receive, Segments, Recommanded;
    SegmentsRecommanded(cmd, exp, NumFrames(|data|), 1, data);
    TransferIsWhole(exp, data, behind);
  }

  lemma WholeRuns(exp: nat, data: seq<byte>, behind: seq<Frame>)
    requires data != []
    ensures Runs(Frames(exp, data) + behind, exp, 1, NumFrames(|data|))
  {
    hide Frames, NumFrames;
    FramesCover(exp, data);
    var frames := Frames(exp, data);
    assert forall i: nat {:trigger (frames + behind)[i]} | i < |frames| :: (frames + behind)[i] == frames[i];
  }

  lemma RunsIsUnique(frames: seq<Frame>, exp: nat, seqn: nat, m: nat, n: nat)
    requires Runs(frames, exp, seqn, m) && Runs(frames, exp, seqn, n)
    ensures m == n
  {
    assert frames[m - 1].currFrame >= frames[m - 1].numFrames;
    assert frames[n - 1].currFrame >= frames[n - 1].numFrames;
  }

  /** Where the receive loop stands: what it has stored and counted, and what the rest of the reception will add. */
  ghost predicate Ahead(r: Reception, file0: seq<byte>, file: seq<byte>, in0: seq<Frame>, inNow: seq<Frame>,
                        exp: nat, seqn: nat, saved: nat)
  {
    var a := Receive(inNow, exp, seqn, saved);
    && |inNow| <= |in0| && inNow == in0[|in0| - |inNow|..] && r.used == |in0| - |inNow| + a.used
    && r.ending == a.ending && file0 + r.stored == file + a.stored
  }

  /** One more frame. */
  lemma ReceiveStep(r: Reception, file0: seq<byte>, file: seq<byte>, in0: seq<Frame>, inNow: seq<Frame>,
                    exp: nat, seqn: nat, saved: nat)
    requires Ahead(r, file0, file, in0, inNow, exp, seqn, saved)
    ensures inNow == [] ==> r.ending == LinkError && file == file0 + r.stored && inNow == in0[r.used..]
    ensures inNow != [] ==>
              var f := inNow[0];
              if f.cmd != exp then r.ending == WrongCommand && file == file0 + r.stored && inNow[1..] == in0[r.used..]
              else if f.currFrame != seqn then
                r.ending == WrongNumber(HDR_LEN + |f.payload|) && file == file0 + r.stored && inNow[1..] == in0[r.used..]
              else if f.currFrame < f.numFrames then
                Ahead(r, file0, file + f.payload, in0, inNow[1..], exp, seqn + 1, saved + |f.payload|)
              else
                && r.ending == Complete(saved + |f.payload|) && file + f.payload == file0 + r.stored
                && inNow[1..] == in0[r.used..]
  {
    if inNow == [] {
      assert file + [] == file;
    } else {
      var f := inNow[0];
      assert inNow[1..] == in0[|in0| - |inNow| + 1..];
      assert file + [] == file;
      if f.cmd == exp && f.currFrame == seqn && f.currFrame < f.numFrames {
        var a := Receive(inNow[1..], exp, seqn + 1, saved + |f.payload|);
        assert file + (f.payload + a.stored) == file + f.payload + a.stored;
      }
    }
  }

  // ----- A whole dump -----------------------------------------------------

  /** The steps of a dump: bytes stored, frames used, and the sum of the steps' values, or the value of the step that
      failed. */
  datatype Steps = Steps(failed: bool, value: int, stored: seq<byte>, used: nat)

  function Dump(frames: seq<Frame>, step: nat, count: nat): (d: Steps)
    ensures d.used <= |frames|
    decreases count
  {
    if count == 0 then Steps(false, 0, [], 0)
    else
      var r := Receive(frames, Command(CP2AP, DUMP_STAGE, step), 1, 0);
      var v := ReturnValue(r.ending);
      if v < 0 then Steps(true, v, r.stored, r.used)
      else Joined(r.used, r.stored, v, Dump(frames[r.used..], step + 1, count - 1))
  }

  function Joined(used: nat, stored: seq<byte>, value: int, d: Steps): Steps {
    Steps(d.failed, if d.failed then d.value else value + d.value, stored + d.stored, used + d.used)
  }

  lemma DumpStep(frames: seq<Frame>, step: nat, count: nat)
    requires count > 0
    ensures var r := Receive(frames, Command(CP2AP, DUMP_STAGE, step), 1, 0);
            var v := ReturnValue(r.ending);
            Dump(frames, step, count) ==
            if v < 0 then Steps(true, v, r.stored, r.used)
            else Joined(r.used, r.stored, v, Dump(frames[r.used..], step + 1, count - 1))
  {}

  lemma NoMoreSteps(frames: seq<Frame>, step: nat)
    ensures Dump(frames, step, 0) == Steps(false, 0, [], 0)
  {}

  /** A dump fails with the value of the step that failed, at which it stops; else every step has a value of its own. */
  lemma {:induction false} DumpFails(frames: seq<Frame>, step: nat, count: nat)
    ensures var d := Dump(frames, step, count);
            if d.failed then d.value == -1 || d.value == -14 else d.value >= 0
    ensures count > 0 ==>
              var (d, r) := (Dump(frames, step, count), Receive(frames, Command(CP2AP, DUMP_STAGE, step), 1, 0));
              if r.ending.LinkError? || r.ending.WrongCommand? then d.failed && d.stored == r.stored && d.used == r.used
              else
                var rest := Dump(frames[r.used..], step + 1, count - 1);
                && d.failed == rest.failed && d.stored == r.stored + rest.stored && d.used == r.used + rest.used
    decreases count
  {
    hide Receive, Command, Runs, Dump;
    if count > 0 {
      var r := Receive(frames, Command(CP2AP, DUMP_STAGE, step), 1, 0);
      CompleteIffNumbered(frames, Command(CP2AP, DUMP_STAGE, step), 1, 0);
      DumpStep(frames, step, count);
      DumpFails(frames[r.used..], step + 1, count - 1);
    } else {
      NoMoreSteps(frames, step);
    }
  }

  /** The frames of the parts of a dump, one part for every step from `step` on. */
  function DumpFrames(parts: seq<seq<byte>>, step: nat): seq<Frame> {
    if parts == [] then []
    else Frames(Command(CP2AP, DUMP_STAGE, step), parts[0]) + DumpFrames(parts[1..], step + 1)
  }

  function Joint(parts: seq<seq<byte>>): seq<byte> {
    if parts == [] then [] else parts[0] + Joint(parts[1..])
  }

  /** A dump sent as non-empty parts, one for every step, is stored whole and counted as long as it is. */
  lemma {:induction false} DumpIsWhole(parts: seq<seq<byte>>, step: nat, behind: seq<Frame>)
    requires forall i :: 0 <= i < |parts| ==> parts[i] != []
    ensures Dump(DumpFrames(parts, step) + behind, step, |parts|) ==
            Steps(false, |Joint(parts)|, Joint(parts), |DumpFrames(parts, step)|)
    decreases |parts|
  {
    hide Receive, Frames, Command;
    if parts != [] {
      var exp := Command(CP2AP, DUMP_STAGE, step);
      var first := Frames(exp, parts[0]);
      var rest := DumpFrames(parts[1..], step + 1) + behind;
      FramesCover(exp, parts[0]);
      TransferIsWhole(exp, parts[0], rest);
      DumpIsWhole(parts[1..], step + 1, behind);
      assert DumpFrames(parts, step) + behind == first + rest;
      assert (first + rest)[|first|..] == rest;
    }
  }

  // ----- What an accepted dump has stored ---------------------------------

  /** Frame n carries the command and the wrong number; all frames before it are in turn, and none is the last one. */
  predicate Breaks(frames: seq<Frame>, exp: nat, seqn: nat, n: nat) {
    && n < |frames| && frames[n].cmd == exp && frames[n].currFrame != seqn + n
    && forall i: nat {:trigger InTurn(frames, exp, seqn, i)} | i < n ::
         InTurn(frames, exp, seqn, i) && frames[i].currFrame < frames[i].numFrames
  }

  lemma BreaksTail(frames: seq<Frame>, exp: nat, seqn: nat, n: nat)
    requires frames != [] && InTurn(frames, exp, seqn, 0) && frames[0].currFrame < frames[0].numFrames
    ensures Breaks(frames, exp, seqn, n) <==> n > 0 && Breaks(frames[1..], exp, seqn + 1, n - 1)
  {
    var rest := frames[1..];
    forall i: nat {:trigger rest[i]} | i < |rest|
      ensures rest[i] == frames[i + 1] && (InTurn(rest, exp, seqn + 1, i) <==> InTurn(frames, exp, seqn, i + 1))
    {
      assert rest[i] == frames[i + 1];
    }
    if Breaks(frames, exp, seqn, n) {
      assert n > 0;
      forall i: nat | i < n - 1
        ensures InTurn(rest, exp, seqn + 1, i) && rest[i].currFrame < rest[i].numFrames
      {
        assert InTurn(frames, exp, seqn, i + 1) && rest[i] == frames[i + 1];
      }
      assert rest[n - 1] == frames[n];
    }
    if n > 0 && Breaks(rest, exp, seqn + 1, n - 1) {
      forall i: nat | i < n
        ensures InTurn(frames, exp, seqn, i) && frames[i].currFrame < frames[i].numFrames
      {
        if i > 0 {
          assert InTurn(rest, exp, seqn + 1, i - 1) && rest[i - 1] == frames[i];
        }
      }
      assert rest[n - 1] == frames[n];
    }
  }

  /** Reception ends on a wrong number exactly when the frames break off; then it has stored the payloads before the
      wrong frame, and the count of the last read is left. */
  lemma {:induction false} WrongIffBreaks(frames: seq<Frame>, exp: nat, seqn: nat, saved: nat)
    ensures var r := Receive(frames, exp, seqn, saved);
            && (r.ending.WrongNumber? <==> exists n: nat :: Breaks(frames, exp, seqn, n))
            && forall n: nat {:trigger Breaks(frames, exp, seqn, n)} | Breaks(frames, exp, seqn, n) ::
                 r.used == n + 1 && r.stored == Payloads(frames[..n]) &&
                 r.ending == WrongNumber(HDR_LEN + |frames[n].payload|)
    decreases |frames|
  {
    if frames != [] {
      var f := frames[0];
      if f.cmd == exp && f.currFrame == seqn && f.currFrame < f.numFrames {
        var (rest, next) := (frames[1..], seqn + 1);
        WrongIffBreaks(rest, exp, next, saved + |f.payload|);
        forall n: nat
          ensures Breaks(frames, exp, seqn, n) <==> n > 0 && Breaks(rest, exp, next, n - 1)
        {
          BreaksTail(frames, exp, seqn, n);
        }
        forall n: nat {:trigger Breaks(frames, exp, seqn, n)} | Breaks(frames, exp, seqn, n)
          ensures n > 0 && Payloads(frames[..n]) == f.payload + Payloads(rest[..n - 1]) && frames[n] == rest[n - 1]
        {
          assert frames[..n][1..] == rest[..n - 1];
        }
        if exists n: nat :: Breaks(rest, exp, next, n) {
          var n: nat :| Breaks(rest, exp, next, n);
          assert Breaks(frames, exp, seqn, n + 1);
        }
      } else if f.cmd == exp && f.currFrame != seqn {
        assert Breaks(frames, exp, seqn, 0);
        forall n: nat {:trigger Breaks(frames, exp, seqn, n)} | Breaks(frames, exp, seqn, n)
          ensures n == 0
        {
          assert n > 0 ==> InTurn(frames, exp, seqn, 0);
        }
        assert frames[..0] == [];
      } else {
        forall n: nat
          ensures !Breaks(frames, exp, seqn, n)
        {
          assert n > 0 ==> !InTurn(frames, exp, seqn, 0) || !(frames[0].currFrame < frames[0].numFrames);
        }
      }
    }
  }

  /** The frames of one step: up to the one that breaks off, or to the last announced one. */
  ghost function StepFrames(frames: seq<Frame>, exp: nat): (n: nat)
    ensures n <= |frames|
  {
    if exists n: nat :: Breaks(frames, exp, 1, n) then
      var n: nat :| Breaks(frames, exp, 1, n);
      n + 1
    else if exists n: nat :: Runs(frames, exp, 1, n) then
      var n: nat :| Runs(frames, exp, 1, n);
      n
    else |frames|
  }

  /** Over the steps that break off: the bytes read with the wrong frames, headers included. */
  ghost function WrongReads(frames: seq<Frame>, step: nat, count: nat): nat
    decreases count
  {
    if count == 0 then 0
    else
      var exp := Command(CP2AP, DUMP_STAGE, step);
      (if exists n: nat :: Breaks(frames, exp, 1, n)
       then HDR_LEN + |frames[StepFrames(frames, exp) - 1].payload| else 0) +
      WrongReads(frames[StepFrames(frames, exp)..], step + 1, count - 1)
  }

  /** Over the same steps: the bytes of the frames before. */
  ghost function CutBytes(frames: seq<Frame>, step: nat, count: nat): nat
    decreases count
  {
    if count == 0 then 0
    else
      var exp := Command(CP2AP, DUMP_STAGE, step);
      (if exists n: nat :: Breaks(frames, exp, 1, n) then |Payloads(frames[..StepFrames(frames, exp) - 1])| else 0) +
      CutBytes(frames[StepFrames(frames, exp)..], step + 1, count - 1)
  }

  /** A step that does not fail uses its frames, and is counted as long as it is unless it breaks off. */
  lemma StepIsCounted(frames: seq<Frame>, exp: nat)
    requires ReturnValue(Receive(frames, exp, 1, 0).ending) >= 0
    ensures var (r, n) := (Receive(frames, exp, 1, 0), StepFrames(frames, exp));
            && r.used == n
            && (if exists n: nat :: Breaks(frames, exp, 1, n)
                then n > 0 && ReturnValue(r.ending) == HDR_LEN + |frames[n - 1].payload|
                     && |r.stored| == |Payloads(frames[..n - 1])|
                else ReturnValue(r.ending) == |r.stored|)
  {
    hide Receive, Breaks, Runs;
    CompleteIffNumbered(frames, exp, 1, 0);
    WrongIffBreaks(frames, exp, 1, 0);
    var r := Receive(frames, exp, 1, 0);
    if r.ending.Complete? {
      forall n: nat | Runs(frames, exp, 1, n)
        ensures n == r.used
      {
        RunsIsUnique(frames, exp, 1, n, r.used);
      }
    }
  }

  lemma {:induction false} DumpIsCounted(frames: seq<Frame>, step: nat, count: nat)
    requires !Dump(frames, step, count).failed
    ensures Dump(frames, step, count).value - |Dump(frames, step, count).stored| ==
            WrongReads(frames, step, count) - CutBytes(frames, step, count)
    decreases count
  {
    hide Receive, Breaks, Runs, StepFrames, Command;
    if count > 0 {
      var exp := Command(CP2AP, DUMP_STAGE, step);
      StepIsCounted(frames, exp);
      DumpIsCounted(frames[StepFrames(frames, exp)..], step + 1, count - 1);
    }
  }

  /** A dump that is accepted for its announced size has stored that many bytes if and only if what was read with the
      wrong frames makes up for what was stored before them. */
  lemma AcceptedIsStored(frames: seq<Frame>, step: nat, count: nat, dumpSize: nat)
    requires !Dump(frames, step, count).failed && Dump(frames, step, count).value == dumpSize
    ensures |Dump(frames, step, count).stored| == dumpSize <==>
            WrongReads(frames, step, count) == CutBytes(frames, step, count)
  {
    hide Dump, WrongReads, CutBytes;
    DumpIsCounted(frames, step, count);
  }

  /** In particular when no step breaks off. */
  lemma {:induction false} UnbrokenIsStored(frames: seq<Frame>, step: nat, count: nat)
    requires Unbroken(frames, step, count)
    ensures WrongReads(frames, step, count) == CutBytes(frames, step, count) == 0
    decreases count
  {
    hide Breaks, StepFrames, Command;
    if count > 0 {
      UnbrokenIsStored(frames[StepFrames(frames, Command(CP2AP, DUMP_STAGE, step))..], step + 1, count - 1);
    }
  }

  ghost predicate Unbroken(frames: seq<Frame>, step: nat, count: nat)
    decreases count
  {
    count == 0 ||
    var exp := Command(CP2AP, DUMP_STAGE, step);
    (forall n: nat :: !Breaks(frames, exp, 1, n)) && Unbroken(frames[StepFrames(frames, exp)..], step + 1, count - 1)
  }

  /** A single empty frame numbered 2 passes for a dump of 16 bytes, of which none is stored. */
  lemma WrongNumberPasses()
    ensures var frames := [Frame(Command(CP2AP, DUMP_STAGE, 1), 1, 2, [])];
            var d := Dump(frames, 1, 1);
            !d.failed && d.value == 16 && d.stored == []
  {
    hide Command;
    var frames := [Frame(Command(CP2AP, DUMP_STAGE, 1), 1, 2, [])];
    var r := Receive(frames, Command(CP2AP, DUMP_STAGE, 1), 1, 0);
    assert r == Reception(WrongNumber(16), [], 1);
    assert Dump([], 2, 0) == Steps(false, 0, [], 0);
    assert frames[1..] == [];
  }

  /** Chance may hide a broken step: 20 bytes before a wrong frame of 4, whose header makes up the rest. */
  lemma WrongNumberHides(first: seq<byte>, second: seq<byte>)
    requires |first| == 20 && |second| == 4
    ensures var exp := Command(CP2AP, DUMP_STAGE, 1);
            var d := Dump([Frame(exp, 2, 1, first), Frame(exp, 2, 3, second)], 1, 1);
            !d.failed && d.value == 20 && d.stored == first
  {
    hide Command;
    var exp := Command(CP2AP, DUMP_STAGE, 1);
    var frames := [Frame(exp, 2, 1, first), Frame(exp, 2, 3, second)];
    assert frames[1..] == [Frame(exp, 2, 3, second)];
    assert Receive(frames[1..], exp, 2, 20) == Reception(WrongNumber(20), [], 1);
    assert first + [] == first;
    assert Receive(frames, exp, 1, 0) == Reception(WrongNumber(20), first, 2);
    assert frames[2..] == [] && Dump([], 2, 0) == Steps(false, 0, [], 0);
  }

  // ----- The link and the daemon ------------------------------------------

  class Sipc {
    /** Frames written to the CP, and how many more the device takes before a write fails. */
    var sent: seq<Frame>
    var accepts: nat
    /** Frames and response words that the CP has put on the link. */
    var incoming: seq<Frame>
    var responses: seq<nat>
    /** Request words written to the CP. */
    var requests: seq<nat>
    var dumpFile: seq<byte>

    /** std_udl_req_resp: a request word unless it is 0, a response word unless 0 is expected. */
    method ReqResp(req: nat, exp: nat) returns (ret: int)
      modifies this`requests, this`responses
      ensures requests == if req != 0 then old(requests) + [req] else old(requests)
      ensures ret == if exp == 0 then 0 else if old(responses) == [] then -1
                     else if old(responses)[0] != exp then -EFAULT else 0
      ensures responses == if exp == 0 || old(responses) == [] then old(responses) else old(responses)[1..]
    {
      if req != 0 {
        requests := requests + [req];
      }
      if exp != 0 {
        if responses == [] {
          return -1;
        }
        var resp := responses[0];
        responses := responses[1..];
        if resp != exp {
          return -EFAULT;
        }
      }
      return 0;
    }

    /** std_dl_tx_frame from a buffer: fills the frame's data area and writes header and payload. */
    method DlTxFrame(buffer: array<byte>, from: nat, frameData: array<byte>, cmd: nat, num: nat, curr: nat, len: nat)
      returns (ret: int)
      requires buffer != frameData && frameData.Length == MSS && len <= MSS && from + len <= buffer.Length
      modifies this`sent, this`accepts, frameData
      ensures buffer[..] == old(buffer[..])
      ensures old(accepts) > 0 ==> ret == 0 && accepts == old(accepts) - 1
                                   && sent == old(sent) + [Frame(cmd, num, curr, buffer[from..from + len])]
      ensures old(accepts) == 0 ==> ret == -1 && accepts == 0 && sent == old(sent)
    {
      for k := 0 to MSS
        modifies frameData
      {
        frameData[k] := 0;
      }
      Memcpy(frameData, 0, buffer, from, len);
      assert frameData[..len] == buffer[from..from + len];
      if accepts == 0 {
        return -1;
      }
      accepts := accepts - 1;
      sent := sent + [Frame(cmd, num, curr, frameData[..len])];
      return 0;
    }

    /** std_dl_send_bin from a buffer: either all frames of the binary are written and the CP confirms, or an error is
        returned and the frames written are the first ones. */
    method DlSendBin(stage: nat, buffer: array<byte>, size: nat) returns (ret: int)
      requires size <= buffer.Length
      modifies this`sent, this`accepts, this`requests, this`responses
      ensures old(sent) <= sent <= old(sent) + Frames(Command(AP2CP, stage, SEND), buffer[..size])
      ensures ret == 0 <==> && sent == old(sent) + Frames(Command(AP2CP, stage, SEND), buffer[..size])
                            && old(accepts) >= NumFrames(size)
                            && old(responses) != [] && old(responses)[0] == Command(CP2AP, stage, SEND)
      ensures ret <= 0 && requests == old(requests)
    {
      hide Command, Segments, NumFrames, Payloads;
      var req, exp := Command(AP2CP, stage, SEND), Command(CP2AP, stage, SEND);
      CommandIsSet(CP2AP, stage, SEND);
      var rest := size;
      var num := AnnouncedFrames(size);
      var frameData := new byte[MSS];
      var curr, from := 0, 0;
      ghost var data := buffer[..size];
      ghost var all := Frames(req, data);
      SegmentsCover(req, num, 1, data);
      assert data[0..] == data;
      while rest > 0
        invariant 0 <= from <= size && from + rest == size && buffer[..] == old(buffer[..]) && frameData != buffer
        invariant sent + Segments(req, num, curr + 1, data[from..]) == old(sent) + all
        invariant old(sent) <= sent && accepts + |sent| == old(accepts) + |old(sent)|
        invariant requests == old(requests) && responses == old(responses)
      {
        curr := curr + 1;
        var len := if rest < MSS then rest else MSS;
        ghost var left := data[from..];
        Slices(buffer[..], size, from, len);
        assert buffer[from..from + len] == buffer[..][from..from + len];
        SegmentsStep(req, num, curr, left);
        ret := DlTxFrame(buffer, from, frameData, req, num, curr, len);
        if ret < 0 {
          return;
        }
        rest := rest - len;
        from := from + len;
      }
      assert data[from..] == [];
      NoSegments(req, num, curr + 1);
      ret := ReqResp(0, exp);
    }

    /** std_ul_recv_data: asks for a step and stores its frames. */
    method UlRecvData(step: nat) returns (ret: int)
      modifies this`incoming, this`requests, this`responses, this`dumpFile
      ensures var r := Receive(old(incoming), Command(CP2AP, DUMP_STAGE, step), 1, 0);
              && ret == ReturnValue(r.ending)
              && dumpFile == old(dumpFile) + r.stored
              && incoming == old(incoming)[r.used..]
      ensures requests == old(requests) + [Command(AP2CP, DUMP_STAGE, step)] && responses == old(responses)
    {
      hide Command, Receive;
      var req, exp := Command(AP2CP, DUMP_STAGE, step), Command(CP2AP, DUMP_STAGE, step);
      DumpCommandIsSet(step);
      ret := ReqResp(req, 0);
      ghost var r := Receive(incoming, exp, 1, 0);
      var seqn, saved := 1, 0;
      var more := true;
      while more
        invariant saved >= 0 && seqn >= 1
        invariant more ==> Ahead(r, old(dumpFile), dumpFile, old(incoming), incoming, exp, seqn, saved)
        invariant !more ==> r.ending == Complete(saved) && dumpFile == old(dumpFile) + r.stored
        invariant !more ==> incoming == old(incoming)[r.used..]
        invariant requests == old(requests) + [req] && responses == old(responses)
        decreases more, |incoming|
      {
        ReceiveStep(r, old(dumpFile), dumpFile, old(incoming), incoming, exp, seqn, saved);
        if incoming == [] {
          return -1;
        }
        var frm := incoming[0];
        incoming := incoming[1..];
        ret := HDR_LEN + |frm.payload|;
        if frm.cmd != exp {
          return -EFAULT;
        }
        if frm.currFrame != seqn {
          return;
        }
        seqn := seqn + 1;
        dumpFile := dumpFile + frm.payload;
        saved := saved + |frm.payload|;
        more := frm.currFrame < frm.numFrames;
      }
      return saved;
    }

    /** The step loop of std_dump_receive_cp_dump: every step, then the comparison with the announced size. */
    method ReceiveSteps(numSteps: nat, dumpSize: nat) returns (ret: int)
      modifies this`incoming, this`requests, this`responses, this`dumpFile
      ensures var d := Dump(old(incoming), 1, numSteps);
              && ret == (if d.failed then d.value else if d.value != dumpSize then -EFAULT else 0)
              && dumpFile == old(dumpFile) + d.stored && incoming == old(incoming)[d.used..]
    {
      hide Receive, Dump, Command;
      ghost var d := Dump(incoming, 1, numSteps);
      var saved := 0;
      ghost var used: nat := 0;
      ghost var stored := [];
      assert old(incoming)[0..] == incoming && dumpFile + [] == dumpFile;
      var step := 1;
      while step <= numSteps
        invariant 1 <= step <= numSteps + 1 && used <= |old(incoming)| && incoming == old(incoming)[used..]
        invariant dumpFile == old(dumpFile) + stored
        invariant d == Joined(used, stored, saved, Dump(incoming, step, numSteps + 1 - step))
      {
        ghost var exp := Command(CP2AP, DUMP_STAGE, step);
        ghost var r := Receive(incoming, exp, 1, 0);
        ghost var now := incoming;
        DumpStep(now, step, numSteps + 1 - step);
        ret := UlRecvData(step);
        assert old(incoming)[used..][r.used..] == old(incoming)[used + r.used..];
        assert (old(dumpFile) + stored) + r.stored == old(dumpFile) + (stored + r.stored);
        used, stored := used + r.used, stored + r.stored;
        if ret < 0 {
          return;
        }
        saved := saved + ret;
        step := step + 1;
      }
      NoMoreSteps(incoming, step);
      if saved != dumpSize {
        return -EFAULT;
      }
      return 0;
    }

    method AnnouncedFrames(size: nat) returns (num: nat)
      ensures num == NumFrames(size)
    {
      num := size / MSS;
      if size > MSS * num {
        num := num + 1;
      }
    }
  }

  lemma SegmentsStep(cmd: nat, num: nat, curr: nat, rest: seq<byte>)
    requires rest != []
    ensures var n := Min(|rest|, MSS);
            Segments(cmd, num, curr, rest) == [Frame(cmd, num, curr, rest[..n])] + Segments(cmd, num, curr + 1, rest[n..])
  {}

  lemma Slices(s: seq<byte>, size: nat, from: nat, len: nat)
    requires from + len <= size <= |s|
    ensures s[..size][from..][..len] == s[from..from + len]
    ensures s[..size][from..][len..] == s[..size][from + len..]
  {}

  lemma NoSegments(cmd: nat, num: nat, curr: nat)
    ensures Segments(cmd, num, curr, []) == []
  {}

  lemma CommandIsSet(direction: nat, stage: nat, operation: nat)
    requires operation > 0
    ensures Command(direction, stage, operation) > 0
  {
    OrIsSet(BitOr(direction, stage * 0x100), operation);
  }

  lemma DumpCommandIsSet(step: nat)
    ensures Command(AP2CP, DUMP_STAGE, step) != 0
  {
    hide BitOr;
    OrIsSet(AP2CP, DUMP_STAGE * 0x100);
    LeftOrIsSet(BitOr(AP2CP, DUMP_STAGE * 0x100), step);
  }

  lemma {:induction false} LeftOrIsSet(a: nat, b: nat)
    requires a > 0
    ensures BitOr(a, b) > 0
  {
    if b != 0 && a > 1 {
      LeftOrIsSet(a / 2, b / 2);
    }
  }

  lemma {:induction false} OrIsSet(a: nat, b: nat)
    requires b > 0
    ensures BitOr(a, b) > 0
  {
    if a != 0 && b > 1 {
      OrIsSet(a / 2, b / 2);
    }
  }
}
