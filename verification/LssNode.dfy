/** The two LSS nodes of a FastScan (lss.c), with the fields their handlers update in place. Each handler is proved
    against the step function of module FastScan. */
module LssNode {
  import opened FastScan

  /** The FastScan fields of lss_transfer of the master. */
  class Master {
    var state: LssState
    var timer: Timer
    var sm: ScanState
    var answer: bool
    var none: bool
    var idNumber: nat
    var bitChecked: nat
    var sub: nat
    var next: nat
    const fsId: array<nat>
    const fsBits: array<nat>

    function State(): MasterState
      reads this, fsId, fsBits
    {
      MasterState(state, timer, sm, answer, none, idNumber, bitChecked, sub, next, fsId[..], fsBits[..])
    }

    predicate Valid()
      reads this, fsId, fsBits
    {
      fsId.Length == 4 && fsBits.Length == 4 && fsId != fsBits && MasterOk(State())
    }

    constructor ()
      ensures Valid() && Idle(State()) && fresh(fsId) && fresh(fsBits)
    {
      state, timer, sm, answer, none := LssIdle, NoTimer, FsReset, false, false;
      idNumber, bitChecked, sub, next := 0, 0, 0, 0;
      fsId, fsBits := new nat[4](_ => 0), new nat[4](_ => 0);
    }

    /** The FASTSCAN case of sendMasterLSSMessage, as the caller reaches it: the known bits are taken over, and the
        request which resets every slave is sent. */
    method Start(ids: seq<nat>, bits: seq<nat>) returns (sent: Request)
      requires Valid() && Idle(State())
      requires |ids| == 4 && |bits| == 4 && forall w :: 0 <= w < 4 ==> bits[w] <= 32
      modifies this, fsId, fsBits
      ensures Valid() && State() == MasterStart(old(State()), ids, bits) && sent == RequestOf(State())
    {
      for i := 0 to 4
        invariant sm == FsReset && !answer && none == old(none)
        invariant fsId[..i] == ids[..i] && fsBits[..i] == AdjustBits(bits)[..i]
      {
        fsId[i] := ids[i];
        fsBits[i] := bits[i];
        if fsBits[i] > 0 { fsBits[i] := fsBits[i] - 1; }
      }
      assert fsId[..] == fsId[..4] && fsBits[..] == fsBits[..4] && ids[..4] == ids;
      assert AdjustBits(bits)[..4] == AdjustBits(bits);
      idNumber, bitChecked, sub, next := 0, 128, 0, 0;
      timer, state := MsgTimer, LssInProgress;
      sent := Request(idNumber, bitChecked, sub, next);
    }

    /** proceedLSS_Master for LSS_IDENT_SLAVE. */
    method OnIdentifySlave()
      requires Valid()
      modifies this`answer
      ensures Valid() && State() == MasterAnswer(old(State()))
    {
      if state == LssInProgress { answer := true; }
    }

    /** The search for word w starts with its known high bits. */
    method StartWord(w: nat) returns (sent: Request)
      requires Valid() && w < 4 && next < 4
      modifies this`timer, this`answer, this`sub, this`bitChecked, this`idNumber, this`sm
      ensures Valid() && State() == BeginWord(old(State()), w) && sent == RequestOf(State())
    {
      answer, sub := false, w;
      bitChecked := fsBits[w];
      idNumber := MaskHigh(fsId[w], bitChecked + 1);
      sm, timer := FsProcessing, FsTimer;
      sent := Request(idNumber, bitChecked, sub, next);
    }

    /** LssAlarmMSG for a FastScan. */
    method OnMsgTimeout() returns (more: bool, sent: Request)
      requires Valid()
      modifies this
      ensures Valid() && (State(), more) == AlarmMsg(old(State())) && sent == RequestOf(State())
    {
      more := false;
      timer := NoTimer;
      if sm == FsReset {
        if answer {
          sent := StartWord(0);
          more := true;
          return;
        }
        state, none := LssFinished, true;
      } else {
        state, sm := LssAborted, FsReset;
      }
      sent := Request(idNumber, bitChecked, sub, next);
    }

    /** The part of LssAlarmFS for a bit which has been asked for. */
    method NextBit()
      requires sm == FsProcessing
      modifies this`idNumber, this`sm, this`next, this`bitChecked
      ensures idNumber == if old(answer) then old(idNumber) else SetBit(old(idNumber), old(bitChecked))
      ensures sm == if old(bitChecked) == 0 then FsConfirmation else FsProcessing
      ensures next == if old(bitChecked) == 0 && old(next) < 3 then old(next) + 1 else old(next)
      ensures bitChecked == if old(bitChecked) == 0 then 0 else old(bitChecked) - 1
    {
      if !answer { idNumber := SetBit(idNumber, bitChecked); }
      if bitChecked == 0 {
        sm := FsConfirmation;
        if next < 3 { next := next + 1; }
      } else {
        bitChecked := bitChecked - 1;
      }
    }

    /** LssAlarmFS. */
    method OnScanTimeout() returns (more: bool, sent: Request)
      requires Valid() && timer == FsTimer
      modifies this
      ensures Valid() && (State(), more) == AlarmFs(old(State())) && sent == RequestOf(State())
    {
      hide SetBit, MaskHigh, Prefix;
      more := false;
      timer := NoTimer;
      match sm {
        case FsReset =>
        case FsProcessing =>
          NextBit();
          answer, timer, more := false, FsTimer, true;
        case FsConfirmation =>
          if answer {
            answer := false;
            if sub == 3 {
              bitChecked, sm, sub, next, idNumber := 128, FsReset, 0, 0, 0;
              state, none := LssFinished, false;
            } else {
              sent := StartWord(sub + 1);
              more := true;
              return;
            }
          } else {
            state, sm := LssAborted, FsReset;
          }
      }
      sent := Request(idNumber, bitChecked, sub, next);
    }
  }

  /** The FastScan fields of a slave. identity: the words of object 0x1018. */
  class Slave {
    var nodeId: nat
    const identity: seq<nat>
    var sm: ScanState
    var idNumber: nat
    var pos: nat
    var config: bool

    function State(): SlaveState
      reads this
    {
      SlaveState(nodeId, identity, sm, idNumber, pos, config)
    }

    constructor (nodeId: nat, identity: seq<nat>)
      requires |identity| == 4
      ensures State() == SlaveState(nodeId, identity, FsReset, 0, 0, false)
    {
      this.nodeId, this.identity := nodeId, identity;
      sm, idNumber, pos, config := FsReset, 0, 0, false;
    }

    /** The FASTSCAN case of proceedLSS_Slave. answer: LSS_IDENT_SLAVE is sent. */
    method OnFastScan(m: Request) returns (answer: bool)
      requires |identity| == 4 && m.next < 4
      modifies this
      ensures (State(), answer) == SlaveStep(old(State()), m)
    {
      answer := false;
      if nodeId != 0xFF { return; }
      if m.bitCheck == 128 { sm := FsReset; }
      match sm {
        case FsReset =>
          pos, sm := 0, FsProcessing;
          idNumber := identity[pos];
          answer := true;
        case FsProcessing =>
          if pos == m.sub {
            answer := MaskHigh(m.id, m.bitCheck) == MaskHigh(idNumber, m.bitCheck);
            if m.bitCheck == 0 { sm := FsConfirmation; }
          }
        case FsConfirmation =>
          if pos == m.sub && m.id == idNumber {
            if pos == 3 {
              config, sm, pos := true, FsReset, 0xFF;
            } else {
              pos := m.next;
              idNumber := identity[pos];
              sm := FsProcessing;
            }
            answer := true;
          }
      }
    }
  }
}
