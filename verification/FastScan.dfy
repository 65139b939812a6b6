/** LSS FastScan (lss.c): one master finds one unconfigured slave by asking bitwise for the four words of its identity.
    The steps of the two state machines as functions on their states. */
module FastScan {

  function Pow2(n: nat): (p: nat)
    ensures p > 0
  {
    if n == 0 then 1 else 2 * Pow2(n - 1)
  }

  /** x >> b. */
  function High(x: nat, b: nat): nat {
    if b == 0 then x else High(x, b - 1) / 2
  }

  /** x & ((1 << b) - 1). */
  function Low(x: nat, b: nat): (l: nat)
    ensures l < Pow2(b)
  {
    if b == 0 then 0 else Low(x, b - 1) + if High(x, b - 1) % 2 == 1 then Pow2(b - 1) else 0
  }

  /** q << b. */
  function Times(b: nat, q: nat): nat
  {
    Pow2(b) * q
  }

  /** x & (0xFFFFFFFF << b) for a 32-bit x. */
  function MaskHigh(x: nat, b: nat): nat {
    Times(b, High(x, b))
  }

  /** x | (1 << b). */
  function SetBit(x: nat, b: nat): nat {
    if High(x, b) % 2 == 1 then x else x + Pow2(b)
  }

  datatype ScanState = FsReset | FsProcessing | FsConfirmation

  /** The payload of an LSS_IDENT_FASTSCAN request. */
  datatype Request = Request(id: nat, bitCheck: nat, sub: nat, next: nat)

  // ----- the slave -----

  /** config: the slave is in LSS configuration mode. */
  datatype SlaveState = SlaveState(nodeId: nat, identity: seq<nat>, sm: ScanState, idNumber: nat, pos: nat,
    config: bool)

  ghost predicate ValidSlave(s: SlaveState) {
    |s.identity| == 4 && forall i :: 0 <= i < 4 ==> s.identity[i] < 0x1_0000_0000
  }

  /** The FASTSCAN case of proceedLSS_Slave: the new state, and whether LSS_IDENT_SLAVE is sent. */
  function SlaveStep(s0: SlaveState, m: Request): (SlaveState, bool)
    requires |s0.identity| == 4 && m.next < 4
  {
    if s0.nodeId != 0xFF then (s0, false)
    else
      var s := if m.bitCheck == 128 then s0.(sm := FsReset) else s0;
      match s.sm
      case FsReset =>
        (s.(pos := 0, sm := FsProcessing, idNumber := s.identity[0]), true)
      case FsProcessing =>
        if s.pos == m.sub then
          (if m.bitCheck == 0 then s.(sm := FsConfirmation)
            else s, MaskHigh(m.id, m.bitCheck) == MaskHigh(s.idNumber, m.bitCheck))
        else (s, false)
      case FsConfirmation =>
        if s.pos == m.sub && m.id == s.idNumber then
          if s.pos == 3 then (s.(config := true, sm := FsReset, pos := 0xFF), true)
          else (s.(pos := m.next, idNumber := s.identity[m.next], sm := FsProcessing), true)
        else (s, false)
  }

  // ----- the master -----

  datatype LssState = LssIdle | LssInProgress | LssFinished | LssAborted

  /** Which of the two timers of the master is running. */
  datatype Timer = NoTimer | MsgTimer | FsTimer

  /** The FastScan part of lss_transfer. none: dat1 reports that no unconfigured node exists. */
  datatype MasterState = MasterState(state: LssState, timer: Timer, sm: ScanState, answer: bool, none: bool,
    idNumber: nat, bitChecked: nat, sub: nat, next: nat, fsId: seq<nat>, fsBits: seq<nat>)

  /** What the master keeps between its steps. */
  predicate MasterOk(m: MasterState) {
    && |m.fsId| == 4 && |m.fsBits| == 4 && (forall i :: 0 <= i < 4 ==> m.fsBits[i] < 32)
    && m.sub < 4 && m.next < 4
    && (m.timer == MsgTimer ==> m.sm == FsReset && m.bitChecked == 128 && m.sub == 0 && m.next == 0)
    && (m.timer == FsTimer ==> m.sm != FsReset)
    && (m.sm == FsProcessing ==> m.bitChecked < 32)
  }

  function RequestOf(m: MasterState): Request {
    Request(m.idNumber, m.bitChecked, m.sub, m.next)
  }

  /** BitChecked is counted from 31 down to 0, where the caller counts from 32 to 1. */
  function AdjustBits(bits: seq<nat>): (r: seq<nat>)
    ensures |r| == |bits| && forall i :: 0 <= i < |r| ==> r[i] == if bits[i] > 0 then bits[i] - 1 else bits[i]
  {
    seq(|bits|, i requires 0 <= i < |bits| => if bits[i] > 0 then bits[i] - 1 else bits[i])
  }

  /** The FASTSCAN case of sendMasterLSSMessage, with the master idle. */
  function MasterStart(m: MasterState, ids: seq<nat>, bits: seq<nat>): MasterState {
    m.(state := LssInProgress, timer := MsgTimer, fsId := ids, fsBits := AdjustBits(bits), idNumber := 0,
      bitChecked := 128, sub := 0, next := 0)
  }

  /** proceedLSS_Master for LSS_IDENT_SLAVE while a FastScan is in progress. */
  function MasterAnswer(m: MasterState): MasterState {
    if m.state == LssInProgress then m.(answer := true) else m
  }

  /** The known high bits of word w, with which its search starts. */
  function Prefix(ids: seq<nat>, bits: seq<nat>, w: nat): nat
    requires w < |ids| && w < |bits|
  {
    MaskHigh(ids[w], bits[w] + 1)
  }

  function BeginWord(m: MasterState, w: nat): MasterState
    requires w < |m.fsId| && w < |m.fsBits|
  {
    m.(timer := FsTimer, answer := false, sub := w, bitChecked := m.fsBits[w], idNumber := Prefix(m.fsId, m.fsBits, w),
      sm := FsProcessing)
  }

  /** LssAlarmMSG for a FastScan: the new state, and whether a request is sent. */
  function AlarmMsg(m: MasterState): (MasterState, bool)
    requires |m.fsId| == 4 && |m.fsBits| == 4
  {
    if m.sm == FsReset then
      if m.answer then (BeginWord(m, 0), true)
      else (m.(timer := NoTimer, state := LssFinished, none := true), false)
    else (m.(timer := NoTimer, state := LssAborted, sm := FsReset), false)
  }

  /** LssAlarmFS: the new state, and whether a request is sent. */
  function AlarmFs(m: MasterState): (MasterState, bool)
    requires |m.fsId| == 4 && |m.fsBits| == 4 && m.sub < 4
  {
    match m.sm
    case FsReset => (m.(timer := NoTimer), false)
    case FsProcessing =>
      var m1 := m.(answer := false, idNumber := if m.answer then m.idNumber else SetBit(m.idNumber, m.bitChecked));
      if m.bitChecked == 0 then (m1.(sm := FsConfirmation, next := if m.next < 3 then m.next + 1 else m.next), true)
      else (m1.(bitChecked := m.bitChecked - 1), true)
    case FsConfirmation =>
      if m.answer then
        if m.sub == 3 then
          (m.(timer := NoTimer, answer := false, bitChecked := 128, sm := FsReset, sub := 0, next := 0, idNumber := 0,
              state := LssFinished, none := false), false)
        else (BeginWord(m, m.sub + 1), true)
      else (m.(timer := NoTimer, state := LssAborted, sm := FsReset), false)
  }

  function Alarm(m: MasterState): (MasterState, bool)
    requires MasterOk(m)
  {
    match m.timer
    case NoTimer => (m, false)
    case MsgTimer => AlarmMsg(m)
    case FsTimer => AlarmFs(m)
  }

  // ----- the network -----

  predicate SlavesOk(slaves: seq<SlaveState>) {
    forall i :: 0 <= i < |slaves| ==> |slaves[i].identity| == 4
  }

  /** Every slave receives the request. */
  function Broadcast(slaves: seq<SlaveState>, m: Request): (r: seq<SlaveState>)
    requires SlavesOk(slaves) && m.next < 4
    ensures |r| == |slaves| && SlavesOk(r)
    ensures forall i :: 0 <= i < |r| ==> r[i] == SlaveStep(slaves[i], m).0
  {
    seq(|slaves|, i requires 0 <= i < |slaves| => SlaveStep(slaves[i], m).0)
  }

  predicate Answered(slaves: seq<SlaveState>, m: Request)
    requires SlavesOk(slaves) && m.next < 4
  {
    exists i :: 0 <= i < |slaves| && SlaveStep(slaves[i], m).1
  }

  /** How many requests may still follow. */
  function Measure(m: MasterState): nat {
    if m.timer == NoTimer then 0
    else if m.timer == MsgTimer then 200
    else if m.sub > 3 then 0
    else (3 - m.sub) * 34 + match m.sm case FsReset => 0 case FsProcessing => (if m.bitChecked < 32 then m.bitChecked
      else 31) + 2 case FsConfirmation => 1
  }

  lemma MsgEnds(m: MasterState)
    requires MasterOk(m) && m.timer == MsgTimer
    ensures var r := AlarmMsg(m); MasterOk(r.0) && (r.1 ==> Measure(r.0) < Measure(m))
  {
    hide MaskHigh;
  }

  lemma FsEnds(m: MasterState)
    requires MasterOk(m) && m.timer == FsTimer
    ensures var r := AlarmFs(m); MasterOk(r.0) && (r.1 ==> Measure(r.0) < Measure(m))
  {
    hide MaskHigh, SetBit;
  }

  /** The running timer expires, after answers have arrived or not. */
  function Timeout(m: MasterState, answered: bool): (r: (MasterState, bool))
    requires MasterOk(m)
    ensures MasterOk(r.0) && (r.1 ==> Measure(r.0) < Measure(m))
  {
    var m1 := if answered then MasterAnswer(m) else m;
    assert MasterOk(m1) && Measure(m1) == Measure(m);
    match m1.timer
    case NoTimer => Alarm(m1)
    case MsgTimer => MsgEnds(m1); Alarm(m1)
    case FsTimer => FsEnds(m1); Alarm(m1)
  }

  /** A run, from a request just sent: all slaves receive it, their answers arrive, then the running timer expires. The
      final states, and the number of requests. */
  function Run(m: MasterState, slaves: seq<SlaveState>): (MasterState, seq<SlaveState>, nat)
    requires MasterOk(m) && SlavesOk(slaves)
    decreases Measure(m)
  {
    var slaves1 := Broadcast(slaves, RequestOf(m));
    var (m2, more) := Timeout(m, Answered(slaves, RequestOf(m)));
    if more then
      var (m3, slaves3, n) := Run(m2, slaves1);
      (m3, slaves3, n + 1)
    else (m2, slaves1, 1)
  }

  // ----- bits -----

  lemma TimesDouble(b: nat, q: nat)
    ensures Times(b + 1, q) == Times(b, 2 * q) && Times(0, q) == q
  {
  }

  lemma {:induction false} Split(x: nat, b: nat)
    ensures x == Times(b, High(x, b)) + Low(x, b)
    decreases b
  {
    hide Times;
    if b == 0 {
      TimesDouble(0, x);
    } else {
      Split(x, b - 1);
      TimesDouble(b - 1, High(x, b - 1) / 2);
      TimesStep(b - 1, High(x, b - 1) / 2 * 2);
    }
  }

  lemma {:induction false} TimesGrows(b: nat, q: nat, r: nat)
    ensures q <= r ==> Times(b, q) <= Times(b, r)
    ensures q < r ==> Times(b, q) + Pow2(b) <= Times(b, r)
    decreases r
  {
    if q < r {
      TimesGrows(b, q, r - 1);
      assert Times(b, r) == Times(b, r - 1) + Pow2(b);
    }
  }

  lemma HighUnique(x: nat, b: nat, q: nat, l: nat)
    requires x == Times(b, q) + l && l < Pow2(b)
    ensures High(x, b) == q && Low(x, b) == l
  {
    hide High, Low, Times;
    Split(x, b);
    TimesGrows(b, q, High(x, b));
    TimesGrows(b, High(x, b), q);
  }

  /** Masking compares the high bits. */
  lemma MaskIsHigh(x: nat, y: nat, b: nat)
    ensures MaskHigh(x, b) == MaskHigh(y, b) <==> High(x, b) == High(y, b)
  {
    hide High, Low, Times;
    Split(x, b);
    Split(y, b);
    TimesGrows(b, High(x, b), High(y, b));
    TimesGrows(b, High(y, b), High(x, b));
  }

  lemma HighMonotone(x: nat, y: nat, b: nat)
    requires x <= y
    ensures High(x, b) <= High(y, b)
  {
    hide High, Low, Times;
    Split(x, b);
    Split(y, b);
    TimesGrows(b, High(y, b), High(x, b));
  }

  lemma HighHalf(x: nat, b: nat)
    ensures High(x, b + 1) == High(x, b) / 2
    ensures High(x, 0) == x && Low(x, 0) == 0
    ensures Low(x, b + 1) == Low(x, b) + if High(x, b) % 2 == 1 then Pow2(b) else 0
  {
  }

  /** A number whose bits below b + 1 are clear. */
  lemma ClearBit(x: nat, b: nat)
    requires Low(x, b + 1) == 0
    ensures Low(x, b) == 0 && High(x, b) % 2 == 0 && High(x, b) == 2 * High(x, b + 1)
    ensures SetBit(x, b) == x + Pow2(b) && High(SetBit(x, b), b) == High(x, b) + 1 && Low(SetBit(x, b), b) == 0
  {
    hide High, Low, Times;
    HighHalf(x, b);
    Split(x, b);
    TimesStep(b, High(x, b));
    HighUnique(x + Pow2(b), b, High(x, b) + 1, 0);
  }

  lemma TimesStep(b: nat, q: nat)
    ensures Times(b, q + 1) == Times(b, q) + Pow2(b)
  {
  }

  lemma MaskedIsClear(x: nat, b: nat)
    ensures Low(MaskHigh(x, b), b) == 0 && High(MaskHigh(x, b), b) == High(x, b)
  {
    hide High, Low, Times;
    Split(x, b);
    HighUnique(MaskHigh(x, b), b, High(x, b), 0);
  }

  /** One bit of the search: x agrees with the least value down to bit b + 1 and is clear below. Someone agrees with x
      down to bit b just when the least value does. */
  lemma LeastBit(x: nat, least: nat, y: nat, b: nat)
    requires Low(x, b + 1) == 0 && High(x, b + 1) == High(least, b + 1) && least <= y && High(y, b) == High(x, b)
    ensures High(least, b) == High(x, b)
  {
    hide High, Low, Times;
    ClearBit(x, b);
    HighHalf(least, b);
    HighMonotone(least, y, b);
  }

  /** If the least value does not agree with x in bit b, it agrees once the bit is set. */
  lemma SetToLeast(x: nat, least: nat, b: nat)
    requires Low(x, b + 1) == 0 && High(x, b + 1) == High(least, b + 1)
    ensures High(least, b) == High(x, b) || High(least, b) == High(SetBit(x, b), b)
  {
    hide High, Low, Times;
    ClearBit(x, b);
    HighHalf(least, b);
  }

  // ----- the search for one word -----

  /** An unconfigured slave whose identity starts with the words e. */
  predicate Takes(a: SlaveState, e: seq<nat>) {
    a.nodeId == 0xFF && |a.identity| == 4 && |e| <= 4 && a.identity[..|e|] == e
  }

  /** What slave a has become when the words e are settled: it takes part in the search for the next one, or waits in
      vain for the confirmation of an earlier one. */
  ghost predicate PhaseOne(a: SlaveState, s: SlaveState, e: seq<nat>, sm: ScanState)
    requires |e| < 4
  {
    && |a.identity| == 4 && s.identity == a.identity && s.nodeId == a.nodeId && s.config == a.config
    && if a.nodeId != 0xFF then s == a
       else if Takes(a, e) then s.sm == sm && s.pos == |e| && s.idNumber == a.identity[|e|]
       else s.sm == FsConfirmation && s.pos < |e|
  }

  ghost predicate Phase(s0: seq<SlaveState>, s: seq<SlaveState>, e: seq<nat>, sm: ScanState)
    requires |e| < 4
  {
    |s| == |s0| && forall i :: 0 <= i < |s0| ==> PhaseOne(s0[i], s[i], e, sm)
  }

  /** Some slave in the search agrees with x from bit b on. */
  ghost predicate Agrees(s0: seq<SlaveState>, e: seq<nat>, x: nat, b: nat)
    requires |e| < 4
  {
    exists i :: 0 <= i < |s0| && Takes(s0[i], e) && High(s0[i].identity[|e|], b) == High(x, b)
  }

  /** Some slave in the search has v as its next word. */
  ghost predicate Attained(s0: seq<SlaveState>, e: seq<nat>, v: nat)
    requires |e| < 4
  {
    exists i :: 0 <= i < |s0| && Takes(s0[i], e) && s0[i].identity[|e|] == v
  }

  /** v is least among the next words which agree with x from bit b on. */
  ghost predicate Least(s0: seq<SlaveState>, e: seq<nat>, x: nat, b: nat, v: nat)
    requires |e| < 4
  {
    && Attained(s0, e, v) && High(v, b) == High(x, b)
    && forall i :: 0 <= i < |s0| && Takes(s0[i], e) && High(s0[i].identity[|e|], b) == High(x, b) ==>
       v <= s0[i].identity[|e|]
  }

  lemma PhaseSlaves(s0: seq<SlaveState>, s: seq<SlaveState>, e: seq<nat>, sm: ScanState)
    requires |e| < 4 && Phase(s0, s, e, sm)
    ensures SlavesOk(s)
  {
    forall i | 0 <= i < |s| ensures |s[i].identity| == 4 { assert PhaseOne(s0[i], s[i], e, sm); }
  }

  /** A bit request is answered just when a slave agrees; after the last bit the slaves await confirmation. */
  lemma BitRound(s0: seq<SlaveState>, s: seq<SlaveState>, e: seq<nat>, m: Request)
    requires |e| < 4 && Phase(s0, s, e, FsProcessing) && m.sub == |e| && m.bitCheck < 32 && m.next < 4
    ensures SlavesOk(s)
    ensures Answered(s, m) <==> Agrees(s0, e, m.id, m.bitCheck)
    ensures Phase(s0, Broadcast(s, m), e, if m.bitCheck == 0 then FsConfirmation else FsProcessing)
  {
    PhaseSlaves(s0, s, e, FsProcessing);
    var sm := if m.bitCheck == 0 then FsConfirmation else FsProcessing;
    forall i | 0 <= i < |s|
      ensures SlaveStep(s[i], m).1 <==>
        Takes(s0[i], e) && High(s0[i].identity[|e|], m.bitCheck) == High(m.id, m.bitCheck)
      ensures PhaseOne(s0[i], SlaveStep(s[i], m).0, e, sm)
    {
      assert PhaseOne(s0[i], s[i], e, FsProcessing);
      MaskIsHigh(m.id, s[i].idNumber, m.bitCheck);
    }
  }

  /** The master searching bit m.bitChecked of word |e|. */
  ghost predicate Searching(m: MasterState, e: seq<nat>) {
    && |e| < 4 && MasterOk(m) && m.state == LssInProgress && m.timer == FsTimer && m.sm == FsProcessing && !m.answer
    && m.sub == |e| && m.next == |e|
  }

  /** The master asking for the confirmation of x as word |e|. */
  function Confirming(m: MasterState, e: seq<nat>, x: nat): MasterState {
    m.(sm := FsConfirmation, bitChecked := 0, idNumber := x, next := if |e| < 3 then |e| + 1 else 3)
  }

  /** One round of the search. */
  lemma SearchRound(m: MasterState, s0: seq<SlaveState>, s: seq<SlaveState>, e: seq<nat>)
    requires Searching(m, e) && Phase(s0, s, e, FsProcessing)
    ensures SlavesOk(s)
    ensures var x := if Agrees(s0, e, m.idNumber, m.bitChecked) then m.idNumber else SetBit(m.idNumber, m.bitChecked);
            var s1 := Broadcast(s, RequestOf(m));
            var m1 := if m.bitChecked == 0 then Confirming(m, e, x)
              else m.(bitChecked := m.bitChecked - 1, idNumber := x);
            && MasterOk(m1) && Phase(s0, s1, e, if m.bitChecked == 0 then FsConfirmation else FsProcessing)
            && var r := Run(m1, s1); Run(m, s) == (r.0, r.1, r.2 + 1)
  {
    hide SetBit;
    BitRound(s0, s, e, RequestOf(m));
  }

  /** The search for a word which some slave can take: the master arrives at the least one. */
  lemma {:induction false} SearchFinds(m: MasterState, s0: seq<SlaveState>, s: seq<SlaveState>, e: seq<nat>, v: nat)
    returns (s1: seq<SlaveState>)
    requires Searching(m, e) && Phase(s0, s, e, FsProcessing)
    requires Low(m.idNumber, m.bitChecked + 1) == 0 && Least(s0, e, m.idNumber, m.bitChecked + 1, v)
    ensures SlavesOk(s) && SlavesOk(s1) && Phase(s0, s1, e, FsConfirmation) && MasterOk(Confirming(m, e, v))
    ensures var r := Run(Confirming(m, e, v), s1); Run(m, s) == (r.0, r.1, r.2 + m.bitChecked + 1)
    decreases m.bitChecked
  {
    hide SetBit, Run, Low, High;
    var b, x0 := m.bitChecked, m.idNumber;
    SearchRound(m, s0, s, e);
    var x := if Agrees(s0, e, x0, b) then x0 else SetBit(x0, b);
    FoundBit(s0, e, x0, b, v);
    s1 := Broadcast(s, RequestOf(m));
    if b == 0 {
      HighHalf(x, 0);
      HighHalf(v, 0);
      PhaseSlaves(s0, s1, e, FsConfirmation);
    } else {
      s1 := SearchFinds(m.(bitChecked := b - 1, idNumber := x), s0, s1, e, v);
    }
  }

  lemma FoundBit(s0: seq<SlaveState>, e: seq<nat>, x0: nat, b: nat, v: nat)
    requires |e| < 4 && Low(x0, b + 1) == 0 && Least(s0, e, x0, b + 1, v)
    ensures var x := if Agrees(s0, e, x0, b) then x0 else SetBit(x0, b);
            Low(x, b) == 0 && Least(s0, e, x, b, v)
  {
    hide SetBit, Low, High;
    ClearBit(x0, b);
    SetToLeast(x0, v, b);
    HighHalf(x0, b);
    HighHalf(SetBit(x0, b), b);
    var x := if Agrees(s0, e, x0, b) then x0 else SetBit(x0, b);
    if Agrees(s0, e, x0, b) {
      var i :| 0 <= i < |s0| && Takes(s0[i], e) && High(s0[i].identity[|e|], b) == High(x0, b);
      HighHalf(s0[i].identity[|e|], b);
      LeastBit(x0, v, s0[i].identity[|e|], b);
    } else {
      var i :| 0 <= i < |s0| && Takes(s0[i], e) && s0[i].identity[|e|] == v;
      assert High(v, b) != High(x0, b);
    }
    forall i | 0 <= i < |s0| && Takes(s0[i], e) && High(s0[i].identity[|e|], b) == High(x, b)
      ensures v <= s0[i].identity[|e|]
    {
      HighHalf(s0[i].identity[|e|], b);
    }
  }

  /** The search for a word which no slave can take: the master arrives at a value no slave has. */
  lemma {:induction false} SearchFails(m: MasterState, s0: seq<SlaveState>, s: seq<SlaveState>, e: seq<nat>)
    returns (s1: seq<SlaveState>, x1: nat)
    requires Searching(m, e) && Phase(s0, s, e, FsProcessing)
    requires Low(m.idNumber, m.bitChecked + 1) == 0 && !Agrees(s0, e, m.idNumber, m.bitChecked + 1)
    ensures SlavesOk(s) && SlavesOk(s1) && Phase(s0, s1, e, FsConfirmation) && MasterOk(Confirming(m, e, x1))
    ensures !Attained(s0, e, x1)
    ensures var r := Run(Confirming(m, e, x1), s1); Run(m, s) == (r.0, r.1, r.2 + m.bitChecked + 1)
    decreases m.bitChecked
  {
    hide SetBit, Run, Low, High;
    var b, x0 := m.bitChecked, m.idNumber;
    SearchRound(m, s0, s, e);
    ClearBit(x0, b);
    HighHalf(x0, b);
    HighHalf(SetBit(x0, b), b);
    forall i | 0 <= i < |s0| && Takes(s0[i], e)
      ensures High(s0[i].identity[|e|], b) != High(x0, b) && High(s0[i].identity[|e|], b) != High(SetBit(x0, b), b)
    {
      HighHalf(s0[i].identity[|e|], b);
    }
    s1, x1 := Broadcast(s, RequestOf(m)), SetBit(x0, b);
    if b == 0 {
      HighHalf(x1, 0);
      forall i | 0 <= i < |s0| && Takes(s0[i], e)
        ensures s0[i].identity[|e|] != x1
      {
        HighHalf(s0[i].identity[|e|], 0);
      }
      PhaseSlaves(s0, s1, e, FsConfirmation);
    } else {
      s1, x1 := SearchFails(m.(bitChecked := b - 1, idNumber := x1), s0, s1, e);
    }
  }

  // ----- the confirmation of one word -----

  /** What slave a has become once the whole identity e is settled: exactly the unconfigured slaves holding e are in
      configuration mode. */
  ghost predicate DoneOne(a: SlaveState, s: SlaveState, e: seq<nat>) {
    && s.identity == a.identity && s.nodeId == a.nodeId
    && s.config == (a.config || (a.nodeId == 0xFF && a.identity == e))
  }

  ghost predicate Done(s0: seq<SlaveState>, s: seq<SlaveState>, e: seq<nat>) {
    |s| == |s0| && forall i :: 0 <= i < |s0| ==> DoneOne(s0[i], s[i], e)
  }

  /** No slave has changed its mode. */
  ghost predicate Unchanged(s0: seq<SlaveState>, s: seq<SlaveState>) {
    |s| == |s0| && forall i :: 0 <= i < |s0| ==>
      s[i].identity == s0[i].identity && s[i].nodeId == s0[i].nodeId && s[i].config == s0[i].config
  }

  lemma TakesNext(a: SlaveState, e: seq<nat>, x: nat)
    requires |e| < 4
    ensures Takes(a, e + [x]) <==> Takes(a, e) && a.identity[|e|] == x
    ensures |e| == 3 ==> (Takes(a, e + [x]) <==> a.nodeId == 0xFF && a.identity == e + [x])
  {
    if |a.identity| == 4 {
      assert a.identity[..|e| + 1] == a.identity[..|e|] + [a.identity[|e|]];
      if a.identity[..|e| + 1] == e + [x] {
      assert (e + [x])[..|e|] == e && (e + [x])[|e|] == x;
      assert a.identity[..|e|] == a.identity[..|e| + 1][..|e|];
    }
      assert a.identity[..4] == a.identity;
    }
  }

  /** The confirmation request is answered just when a slave has the value; those slaves go on. */
  lemma ConfirmRound(s0: seq<SlaveState>, s: seq<SlaveState>, e: seq<nat>, m: Request)
    requires |e| < 4 && Phase(s0, s, e, FsConfirmation)
    requires m.sub == |e| && m.bitCheck == 0 && m.next == if |e| < 3 then |e| + 1 else 3
    ensures SlavesOk(s)
    ensures Answered(s, m) <==> Attained(s0, e, m.id)
    ensures |e| < 3 ==> Phase(s0, Broadcast(s, m), e + [m.id], FsProcessing)
    ensures |e| == 3 ==> Done(s0, Broadcast(s, m), e + [m.id])
    ensures |e| < 3 || !Attained(s0, e, m.id) ==> Unchanged(s0, Broadcast(s, m))
  {
    PhaseSlaves(s0, s, e, FsConfirmation);
    forall i | 0 <= i < |s|
      ensures SlaveStep(s[i], m).1 <==> Takes(s0[i], e) && s0[i].identity[|e|] == m.id
      ensures |e| < 3 ==> PhaseOne(s0[i], SlaveStep(s[i], m).0, e + [m.id], FsProcessing)
      ensures |e| == 3 ==> DoneOne(s0[i], SlaveStep(s[i], m).0, e + [m.id])
      ensures SlaveStep(s[i], m).0.config == (s[i].config || (|e| == 3 && SlaveStep(s[i], m).1))
      ensures SlaveStep(s[i], m).0.identity == s0[i].identity && SlaveStep(s[i], m).0.nodeId == s0[i].nodeId
    {
      assert PhaseOne(s0[i], s[i], e, FsConfirmation);
      TakesNext(s0[i], e, m.id);
    }
    forall i | 0 <= i < |s0| && (|e| < 3 || !Attained(s0, e, m.id)) ensures Broadcast(s, m)[i].config == s0[i].config {
      assert PhaseOne(s0[i], s[i], e, FsConfirmation);
    }
  }

  // ----- a whole run -----

  /** The words e are what a search through s0 settles on, given the known bits of each word: the least next word among
      the slaves still in the search which have the known bits. */
  ghost predicate Elected(s0: seq<SlaveState>, ids: seq<nat>, bits: seq<nat>, e: seq<nat>)
    requires |ids| == 4 && |bits| == 4
  {
    |e| <= 4 && forall w :: 0 <= w < |e| ==> Least(s0, e[..w], ids[w], bits[w] + 1, e[w])
  }

  /** Requests for the words from w on: one for each unknown bit, and a confirmation. */
  function RequestCount(bits: seq<nat>, w: nat): nat
    requires w <= |bits|
    decreases |bits| - w
  {
    if w == |bits| then 0 else bits[w] + 2 + RequestCount(bits, w + 1)
  }

  /** The state in which the master starts on word |e|. */
  ghost predicate Starting(m: MasterState, e: seq<nat>) {
    Searching(m, e) && m.bitChecked == m.fsBits[|e|] && m.idNumber == Prefix(m.fsId, m.fsBits, |e|)
  }

  /** From the start of word |e| on: either all four words are elected and the slaves holding them are in configuration
      mode, or no slave has the known bits of some word and the master aborts. */
  lemma {:induction false} Words(m: MasterState, s0: seq<SlaveState>, s: seq<SlaveState>, e: seq<nat>)
    returns (e1: seq<nat>)
    requires Starting(m, e) && Phase(s0, s, e, FsProcessing) && Elected(s0, m.fsId, m.fsBits, e)
    ensures SlavesOk(s) && e <= e1 && Elected(s0, m.fsId, m.fsBits, e1)
    ensures var (m', s', n) := Run(m, s);
            if |e1| == 4 then
              && m'.state == LssFinished && !m'.none && Done(s0, s', e1) && n == RequestCount(m.fsBits, |e|)
              && m'.sm == FsReset && !m'.answer
            else
              && m'.state == LssAborted && Unchanged(s0, s')
              && !Agrees(s0, e1, m.fsId[|e1|], m.fsBits[|e1|] + 1)
    decreases 4 - |e|
  {
    hide Run, Low, High, SetBit, MaskHigh, Least, Phase, Broadcast, Done, Unchanged;
    var w, b := |e|, m.fsBits[|e|];
    MaskedIsClear(m.fsId[w], b + 1);
    if Agrees(s0, e, m.fsId[w], b + 1) {
      var v := LeastExists(s0, e, m.fsId[w], b + 1);
      SameHigh(s0, e, m.fsId[w], m.idNumber, b + 1, v);
      var s1 := SearchFinds(m, s0, s, e, v);
      e1 := e + [v];
      ConfirmStep(m, s0, s1, e, v);
      assert Attained(s0, e, v) by { LeastAttained(s0, e, m.fsId[w], b + 1, v); }
      ExtendElected(s0, m.fsId, m.fsBits, e, v);
      assert RequestCount(m.fsBits, w) == b + 2 + RequestCount(m.fsBits, w + 1);
      if w < 3 {
        e1 := Words(BeginWord(m, w + 1).(next := w + 1), s0, Broadcast(s1, RequestOf(Confirming(m, e, v))), e + [v]);
      } else {
        assert RequestCount(m.fsBits, 4) == 0;
      }
    } else {
      SameHighNone(s0, e, m.fsId[w], m.idNumber, b + 1);
      var s1, x := SearchFails(m, s0, s, e);
      ConfirmStep(m, s0, s1, e, x);
      e1 := e;
    }
  }

  lemma LeastAttained(s0: seq<SlaveState>, e: seq<nat>, x: nat, b: nat, v: nat)
    requires |e| < 4 && Least(s0, e, x, b, v)
    ensures Attained(s0, e, v)
  {
  }

  lemma SameHigh(s0: seq<SlaveState>, e: seq<nat>, x: nat, y: nat, b: nat, v: nat)
    requires |e| < 4 && High(x, b) == High(y, b) && Least(s0, e, x, b, v)
    ensures Least(s0, e, y, b, v)
  {
  }

  lemma SameHighNone(s0: seq<SlaveState>, e: seq<nat>, x: nat, y: nat, b: nat)
    requires |e| < 4 && High(x, b) == High(y, b) && !Agrees(s0, e, x, b)
    ensures !Agrees(s0, e, y, b)
  {
  }

  lemma ExtendElected(s0: seq<SlaveState>, ids: seq<nat>, bits: seq<nat>, e: seq<nat>, v: nat)
    requires |ids| == 4 && |bits| == 4 && |e| < 4 && Elected(s0, ids, bits, e)
    requires Least(s0, e, ids[|e|], bits[|e|] + 1, v)
    ensures Elected(s0, ids, bits, e + [v])
  {
    hide Least;
    forall w | 0 <= w < |e| + 1 ensures Least(s0, (e + [v])[..w], ids[w], bits[w] + 1, (e + [v])[w]) {
      assert (e + [v])[..w] == e[..w];
      assert e[..|e|] == e;
    }
  }

  /** Among the values which agree there is a least one. */
  lemma {:induction false} LeastExists(s0: seq<SlaveState>, e: seq<nat>, x: nat, b: nat) returns (v: nat)
    requires |e| < 4 && Agrees(s0, e, x, b)
    ensures Least(s0, e, x, b, v)
    decreases |s0|
  {
    hide High;
    var n := |s0| - 1;
    var t, last := s0[..n], s0[n];
    var lastAgrees := Takes(last, e) && High(last.identity[|e|], b) == High(x, b);
    if Agrees(t, e, x, b) {
      v := LeastExists(t, e, x, b);
      var i :| 0 <= i < |t| && Takes(t[i], e) && t[i].identity[|e|] == v;
      assert s0[i] == t[i];
      if lastAgrees && last.identity[|e|] < v { v := last.identity[|e|]; }
      forall k | 0 <= k < |s0| && Takes(s0[k], e) && High(s0[k].identity[|e|], b) == High(x, b)
        ensures v <= s0[k].identity[|e|]
      {
        if k < n { assert t[k] == s0[k]; }
      }
    } else {
      var i :| 0 <= i < |s0| && Takes(s0[i], e) && High(s0[i].identity[|e|], b) == High(x, b);
      forall k | 0 <= k < n && Takes(s0[k], e)
        ensures High(s0[k].identity[|e|], b) != High(x, b)
      {
        assert t[k] == s0[k];
      }
      v := last.identity[|e|];
    }
  }

  /** The round of the confirmation request. */
  lemma ConfirmStep(m: MasterState, s0: seq<SlaveState>, s1: seq<SlaveState>, e: seq<nat>, x: nat)
    requires Searching(m, e) && Phase(s0, s1, e, FsConfirmation) && MasterOk(Confirming(m, e, x))
    ensures SlavesOk(s1)
    ensures var c := Confirming(m, e, x);
            var s2 := Broadcast(s1, RequestOf(c));
            if !Attained(s0, e, x) then
              && Run(c, s1) == (c.(timer := NoTimer, state := LssAborted, sm := FsReset), s2, 1)
              && Unchanged(s0, s2)
            else if |e| == 3 then
              && Run(c, s1).1 == s2 && Run(c, s1).2 == 1 && Done(s0, s2, e + [x])
              && var m' := Run(c, s1).0; m'.state == LssFinished && !m'.none && m'.sm == FsReset && !m'.answer
            else
              && Phase(s0, s2, e + [x], FsProcessing)
              && var m2 := BeginWord(m, |e| + 1).(next := |e| + 1);
              && Starting(m2, e + [x]) && m2.fsId == m.fsId && m2.fsBits == m.fsBits
              && var r := Run(m2, s2); Run(c, s1) == (r.0, r.1, r.2 + 1)
  {
    hide High, Low, MaskHigh;
    ConfirmRound(s0, s1, e, RequestOf(Confirming(m, e, x)));
  }

  /** The master before a FastScan. */
  predicate Idle(m: MasterState) {
    m.sm == FsReset && !m.answer
  }

  ghost predicate SomeUnconfigured(s0: seq<SlaveState>) {
    exists i :: 0 <= i < |s0| && s0[i].nodeId == 0xFF
  }

  /** The first request wakes every unconfigured slave, whatever it was doing. */
  lemma FirstRound(s0: seq<SlaveState>, m: Request)
    requires SlavesOk(s0) && m.bitCheck == 128 && m.next < 4
    ensures Answered(s0, m) <==> SomeUnconfigured(s0)
    ensures Phase(s0, Broadcast(s0, m), [], FsProcessing)
    ensures !SomeUnconfigured(s0) ==> Unchanged(s0, Broadcast(s0, m))
  {
    forall i | 0 <= i < |s0| ensures PhaseOne(s0[i], Broadcast(s0, m)[i], [], FsProcessing) {
      assert s0[i].identity[..0] == [];
    }
  }

  /** A FastScan with any known bits, in any network: it reports that no slave is unconfigured; or it finishes with
      exactly the slaves holding the elected identity in configuration mode; or it aborts at the first word whose known
      bits no slave still in the search has. */
  lemma ScanOutcome(m0: MasterState, ids: seq<nat>, bits: seq<nat>, s0: seq<SlaveState>) returns (e: seq<nat>)
    requires Idle(m0) && SlavesOk(s0) && |ids| == 4 && |bits| == 4
    requires forall w :: 0 <= w < 4 ==> bits[w] <= 32
    ensures MasterOk(MasterStart(m0, ids, bits))
    ensures Elected(s0, ids, AdjustBits(bits), e)
    ensures var (m', s', n) := Run(MasterStart(m0, ids, bits), s0);
            if !SomeUnconfigured(s0) then m'.state == LssFinished && m'.none && n == 1 && Unchanged(s0, s') && Idle(m')
            else if |e| == 4 then
              && m'.state == LssFinished && !m'.none && Idle(m') && Done(s0, s', e)
              && n == 1 + RequestCount(AdjustBits(bits), 0)
            else
              && m'.state == LssAborted && Unchanged(s0, s')
              && !Agrees(s0, e, ids[|e|], AdjustBits(bits)[|e|] + 1)
  {
    hide High, Low, MaskHigh, Least, Agrees, Unchanged, Done;
    var m := MasterStart(m0, ids, bits);
    FirstRound(s0, RequestOf(m));
    e := [];
    if SomeUnconfigured(s0) {
      var m1 := BeginWord(m, 0);
      e := Words(m1, s0, Broadcast(s0, RequestOf(m)), []);
    }
  }

  /** a comes before b in lexicographic order, or equals it. */
  ghost predicate LexLeq(a: seq<nat>, b: seq<nat>) {
    a == b || exists w :: 0 <= w < |a| && w < |b| && a[..w] == b[..w] && a[w] < b[w]
  }

  /** With every bit unknown: for any unconfigured slaves, the scan finishes after 133 requests, and exactly the slaves
      holding the lexicographically least identity are in configuration mode. */
  lemma FullScanElectsLeast(m0: MasterState, ids: seq<nat>, s0: seq<SlaveState>) returns (e: seq<nat>)
    requires Idle(m0) && |ids| == 4 && (forall w :: 0 <= w < 4 ==> ids[w] < 0x1_0000_0000)
    requires forall i :: 0 <= i < |s0| ==> ValidSlave(s0[i])
    requires SomeUnconfigured(s0)
    ensures |e| == 4 && (exists i :: 0 <= i < |s0| && s0[i].nodeId == 0xFF && s0[i].identity == e)
    ensures forall i :: 0 <= i < |s0| && s0[i].nodeId == 0xFF ==> LexLeq(e, s0[i].identity)
    ensures SlavesOk(s0) && MasterOk(MasterStart(m0, ids, [32, 32, 32, 32]))
    ensures var (m', s', n) := Run(MasterStart(m0, ids, [32, 32, 32, 32]), s0);
            m'.state == LssFinished && !m'.none && Idle(m') && n == 133 && Done(s0, s', e)
  {
    hide High, Low, MaskHigh, Unchanged, Done, Run, Least, Agrees, RequestCount;
    var bits := [32, 32, 32, 32];
    e := ScanOutcome(m0, ids, bits, s0);
    var b := AdjustBits(bits);
    CountFull(b);
    if |e| < 4 { AllAgree(s0, ids, b, e); }
    var i := SomeTakes(s0, ids, b, e);
    assert s0[i].identity[..4] == s0[i].identity;
    forall k | 0 <= k < |s0| && s0[k].nodeId == 0xFF ensures LexLeq(e, s0[k].identity) {
      LeastWords(s0, ids, b, e, k, 0);
    }
  }

  lemma CountFull(b: seq<nat>)
    requires |b| == 4 && forall w :: 0 <= w < 4 ==> b[w] == 31
    ensures RequestCount(b, 0) == 132
  {
    assert RequestCount(b, 4) == 0;
    assert RequestCount(b, 3) == 33;
    assert RequestCount(b, 2) == 66;
  }

  /** A 32-bit word has nothing above bit 31. */
  lemma TopBits(x: nat)
    requires x < 0x1_0000_0000
    ensures High(x, 32) == 0
  {
    hide High, Low;
    Pow32();
    assert Times(32, 0) == 0;
    HighUnique(x, 32, 0, x);
  }

  lemma Pow32()
    ensures Pow2(32) == 0x1_0000_0000
  {
    assert Pow2(0) == 1;
    PowStep(0);
    PowStep(8);
    PowStep(16);
    PowStep(24);
  }

  lemma PowStep(n: nat)
    ensures Pow2(n + 8) == 256 * Pow2(n)
  {
    assert Pow2(n + 4) == 2 * Pow2(n + 3) == 4 * Pow2(n + 2) == 8 * Pow2(n + 1) == 16 * Pow2(n);
    assert Pow2(n + 8) == 2 * Pow2(n + 7) == 4 * Pow2(n + 6) == 8 * Pow2(n + 5) == 16 * Pow2(n + 4);
  }

  /** With every bit unknown, every slave still in the search has the known bits. */
  lemma AllAgree(s0: seq<SlaveState>, ids: seq<nat>, b: seq<nat>, e: seq<nat>)
    requires |ids| == 4 && |b| == 4 && |e| < 4 && Elected(s0, ids, b, e) && SomeUnconfigured(s0)
    requires forall k :: 0 <= k < |s0| ==> ValidSlave(s0[k])
    requires forall w :: 0 <= w < 4 ==> b[w] == 31 && ids[w] < 0x1_0000_0000
    ensures Agrees(s0, e, ids[|e|], b[|e|] + 1)
  {
    hide High, Elected;
    var i := SomeTakes(s0, ids, b, e);
    TopBits(s0[i].identity[|e|]);
    TopBits(ids[|e|]);
  }

  /** Some slave has all the words elected so far. */
  lemma SomeTakes(s0: seq<SlaveState>, ids: seq<nat>, b: seq<nat>, e: seq<nat>) returns (i: nat)
    requires |ids| == 4 && |b| == 4 && Elected(s0, ids, b, e) && SomeUnconfigured(s0)
    requires forall k :: 0 <= k < |s0| ==> ValidSlave(s0[k])
    ensures i < |s0| && Takes(s0[i], e)
  {
    hide Elected;
    if e == [] {
      i :| 0 <= i < |s0| && s0[i].nodeId == 0xFF;
      assert s0[i].identity[..0] == [];
    } else {
      var w := |e| - 1;
      i := LastAttained(s0, ids, b, e);
      TakesNext(s0[i], e[..w], e[w]);
      assert e[..w] + [e[w]] == e;
    }
  }

  lemma LastAttained(s0: seq<SlaveState>, ids: seq<nat>, b: seq<nat>, e: seq<nat>) returns (i: nat)
    requires |ids| == 4 && |b| == 4 && Elected(s0, ids, b, e) && |e| > 0
    ensures |e| <= 4 && i < |s0| && Takes(s0[i], e[..|e| - 1]) && s0[i].identity[|e| - 1] == e[|e| - 1]
  {
    hide High;
    var w := |e| - 1;
    assert Least(s0, e[..w], ids[w], b[w] + 1, e[w]);
    i :| 0 <= i < |s0| && Takes(s0[i], e[..w]) && s0[i].identity[w] == e[w];
  }

  /** The first word in which a slave differs from the elected identity is larger. */
  lemma {:induction false} LeastWords(s0: seq<SlaveState>, ids: seq<nat>, b: seq<nat>, e: seq<nat>, k: nat, w: nat)
    requires |ids| == 4 && |b| == 4 && |e| == 4 && Elected(s0, ids, b, e)
    requires forall i :: 0 <= i < 4 ==> b[i] == 31 && ids[i] < 0x1_0000_0000
    requires k < |s0| && s0[k].nodeId == 0xFF && ValidSlave(s0[k]) && w <= 4 && s0[k].identity[..w] == e[..w]
    ensures LexLeq(e, s0[k].identity)
    decreases 4 - w
  {
    hide Elected;
    var id := s0[k].identity;
    if w == 4 {
      assert id[..4] == id && e[..4] == e;
    } else {
      LeastWord(s0, ids, b, e, k, w);
      if id[w] == e[w] {
        assert id[..w + 1] == id[..w] + [id[w]] && e[..w + 1] == e[..w] + [e[w]];
        LeastWords(s0, ids, b, e, k, w + 1);
      }
    }
  }

  lemma LeastWord(s0: seq<SlaveState>, ids: seq<nat>, b: seq<nat>, e: seq<nat>, k: nat, w: nat)
    requires |ids| == 4 && |b| == 4 && |e| == 4 && Elected(s0, ids, b, e)
    requires forall i :: 0 <= i < 4 ==> b[i] == 31 && ids[i] < 0x1_0000_0000
    requires k < |s0| && s0[k].nodeId == 0xFF && ValidSlave(s0[k]) && w < 4 && s0[k].identity[..w] == e[..w]
    ensures e[w] <= s0[k].identity[w]
  {
    hide High;
    TopBits(s0[k].identity[w]);
    TopBits(ids[w]);
    assert Least(s0, e[..w], ids[w], 32, e[w]);
  }
}
