/** One CANopen SDO transfer line (sdo.c): its state, the eight-byte frames, and the frame handler proceedSDO as a
    function. The timer, the index and subindex beyond their three frame bytes, and the CRC flag are left out. */
module SdoLine {
  import opened FatCodec

  datatype Role = Client | Server

  datatype LineState = Reset | Finished | Download | Upload | BlockDownload | BlockUpload | AbortedRcv | AbortedInternal

  datatype RxStep = RxInit | RxStarted | RxEnd

  type Frame = f: seq<Byte> | |f| == 8 witness [0, 0, 0, 0, 0, 0, 0, 0]

  /** Index and subindex, as bytes 1 to 3 of a frame. */
  type Mux = f: seq<Byte> | |f| == 3 witness [0, 0, 0]

  const NoMux: Mux := [0, 0, 0]

  /** s_transfer. data: the line buffer of SDO_MAX_LENGTH_TRANSFER bytes. tmpData: the last segment of a block. */
  datatype Line = Line(state: LineState, mux: Mux, toggle: nat, count: nat, offset: nat, blksize: nat, objsize: nat,
                       lastblockoffset: nat, seqno: nat, endfield: nat, rxstep: RxStep, tmpData: Frame, data: seq<Byte>,
                       abortCode: nat)

  /** The object a server's transfer is about. size: what is read has at most this many bytes. An error code other than
      0 makes the access fail. */
  datatype Entry = Entry(value: seq<Byte>, readError: nat, writeError: nat)

  datatype Reply = Reply(line: Line, sent: seq<Frame>, entry: Entry)

  const ToggleNotAlternated := 0x0503_0000
  const TimedOut := 0x0504_0000
  const OutOfMemory := 0x0504_0005
  const GeneralError := 0x0800_0000
  const LocalControlError := 0x0800_0021

  // ----- frame bytes -----

  function Cs(b: Byte): nat { b / 32 }

  function Toggle(b: Byte): nat { b / 16 % 2 }

  /** Bytes without data, of a segment. */
  function N3(b: Byte): nat { b / 2 % 8 }

  /** Bytes without data, of an expedited transfer. */
  function N2(b: Byte): nat { b / 4 % 4 }

  predicate Expedited(b: Byte) { b / 2 % 2 == 1 }

  predicate Last(b: Byte) { b % 2 == 1 }

  /** Bytes without data, of the last segment of a block transfer. */
  function Filling(b: Byte): (n: nat)
    ensures n < 8
  {
    b / 4 % 8
  }

  /** The subcommand of a block transfer. */
  function SubCommand(b: Byte): nat { b % 4 }

  function Le32(n: nat): (r: seq<Byte>)
    ensures |r| == 4
  {
    [n % 256, n / 256 % 256, n / 0x1_0000 % 256, n / 0x100_0000 % 256]
  }

  function FromLe32(b: seq<Byte>): nat
    requires |b| == 4
  {
    b[0] as int + b[1] as int * 256 + b[2] as int * 0x1_0000 + b[3] as int * 0x100_0000
  }

  lemma Le32RoundTrip(n: nat)
    requires n < 0x1_0000_0000
    ensures FromLe32(Le32(n)) == n
  {
    var a, b, c := n / 256, n / 0x1_0000, n / 0x100_0000;
    assert b == a / 256 && c == b / 256;
  }

  function Zeros(n: nat): (r: seq<Byte>)
    ensures |r| == n && forall i :: 0 <= i < n ==> r[i] == 0
  {
    seq(n, _ => 0)
  }

  /** A frame of one byte and zeros. */
  function Plain(b: Byte): Frame {
    [b] + Zeros(7)
  }

  /** A frame of one byte, the index and subindex, and four bytes. */
  function WithMux(b: Byte, mux: Mux, four: seq<Byte>): Frame
    requires |four| == 4
  {
    [b] + mux + four
  }

  function MuxOf(m: Frame): Mux { m[1..4] }

  /** A frame of one byte and up to seven bytes of data. */
  function DataFrame(b: Byte, bytes: seq<Byte>): (f: Frame)
    requires |bytes| <= 7
    ensures f[0] == b && f[1..1 + |bytes|] == bytes
  {
    [b] + bytes + Zeros(7 - |bytes|)
  }

  function Abort(mux: Mux, code: nat): Frame {
    WithMux(0x80, mux, Le32(code))
  }

  // ----- the line -----

  /** The state of a line which is not taken into account for new frames. */
  predicate OnUse(l: Line) {
    l.state != Reset && l.state != AbortedInternal
  }

  predicate ValidFields(l: Line) {
    8 <= |l.data| <= 1785 && l.toggle < 2 && l.endfield < 8 && l.blksize < 256 && l.seqno < 256
  }

  predicate ValidLine(l: Line) {
    && ValidFields(l)
    && (OnUse(l) ==> l.count <= |l.data| && l.offset <= |l.data|)
  }

  /** initSDOline. */
  function Init(l: Line, mux: Mux, state: LineState): Line {
    l.(state := state, mux := mux, toggle := 0, count := 0, offset := 0, blksize := 0, objsize := 0,
      lastblockoffset := 0,
       seqno := 0, endfield := 0, rxstep := RxInit)
  }

  /** resetSDOline. */
  function ResetLine(l: Line): Line {
    Init(l, NoMux, Reset).(data := Zeros(|l.data|), abortCode := 0)
  }

  /** getSDOlineRestBytes, with its unsigned subtraction. */
  function RestBytes(l: Line): nat {
    if l.count == 0 then 0
    else if l.offset <= l.count then l.count - l.offset
    else (l.count - l.offset) % 0x1_0000_0000
  }

  /** Whether lineToSDO succeeds for nb bytes. */
  predicate CanTake(l: Line, nb: nat) {
    l.offset + nb <= |l.data| && l.offset + nb <= l.count
  }

  /** lineToSDO: the next nb bytes of the line. */
  function Taken(l: Line, nb: nat): (r: seq<Byte>)
    requires CanTake(l, nb)
    ensures |r| == nb
  {
    l.data[l.offset..l.offset + nb]
  }

  function Advance(l: Line, nb: nat): Line {
    l.(offset := l.offset + nb)
  }

  /** Whether SDOtoLine succeeds. */
  predicate CanStore(l: Line, nb: nat) {
    l.offset + nb <= |l.data|
  }

  /** SDOtoLine. */
  function Store(l: Line, bytes: seq<Byte>): (r: Line)
    requires CanStore(l, |bytes|)
    ensures |r.data| == |l.data| && r.offset == l.offset + |bytes|
    ensures r.data[..r.offset] == l.data[..l.offset] + bytes
  {
    l.(data := l.data[..l.offset] + bytes + l.data[l.offset + |bytes|..], offset := l.offset + |bytes|)
  }

  /** failedSDO: a server releases the line, a client keeps it as aborted; an abort frame is sent. */
  function Failed(who: Role, l: Line, e: Entry, mux: Mux, code: nat): (r: Reply)
    requires ValidFields(l)
    ensures ValidLine(r.line) && |r.line.data| == |l.data|
  {
    Reply(if !OnUse(l) then l else if who == Server then ResetLine(l)
      else l.(state := AbortedInternal, abortCode := code),
          [Abort(mux, code)], e)
  }

  /** A frame was sent before the reply. */
  function After(sent: seq<Frame>, r: Reply): Reply {
    r.(sent := sent + r.sent)
  }

  /** SDOlineToObjdict and the end of the transfer, after the frames sent. */
  function Commit(l0: Line, e: Entry, sent: seq<Frame>): (r: Reply)
    requires ValidLine(l0) && OnUse(l0)
    ensures ValidLine(r.line) && |r.line.data| == |l0.data|
  {
    var l := if l0.count == 0 then l0.(count := l0.offset) else l0;
    if e.writeError != 0 then After(sent, Failed(Server, l, e, l.mux, e.writeError))
    else Reply(ResetLine(l), sent, e.(value := l.data[..l.count]))
  }

  /** objdictToSDOline: the line holding the object, or an error code. */
  function ReadObject(l: Line, e: Entry): (Line, nat) {
    if e.readError != 0 then (l, e.readError)
    else if |e.value| > |l.data| then (l, OutOfMemory)
    else (l.(data := e.value + l.data[|e.value|..], count := |e.value|, offset := 0), 0)
  }

  /** A segment of a segmented transfer, and the line after it. */
  function SegmentOf(l: Line): (Frame, Line)
    requires l.toggle < 2 && CanTake(l, if RestBytes(l) > 7 then 7 else RestBytes(l))
  {
    var nb := RestBytes(l);
    if nb > 7 then (DataFrame(l.toggle * 16, Taken(l, 7)), Advance(l, 7))
    else (DataFrame(l.toggle * 16 + (7 - nb) * 2 + 1, Taken(l, nb)), Advance(l, nb))
  }

  function Flip(l: Line): Line
    requires l.toggle < 2
  {
    l.(toggle := 1 - l.toggle)
  }

  // ----- proceedSDO -----

  /** The command specifier; a segment of a block transfer has none. */
  function CsOf(who: Role, l: Line, m: Frame): nat {
    if (who == Server && l.state == BlockDownload) || (who == Client && l.state == BlockUpload) then
      if m[0] == 0x80 then 4 else 6
    else Cs(m[0])
  }

  function Proceed(who: Role, l: Line, e: Entry, m: Frame, bs: Byte): (r: Reply)
    requires ValidLine(l)
    ensures ValidLine(r.line) && |r.line.data| == |l.data|
  {
    match CsOf(who, l, m)
    case 0 => OnSegment(who, l, e, m)
    case 1 => if who == Server then OnInitiateDownload(l, e, m) else OnDownloadResponse(l, e, m)
    case 2 => if who == Server then OnInitiateUpload(l, e, m) else OnUploadResponse(l, e, m)
    case 3 => if who == Server then OnUploadRequest(l, e, m) else OnDownloadStarted(l, e, m)
    case 4 => OnAbort(who, l, e, m)
    case 5 => if who == Server then BlockProducerServer(l, e, m) else BlockProducerClient(l, e, m)
    case 6 => if who == Server then BlockConsumerServer(l, e, m, bs) else BlockConsumerClient(l, e, m, bs)
    case _ => Reply(l, [], e)
  }

  /** cs = 0: a data segment, of a download for a server, of an upload for a client. */
  function OnSegment(who: Role, l: Line, e: Entry, m: Frame): (r: Reply)
    requires ValidLine(l)
    ensures ValidLine(r.line) && |r.line.data| == |l.data|
  {
    if l.state != (if who == Server then Download else Upload) then Failed(who, l, e, NoMux, LocalControlError)
    else if l.toggle != Toggle(m[0]) then Failed(who, l, e, l.mux, ToggleNotAlternated)
    else if !CanStore(l, 7 - N3(m[0])) then Failed(who, l, e, l.mux, GeneralError)
    else
      var l1 := Flip(Store(l, m[1..8 - N3(m[0])]));
      if who == Server then
        var response := [Plain(32 + l.toggle * 16)];
        if Last(m[0]) then Commit(l1, e, response) else Reply(l1, response, e)
      else if Last(m[0]) then Reply(l1.(state := Finished), [], e)
      else Reply(l1, [Plain(96 + l1.toggle * 16)], e)
  }

  /** cs = 1 for a server. */
  function OnInitiateDownload(l: Line, e: Entry, m: Frame): (r: Reply)
    requires ValidLine(l)
    ensures ValidLine(r.line) && |r.line.data| == |l.data|
  {
    var mux := MuxOf(m);
    if l.state != Reset then Failed(Server, l, e, mux, LocalControlError)
    else
      var l1 := Init(l, mux, Download);
      var response := [WithMux(96, mux, Zeros(4))];
      if Expedited(m[0]) then
        var nb := 4 - N2(m[0]);
        var r := Commit(Store(l1.(count := nb), m[4..4 + nb]), e, []);
        if e.writeError != 0 then r else r.(sent := response)
      else if Last(m[0]) then
        if FromLe32(m[4..8]) > |l.data| then Failed(Server, l1, e, mux, GeneralError)
        else Reply(l1.(count := FromLe32(m[4..8])), response, e)
      else Reply(l1, response, e)
  }

  /** cs = 1 for a client: a download segment has arrived. */
  function OnDownloadResponse(l: Line, e: Entry, m: Frame): (r: Reply)
    requires ValidLine(l)
    ensures ValidLine(r.line) && |r.line.data| == |l.data|
  {
    if l.state != Download then Failed(Client, l, e, NoMux, LocalControlError)
    else if l.toggle != Toggle(m[0]) then Failed(Client, l, e, l.mux, ToggleNotAlternated)
    else SendSegment(l, Flip(l), e)
  }

  /** The client's next download segment, sent on line l1, unless nothing is left. */
  function SendSegment(l: Line, l1: Line, e: Entry): (r: Reply)
    requires ValidLine(l) && l.state == Download && (l1 == l || l1 == Flip(l))
    ensures ValidLine(r.line) && |r.line.data| == |l.data|
  {
    if RestBytes(l) == 0 then Reply(l.(state := Finished), [], e)
    else if !CanTake(l1, if RestBytes(l1) > 7 then 7
      else RestBytes(l1)) then Failed(Client, l1, e, l1.mux, GeneralError)
    else
      var (f, l2) := SegmentOf(l1);
      Reply(l2, [f], e)
  }

  /** cs = 3 for a client: the server accepts the download. */
  function OnDownloadStarted(l: Line, e: Entry, m: Frame): (r: Reply)
    requires ValidLine(l)
    ensures ValidLine(r.line) && |r.line.data| == |l.data|
  {
    if l.state != Download then Failed(Client, l, e, NoMux, LocalControlError)
    else SendSegment(l, l, e)
  }

  /** cs = 2 for a server. */
  function OnInitiateUpload(l: Line, e: Entry, m: Frame): (r: Reply)
    requires ValidLine(l)
    ensures ValidLine(r.line) && |r.line.data| == |l.data|
  {
    var mux := MuxOf(m);
    if l.state != Reset then Failed(Server, l, e, mux, LocalControlError)
    else
      var (l1, error) := ReadObject(Init(l, mux, Upload), e);
      var nb := RestBytes(l1);
      if error != 0 then Failed(Server, l1, e, mux, error)
      else if nb > 4 then Reply(l1, [WithMux(65, mux, Le32(nb))], e)
      else Reply(ResetLine(l1), [WithMux(64 + (4 - nb) * 4 + 3, mux, Taken(l1, nb) + Zeros(4 - nb))], e)
  }

  /** cs = 2 for a client. */
  function OnUploadResponse(l: Line, e: Entry, m: Frame): (r: Reply)
    requires ValidLine(l)
    ensures ValidLine(r.line) && |r.line.data| == |l.data|
  {
    if l.state != Upload then Failed(Client, l, e, NoMux, LocalControlError)
    else if Expedited(m[0]) then
      var nb := 4 - N2(m[0]);
      if !CanStore(l, nb) then Failed(Client, l, e, l.mux, GeneralError)
      else Reply(Store(l, m[4..4 + nb]).(count := nb, state := Finished), [], e)
    else if Last(m[0]) then
      if FromLe32(m[4..8]) > |l.data| then Failed(Client, l, e, l.mux, GeneralError)
      else Reply(l.(count := FromLe32(m[4..8])), [Plain(96)], e)
    else Reply(l, [Plain(96)], e)
  }

  /** cs = 3 for a server: the request for an upload segment. */
  function OnUploadRequest(l: Line, e: Entry, m: Frame): (r: Reply)
    requires ValidLine(l)
    ensures ValidLine(r.line) && |r.line.data| == |l.data|
  {
    if l.state != Upload then Failed(Server, l, e, NoMux, LocalControlError)
    else if l.toggle != Toggle(m[0]) then Failed(Server, l, e, l.mux, ToggleNotAlternated)
    else if !CanTake(l, if RestBytes(l) > 7 then 7 else RestBytes(l)) then Failed(Server, l, e, l.mux, GeneralError)
    else
      var (f, l1) := SegmentOf(l);
      Reply(if RestBytes(l) > 7 then Flip(l1) else ResetLine(l1), [f], e)
  }

  /** cs = 4. */
  function OnAbort(who: Role, l: Line, e: Entry, m: Frame): (r: Reply)
    requires ValidLine(l)
    ensures ValidLine(r.line) && |r.line.data| == |l.data|
  {
    if !OnUse(l) then Reply(l, [], e)
    else if who == Server then Reply(ResetLine(l), [], e)
    else Reply(l.(state := AbortedRcv, abortCode := FromLe32(m[4..8])), [], e)
  }

  // ----- block transfer: the producer of the data -----

  function SegmentByte(s: nat, last: bool): Byte
    requires s < 256
  {
    if last && s < 128 then s + 0x80 else s
  }

  /** The segments of one block from number s on, the line after them, and whether all could be taken. */
  function SendBlock(l: Line, s: nat): (r: (Line, seq<Frame>, bool))
    requires ValidLine(l) && OnUse(l) && 1 <= s
    ensures ValidLine(r.0) && r.0.state == l.state && r.0.mux == l.mux && r.0.data == l.data && r.0.count == l.count
    ensures r.0.lastblockoffset == l.lastblockoffset
    decreases 256 - s
  {
    if s > l.blksize then (l, [], true)
    else
      var l1 := l.(seqno := s);
      var nb := RestBytes(l1);
      if !CanTake(l1, if nb > 7 then 7 else nb) then (l1, [], false)
      else if nb > 7 then
        var (l2, frames, ok) := SendBlock(Advance(l1, 7), s + 1);
        (l2, [DataFrame(SegmentByte(s, false), Taken(l1, 7))] + frames, ok)
      else (Advance(l1, nb).(endfield := 7 - nb), [DataFrame(SegmentByte(s, true), Taken(l1, nb))], true)
  }

  /** The next block, from the current offset. */
  function NextBlock(who: Role, l: Line, e: Entry): (r: Reply)
    requires ValidLine(l) && OnUse(l)
    ensures ValidLine(r.line) && |r.line.data| == |l.data|
  {
    var (l1, frames, ok) := SendBlock(l.(lastblockoffset := l.offset % 256), 1);
    if ok then Reply(l1, frames, e) else After(frames, Failed(who, l1, e, l1.mux, GeneralError))
  }

  /** The acknowledgement of a block: the end of the transfer, the next block, or an error. */
  function OnBlockAck(who: Role, l0: Line, e: Entry, m: Frame): (r: Reply)
    requires ValidLine(l0) && OnUse(l0)
    ensures ValidLine(r.line) && |r.line.data| == |l0.data|
  {
    var l := l0.(blksize := m[2]);
    var a: nat := m[1] % 128;
    if RestBytes(l) == 0 && a == l.seqno then Reply(l, [Plain(192 + l.endfield * 4 + 1)], e)
    else
      var l1 := l.(offset := l.lastblockoffset + 7 * a);
      if l1.offset > l1.count then Failed(who, l1, e, NoMux, LocalControlError) else NextBlock(who, l1, e)
  }

  /** cs = 5 for a server: a block upload. */
  function BlockProducerServer(l: Line, e: Entry, m: Frame): (r: Reply)
    requires ValidLine(l)
    ensures ValidLine(r.line) && |r.line.data| == |l.data|
  {
    match SubCommand(m[0])
    case 0 =>
      var mux := MuxOf(m);
      if l.state != Reset then Failed(Server, l, e, mux, LocalControlError)
      else
        var (l1, error) := ReadObject(Init(l, mux, BlockUpload).(blksize := m[4]), e);
        if error != 0 then Failed(Server, l1, e, mux, error)
        else Reply(l1.(objsize := RestBytes(l1)), [WithMux(194, mux, Le32(RestBytes(l1)))], e)
    case 1 => if l.state != BlockUpload then Failed(Server, l, e, NoMux, LocalControlError)
      else Reply(ResetLine(l), [], e)
    case 2 => if l.state != BlockUpload then Failed(Server, l, e, NoMux, LocalControlError)
      else OnBlockAck(Server, l, e, m)
    case _ => if l.state != BlockUpload then Failed(Server, l, e, NoMux, LocalControlError) else NextBlock(Server, l, e)
  }

  /** cs = 5 for a client: a block download. The source does not look whether a line is in use before it takes the end
      response; without one its line number is not set, and here nothing happens. */
  function BlockProducerClient(l: Line, e: Entry, m: Frame): (r: Reply)
    requires ValidLine(l)
    ensures ValidLine(r.line) && |r.line.data| == |l.data|
  {
    match SubCommand(m[0])
    case 0 => if l.state != BlockDownload then Failed(Client, l, e, NoMux, LocalControlError)
      else NextBlock(Client, l.(blksize := m[4]), e)
    case 1 => Reply(if OnUse(l) then l.(state := Finished) else l, [], e)
    case 2 => if l.state != BlockDownload then Failed(Client, l, e, NoMux, LocalControlError)
      else OnBlockAck(Client, l, e, m)
    case _ => Failed(Client, l, e, NoMux, LocalControlError)
  }

  // ----- block transfer: the consumer of the data -----

  /** The acknowledgement of the segments up to number s. */
  function BlockAck(s: nat, bs: Byte): Frame
    requires s < 256
  {
    [162, s, bs] + Zeros(5)
  }

  /** A segment of a block. Only the one after the last stored is taken; the last segment of the transfer is kept aside,
      as the number of its data bytes is not known yet. */
  function OnBlockSegment(who: Role, l: Line, e: Entry, m: Frame, bs: Byte): (r: Reply)
    requires ValidLine(l) && OnUse(l)
    ensures ValidLine(r.line) && |r.line.data| == |l.data|
  {
    var s := m[0] % 128;
    if m[0] >= 128 then
      var l1 := if s == l.seqno + 1 then l.(rxstep := RxEnd, seqno := s, tmpData := m) else l;
      Reply(l1.(seqno := 0), [BlockAck(l1.seqno, bs)], e)
    else if s == l.seqno + 1 && !CanStore(l, 7) then Failed(who, l.(seqno := s), e, l.mux, GeneralError)
    else
      var l1 := if s == l.seqno + 1 then Store(l.(seqno := s), m[1..8]) else l;
      if s == bs then Reply(l1.(seqno := 0), [BlockAck(l1.seqno, bs)], e) else Reply(l1, [], e)
  }

  /** The end request: the segment kept aside is stored without its filling, and the size is checked. */
  function OnBlockEnd(who: Role, l: Line, e: Entry, m: Frame): (r: Reply)
    requires ValidLine(l) && OnUse(l)
    ensures ValidLine(r.line) && |r.line.data| == |l.data|
  {
    var n := Filling(m[0]);
    if m[0] % 2 != 1 then Failed(who, l, e, NoMux, LocalControlError)
    else if !CanStore(l, 7 - n) then Failed(who, l, e, l.mux, GeneralError)
    else
      var l1 := Store(l, l.tmpData[1..8 - n]);
      if l.objsize != 0 && l.objsize != l1.offset then Failed(who, l1, e, l.mux, LocalControlError)
      else if who == Server then
        Commit(l1, e, [Plain(161)])
      else Reply(l1.(state := Finished), [Plain(161)], e)
  }

  /** cs = 6 for a server: a block download. */
  function BlockConsumerServer(l: Line, e: Entry, m: Frame, bs: Byte): (r: Reply)
    requires ValidLine(l)
    ensures ValidLine(r.line) && |r.line.data| == |l.data|
  {
    if !OnUse(l) then
      var mux := MuxOf(m);
      if m[0] % 2 != 0 then Failed(Server, l, e, NoMux, LocalControlError)
      else if l.state != Reset then Failed(Server, l, e, mux, LocalControlError)
      else
        var l1 := Init(l, mux, BlockDownload).(rxstep := RxStarted);
        Reply(if m[0] / 2 % 2 == 1 then l1.(objsize := FromLe32(m[4..8]))
          else l1, [WithMux(160, mux, [bs, 0, 0, 0])], e)
    else match l.rxstep
      case RxInit => Reply(l, [], e)
      case RxStarted => OnBlockSegment(Server, l, e, m, bs)
      case RxEnd => OnBlockEnd(Server, l, e, m)
  }

  /** cs = 6 for a client: a block upload. */
  function BlockConsumerClient(l: Line, e: Entry, m: Frame, bs: Byte): (r: Reply)
    requires ValidLine(l)
    ensures ValidLine(r.line) && |r.line.data| == |l.data|
  {
    if !OnUse(l) then Failed(Client, l, e, NoMux, LocalControlError)
    else match l.rxstep
      case RxInit =>
        if m[0] % 2 != 0 then Reply(l, [], e)
        else
          var l1 := l.(rxstep := RxStarted);
          Reply(if m[0] / 2 % 2 == 1 then l1.(objsize := FromLe32(m[4..8])) else l1, [Plain(163)], e)
      case RxStarted => OnBlockSegment(Client, l, e, m, bs)
      case RxEnd => OnBlockEnd(Client, l, e, m)
  }

  // ----- a client's requests -----

  /** _writeNetworkDict on a free line, with at most SDO_MAX_LENGTH_TRANSFER bytes. */
  function StartWrite(l: Line, mux: Mux, value: seq<Byte>, block: bool): (Line, Frame)
    requires ValidLine(l) && l.state == Reset && |value| <= |l.data|
  {
    var n := |value|;
    var l1 := Init(l, mux, if block then BlockDownload else Download).(count := n, data := value + l.data[n..]);
    if block then (l1.(objsize := n), WithMux(194, mux, Le32(n)))
    else if n <= 4 then (l1.(offset := n), WithMux(32 + (4 - n) * 4 + 3, mux, l1.data[..4]))
    else (l1, WithMux(33, mux, Le32(n)))
  }

  /** _readNetworkDict on a free line. */
  function StartRead(l: Line, mux: Mux, block: bool, bs: Byte): (Line, Frame)
    requires ValidLine(l) && l.state == Reset
  {
    if block then (Init(l, mux, BlockUpload), WithMux(160, mux, [bs, 0, 0, 0]))
    else (Init(l, mux, Upload), WithMux(64, mux, Zeros(4)))
  }

  /** SDOTimeoutAlarm. client: the dictionary has an SDO client with the number of the line. Without one the alarm does
      nothing, on a server as well: the line stays as it is. */
  function Timeout(l: Line, e: Entry, client: bool): (r: Reply)
    requires ValidLine(l)
    ensures ValidLine(r.line) && |r.line.data| == |l.data|
  {
    if client then Reply(ResetLine(l), [Abort(l.mux, TimedOut)], e) else Reply(l, [], e)
  }

  /** A slice of a buffer that begins with d. */
  lemma SliceOf(a: seq<Byte>, d: seq<Byte>, i: nat, j: nat)
    requires |d| <= |a| && a[..|d|] == d && i <= j <= |d|
    ensures a[i..j] == d[i..j]
  {
    assert a[..|d|][i..j] == a[i..j];
  }
}
