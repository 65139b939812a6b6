/** A node with one SDO transfer line (sdo.c), whose fields the frame handler updates in place. Every method is proved
    against the function of module SdoLine that says what it does. */
module SdoNode {
  import opened FatCodec
  import opened SdoLine

  lemma BlockUnfolds(l: Line, s: nat)
    requires ValidLine(l) && OnUse(l) && 1 <= s
    ensures s > l.blksize ==> SendBlock(l, s) == (l, [], true)
    ensures s <= l.blksize ==>
              var l1 := l.(seqno := s);
              var nb := RestBytes(l1);
              && s < 256 && ValidLine(l1) && OnUse(l1)
              && if !CanTake(l1, if nb > 7 then 7 else nb) then SendBlock(l, s) == (l1, [], false)
                 else if nb > 7 then
                   && ValidLine(Advance(l1, 7))
                   && var r := SendBlock(Advance(l1, 7), s + 1);
                   SendBlock(l, s) == (r.0, [DataFrame(SegmentByte(s, false), Taken(l1, 7))] + r.1, r.2)
                 else
                   SendBlock(l, s) ==
                   (Advance(l1, nb).(endfield := 7 - nb), [DataFrame(SegmentByte(s, true), Taken(l1, nb))], true)
  {
  }

  class Node {
    const who: Role
    const bs: Byte
    var state: LineState
    var mux: Mux
    var toggle: nat
    var count: nat
    var offset: nat
    var blksize: nat
    var objsize: nat
    var lastblockoffset: nat
    var seqno: nat
    var endfield: nat
    var rxstep: RxStep
    var tmpData: Frame
    const data: array<Byte>
    var abortCode: nat
    var entry: Entry

    /** The line buffer. */
    function Buffer(): (b: seq<Byte>)
      reads data
      ensures |b| == data.Length
    {
      data[..]
    }

    function Now(): Line
      reads this, data
    {
      Line(state, mux, toggle, count, offset, blksize, objsize, lastblockoffset, seqno, endfield, rxstep, tmpData,
        Buffer(), abortCode)
    }

    predicate Valid()
      reads this, data
    {
      ValidLine(Now())
    }

    /** The line and the object are as r says. */
    predicate Is(r: Reply)
      reads this, data
    {
      Now() == r.line && entry == r.entry
    }

    constructor (who: Role, size: nat, bs: Byte, entry: Entry)
      requires 8 <= size <= 1785 && bs > 0
      ensures Valid() && Now().state == Reset && fresh(data) && data.Length == size
      ensures this.who == who && this.bs == bs && this.entry == entry
    {
      this.who, this.bs, this.entry := who, bs, entry;
      state, mux, toggle, count, offset, blksize, objsize := Reset, NoMux, 0, 0, 0, 0, 0;
      lastblockoffset, seqno, endfield, rxstep, tmpData, abortCode := 0, 0, 0, RxInit, Zeros(8), 0;
      data := new Byte[size](_ => 0);
    }

    method ClearBlock()
      modifies this
      ensures entry == old(entry)
      ensures Now() == old(Now()).(blksize := 0, objsize := 0, lastblockoffset := 0, seqno := 0, endfield := 0,
        rxstep := RxInit)
    {
      hide Buffer;
      blksize, objsize, lastblockoffset := 0, 0, 0;
      seqno, endfield, rxstep := 0, 0, RxInit;
    }

    /** initSDOline. */
    method InitLine(mux: Mux, state: LineState)
      modifies this
      ensures Now() == Init(old(Now()), mux, state) && entry == old(entry)
    {
      hide Buffer;
      ClearBlock();
      this.state, this.mux, toggle, count, offset := state, mux, 0, 0, 0;
    }

    /** resetSDOline. */
    method Release()
      modifies this, data
      ensures Now() == ResetLine(old(Now())) && entry == old(entry)
    {
      InitLine(NoMux, Reset);
      for i := 0 to data.Length
        invariant Now() == Init(old(Now()), NoMux, Reset).(data := data[..]) && entry == old(entry)
        invariant forall k :: 0 <= k < i ==> data[k] == 0
      {
        data[i] := 0;
      }
      assert data[..] == Zeros(data.Length);
      abortCode := 0;
    }

    /** failedSDO. */
    method Fail(mux: Mux, code: nat) returns (sent: seq<Frame>)
      requires ValidFields(Now())
      modifies this, data
      ensures var r := Failed(who, old(Now()), old(entry), mux, code); Is(r) && sent == r.sent
    {
      if OnUse(Now()) {
        if who == Server { Release(); } else { state, abortCode := AbortedInternal, code; }
      }
      sent := [Abort(mux, code)];
    }

    /** SDOtoLine. */
    method ToLine(bytes: seq<Byte>) returns (ok: bool)
      modifies this, data
      ensures ok == CanStore(old(Now()), |bytes|) && entry == old(entry)
      ensures Now() == if ok then Store(old(Now()), bytes) else old(Now())
    {
      ok := offset + |bytes| <= data.Length;
      if ok {
        for i := 0 to |bytes|
          invariant Now() == old(Now()).(data := data[..]) && entry == old(entry)
          invariant data[..] == old(data[..])[..offset] + bytes[..i] + old(data[..])[offset + i..]
        {
          data[offset + i] := bytes[i];
        }
        assert bytes[..|bytes|] == bytes;
        offset := offset + |bytes|;
      }
    }

    /** lineToSDO. */
    method FromLine(nb: nat) returns (bytes: seq<Byte>)
      requires CanTake(Now(), nb)
      modifies this
      ensures Now() == Advance(old(Now()), nb) && entry == old(entry) && bytes == Taken(old(Now()), nb)
    {
      bytes := [];
      for i := 0 to nb
        invariant Now() == old(Now()) && entry == old(entry) && bytes == data[offset..offset + i]
      {
        bytes := bytes + [data[offset + i]];
      }
      offset := offset + nb;
    }

    /** SDOlineToObjdict and the release of the line. */
    method CommitObject(sent0: seq<Frame>) returns (sent: seq<Frame>)
      requires Valid() && OnUse(Now()) && who == Server
      modifies this, data
      ensures var r := Commit(old(Now()), old(entry), sent0); Is(r) && sent == r.sent
    {
      if count == 0 { count := offset; }
      if entry.writeError != 0 {
        var abort := Fail(mux, entry.writeError);
        sent := sent0 + abort;
      } else {
        entry := entry.(value := data[..count]);
        assert data[..][..count] == data[..count];
        Release();
        sent := sent0;
      }
    }

    /** The object's value is copied to the front of the line buffer. */
    method CopyIn(value: seq<Byte>)
      requires |value| <= data.Length
      modifies data
      ensures Buffer() == value + old(Buffer())[|value|..]
    {
      for i := 0 to |value|
        invariant forall k :: 0 <= k < i ==> data[k] == value[k]
        invariant forall k :: i <= k < data.Length ==> data[k] == old(data[k])
      {
        data[i] := value[i];
      }
      assert Buffer() == value + old(data[..])[|value|..];
    }

    /** objdictToSDOline: an error code, or 0. */
    method FromObject() returns (error: nat)
      modifies this, data
      ensures (Now(), error) == ReadObject(old(Now()), old(entry)) && entry == old(entry)
    {
      hide Buffer;
      if entry.readError != 0 { return entry.readError; }
      if |entry.value| > data.Length { return OutOfMemory; }
      CopyIn(entry.value);
      count, offset := |entry.value|, 0;
      error := 0;
    }

    // ----- segmented transfers -----

    /** The next segment of a segmented transfer. */
    method TakeSegment() returns (f: Frame)
      requires Valid() && CanTake(Now(), if RestBytes(Now()) > 7 then 7 else RestBytes(Now()))
      modifies this
      ensures (f, Now()) == SegmentOf(old(Now())) && entry == old(entry)
    {
      hide Buffer;
      var nb := RestBytes(Now());
      if nb > 7 {
        var bytes := FromLine(7);
        f := DataFrame(toggle * 16, bytes);
      } else {
        var bytes := FromLine(nb);
        f := DataFrame(toggle * 16 + (7 - nb) * 2 + 1, bytes);
      }
    }

    /** cs = 0. */
    method HandleSegment(m: Frame) returns (sent: seq<Frame>)
      requires Valid()
      modifies this, data
      ensures var r := OnSegment(who, old(Now()), old(entry), m); Is(r) && sent == r.sent
    {
      hide Buffer, CanStore, Store, Commit, Toggle;
      if state != (if who == Server then Download else Upload) {
        sent := Fail(NoMux, LocalControlError);
        return;
      }
      if toggle != Toggle(m[0]) {
        sent := Fail(mux, ToggleNotAlternated);
        return;
      }
      sent := AcceptSegment(m);
    }

    method AcceptSegment(m: Frame) returns (sent: seq<Frame>)
      requires Valid() && state == (if who == Server then Download else Upload) && toggle == Toggle(m[0])
      modifies this, data
      ensures var r := OnSegment(who, old(Now()), old(entry), m); Is(r) && sent == r.sent
    {
      assert N3(m[0]) < 8;
      hide Buffer, Commit, Toggle, N3, Last, Failed, Store, CanStore;
      var ok := ToLine(m[1..8 - N3(m[0])]);
      if !ok {
        sent := Fail(mux, GeneralError);
        return;
      }
      var response := Plain(32 + toggle * 16);
      toggle := 1 - toggle;
      if who == Server {
        if Last(m[0]) { sent := CommitObject([response]); } else { sent := [response]; }
      } else if Last(m[0]) {
        state, sent := Finished, [];
      } else {
        sent := [Plain(96 + toggle * 16)];
      }
    }

    /** cs = 1 for a server. */
    method HandleInitiateDownload(m: Frame) returns (sent: seq<Frame>)
      requires Valid() && who == Server
      modifies this, data
      ensures var r := OnInitiateDownload(old(Now()), old(entry), m); Is(r) && sent == r.sent
    {
      hide Buffer, FromLe32, Le32;
      if state != Reset {
        sent := Fail(MuxOf(m), LocalControlError);
        return;
      }
      InitLine(MuxOf(m), Download);
      var response := WithMux(96, mux, Zeros(4));
      if Expedited(m[0]) {
        count := 4 - N2(m[0]);
        var ok := ToLine(m[4..4 + count]);
        sent := CommitObject([]);
        if sent == [] { sent := [response]; }
      } else {
        if Last(m[0]) {
          if FromLe32(m[4..8]) > data.Length {
            sent := Fail(mux, GeneralError);
            return;
          }
          count := FromLe32(m[4..8]);
        }
        sent := [response];
      }
    }

    /** The client's next download segment, or the end of the download; flip: the toggle changes before. */
    method ContinueDownload(flip: bool) returns (sent: seq<Frame>)
      requires Valid() && state == Download && who == Client
      modifies this, data
      ensures var l := old(Now()); var r := SendSegment(l, if flip then Flip(l)
        else l, old(entry)); Is(r) && sent == r.sent
    {
      hide Buffer;
      if RestBytes(Now()) == 0 {
        state, sent := Finished, [];
        return;
      }
      if flip { toggle := 1 - toggle; }
      var nb := RestBytes(Now());
      if !CanTake(Now(), if nb > 7 then 7 else nb) {
        sent := Fail(mux, GeneralError);
        return;
      }
      var f := TakeSegment();
      sent := [f];
    }

    /** cs = 1 for a client. */
    method HandleDownloadResponse(m: Frame) returns (sent: seq<Frame>)
      requires Valid() && who == Client
      modifies this, data
      ensures var r := OnDownloadResponse(old(Now()), old(entry), m); Is(r) && sent == r.sent
    {
      hide Buffer, SendSegment;
      if state != Download {
        sent := Fail(NoMux, LocalControlError);
      } else if toggle != Toggle(m[0]) {
        sent := Fail(mux, ToggleNotAlternated);
      } else {
        sent := ContinueDownload(true);
      }
    }

    /** cs = 3 for a client. */
    method HandleDownloadStarted(m: Frame) returns (sent: seq<Frame>)
      requires Valid() && who == Client
      modifies this, data
      ensures var r := OnDownloadStarted(old(Now()), old(entry), m); Is(r) && sent == r.sent
    {
      hide Buffer, SendSegment;
      if state != Download { sent := Fail(NoMux, LocalControlError); } else { sent := ContinueDownload(false); }
    }

    /** cs = 2 for a server. */
    method HandleInitiateUpload(m: Frame) returns (sent: seq<Frame>)
      requires Valid() && who == Server
      modifies this, data
      ensures var r := OnInitiateUpload(old(Now()), old(entry), m); Is(r) && sent == r.sent
    {
      hide Buffer, Le32;
      if state != Reset {
        sent := Fail(MuxOf(m), LocalControlError);
        return;
      }
      InitLine(MuxOf(m), Upload);
      var error := FromObject();
      if error != 0 {
        sent := Fail(mux, error);
        return;
      }
      var nb := RestBytes(Now());
      if nb > 4 {
        sent := [WithMux(65, mux, Le32(nb))];
      } else {
        var bytes := FromLine(nb);
        sent := [WithMux(64 + (4 - nb) * 4 + 3, mux, bytes + Zeros(4 - nb))];
        Release();
      }
    }

    /** cs = 2 for a client. */
    method HandleUploadResponse(m: Frame) returns (sent: seq<Frame>)
      requires Valid() && who == Client
      modifies this, data
      ensures var r := OnUploadResponse(old(Now()), old(entry), m); Is(r) && sent == r.sent
    {
      assert N2(m[0]) < 4;
      hide Buffer, FromLe32, N2, Expedited, Last;
      if state != Upload {
        sent := Fail(NoMux, LocalControlError);
        return;
      }
      if Expedited(m[0]) {
        var nb := 4 - N2(m[0]);
        var ok := ToLine(m[4..4 + nb]);
        if !ok {
          sent := Fail(mux, GeneralError);
          return;
        }
        count, state, sent := nb, Finished, [];
      } else {
        if Last(m[0]) {
          if FromLe32(m[4..8]) > data.Length {
            sent := Fail(mux, GeneralError);
            return;
          }
          count := FromLe32(m[4..8]);
        }
        sent := [Plain(96)];
      }
    }

    /** cs = 3 for a server. */
    method HandleUploadRequest(m: Frame) returns (sent: seq<Frame>)
      requires Valid() && who == Server
      modifies this, data
      ensures var r := OnUploadRequest(old(Now()), old(entry), m); Is(r) && sent == r.sent
    {
      hide Buffer;
      if state != Upload {
        sent := Fail(NoMux, LocalControlError);
        return;
      }
      if toggle != Toggle(m[0]) {
        sent := Fail(mux, ToggleNotAlternated);
        return;
      }
      var nb := RestBytes(Now());
      if !CanTake(Now(), if nb > 7 then 7 else nb) {
        sent := Fail(mux, GeneralError);
        return;
      }
      var f := TakeSegment();
      sent := [f];
      if nb > 7 { toggle := 1 - toggle; } else { Release(); }
    }

    /** cs = 4. */
    method HandleAbort(m: Frame) returns (sent: seq<Frame>)
      requires Valid()
      modifies this, data
      ensures var r := OnAbort(who, old(Now()), old(entry), m); Is(r) && sent == r.sent
    {
      hide Buffer, FromLe32;
      sent := [];
      if OnUse(Now()) {
        if who == Server { Release(); } else { state, abortCode := AbortedRcv, FromLe32(m[4..8]); }
      }
    }

    // ----- block transfers -----

    /** The loop that sends a block. */
    method SendSegments() returns (sent: seq<Frame>, ok: bool)
      requires Valid() && OnUse(Now())
      modifies this
      ensures (Now(), sent, ok) == SendBlock(old(Now()), 1) && entry == old(entry)
    {
      hide Buffer, SendBlock, ValidFields;
      sent, ok := [], true;
      var s := 1;
      assert sent + SendBlock(Now(), 1).1 == SendBlock(Now(), 1).1;
      while s <= blksize
        invariant 1 <= s <= 256 && Valid() && OnUse(Now()) && entry == old(entry)
        invariant var r := SendBlock(Now(), s); SendBlock(old(Now()), 1) == (r.0, sent + r.1, r.2)
        decreases 256 - s
      {
        BlockUnfolds(Now(), s);
        ghost var before, rest := sent, SendBlock(Now(), s).1;
        seqno := s;
        var nb := RestBytes(Now());
        if !CanTake(Now(), if nb > 7 then 7 else nb) {
          assert before + [] == before;
          ok := false;
          return;
        }
        if nb > 7 {
          var bytes := FromLine(7);
          sent := sent + [DataFrame(SegmentByte(s, false), bytes)];
          assert before + rest == sent + SendBlock(Now(), s + 1).1;
        } else {
          var bytes := FromLine(nb);
          sent := sent + [DataFrame(SegmentByte(s, true), bytes)];
          endfield := 7 - nb;
          return;
        }
        s := s + 1;
      }
      BlockUnfolds(Now(), s);
      assert sent + [] == sent;
    }

    method StartBlock() returns (sent: seq<Frame>)
      requires Valid() && OnUse(Now())
      modifies this, data
      ensures var r := NextBlock(who, old(Now()), old(entry)); Is(r) && sent == r.sent
    {
      hide Buffer, SendBlock;
      lastblockoffset := offset % 256;
      var frames, ok := SendSegments();
      if ok {
        sent := frames;
      } else {
        var abort := Fail(mux, GeneralError);
        sent := frames + abort;
      }
    }

    method HandleBlockAck(m: Frame) returns (sent: seq<Frame>)
      requires Valid() && OnUse(Now())
      modifies this, data
      ensures var r := OnBlockAck(who, old(Now()), old(entry), m); Is(r) && sent == r.sent
    {
      hide Buffer, NextBlock;
      blksize := m[2];
      var a: nat := m[1] % 128;
      if RestBytes(Now()) == 0 && a == seqno {
        sent := [Plain(192 + endfield * 4 + 1)];
        return;
      }
      offset := lastblockoffset + 7 * a;
      if offset > count { sent := Fail(NoMux, LocalControlError); } else { sent := StartBlock(); }
    }

    /** cs = 5 for a server. */
    method HandleBlockUpload(m: Frame) returns (sent: seq<Frame>)
      requires Valid() && who == Server
      modifies this, data
      ensures var r := BlockProducerServer(old(Now()), old(entry), m); Is(r) && sent == r.sent
    {
      hide Buffer, Le32, OnBlockAck, NextBlock;
      if SubCommand(m[0]) == 0 {
        if state != Reset {
          sent := Fail(MuxOf(m), LocalControlError);
          return;
        }
        InitLine(MuxOf(m), BlockUpload);
        blksize := m[4];
        var error := FromObject();
        if error != 0 {
          sent := Fail(mux, error);
          return;
        }
        objsize := RestBytes(Now());
        sent := [WithMux(194, mux, Le32(objsize))];
      } else if state != BlockUpload {
        sent := Fail(NoMux, LocalControlError);
      } else if SubCommand(m[0]) == 1 {
        Release();
        sent := [];
      } else if SubCommand(m[0]) == 2 {
        sent := HandleBlockAck(m);
      } else {
        sent := StartBlock();
      }
    }

    /** cs = 5 for a client. */
    method HandleBlockDownload(m: Frame) returns (sent: seq<Frame>)
      requires Valid() && who == Client
      modifies this, data
      ensures var r := BlockProducerClient(old(Now()), old(entry), m); Is(r) && sent == r.sent
    {
      hide Buffer, OnBlockAck, NextBlock;
      if SubCommand(m[0]) == 0 || SubCommand(m[0]) == 2 {
        if state != BlockDownload {
          sent := Fail(NoMux, LocalControlError);
        } else if SubCommand(m[0]) == 0 {
          blksize := m[4];
          sent := StartBlock();
        } else {
          sent := HandleBlockAck(m);
        }
      } else if SubCommand(m[0]) == 1 {
        if OnUse(Now()) { state := Finished; }
        sent := [];
      } else {
        sent := Fail(NoMux, LocalControlError);
      }
    }

    method HandleBlockSegment(m: Frame) returns (sent: seq<Frame>)
      requires Valid() && OnUse(Now())
      modifies this, data
      ensures var r := OnBlockSegment(who, old(Now()), old(entry), m, bs); Is(r) && sent == r.sent
    {
      hide Buffer;
      var s: nat := m[0] % 128;
      if m[0] >= 128 {
        if s == seqno + 1 { rxstep, seqno, tmpData := RxEnd, s, m; }
        sent := [BlockAck(seqno, bs)];
        seqno := 0;
        return;
      }
      if s == seqno + 1 {
        seqno := s;
        var ok := ToLine(m[1..8]);
        if !ok {
          sent := Fail(mux, GeneralError);
          return;
        }
      }
      if s == bs {
        sent := [BlockAck(seqno, bs)];
        seqno := 0;
      } else {
        sent := [];
      }
    }

    method HandleBlockEnd(m: Frame) returns (sent: seq<Frame>)
      requires Valid() && OnUse(Now())
      modifies this, data
      ensures var r := OnBlockEnd(who, old(Now()), old(entry), m); Is(r) && sent == r.sent
    {
      hide Buffer, Commit, Filling, Failed;
      if m[0] % 2 != 1 {
        sent := Fail(NoMux, LocalControlError);
        return;
      }
      var n := Filling(m[0]);
      var ok := ToLine(tmpData[1..8 - n]);
      if !ok {
        sent := Fail(mux, GeneralError);
        return;
      }
      if objsize != 0 && objsize != offset {
        sent := Fail(mux, LocalControlError);
        return;
      }
      if who == Server { sent := CommitObject([Plain(161)]); } else { state, sent := Finished, [Plain(161)]; }
    }

    /** cs = 6 for a server. */
    method HandleBlockDownloadData(m: Frame) returns (sent: seq<Frame>)
      requires Valid() && who == Server
      modifies this, data
      ensures var r := BlockConsumerServer(old(Now()), old(entry), m, bs); Is(r) && sent == r.sent
    {
      hide Buffer, FromLe32, OnBlockSegment, OnBlockEnd;
      if !OnUse(Now()) {
        if m[0] % 2 != 0 {
          sent := Fail(NoMux, LocalControlError);
        } else if state != Reset {
          sent := Fail(MuxOf(m), LocalControlError);
        } else {
          InitLine(MuxOf(m), BlockDownload);
          rxstep := RxStarted;
          if m[0] / 2 % 2 == 1 { objsize := FromLe32(m[4..8]); }
          sent := [WithMux(160, mux, [bs, 0, 0, 0])];
        }
      } else if rxstep == RxStarted {
        sent := HandleBlockSegment(m);
      } else if rxstep == RxEnd {
        sent := HandleBlockEnd(m);
      } else {
        sent := [];
      }
    }

    /** cs = 6 for a client. */
    method HandleBlockUploadData(m: Frame) returns (sent: seq<Frame>)
      requires Valid() && who == Client
      modifies this, data
      ensures var r := BlockConsumerClient(old(Now()), old(entry), m, bs); Is(r) && sent == r.sent
    {
      hide Buffer, FromLe32, OnBlockSegment, OnBlockEnd;
      if !OnUse(Now()) {
        sent := Fail(NoMux, LocalControlError);
      } else if rxstep == RxInit {
        sent := [];
        if m[0] % 2 == 0 {
          rxstep := RxStarted;
          if m[0] / 2 % 2 == 1 { objsize := FromLe32(m[4..8]); }
          sent := [Plain(163)];
        }
      } else if rxstep == RxStarted {
        sent := HandleBlockSegment(m);
      } else {
        sent := HandleBlockEnd(m);
      }
    }

    // ----- entry points -----

    /** proceedSDO. */
    method Receive(m: Frame) returns (sent: seq<Frame>)
      requires Valid()
      modifies this, data
      ensures var r := Proceed(who, old(Now()), old(entry), m, bs); Is(r) && sent == r.sent
    {
      hide Buffer, OnSegment, OnInitiateDownload, OnDownloadResponse, OnInitiateUpload, OnUploadResponse;
      hide OnUploadRequest;
      hide OnDownloadStarted, OnAbort, BlockProducerServer, BlockProducerClient, BlockConsumerServer;
      hide BlockConsumerClient;
      match CsOf(who, Now(), m) {
        case 0 => sent := HandleSegment(m);
        case 1 => if who == Server { sent := HandleInitiateDownload(m); } else { sent := HandleDownloadResponse(m); }
        case 2 => if who == Server { sent := HandleInitiateUpload(m); } else { sent := HandleUploadResponse(m); }
        case 3 => if who == Server { sent := HandleUploadRequest(m); } else { sent := HandleDownloadStarted(m); }
        case 4 => sent := HandleAbort(m);
        case 5 => if who == Server { sent := HandleBlockUpload(m); } else { sent := HandleBlockDownload(m); }
        case 6 => if who == Server { sent := HandleBlockDownloadData(m); } else { sent := HandleBlockUploadData(m); }
        case _ => sent := [];
      }
    }

    /** SDOTimeoutAlarm; client: the dictionary has an SDO client with the number of the line. */
    method OnTimeout(client: bool) returns (sent: seq<Frame>)
      requires Valid()
      modifies this, data
      ensures var r := Timeout(old(Now()), old(entry), client); Is(r) && sent == r.sent
    {
      hide Buffer;
      if !client { return []; }
      sent := [Abort(mux, TimedOut)];
      Release();
    }

    /** _writeNetworkDict. */
    method Write(mux: Mux, value: seq<Byte>, block: bool) returns (request: Frame)
      requires Valid() && state == Reset && |value| <= data.Length
      modifies this, data
      ensures (Now(), request) == StartWrite(old(Now()), mux, value, block) && entry == old(entry)
    {
      hide Buffer, Le32;
      InitLine(mux, if block then BlockDownload else Download);
      count := |value|;
      CopyIn(value);
      if block {
        objsize := |value|;
        request := WithMux(194, mux, Le32(|value|));
      } else if |value| <= 4 {
        request := WithMux(32 + (4 - |value|) * 4 + 3, mux, Buffer()[..4]);
        offset := |value|;
      } else {
        request := WithMux(33, mux, Le32(|value|));
      }
    }

    /** _readNetworkDict. */
    method Read(mux: Mux, block: bool) returns (request: Frame)
      requires Valid() && state == Reset
      modifies this
      ensures (Now(), request) == StartRead(old(Now()), mux, block, bs) && entry == old(entry)
    {
      hide Buffer;
      InitLine(mux, if block then BlockUpload else Upload);
      request := if block then WithMux(160, mux, [bs, 0, 0, 0]) else WithMux(64, mux, Zeros(4));
    }
  }
}
