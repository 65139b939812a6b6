/** Expedited and segmented SDO transfers from end to end (sdo.c, cases 0 to 4 of proceedSDO) over channels that lose
    nothing: the receiver ends up with exactly the sender's bytes. */
module SdoSegmented {
  import opened FatCodec
  import opened SdoLine

  datatype Link = Link(client: Line, server: Line, entry: Entry, toServer: seq<Frame>, toClient: seq<Frame>)

  predicate ValidLink(n: Link) {
    ValidLine(n.client) && ValidLine(n.server)
  }

  /** The next frame is delivered. The block size plays no part here. */
  function Step(n: Link): (r: Link)
    requires ValidLink(n)
    ensures ValidLink(r)
  {
    if n.toServer != [] then
      var r := Proceed(Server, n.server, n.entry, n.toServer[0], 16);
      n.(server := r.line, entry := r.entry, toServer := n.toServer[1..], toClient := n.toClient + r.sent)
    else if n.toClient != [] then
      var r := Proceed(Client, n.client, n.entry, n.toClient[0], 16);
      n.(client := r.line, toClient := n.toClient[1..], toServer := n.toServer + r.sent)
    else n
  }

  function Steps(n: Link, k: nat): (r: Link)
    requires ValidLink(n)
    ensures ValidLink(r)
  {
    if k == 0 then n else Step(Steps(n, k - 1))
  }

  lemma {:induction false} StepsAdd(n: Link, j: nat, k: nat)
    requires ValidLink(n)
    ensures Steps(n, j + k) == Steps(Steps(n, j), k)
    decreases k
  {
    hide Step;
    if k > 0 { StepsAdd(n, j, k - 1); }
  }

  /** Two free lines, and the data that is to be moved between them. */
  predicate Ready(client: Line, server: Line, d: seq<Byte>) {
    ValidLine(client) && ValidLine(server) && client.state == server.state == Reset && |d| <= |client.data|
      && |d| <= |server.data|
  }

  function Segments(d: seq<Byte>): nat { (|d| + 6) / 7 }

  lemma SegmentsBound(d: seq<Byte>, k: nat)
    ensures k < Segments(d) <==> 7 * k < |d|
  {
  }

  lemma LastSegment(d: seq<Byte>) returns (k: nat)
    requires |d| > 0
    ensures k + 1 == Segments(d) && 7 * k < |d| <= 7 * k + 7
  {
    k := (|d| - 1) / 7;
  }

  /** Segment k of d, with its toggle bit. */
  function SegmentFrame(d: seq<Byte>, k: nat): Frame
    requires 7 * k < |d|
  {
    var rest := |d| - 7 * k;
    if rest > 7 then DataFrame(k % 2 * 16, d[7 * k..7 * k + 7])
    else DataFrame(k % 2 * 16 + (7 - rest) * 2 + 1, d[7 * k..])
  }

  lemma SegmentHead(d: seq<Byte>, k: nat)
    requires 7 * k < |d|
    ensures var b, rest := SegmentFrame(d, k)[0], |d| - 7 * k;
            && b < 32 && Toggle(b) == k % 2 && Cs(b) == 0 && (Last(b) <==> rest <= 7)
            && 7 - N3(b) == if rest > 7 then 7 else rest
  {
  }

  /** What a line that holds d sends as segment k. */
  lemma SegmentSent(l: Line, d: seq<Byte>, k: nat)
    requires ValidLine(l) && 7 * k < |d| == l.count <= |l.data| && l.data[..|d|] == d && l.offset == 7 * k
    requires l.toggle == k % 2
    ensures var rest := |d| - 7 * k;
            && RestBytes(l) == rest && CanTake(l, if rest > 7 then 7 else rest)
            && SegmentOf(l) == (SegmentFrame(d, k), Advance(l, if rest > 7 then 7 else rest))
  {
    var rest := |d| - 7 * k;
    SliceOf(l.data, d, 7 * k, if rest > 7 then 7 * k + 7 else |d|);
    assert d[7 * k..|d|] == d[7 * k..];
  }

  /** What a line that has received the first k segments makes of the next one. */
  lemma SegmentReceived(l: Line, who: Role, e: Entry, d: seq<Byte>, k: nat) returns (l1: Line)
    requires ValidLine(l) && 7 * k < |d| <= |l.data| && l.data[..7 * k] == d[..7 * k] && l.offset == 7 * k
    requires l.toggle == k % 2
    requires l.state == if who == Server then Download else Upload
    ensures var r, rest := OnSegment(who, l, e, SegmentFrame(d, k)), |d| - 7 * k;
            var got := if rest > 7 then 7 else rest;
            && l1 == l.(offset := 7 * k + got, toggle := 1 - l.toggle, data := l1.data) && |l1.data| == |l.data|
            && ValidLine(l1)
            && l1.data[..l1.offset] == d[..l1.offset]
            && r == if who == Server then (if rest <= 7 then Commit(l1, e, [Plain(32 + l.toggle * 16)])
               else Reply(l1, [Plain(32 + l.toggle * 16)], e))
                      else if rest <= 7 then Reply(l1.(state := Finished), [], e)
                        else Reply(l1, [Plain(96 + l1.toggle * 16)], e)
  {
    hide Commit;
    var f, rest := SegmentFrame(d, k), |d| - 7 * k;
    SegmentHead(d, k);
    var got := if rest > 7 then 7 else rest;
    assert f[1..1 + got] == d[7 * k..7 * k + got];
    l1 := Flip(Store(l, f[1..1 + got]));
    assert d[..7 * k] + d[7 * k..7 * k + got] == d[..7 * k + got];
  }

  // ----- download -----

  /** Segment k of a download is on its way, and both sides have the same toggle. */
  predicate DownloadAt(n: Link, d: seq<Byte>, k: nat)
    requires 7 * k < |d|
  {
    && ValidLink(n) && |d| <= |n.client.data| && |d| <= |n.server.data|
    && n.client.state == Download && n.client.count == |d| && n.client.data[..|d|] == d
    && n.client.offset == (if 7 * k + 7 < |d| then 7 * k + 7 else |d|) && n.client.toggle == k % 2
    && n.server.state == Download && n.server.count == |d| && n.server.offset == 7 * k && n.server.toggle == k % 2
    && n.server.data[..7 * k] == d[..7 * k]
    && n.toServer == [SegmentFrame(d, k)] && n.toClient == []
  }

  /** A download has ended: the object holds the data; or the object has refused it and the client is told why. */
  predicate DownloadDone(n: Link, mux: Mux, e: Entry, d: seq<Byte>) {
    && n.server.state == Reset && n.client.state == Finished && n.toServer == []
    && if e.writeError == 0 then n.entry == e.(value := d) && n.toClient == []
       else n.entry == e && n.toClient == [Abort(mux, e.writeError)]
  }

  /** The server's half of an exchange. */
  lemma ServerTakes(l: Line, e: Entry, d: seq<Byte>, k: nat)
    requires ValidLine(l) && 7 * k < |d| <= |l.data| && l.data[..7 * k] == d[..7 * k] && l.offset == 7 * k
    requires l.toggle == k % 2
    requires l.state == Download && l.count == |d|
    ensures var r, response := Proceed(Server, l, e, SegmentFrame(d, k), 16), Plain(32 + k % 2 * 16);
            if 7 * k + 7 < |d| then
              && r.sent == [response] && r.entry == e && r.line.data[..7 * k + 7] == d[..7 * k + 7]
              && |r.line.data| == |l.data|
              && r.line == l.(offset := 7 * k + 7, toggle := (k + 1) % 2, data := r.line.data)
            else
              && r.line.state == Reset
              && (if e.writeError == 0 then r.entry == e.(value := d) && r.sent == [response]
                  else r.entry == e && r.sent == [response, Abort(l.mux, e.writeError)])
  {
    hide SegmentFrame, OnSegment;
    SegmentHead(d, k);
    var l1 := SegmentReceived(l, Server, e, d, k);
    assert d[..|d|] == d;
  }

  /** The client's half of an exchange. */
  lemma ClientSends(l: Line, e: Entry, d: seq<Byte>, k: nat)
    requires ValidLine(l) && 7 * k < |d| == l.count <= |l.data| && l.data[..|d|] == d && l.state == Download
    requires l.offset == (if 7 * k + 7 < |d| then 7 * k + 7 else |d|) && l.toggle == k % 2
    ensures var r := Proceed(Client, l, e, Plain(32 + k % 2 * 16), 16);
            r == if 7 * k + 7 < |d| then
                   Reply(l.(toggle := (k + 1) % 2, offset := if 7 * k + 14 < |d| then 7 * k + 14
                     else |d|), [SegmentFrame(d, k + 1)], e)
                 else Reply(l.(state := Finished), [], e)
  {
    hide SegmentFrame, SegmentOf;
    var b: Byte := 32 + k % 2 * 16;
    assert Cs(b) == 1 && Toggle(b) == k % 2;
    if 7 * k + 7 < |d| { SegmentSent(Flip(l), d, k + 1); }
  }

  lemma TwoSteps(n: Link)
    requires ValidLink(n)
    ensures Steps(n, 2) == Step(Step(n)) && Steps(n, 1) == Step(n)
  {
    assert Steps(n, 0) == n;
  }

  lemma DownloadStep(n: Link, d: seq<Byte>, k: nat)
    requires 7 * k < |d| && DownloadAt(n, d, k)
    ensures var r := Steps(n, 2);
            if 7 * k + 7 < |d| then DownloadAt(r, d, k + 1) && r.entry == n.entry && r.server.mux == n.server.mux
              else DownloadDone(r, n.server.mux, n.entry, d)
  {
    hide SegmentFrame, Proceed;
    TwoSteps(n);
    ServerTakes(n.server, n.entry, d, k);
    ClientSends(n.client, Step(n).entry, d, k);
  }

  /** The client has asked for a download. */
  function StartDownload(client: Line, server: Line, mux: Mux, d: seq<Byte>, e: Entry): Link
    requires Ready(client, server, d)
  {
    var (c, f) := StartWrite(client, mux, d, false);
    Link(c, server, e, [f], [])
  }

  lemma DownloadBegins(client: Line, server: Line, mux: Mux, d: seq<Byte>, e: Entry)
    requires Ready(client, server, d) && |d| > 4
    ensures var n := StartDownload(client, server, mux, d, e); var r := Steps(n, 2);
            ValidLink(n) && DownloadAt(r, d, 0) && r.entry == e && r.server.mux == mux
  {
    var n := StartDownload(client, server, mux, d, e);
    TwoSteps(n);
    Le32RoundTrip(|d|);
    assert n.toServer[0][4..8] == Le32(|d|);
    var f := n.toServer[0];
    assert Cs(f[0]) == 1 && !Expedited(f[0]) && Last(f[0]) && MuxOf(f) == mux;
    SegmentSent(n.client, d, 0);
    assert Cs(96) == 3;
  }

  /** After two frames for the initiation and two for each of the first k segments, segment k is on its way with the
      toggle both sides expect. */
  lemma {:induction false} DownloadReaches(client: Line, server: Line, mux: Mux, d: seq<Byte>, e: Entry, k: nat)
    requires Ready(client, server, d) && |d| > 4 && k < Segments(d)
    ensures var n := StartDownload(client, server, mux, d, e); ValidLink(n) && var r := Steps(n, 2 + 2 * k);
            DownloadAt(r, d, k) && r.entry == e && r.server.mux == mux
    decreases k
  {
    SegmentsBound(d, k);
    hide DownloadAt, Ready, StartDownload, ValidLink, Steps, Segments, DownloadDone;
    DownloadBegins(client, server, mux, d, e);
    if k > 0 {
      var n, j := StartDownload(client, server, mux, d, e), 2 * k;
      DownloadReaches(client, server, mux, d, e, k - 1);
      DownloadStep(Steps(n, j), d, k - 1);
      StepsAdd(n, j, 2);
    }
  }

  /** A segmented download, in as many segments as the data needs. */
  lemma {:induction false} DownloadDelivers(client: Line, server: Line, mux: Mux, d: seq<Byte>, e: Entry)
    requires Ready(client, server, d) && |d| > 4
    ensures var n := StartDownload(client, server, mux, d, e);
            ValidLink(n) && DownloadDone(Steps(n, 2 + 2 * Segments(d)), mux, e, d)
  {
    hide DownloadAt, DownloadDone, Ready, StartDownload, ValidLink, Steps, Segments;
    var k := LastSegment(d);
    var n := StartDownload(client, server, mux, d, e);
    DownloadReaches(client, server, mux, d, e, k);
    DownloadStep(Steps(n, 2 + 2 * k), d, k);
    StepsAdd(n, 2 + 2 * k, 2);
  }

  /** The server takes an expedited download: the value's bytes, or four if it says that none is without data. */
  lemma ServerExpedited(l: Line, e: Entry, f: Frame, nb: nat)
    requires ValidLine(l) && l.state == Reset && e.writeError == 0
    requires Cs(f[0]) == 1 && Expedited(f[0]) && 4 - N2(f[0]) == nb
    ensures var r := Proceed(Server, l, e, f, 16);
            r.line.state == Reset && r.sent == [WithMux(96, MuxOf(f), Zeros(4))] && r.entry == e.(value := f[4..4 + nb])
  {
    var l1 := Init(l, MuxOf(f), Download).(count := nb);
    assert Store(l1, f[4..4 + nb]).data[..nb] == f[4..4 + nb];
  }

  lemma ClientExpedited(l: Line, e: Entry, f: Frame)
    requires ValidLine(l) && l.state == Download && RestBytes(l) == 0 && f[0] == 96
    ensures Proceed(Client, l, e, f, 16) == Reply(l.(state := Finished), [], e)
  {
  }

  /** An expedited download. Of an empty value it makes four bytes, so that it delivers just what is not empty. */
  lemma ExpeditedDownload(client: Line, server: Line, mux: Mux, d: seq<Byte>, e: Entry)
    requires Ready(client, server, d) && |d| <= 4 && e.writeError == 0
    ensures var n := StartDownload(client, server, mux, d, e); ValidLink(n) && var r := Steps(n, 2);
            && r.server.state == Reset && r.client.state == Finished && r.toServer == r.toClient == []
            && (r.entry.value == d <==> d != [])
  {
    hide Proceed;
    var n := StartDownload(client, server, mux, d, e);
    TwoSteps(n);
    var f := n.toServer[0];
    var nb := if d == [] then 4 else |d|;
    assert f[0] == 32 + (4 - |d|) * 4 + 3;
    ServerExpedited(server, e, f, nb);
    assert d != [] ==> f[4..8] == (d + n.client.data[|d|..])[..4] && f[4..4 + |d|] == f[4..8][..|d|] == d;
    ClientExpedited(n.client, Step(n).entry, Step(n).toClient[0]);
  }

  // ----- upload -----

  /** The request for segment k of an upload is on its way, and both sides have the same toggle. */
  predicate UploadAt(n: Link, d: seq<Byte>, k: nat)
    requires 7 * k < |d|
  {
    && ValidLink(n) && |d| <= |n.client.data| && |d| <= |n.server.data|
    && n.server.state == Upload && n.server.count == |d| && n.server.data[..|d|] == d
    && n.server.offset == 7 * k && n.server.toggle == k % 2
    && n.client.state == Upload && n.client.offset == 7 * k && n.client.toggle == k % 2
    && n.client.data[..7 * k] == d[..7 * k]
    && n.toServer == [Plain(96 + k % 2 * 16)] && n.toClient == []
  }

  predicate UploadDone(n: Link, e: Entry, d: seq<Byte>) {
    && n.server.state == Reset && n.toServer == n.toClient == [] && n.entry == e
    && n.client.state == Finished && n.client.offset == |d| <= |n.client.data| && n.client.data[..|d|] == d
  }

  lemma ServerSends(l: Line, e: Entry, d: seq<Byte>, k: nat)
    requires ValidLine(l) && l.state == Upload && l.count == |d| <= |l.data| && l.data[..|d|] == d
    requires 7 * k == l.offset < |d| && l.toggle == k % 2
    ensures var r := Proceed(Server, l, e, Plain(96 + k % 2 * 16), 16);
            && r.sent == [SegmentFrame(d, k)] && r.entry == e
            && r.line == if 7 * k + 7 < |d| then l.(offset := 7 * k + 7, toggle := (k + 1) % 2)
               else ResetLine(Advance(l, |d| - 7 * k))
  {
    hide SegmentFrame, SegmentOf;
    var b: Byte := 96 + k % 2 * 16;
    assert Cs(b) == 3 && Toggle(b) == k % 2;
    SegmentSent(l, d, k);
  }

  lemma ClientTakes(l: Line, e: Entry, d: seq<Byte>, k: nat)
    requires ValidLine(l) && l.state == Upload && 7 * k < |d| <= |l.data| && l.data[..7 * k] == d[..7 * k]
    requires l.offset == 7 * k && l.toggle == k % 2
    ensures var r := Proceed(Client, l, e, SegmentFrame(d, k), 16);
            && r.entry == e && |r.line.data| == |l.data|
            && if 7 * k + 7 < |d| then
                 && r.line == l.(offset := 7 * k + 7, toggle := (k + 1) % 2, data := r.line.data)
                 && r.line.data[..7 * k + 7] == d[..7 * k + 7] && r.sent == [Plain(96 + (k + 1) % 2 * 16)]
               else r.line.state == Finished && r.line.offset == |d| && r.line.data[..|d|] == d && r.sent == []
  {
    hide SegmentFrame, OnSegment;
    SegmentHead(d, k);
    var l1 := SegmentReceived(l, Client, e, d, k);
    assert d[..|d|] == d;
  }

  lemma UploadStep(n: Link, d: seq<Byte>, k: nat)
    requires 7 * k < |d| && UploadAt(n, d, k)
    ensures var r := Steps(n, 2);
            if 7 * k + 7 < |d| then UploadAt(r, d, k + 1) && r.entry == n.entry else UploadDone(r, n.entry, d)
  {
    hide SegmentFrame, Proceed;
    TwoSteps(n);
    ServerSends(n.server, n.entry, d, k);
    ClientTakes(n.client, n.entry, d, k);
  }

  /** The client has asked for an upload. */
  function StartUpload(client: Line, server: Line, mux: Mux, e: Entry): Link
    requires Ready(client, server, e.value)
  {
    var (c, f) := StartRead(client, mux, false, 16);
    Link(c, server, e, [f], [])
  }

  lemma UploadBegins(client: Line, server: Line, mux: Mux, e: Entry)
    requires Ready(client, server, e.value) && |e.value| > 4 && e.readError == 0
    ensures var n := StartUpload(client, server, mux, e); var r := Steps(n, 2);
            ValidLink(n) && UploadAt(r, e.value, 0) && r.entry == e
  {
    var n, size := StartUpload(client, server, mux, e), |e.value|;
    TwoSteps(n);
    Le32RoundTrip(size);
    var f := n.toServer[0];
    assert Cs(f[0]) == 2 && MuxOf(f) == mux;
    var n1 := Step(n);
    assert n1.toClient == [WithMux(65, mux, Le32(size))];
    assert n1.toClient[0][4..8] == Le32(size);
    assert Cs(65) == 2 && !Expedited(65) && Last(65);
  }

  /** After two frames for the initiation and two for each of the first k segments, segment k is asked for. */
  lemma {:induction false} UploadReaches(client: Line, server: Line, mux: Mux, e: Entry, k: nat)
    requires Ready(client, server, e.value) && |e.value| > 4 && e.readError == 0 && k < Segments(e.value)
    ensures var n := StartUpload(client, server, mux, e); ValidLink(n) && var r := Steps(n, 2 + 2 * k);
            UploadAt(r, e.value, k) && r.entry == e
    decreases k
  {
    SegmentsBound(e.value, k);
    hide UploadAt, Ready, StartUpload, ValidLink, Steps, Segments, UploadDone;
    UploadBegins(client, server, mux, e);
    if k > 0 {
      var n, j := StartUpload(client, server, mux, e), 2 * k;
      UploadReaches(client, server, mux, e, k - 1);
      UploadStep(Steps(n, j), e.value, k - 1);
      StepsAdd(n, j, 2);
    }
  }

  /** A segmented upload, in as many segments as the data needs. */
  lemma {:induction false} UploadDelivers(client: Line, server: Line, mux: Mux, e: Entry)
    requires Ready(client, server, e.value) && |e.value| > 4 && e.readError == 0
    ensures var n := StartUpload(client, server, mux, e);
            ValidLink(n) && UploadDone(Steps(n, 2 + 2 * Segments(e.value)), e, e.value)
  {
    hide UploadAt, Ready, StartUpload, ValidLink, Steps, Segments, UploadDone;
    var k := LastSegment(e.value);
    var n := StartUpload(client, server, mux, e);
    UploadReaches(client, server, mux, e, k);
    UploadStep(Steps(n, 2 + 2 * k), e.value, k);
    StepsAdd(n, 2 + 2 * k, 2);
  }

  /** An expedited upload. Of an empty value the client reads four bytes. */
  lemma ExpeditedUpload(client: Line, server: Line, mux: Mux, e: Entry)
    requires Ready(client, server, e.value) && |e.value| <= 4 && e.readError == 0
    ensures var n := StartUpload(client, server, mux, e); ValidLink(n) && var r := Steps(n, 2);
            && r.server.state == Reset && r.client.state == Finished && r.toServer == r.toClient == [] && r.entry == e
            && r.client.count == r.client.offset <= |r.client.data|
            && (r.client.data[..r.client.count] == e.value <==> e.value != [])
  {
    hide Proceed;
    var n, d := StartUpload(client, server, mux, e), e.value;
    TwoSteps(n);
    var nb := if d == [] then 4 else |d|;
    var f := WithMux(64 + (4 - |d|) * 4 + 3, mux, d + Zeros(4 - |d|));
    ServerAnswers(server, e, mux);
    assert d != [] ==> f[4..4 + |d|] == d;
    ClientReads(n.client, e, f, nb);
  }

  lemma ServerAnswers(l: Line, e: Entry, mux: Mux)
    requires ValidLine(l) && l.state == Reset && |e.value| <= 4 && e.readError == 0
    ensures var r := Proceed(Server, l, e, WithMux(64, mux, Zeros(4)), 16);
            && r.sent == [WithMux(64 + (4 - |e.value|) * 4 + 3, mux, e.value + Zeros(4 - |e.value|))]
            && r.line.state == Reset && r.entry == e
  {
    var f := WithMux(64, mux, Zeros(4));
    assert Cs(f[0]) == 2 && MuxOf(f) == mux;
  }

  lemma ClientReads(l: Line, e: Entry, f: Frame, nb: nat)
    requires ValidLine(l) && l.state == Upload && l.offset == 0 && Cs(f[0]) == 2 && Expedited(f[0])
    requires 4 - N2(f[0]) == nb
    ensures var r := Proceed(Client, l, e, f, 16);
            && r.line.state == Finished && r.sent == [] && r.entry == e
            && r.line.count == r.line.offset == nb <= |r.line.data|
            && r.line.data[..nb] == f[4..4 + nb]
  {
    assert Store(l, f[4..4 + nb]).data[..nb] == f[4..4 + nb];
  }
}
