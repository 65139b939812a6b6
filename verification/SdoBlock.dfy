/** SDO block transfer between two nodes (sdo.c, case 5 and case 6 of proceedSDO) over channels which keep the order of
    frames and may lose any of them, with time-outs on either side: what the consumer has received is always a prefix of
    the producer's data, and a transfer reported as finished has delivered all of it. */
module SdoBlock {
  import opened FatCodec
  import opened SdoLine

  /** Both directions: in a download the client produces the data, in an upload the server. bs: SDO_BLOCK_SIZE. */
  datatype Net = Net(down: bool, bs: Byte, producer: Line, consumer: Line, entry: Entry, data: seq<Frame>,
    acks: seq<Frame>)

  function ProducerRole(n: Net): Role { if n.down then Client else Server }

  function ConsumerRole(n: Net): Role { if n.down then Server else Client }

  function Busy(down: bool): LineState { if down then BlockDownload else BlockUpload }

  datatype Event = DeliverData | DeliverAck | LoseData(nat) | LoseAck(nat)
    // the flag says whether the node has an SDO client with the number of its line
    | ProducerTimeout(bool) | ConsumerTimeout(bool)

  function Without(q: seq<Frame>, i: nat): seq<Frame> {
    if i < |q| then q[..i] + q[i + 1..] else q
  }

  predicate ValidNet(n: Net) {
    ValidLine(n.producer) && ValidLine(n.consumer) && n.bs > 0
  }

  function Step(n: Net, ev: Event): (r: Net)
    requires ValidNet(n)
    ensures ValidNet(r) && r.down == n.down && r.bs == n.bs
  {
    match ev
    case DeliverData =>
      if n.data == [] then n
      else
        var r := Proceed(ConsumerRole(n), n.consumer, n.entry, n.data[0], n.bs);
        n.(consumer := r.line, entry := r.entry, data := n.data[1..], acks := n.acks + r.sent)
    case DeliverAck =>
      if n.acks == [] then n
      else
        var r := Proceed(ProducerRole(n), n.producer, n.entry, n.acks[0], n.bs);
        n.(producer := r.line, entry := r.entry, acks := n.acks[1..], data := n.data + r.sent)
    case LoseData(i) => n.(data := Without(n.data, i))
    case LoseAck(i) => n.(acks := Without(n.acks, i))
    case ProducerTimeout(client) =>
      if n.producer.state != Busy(n.down) then n
      else
        var r := Timeout(n.producer, n.entry, client);
        n.(producer := r.line, data := n.data + r.sent)
    case ConsumerTimeout(client) =>
      if n.consumer.state != Busy(n.down) then n
      else
        var r := Timeout(n.consumer, n.entry, client);
        n.(consumer := r.line, acks := n.acks + r.sent)
  }

  function Run(n: Net, evs: seq<Event>): (r: Net)
    requires ValidNet(n)
    ensures ValidNet(r) && r.down == n.down && r.bs == n.bs
    decreases |evs|
  {
    if evs == [] then n else Run(Step(n, evs[0]), evs[1..])
  }

  // ----- frames -----

  /** Segment s of the block of d that begins at base. */
  function Segment(d: seq<Byte>, base: nat, s: nat): Frame
    requires 1 <= s < 32 && base + 7 * (s - 1) < |d|
  {
    var o := base + 7 * (s - 1);
    if |d| - o > 7 then DataFrame(s, d[o..o + 7]) else DataFrame(s + 128, d[o..])
  }

  predicate IsAbort(f: Frame) { f[0] == 0x80 }

  predicate AllAborts(q: seq<Frame>) {
    forall i :: 0 <= i < |q| ==> IsAbort(q[i])
  }

  /** A frame to the consumer after which a consumer that has left the transfer does not start another. */
  predicate IsStray(f: Frame) {
    1 <= f[0] < 32 || 128 <= f[0] < 160 || (192 <= f[0] < 224 && f[0] % 2 == 1)
  }

  predicate AllStray(q: seq<Frame>) {
    forall i :: 0 <= i < |q| ==> IsStray(q[i])
  }

  /** A frame to the producer. */
  predicate IsReply(f: Frame, down: bool, bs: Byte) {
    || IsAbort(f) || f[0] == 161 || (f[0] == 162 && f[1] <= bs && f[2] == bs)
    || (down && f[0] == 160 && f[4] == bs) || (!down && f[0] == 163)
  }

  predicate AllReplies(q: seq<Frame>, down: bool, bs: Byte) {
    forall i :: 0 <= i < |q| ==> IsReply(q[i], down, bs)
  }

  /** q: segments of the block from base, with increasing numbers over lo and at most hi, and then only aborts. */
  ghost predicate Segments(d: seq<Byte>, base: nat, lo: nat, hi: nat, q: seq<Frame>)
    decreases |q|
  {
    q == [] || (IsAbort(q[0]) && AllAborts(q))
    || var s := q[0][0] % 128;
       && lo < s <= hi && 1 <= s < 32 && base + 7 * (s - 1) < |d|
       && q[0] == Segment(d, base, s) && Segments(d, base, s, hi, q[1..])
  }

  predicate NoAbort(q: seq<Frame>) {
    forall i :: 0 <= i < |q| ==> !IsAbort(q[i])
  }

  /** The end request for a transfer whose last segment holds rest bytes of data. */
  function EndRequest(rest: nat): Frame
    requires 1 <= rest <= 7
  {
    Plain(192 + (7 - rest) * 4 + 1)
  }

  ghost predicate EndShape(rest: nat, q: seq<Frame>)
    requires 1 <= rest <= 7
  {
    AllAborts(q) || (|q| > 0 && q[0] == EndRequest(rest) && AllAborts(q[1..]))
  }

  // ----- the invariant -----

  /** The value has been stored in the server's object, unless the object refuses it. */
  predicate Delivered(n: Net, d: seq<Byte>) {
    n.entry.writeError != 0 || n.entry.value == d
  }

  /** The consumer after the segments with which it has gone on, and what may still reach it. */
  ghost predicate ConsumerOk(c: Line, down: bool, bs: nat, d: seq<Byte>, q: seq<Frame>) {
    if c.state == Busy(down) then
      && |d| <= |c.data| && c.objsize == |d| && c.count == 0 && c.offset < |d| && c.data[..c.offset] == d[..c.offset]
      && match c.rxstep
         case RxInit => false
         case RxStarted =>
           7 * c.seqno <= c.offset && c.seqno <= bs && Segments(d, c.offset - 7 * c.seqno, c.seqno, bs, q)
         case RxEnd =>
           && c.seqno == 0 && |d| - c.offset <= 7 && c.tmpData[1..1 + |d| - c.offset] == d[c.offset..]
           && EndShape(|d| - c.offset, q)
    else if down then c.state == Reset && AllStray(q)
    else
      match c.state
      case Finished => c.offset == |d| <= |c.data| && c.data[..|d|] == d && AllAborts(q)
      case AbortedRcv => AllAborts(q)
      case Reset => AllStray(q)
      case AbortedInternal => AllStray(q)
      case _ => false
  }

  ghost predicate ProducerOk(p: Line, down: bool, bs: nat, d: seq<Byte>) {
    if p.state == Busy(down) then
      && p.count == |d| <= |p.data| && p.data[..|d|] == d && p.blksize <= bs && p.offset <= |d| && p.seqno <= bs
    else if down then p.state == Finished || p.state == AbortedRcv || p.state == AbortedInternal || p.state == Reset
    else p.state == Reset
  }

  /** The producer has sent the segments 1 to p.seqno of the block from p.lastblockoffset. */
  predicate BlockSent(p: Line, d: seq<Byte>) {
    && 1 <= p.seqno
    && if p.offset < |d| then p.offset == p.lastblockoffset + 7 * p.seqno
       else
         && p.offset == |d| && p.lastblockoffset + 7 * (p.seqno - 1) < |d| <= p.lastblockoffset + 7 * p.seqno
         && p.endfield == 7 - (|d| - (p.lastblockoffset + 7 * (p.seqno - 1)))
  }

  /** Before the first block: the producer may be told to begin. */
  predicate GoPhase(n: Net) {
    && n.data == [] && |n.acks| == 1 && n.acks[0][0] == (if n.down then 160 else 163)
    && n.consumer.rxstep == RxStarted && n.consumer.offset == 0 && n.consumer.seqno == 0 && n.producer.offset == 0
    && (n.down || n.producer.blksize == n.bs)
  }

  /** Segments of a block are on their way. */
  ghost predicate DataPhase(n: Net, d: seq<Byte>) {
    && n.acks == [] && n.consumer.rxstep == RxStarted
    && n.consumer.offset == n.producer.lastblockoffset + 7 * n.consumer.seqno
    && BlockSent(n.producer, d) && NoAbort(n.data) && (n.producer.offset < |d| ==> n.producer.seqno == n.bs)
    && Segments(d, n.producer.lastblockoffset, n.consumer.seqno, n.producer.seqno, n.data)
  }

  /** The acknowledgement of a block is on its way. */
  predicate AckPhase(n: Net, d: seq<Byte>) {
    && n.data == [] && |n.acks| == 1 && n.acks[0][0] == 162 && BlockSent(n.producer, d)
    && var a := n.acks[0][1];
    && a <= n.producer.seqno && n.consumer.seqno == 0
    && if n.consumer.rxstep == RxEnd then
         a == n.producer.seqno && n.producer.offset == |d|
           && n.consumer.offset == n.producer.lastblockoffset + 7 * (a - 1)
       else
         n.consumer.offset == n.producer.lastblockoffset + 7 * a && (a == n.producer.seqno ==> n.producer.offset < |d|)
  }

  /** Everything is acknowledged and the end request is on its way. */
  predicate EndPhase(n: Net) {
    |n.data| == 1 && n.acks == [] && n.consumer.rxstep == RxEnd
  }

  predicate Stalled(n: Net) {
    n.data == [] && n.acks == []
  }

  ghost predicate Phase(n: Net, d: seq<Byte>) {
    Stalled(n) || GoPhase(n) || DataPhase(n, d) || AckPhase(n, d) || EndPhase(n)
  }

  /** Only the confirmation of the end, or aborts. */
  predicate OnlyEnd(q: seq<Frame>) {
    forall i :: 0 <= i < |q| ==> q[i][0] == 161 || IsAbort(q[i])
  }

  /** v0: the server's object before the transfer. */
  ghost predicate Inv(n: Net, d: seq<Byte>, v0: seq<Byte>) {
    && ValidNet(n) && 1 <= |d| <= 255 && n.bs < 32
    && ConsumerOk(n.consumer, n.down, n.bs, d, n.data) && ProducerOk(n.producer, n.down, n.bs, d)
    && AllReplies(n.acks, n.down, n.bs)
    && (n.producer.state == n.consumer.state == Busy(n.down) ==> Phase(n, d))
    && (n.entry.value == v0 || n.entry.value == d)
    && (n.producer.state == Busy(n.down) ==> NoAbort(n.data) && n.consumer.state != AbortedRcv)
    && (!n.down && n.consumer.state == Finished && n.producer.state == Busy(n.down) ==> OnlyEnd(n.acks))
    && (n.down && (n.producer.state == Finished || exists i :: 0 <= i < |n.acks| && n.acks[i][0] == 161) ==>
          Delivered(n, d))
  }

  // ----- queues -----

  /** f is segment s, with a number between lo and hi. */
  predicate Fits(d: seq<Byte>, base: nat, lo: nat, hi: nat, f: Frame) {
    var s := f[0] % 128;
    lo < s <= hi && 1 <= s < 32 && base + 7 * (s - 1) < |d| && f == Segment(d, base, s)
  }

  lemma SegmentsCons(d: seq<Byte>, base: nat, lo: nat, hi: nat, f: Frame, q: seq<Frame>)
    ensures Fits(d, base, lo, hi, f) ==> !IsAbort(f) && IsStray(f)
    ensures !IsAbort(f) ==>
      (Segments(d, base, lo, hi, [f] + q) <==> Fits(d, base, lo, hi, f) && Segments(d, base, f[0] % 128, hi, q))
  {
    assert ([f] + q)[1..] == q;
  }

  lemma SegmentsHead(d: seq<Byte>, base: nat, lo: nat, hi: nat, q: seq<Frame>)
    requires Segments(d, base, lo, hi, q) && q != []
    ensures AllAborts(q) || (Fits(d, base, lo, hi, q[0]) && Segments(d, base, q[0][0] % 128, hi, q[1..]))
  {
  }

  lemma {:induction false} SegmentsStray(d: seq<Byte>, base: nat, lo: nat, hi: nat, q: seq<Frame>)
    requires Segments(d, base, lo, hi, q)
    ensures AllStray(q)
    decreases |q|
  {
    hide Fits, Segments;
    if q != [] {
      SegmentsHead(d, base, lo, hi, q);
      if !AllAborts(q) {
        SegmentsCons(d, base, lo, hi, q[0], q[1..]);
        SegmentsStray(d, base, q[0][0] % 128, hi, q[1..]);
        forall i | 0 <= i < |q| ensures IsStray(q[i]) {
          if i > 0 { assert q[1..][i - 1] == q[i]; }
        }
      }
    }
  }

  /** Wider bounds. */
  lemma {:induction false} SegmentsWiden(d: seq<Byte>, base: nat, lo: nat, lo1: nat, hi: nat, hi1: nat, q: seq<Frame>)
    requires Segments(d, base, lo, hi, q) && lo1 <= lo && hi <= hi1
    ensures Segments(d, base, lo1, hi1, q)
    decreases |q|
  {
    if q != [] && !IsAbort(q[0]) { SegmentsWiden(d, base, q[0][0] % 128, q[0][0] % 128, hi, hi1, q[1..]); }
  }

  lemma {:induction false} SegmentsLose(d: seq<Byte>, base: nat, lo: nat, hi: nat, q: seq<Frame>, i: nat)
    requires Segments(d, base, lo, hi, q)
    ensures Segments(d, base, lo, hi, Without(q, i))
    decreases |q|
  {
    hide Segments;
    if i < |q| {
      SegmentsHead(d, base, lo, hi, q);
      if AllAborts(q) {
        SegmentsAborts(d, base, lo, hi, Without(q, i));
      } else if i == 0 {
        assert Without(q, i) == q[1..];
        SegmentsWiden(d, base, q[0][0] % 128, lo, hi, hi, q[1..]);
      } else {
        SegmentsLose(d, base, q[0][0] % 128, hi, q[1..], i - 1);
        assert Without(q, i) == [q[0]] + Without(q[1..], i - 1);
        SegmentsCons(d, base, lo, hi, q[0], Without(q[1..], i - 1));
      }
    }
  }

  lemma SegmentsAborts(d: seq<Byte>, base: nat, lo: nat, hi: nat, q: seq<Frame>)
    requires AllAborts(q)
    ensures Segments(d, base, lo, hi, q)
  {
  }

  lemma {:induction false} SegmentsThenAborts(d: seq<Byte>, base: nat, lo: nat, hi: nat, q: seq<Frame>, a: seq<Frame>)
    requires Segments(d, base, lo, hi, q) && AllAborts(a)
    ensures Segments(d, base, lo, hi, q + a)
    decreases |q|
  {
    hide Segments, Fits;
    if q == [] {
      assert q + a == a;
      SegmentsAborts(d, base, lo, hi, a);
    } else {
      SegmentsHead(d, base, lo, hi, q);
      if AllAborts(q) {
        SegmentsAborts(d, base, lo, hi, q + a);
      } else {
        SegmentsThenAborts(d, base, q[0][0] % 128, hi, q[1..], a);
        assert q + a == [q[0]] + (q[1..] + a);
        SegmentsCons(d, base, lo, hi, q[0], q[1..] + a);
      }
    }
  }

  /** After the last number only aborts follow. */
  lemma NoMoreSegments(d: seq<Byte>, base: nat, lo: nat, hi: nat, q: seq<Frame>)
    requires Segments(d, base, lo, hi, q) && (lo >= hi || base + 7 * lo >= |d|)
    ensures AllAborts(q)
  {
  }

  // ----- the producer -----

  /** The first segment of the rest of a block. */
  lemma SendsOne(l: Line, d: seq<Byte>, s: nat)
    requires ValidLine(l) && OnUse(l) && 1 <= s <= l.blksize < 32 && l.count == |d| <= |l.data| && l.data[..|d|] == d
    requires l.offset == l.lastblockoffset + 7 * (s - 1) < |d|
    ensures var f, rest := Segment(d, l.lastblockoffset, s), |d| - l.offset;
            && Fits(d, l.lastblockoffset, s - 1, s, f) && (rest > 7 ==> ValidLine(Advance(l.(seqno := s), 7)))
            && SendBlock(l, s) ==
               if rest > 7 then
                 var r := SendBlock(Advance(l.(seqno := s), 7), s + 1); (r.0, [f] + r.1, r.2)
               else (l.(seqno := s, offset := |d|, endfield := 7 - rest), [f], true)
  {
    var rest := |d| - l.offset;
    if rest > 7 {
      SliceOf(l.data, d, l.offset, l.offset + 7);
    } else {
      SliceOf(l.data, d, l.offset, |d|);
      assert d[l.offset..|d|] == d[l.offset..];
    }
  }

  lemma SendsNone(l: Line, s: nat)
    requires ValidLine(l) && OnUse(l) && l.blksize < s
    ensures SendBlock(l, s) == (l, [], true)
  {
  }

  /** A block sent from offset lastblockoffset + 7 (s - 1). */
  lemma {:induction false} SendsSegments(l: Line, d: seq<Byte>, s: nat)
    requires ValidLine(l) && OnUse(l) && 1 <= s <= l.blksize < 32 && l.count == |d| <= |l.data| && l.data[..|d|] == d
    requires l.offset == l.lastblockoffset + 7 * (s - 1) < |d|
    ensures var (l1, q, ok) := SendBlock(l, s);
            && ok && BlockSent(l1, d) && s <= l1.seqno <= l.blksize && l1.offset <= |d| && l1.blksize == l.blksize
            && |q| > 0
            && NoAbort(q) && Segments(d, l.lastblockoffset, s - 1, l1.seqno, q)
            && (l1.offset < |d| ==> l1.seqno == l.blksize)
            && q[0][0] % 128 == s && q[|q| - 1][0] % 128 == l1.seqno
    decreases 32 - s
  {
    hide Segments, SendBlock, ValidLine;
    var base := l.lastblockoffset;
    SendsOne(l, d, s);
    var (l1, q, ok) := SendBlock(l, s);
    var f := Segment(d, base, s);
    if |d| - l.offset > 7 {
      var l2 := Advance(l.(seqno := s), 7);
      if s < l.blksize { SendsSegments(l2, d, s + 1); }
      else { SendsNone(l2, s + 1); SegmentsAborts(d, base, s, s, []); }
    } else {
      SegmentsAborts(d, base, s, s, []);
      assert [f] + [] == [f];
    }
    SegmentsCons(d, base, s - 1, l1.seqno, f, q[1..]);
    assert q == [f] + q[1..];
    assert |q| > 1 ==> q[|q| - 1] == q[1..][|q| - 2];
  }

  /** Whatever the offset, a block consists of segments. */
  lemma {:induction false} SendsStray(l: Line, s: nat)
    requires ValidLine(l) && OnUse(l) && 1 <= s && l.blksize < 32
    ensures var (l1, q, ok) := SendBlock(l, s);
            AllStray(q) && NoAbort(q) && l1.blksize == l.blksize && l1.offset <= |l1.data|
              && (l1.seqno <= l.blksize || l1.seqno == l.seqno)
            && (l.offset <= l.count ==> l1.offset <= l.count)
    decreases 32 - s
  {
    if s <= l.blksize {
      var l1 := l.(seqno := s);
      var nb := RestBytes(l1);
      if CanTake(l1, 7) && nb > 7 {
        SendsStray(Advance(l1, 7), s + 1);
      }
    }
  }

  /** What a reply makes of the producer. */
  lemma ProducerStep(p: Line, down: bool, bs: Byte, d: seq<Byte>, e: Entry, m: Frame)
    requires ValidLine(p) && ProducerOk(p, down, bs, d) && IsReply(m, down, bs) && 0 < bs < 32 && 0 < |d|
    ensures var r := Proceed(if down then Client else Server, p, e, m, bs);
            && ProducerOk(r.line, down, bs, d) && AllStray(r.sent) && r.entry == e
            && (r.line.state == Busy(down) ==> p.state == Busy(down) && NoAbort(r.sent))
            && (p.state != Busy(down) || IsAbort(m) || m[0] == 161 ==> AllAborts(r.sent))
            && (IsAbort(m) || m[0] == 161 ==> r.line.state != Busy(down))
            && (r.line.state == Finished ==> m[0] == 161 || p.state == Finished)
  {
    if p.state == Busy(down) && !IsAbort(m) && m[0] != 161 {
      if m[0] == 162 {
        ProducerAck(p, down, bs, d, e, m);
      } else {
        ProducerBlock(p.(blksize := if down then m[4] else p.blksize), down, bs, d, e);
      }
    }
  }

  lemma ProducerBlock(p: Line, down: bool, bs: Byte, d: seq<Byte>, e: Entry)
    requires ValidLine(p) && ProducerOk(p, down, bs, d) && p.state == Busy(down) && 0 < bs < 32
    ensures var r := NextBlock(if down then Client else Server, p, e);
            && ProducerOk(r.line, down, bs, d) && AllStray(r.sent) && r.entry == e && r.line.state != Finished
            && (r.line.state == Busy(down) ==> NoAbort(r.sent))
  {
    SendsStray(p.(lastblockoffset := p.offset % 256), 1);
  }

  lemma ProducerAck(p: Line, down: bool, bs: Byte, d: seq<Byte>, e: Entry, m: Frame)
    requires ValidLine(p) && ProducerOk(p, down, bs, d) && p.state == Busy(down) && 0 < bs < 32 && m[0] == 162
    requires m[1] <= bs && m[2] == bs
    ensures var r := OnBlockAck(if down then Client else Server, p, e, m);
            && ProducerOk(r.line, down, bs, d) && AllStray(r.sent) && r.entry == e && r.line.state != Finished
            && (r.line.state == Busy(down) ==> NoAbort(r.sent))
  {
    hide NextBlock;
    var l := p.(blksize := m[2]);
    var a: nat := m[1] % 128;
    if !(RestBytes(l) == 0 && a == l.seqno) && l.lastblockoffset + 7 * a <= |d| {
      ProducerBlock(l.(offset := l.lastblockoffset + 7 * a), down, bs, d, e);
    }
  }

  // ----- the consumer -----

  /** The consumer in the block from base, and a segment which is not before the one it expects. */
  lemma SegmentStep(c: Line, who: Role, d: seq<Byte>, bs: Byte, e: Entry, f: Frame, base: nat)
    requires ValidLine(c) && OnUse(c) && Fits(d, base, c.seqno, bs, f) && base + 7 * c.seqno == c.offset
    requires c.offset < |d| <= |c.data| && c.data[..c.offset] == d[..c.offset]
    ensures var s := f[0] % 128;
            var r, taken := OnBlockSegment(who, c, e, f, bs), s == c.seqno + 1;
            var got := if taken then s as int else c.seqno;
            && r.entry == e
            && if |d| - (base + 7 * (s - 1)) <= 7 then
                 && r.line == (if taken then c.(rxstep := RxEnd, tmpData := f, seqno := 0) else c.(seqno := 0))
                 && r.sent == [BlockAck(got, bs)] && (taken ==> f[1..1 + |d| - c.offset] == d[c.offset..])
               else
                 && r.line == c.(seqno := if s == bs then 0 else got, offset := base + 7 * got, data := r.line.data)
                 && |r.line.data| == |c.data| && r.line.offset < |d|
                 && r.line.data[..r.line.offset] == d[..r.line.offset]
                 && r.sent == if s == bs then [BlockAck(got, bs)] else []
  {
    var s: nat := f[0] % 128;
    var o := base + 7 * (s - 1);
    if |d| - o > 7 && s == c.seqno + 1 {
      assert f[1..8] == d[o..o + 7];
      assert d[..o] + d[o..o + 7] == d[..o + 7];
    }
  }

  lemma ConsumerSegment(c: Line, down: bool, bs: Byte, d: seq<Byte>, e: Entry, q: seq<Frame>)
    requires ValidLine(c) && ConsumerOk(c, down, bs, d, q) && c.state == Busy(down) && c.rxstep == RxStarted
    requires |q| > 0 && !IsAbort(q[0])
    requires 0 < bs < 32
    ensures var r := OnBlockSegment(if down then Server else Client, c, e, q[0], bs);
            && ConsumerOk(r.line, down, bs, d, q[1..]) && AllReplies(r.sent, down, bs) && r.entry == e
            && r.line.state == c.state
            && forall i :: 0 <= i < |r.sent| ==> r.sent[i][0] == 162
  {
    hide Segments, Segment, OnBlockSegment, ValidLine;
    var base := c.offset - 7 * c.seqno;
    var s: nat := q[0][0] % 128;
    SegmentsHead(d, base, c.seqno, bs, q);
    SegmentStep(c, if down then Server else Client, d, bs, e, q[0], base);
    var r := OnBlockSegment(if down then Server else Client, c, e, q[0], bs);
    if |d| - (base + 7 * (s - 1)) <= 7 || s == bs {
      NoMoreSegments(d, base, s, bs, q[1..]);
      SegmentsAborts(d, r.line.offset, 0, bs, q[1..]);
    } else {
      SegmentsWiden(d, base, s, r.line.seqno, bs, bs, q[1..]);
    }
  }

  lemma EndByte(rest: nat)
    requires 1 <= rest <= 7
    ensures var b := EndRequest(rest)[0]; Filling(b) == 7 - rest && b % 2 == 1
  {
  }

  /** The end request: the line then holds the whole data. */
  lemma EndStored(c: Line, who: Role, d: seq<Byte>, e: Entry, rest: nat) returns (l: Line)
    requires ValidLine(c) && OnUse(c) && c.offset < |d| == c.offset + rest <= |c.data| && rest <= 7
    requires c.data[..c.offset] == d[..c.offset]
    requires c.tmpData[1..1 + rest] == d[c.offset..] && c.objsize == |d|
    ensures l == c.(offset := |d|, data := l.data) && |l.data| == |c.data| && l.data[..|d|] == d
    ensures OnBlockEnd(who, c, e, EndRequest(rest)) == if who == Server then Commit(l, e, [Plain(161)])
      else Reply(l.(state := Finished), [Plain(161)], e)
  {
    hide Commit, EndRequest;
    EndByte(rest);
    l := Store(c, c.tmpData[1..1 + rest]);
    assert d[..c.offset] + d[c.offset..] == d;
  }

  lemma ConsumerEnd(c: Line, down: bool, bs: Byte, d: seq<Byte>, e: Entry, q: seq<Frame>)
    requires ValidLine(c) && ConsumerOk(c, down, bs, d, q) && c.state == Busy(down) && c.rxstep == RxEnd && |q| > 0
    requires !IsAbort(q[0])
    requires 0 < bs < 32
    ensures var r := OnBlockEnd(if down then Server else Client, c, e, q[0]);
            && ConsumerOk(r.line, down, bs, d, q[1..]) && AllReplies(r.sent, down, bs) && OnlyEnd(r.sent)
            && r.line.state == (if down then Reset else Finished)
            && r.entry == (if down && e.writeError == 0 then e.(value := d) else e)
            && |r.sent| > 0 && r.sent[0] == Plain(161)
  {
    hide OnBlockEnd, Segments;
    var l := EndStored(c, if down then Server else Client, d, e, |d| - c.offset);
  }

  lemma ConsumerStep(c: Line, down: bool, bs: Byte, d: seq<Byte>, e: Entry, q: seq<Frame>)
    requires ValidLine(c) && ConsumerOk(c, down, bs, d, q) && |q| > 0 && 0 < bs < 32
    ensures var r := Proceed(if down then Server else Client, c, e, q[0], bs);
            && ConsumerOk(r.line, down, bs, d, q[1..]) && AllReplies(r.sent, down, bs)
            && (r.entry == e || (down && r.entry == e.(value := d)))
            && (down && e.writeError == 0 && r.entry.value != d ==>
                  forall i :: 0 <= i < |r.sent| ==> r.sent[i][0] != 161)
            && (r.line.state == Busy(down) ==> c.state == Busy(down))
            && (r.line.state == AbortedRcv ==> IsAbort(q[0]))
            && (r.line.state == Finished && c.state == Busy(down) ==>
                  OnlyEnd(r.sent) && c.rxstep == RxEnd && !IsAbort(q[0]))
            && (r.line.state == Finished ==> c.state == Busy(down) || c.state == Finished)
  {
    hide Segments, OnBlockSegment, OnBlockEnd;
    if c.state == Busy(down) {
      if !IsAbort(q[0]) {
        if c.rxstep == RxStarted { ConsumerSegment(c, down, bs, d, e, q); } else { ConsumerEnd(c, down, bs, d, e, q); }
      } else {
        AbortFirst(c, down, bs, d, q);
      }
    }
  }

  /** Behind an abort there are only aborts. */
  lemma AbortFirst(c: Line, down: bool, bs: nat, d: seq<Byte>, q: seq<Frame>)
    requires ConsumerOk(c, down, bs, d, q) && c.state == Busy(down) && |q| > 0 && IsAbort(q[0])
    ensures AllAborts(q[1..])
  {
  }

  // ----- every step -----

  /** The consumer is still receiving: aborts behind what reaches it change nothing. */
  lemma ConsumerThenAborts(c: Line, down: bool, bs: nat, d: seq<Byte>, q: seq<Frame>, a: seq<Frame>)
    requires ConsumerOk(c, down, bs, d, q) && AllAborts(a)
    ensures ConsumerOk(c, down, bs, d, q + a)
  {
    hide Segments;
    if c.state == Busy(down) {
      if c.rxstep == RxStarted {
        SegmentsThenAborts(d, c.offset - 7 * c.seqno, c.seqno, bs, q, a);
      } else if !AllAborts(q) {
        assert (q + a)[1..] == q[1..] + a;
      }
    }
  }

  lemma ConsumerLoses(c: Line, down: bool, bs: nat, d: seq<Byte>, q: seq<Frame>, i: nat)
    requires ConsumerOk(c, down, bs, d, q)
    ensures ConsumerOk(c, down, bs, d, Without(q, i))
  {
    hide Segments;
    if c.state == Busy(down) {
      if c.rxstep == RxStarted {
        SegmentsLose(d, c.offset - 7 * c.seqno, c.seqno, bs, q, i);
      } else if !AllAborts(q) && 0 < i < |q| {
        assert Without(q, i)[1..] == Without(q[1..], i - 1);
      }
    }
  }

  lemma NothingLeft(q: seq<Frame>)
    requires NoAbort(q) && |q| > 0 && AllAborts(q[1..])
    ensures q[1..] == []
  {
    if |q| > 1 { SecondAbort(q); }
  }

  lemma SecondAbort(q: seq<Frame>)
    requires |q| > 1 && AllAborts(q[1..])
    ensures IsAbort(q[1])
  {
    assert q[1..][0] == q[1];
  }

  lemma ConsumerProceeds(c: Line, down: bool, e: Entry, m: Frame, bs: Byte)
    requires ValidLine(c) && c.state == Busy(down) && !IsAbort(m) && bs > 0 && c.rxstep != RxInit
    ensures var who := if down then Server else Client;
            Proceed(who, c, e, m, bs) == if c.rxstep == RxStarted then OnBlockSegment(who, c, e, m, bs)
              else OnBlockEnd(who, c, e, m)
  {
    hide OnBlockSegment, OnBlockEnd;
  }

  lemma ProducerProceeds(p: Line, down: bool, e: Entry, m: Frame, bs: Byte)
    requires ValidLine(p) && p.state == Busy(down) && IsReply(m, down, bs) && m[0] != 161 && !IsAbort(m)
    ensures var who := if down then Client else Server;
            Proceed(who, p, e, m, bs) == if m[0] == 162 then OnBlockAck(who, p, e, m)
              else NextBlock(who, if down then p.(blksize := bs) else p, e)
  {
    hide OnBlockAck, NextBlock;
  }

  /** A data frame arrives while both sides are in the transfer. */
  lemma DataArrives(n: Net, d: seq<Byte>, v0: seq<Byte>)
    requires Inv(n, d, v0) && n.producer.state == n.consumer.state == Busy(n.down) && n.data != []
    ensures var n1 := Step(n, DeliverData); n1.consumer.state == Busy(n.down) ==> Phase(n1, d)
    ensures n.acks == []
  {
    hide Segments, Segment, OnBlockSegment, OnBlockEnd, Proceed;
    if DataPhase(n, d) {
      var c, f, base := n.consumer, n.data[0], n.producer.lastblockoffset;
      ConsumerProceeds(c, n.down, n.entry, f, n.bs);
      SegmentsHead(d, base, c.seqno, n.producer.seqno, n.data);
      SegmentStep(c, ConsumerRole(n), d, n.bs, n.entry, f, base);
      var s: nat := f[0] % 128;
      if |d| - (base + 7 * (s - 1)) <= 7 || s == n.bs {
        NoMoreSegments(d, base, s, n.producer.seqno, n.data[1..]);
        NothingLeft(n.data);
        assert AckPhase(Step(n, DeliverData), d);
      } else {
        SegmentsWiden(d, base, s, Step(n, DeliverData).consumer.seqno, n.producer.seqno, n.producer.seqno, n.data[1..]);
        assert DataPhase(Step(n, DeliverData), d);
      }
    } else {
      assert EndPhase(n);
      ConsumerStep(n.consumer, n.down, n.bs, d, n.entry, n.data);
      ConsumerProceeds(n.consumer, n.down, n.entry, n.data[0], n.bs);
      ConsumerEnd(n.consumer, n.down, n.bs, d, n.entry, n.data);
    }
  }

  /** A whole block is on its way, or the end request. */
  ghost predicate Answered(n: Net, d: seq<Byte>) {
    && n.producer.state == Busy(n.down) && ConsumerOk(n.consumer, n.down, n.bs, d, n.data)
    && if n.consumer.rxstep == RxEnd then EndPhase(n)
       else
         && DataPhase(n, d) && n.data != [] && n.data[0][0] % 128 == 1
         && n.data[|n.data| - 1][0] % 128 == n.producer.seqno
  }

  lemma GoArrives(n: Net, d: seq<Byte>, v0: seq<Byte>)
    requires Inv(n, d, v0) && n.producer.state == n.consumer.state == Busy(n.down) && GoPhase(n)
    ensures Answered(Step(n, DeliverAck), d)
  {
    hide Segments, NextBlock, BlockSent, Proceed;
    var p, c, m, who := n.producer, n.consumer, n.acks[0], ProducerRole(n);
    assert IsReply(m, n.down, n.bs);
    var r := Proceed(who, p, n.entry, m, n.bs);
    assert n.data + r.sent == r.sent;
    ProducerProceeds(p, n.down, n.entry, m, n.bs);
    NewBlock(p.(blksize := if n.down then n.bs else p.blksize), who, c, n, d);
  }

  lemma BlockAckArrives(n: Net, d: seq<Byte>, v0: seq<Byte>)
    requires Inv(n, d, v0) && n.producer.state == n.consumer.state == Busy(n.down) && AckPhase(n, d)
    requires n.consumer.rxstep == RxStarted
    ensures Answered(Step(n, DeliverAck), d)
  {
    hide Segments, NextBlock, OnBlockAck, BlockSent, Proceed, EndShape;
    var p, c, m, who := n.producer, n.consumer, n.acks[0], ProducerRole(n);
    assert IsReply(m, n.down, n.bs);
    var r := Proceed(who, p, n.entry, m, n.bs);
    assert n.data + r.sent == r.sent;
    ProducerProceeds(p, n.down, n.entry, m, n.bs);
    var a: nat := m[1];
    NotLastAcked(p, who, n.entry, m, d, a);
    NewBlock(p.(blksize := n.bs, offset := p.lastblockoffset + 7 * a), who, c, n, d);
  }

  lemma LastAckArrives(n: Net, d: seq<Byte>, v0: seq<Byte>)
    requires Inv(n, d, v0) && n.producer.state == n.consumer.state == Busy(n.down) && AckPhase(n, d)
    requires n.consumer.rxstep == RxEnd
    ensures Answered(Step(n, DeliverAck), d)
  {
    hide Segments, OnBlockAck, BlockSent, Proceed, EndRequest;
    var p, c, m, who := n.producer, n.consumer, n.acks[0], ProducerRole(n);
    assert IsReply(m, n.down, n.bs);
    ProducerProceeds(p, n.down, n.entry, m, n.bs);
    LastAcked(p, who, n.entry, m, d, |d| - c.offset);
    assert n.data + [EndRequest(|d| - c.offset)] == [EndRequest(|d| - c.offset)];
  }

  /** A reply arrives while both sides are in the transfer. */
  lemma AckArrives(n: Net, d: seq<Byte>, v0: seq<Byte>)
    requires Inv(n, d, v0) && n.producer.state == n.consumer.state == Busy(n.down) && n.acks != []
    ensures n.data == [] && |n.acks| == 1 && (GoPhase(n) || AckPhase(n, d))
    ensures Answered(Step(n, DeliverAck), d) && Phase(Step(n, DeliverAck), d)
  {
    hide Segments, BlockSent, Proceed, Answered;
    if GoPhase(n) { GoArrives(n, d, v0); } else if n.consumer.rxstep == RxEnd { LastAckArrives(n, d, v0); }
      else { BlockAckArrives(n, d, v0); }
    AnsweredPhase(Step(n, DeliverAck), d);
  }

  lemma AnsweredPhase(n: Net, d: seq<Byte>)
    requires Answered(n, d)
    ensures Phase(n, d)
  {
  }

  lemma LastAcked(p: Line, who: Role, e: Entry, m: Frame, d: seq<Byte>, rest: nat)
    requires ValidLine(p) && OnUse(p) && BlockSent(p, d) && p.count == p.offset == |d| && p.seqno < 128
    requires m[1] == p.seqno
    requires p.lastblockoffset + 7 * (p.seqno - 1) + rest == |d|
    ensures 1 <= rest <= 7 && OnBlockAck(who, p, e, m) == Reply(p.(blksize := m[2]), [EndRequest(rest)], e)
  {
    hide NextBlock;
  }

  lemma NotLastAcked(p: Line, who: Role, e: Entry, m: Frame, d: seq<Byte>, a: nat)
    requires ValidLine(p) && OnUse(p) && BlockSent(p, d) && p.count == |d| <= |p.data| && m[1] == a <= p.seqno < 128
    requires a == p.seqno ==> p.offset < |d|
    requires p.lastblockoffset + 7 * a < |d|
    ensures var l := p.(blksize := m[2], offset := p.lastblockoffset + 7 * a);
            ValidLine(l) && OnBlockAck(who, p, e, m) == NextBlock(who, l, e)
  {
    hide NextBlock;
  }

  /** The producer sends the block the consumer waits for. */
  lemma NewBlock(l: Line, who: Role, c: Line, n: Net, d: seq<Byte>)
    requires ValidLine(l) && ProducerOk(l, n.down, n.bs, d) && l.state == Busy(n.down) && l.blksize == n.bs
    requires 0 < n.bs < 32
    requires ConsumerOk(c, n.down, n.bs, d, []) && c.state == Busy(n.down) && c.rxstep == RxStarted
    requires l.offset == c.offset && c.seqno == 0 && |d| <= 255
    ensures var r := NextBlock(who, l, n.entry);
            && r.line.state == Busy(n.down) && r.entry == n.entry && ConsumerOk(c, n.down, n.bs, d, r.sent)
            && r.line.lastblockoffset == c.offset && BlockSent(r.line, d) && NoAbort(r.sent)
            && Segments(d, c.offset, 0, r.line.seqno, r.sent) && (r.line.offset < |d| ==> r.line.seqno == n.bs)
            && |r.sent| > 0 && r.sent[0][0] % 128 == 1 && r.sent[|r.sent| - 1][0] % 128 == r.line.seqno
  {
    hide Segments, BlockSent, SendBlock, EndShape, Segment;
    SendsSegments(l.(lastblockoffset := l.offset % 256), d, 1);
    var r := NextBlock(who, l, n.entry);
    SegmentsWiden(d, c.offset, 0, 0, r.line.seqno, n.bs, r.sent);
  }

  /** Every step keeps the invariant. */
  lemma StepKeeps(n: Net, ev: Event, d: seq<Byte>, v0: seq<Byte>)
    requires Inv(n, d, v0)
    ensures Inv(Step(n, ev), d, v0)
  {
    match ev
    case DeliverData => DataKeeps(n, d, v0);
    case DeliverAck => AckKeeps(n, d, v0);
    case LoseData(i) => LoseKeeps(n, ev, d, v0);
    case LoseAck(i) => LoseKeeps(n, ev, d, v0);
    case ProducerTimeout(_) => TimeoutKeeps(n, ev, d, v0);
    case ConsumerTimeout(_) => TimeoutKeeps(n, ev, d, v0);
  }

  lemma DataKeeps(n: Net, d: seq<Byte>, v0: seq<Byte>)
    requires Inv(n, d, v0)
    ensures Inv(Step(n, DeliverData), d, v0)
  {
    hide EndShape, Segments, ProducerOk, Phase, Proceed, ValidLine;
    if n.data != [] {
      ConsumerStep(n.consumer, n.down, n.bs, d, n.entry, n.data);
      if n.producer.state == n.consumer.state == Busy(n.down) { DataArrives(n, d, v0); }
    }
  }

  lemma AckKeeps(n: Net, d: seq<Byte>, v0: seq<Byte>)
    requires Inv(n, d, v0)
    ensures Inv(Step(n, DeliverAck), d, v0)
  {
    hide ProducerOk, Phase, Proceed, ValidLine;
    if n.acks != [] {
      ProducerStep(n.producer, n.down, n.bs, d, n.entry, n.acks[0]);
      var r := Proceed(ProducerRole(n), n.producer, n.entry, n.acks[0], n.bs);
      if n.producer.state == n.consumer.state == Busy(n.down) {
        AckArrives(n, d, v0);
      } else if AllAborts(r.sent) {
        ConsumerThenAborts(n.consumer, n.down, n.bs, d, n.data, r.sent);
      }
    }
  }

  lemma LoseKeeps(n: Net, ev: Event, d: seq<Byte>, v0: seq<Byte>)
    requires Inv(n, d, v0) && (ev.LoseData? || ev.LoseAck?)
    ensures Inv(Step(n, ev), d, v0)
  {
    hide ConsumerOk, ProducerOk, ValidLine, Phase, IsReply, AllReplies, OnlyEnd, NoAbort;
    match ev
    case LoseData(i) =>
      ConsumerLoses(n.consumer, n.down, n.bs, d, n.data, i);
      FewerFrames(n.data, n.down, n.bs, i);
      if n.producer.state == n.consumer.state == Busy(n.down) { PhaseLosesData(n, d, i); }
    case LoseAck(i) =>
      FewerFrames(n.acks, n.down, n.bs, i);
      if n.producer.state == n.consumer.state == Busy(n.down) { PhaseLosesAck(n, d, i); }
  }

  lemma FewerFrames(q: seq<Frame>, down: bool, bs: Byte, i: nat)
    ensures NoAbort(q) ==> NoAbort(Without(q, i))
    ensures AllReplies(q, down, bs) ==> AllReplies(Without(q, i), down, bs)
    ensures OnlyEnd(q) ==> OnlyEnd(Without(q, i))
    ensures (exists k :: 0 <= k < |Without(q, i)| && Without(q, i)[k][0] == 161) ==>
      exists k :: 0 <= k < |q| && q[k][0] == 161
  {
    hide IsReply, IsAbort;
    forall k | 0 <= k < |Without(q, i)| ensures exists j :: 0 <= j < |q| && q[j] == Without(q, i)[k] {
      assert q[if i < |q| && k >= i then k + 1 else k] == Without(q, i)[k];
    }
  }

  lemma PhaseLosesData(n: Net, d: seq<Byte>, i: nat)
    requires Phase(n, d)
    ensures Phase(n.(data := Without(n.data, i)), d)
  {
    hide Segments, BlockSent;
    if DataPhase(n, d) {
      SegmentsLose(d, n.producer.lastblockoffset, n.consumer.seqno, n.producer.seqno, n.data, i);
      FewerFrames(n.data, n.down, n.bs, i);
    }
  }

  lemma PhaseLosesAck(n: Net, d: seq<Byte>, i: nat)
    requires Phase(n, d)
    ensures Phase(n.(acks := Without(n.acks, i)), d)
  {
    hide Segments, BlockSent, NoAbort;
    assert n.acks == [] || |n.acks| == 1;
    if i > 0 || n.acks == [] { assert Without(n.acks, i) == n.acks; } else { assert Without(n.acks, i) == []; }
  }

  lemma TimeoutKeeps(n: Net, ev: Event, d: seq<Byte>, v0: seq<Byte>)
    requires Inv(n, d, v0) && (ev.ProducerTimeout? || ev.ConsumerTimeout?)
    ensures Inv(Step(n, ev), d, v0)
  {
    hide Phase, ValidLine, Segments;
    if ev == ProducerTimeout(false) || ev == ConsumerTimeout(false) {
      assert Step(n, ev) == n by { assert n.data + [] == n.data && n.acks + [] == n.acks; }
    } else if ev.ProducerTimeout? {
      ConsumerThenAborts(n.consumer, n.down, n.bs, d, n.data, [Abort(n.producer.mux, TimedOut)]);
    } else if n.consumer.state == Busy(n.down) {
      ConsumerStrays(n.consumer, n.down, n.bs, d, n.data);
    }
  }

  lemma ConsumerStrays(c: Line, down: bool, bs: nat, d: seq<Byte>, q: seq<Frame>)
    requires ConsumerOk(c, down, bs, d, q) && c.state == Busy(down)
    ensures AllStray(q)
  {
    hide Segments;
    if c.rxstep == RxStarted { SegmentsStray(d, c.offset - 7 * c.seqno, c.seqno, bs, q); }
    else if !AllAborts(q) {
      forall i | 0 <= i < |q| ensures IsStray(q[i]) {
        if i > 0 { assert q[1..][i - 1] == q[i]; }
      }
    }
  }

  /** Any run, with any losses and time-outs, keeps the invariant. */
  lemma {:induction false} RunKeeps(n: Net, evs: seq<Event>, d: seq<Byte>, v0: seq<Byte>)
    requires Inv(n, d, v0)
    ensures Inv(Run(n, evs), d, v0)
    decreases |evs|
  {
    assert ValidNet(n);
    hide Inv, ValidNet;
    if evs != [] {
      StepKeeps(n, evs[0], d, v0);
      RunKeeps(Step(n, evs[0]), evs[1..], d, v0);
    }
  }

  /** What has been received is a prefix of the data; inside a block its length is told by the two counters; a finished
      transfer has delivered everything; the server's object holds the old value or the new one. */
  lemma RunSafe(n: Net, evs: seq<Event>, d: seq<Byte>, v0: seq<Byte>)
    requires Inv(n, d, v0)
    ensures var r := Run(n, evs);
            var p, c := r.producer, r.consumer;
            && (c.state == Busy(r.down) || c.state == Finished ==>
                  c.offset <= |d| && c.offset <= |c.data| && c.data[..c.offset] == d[..c.offset])
            && (p.state == c.state == Busy(r.down) && c.rxstep == RxStarted && r.data != [] ==>
                  c.offset == p.lastblockoffset + 7 * c.seqno)
            && (!r.down && c.state == Finished ==> c.offset == |d|)
            && (r.down && p.state == Finished ==> Delivered(r, d))
            && (r.entry.value == v0 || r.entry.value == d)
  {
    RunKeeps(n, evs, d, v0);
  }

  // ----- completion -----

  /** The frame that makes the block be acknowledged is still on its way, or what follows it is. */
  ghost predicate Live(n: Net, d: seq<Byte>) {
    && n.producer.state == n.consumer.state == Busy(n.down)
    && (GoPhase(n) || AckPhase(n, d) || EndPhase(n)
        || (DataPhase(n, d) && n.data != [] && n.data[|n.data| - 1][0] % 128 == n.producer.seqno))
  }

  predicate Completed(n: Net, d: seq<Byte>) {
    if n.down then n.producer.state == Finished && Delivered(n, d)
    else n.consumer.state == Finished && n.consumer.offset == |d| <= |n.consumer.data| && n.consumer.data[..|d|] == d
  }

  /** How far the consumer is from having everything. */
  function Missing(n: Net, d: seq<Byte>): nat {
    if n.consumer.rxstep == RxEnd || n.consumer.offset > |d| then 0 else |d| - n.consumer.offset
  }

  function Rank(n: Net): nat {
    if n.consumer.rxstep == RxEnd then (if n.data == [] then 2 else 1)
    else if n.data == [] then 2
    else if n.data[0][0] % 128 == n.consumer.seqno + 1 then 1 else 3
  }

  predicate Delivery(ev: Event) { ev == DeliverData || ev == DeliverAck }

  predicate Nearer(n: Net, n1: Net, d: seq<Byte>) {
    || Missing(n1, d) < Missing(n, d)
    || (Missing(n1, d) == Missing(n, d) && (Rank(n1) < Rank(n) || (Rank(n1) == Rank(n) && |n1.data| < |n.data|)))
  }

  lemma LiveData(n: Net, d: seq<Byte>, v0: seq<Byte>)
    requires Inv(n, d, v0) && Live(n, d) && DataPhase(n, d) && n.data != []
    ensures var n1 := Step(n, DeliverData); Live(n1, d) && Nearer(n, n1, d)
  {
    hide Segments, Segment, OnBlockSegment, OnBlockEnd, Proceed;
    var c, q, base, n1 := n.consumer, n.data, n.producer.lastblockoffset, Step(n, DeliverData);
    var s: nat := q[0][0] % 128;
    DataArrives(n, d, v0);
    ConsumerProceeds(c, n.down, n.entry, q[0], n.bs);
    SegmentsHead(d, base, c.seqno, n.producer.seqno, q);
    SegmentStep(c, ConsumerRole(n), d, n.bs, n.entry, q[0], base);
    if |d| - (base + 7 * (s - 1)) > 7 && s != n.bs {
      assert |q| > 1;
      assert n1.data[|n1.data| - 1] == q[|q| - 1];
      SegmentsHead(d, base, s, n.producer.seqno, q[1..]);
    }
  }

  lemma LiveAck(n: Net, d: seq<Byte>, v0: seq<Byte>)
    requires Inv(n, d, v0) && Live(n, d) && (GoPhase(n) || AckPhase(n, d))
    ensures var n1 := Step(n, DeliverAck);
            Live(n1, d) && Nearer(n, n1, d)
  {
    hide Segments, NextBlock, OnBlockAck, BlockSent, Proceed;
    AckArrives(n, d, v0);
  }

  /** The end request completes the transfer, for a download with the response it causes. */
  lemma LiveEnd(n: Net, d: seq<Byte>, v0: seq<Byte>)
    requires Inv(n, d, v0) && Live(n, d) && EndPhase(n)
    ensures var n1 := Step(n, DeliverData);
            if n.down then Completed(Step(n1, DeliverAck), d) else Completed(n1, d)
  {
    hide Segments, OnBlockSegment, OnBlockEnd, Proceed;
    ConsumerProceeds(n.consumer, n.down, n.entry, n.data[0], n.bs);
    ConsumerEnd(n.consumer, n.down, n.bs, d, n.entry, n.data);
    if n.down { ProducerFinishes(n.producer, Step(n, DeliverData).entry, n.bs); }
  }

  lemma ProducerFinishes(p: Line, e: Entry, bs: Byte)
    requires ValidLine(p) && p.state == BlockDownload && bs > 0
    ensures Proceed(Client, p, e, Plain(161), bs) == Reply(p.(state := Finished), [], e)
  {
  }

  lemma RunOne(n: Net, ev: Event, rest: seq<Event>)
    requires ValidNet(n)
    ensures Run(n, [ev] + rest) == Run(Step(n, ev), rest)
  {
    assert ([ev] + rest)[1..] == rest;
  }

  lemma LiveStep(n: Net, d: seq<Byte>, v0: seq<Byte>) returns (ev: Event)
    requires Inv(n, d, v0) && Live(n, d) && !EndPhase(n)
    ensures var n1 := Step(n, ev); Delivery(ev) && Inv(n1, d, v0) && Live(n1, d) && Nearer(n, n1, d)
  {
    hide GoPhase, AckPhase, DataPhase, Step, Nearer;
    ev := if GoPhase(n) || AckPhase(n, d) then DeliverAck else DeliverData;
    if ev == DeliverAck { LiveAck(n, d, v0); } else { DataHere(n, d); LiveData(n, d, v0); }
    StepKeeps(n, ev, d, v0);
  }

  lemma DataHere(n: Net, d: seq<Byte>)
    requires Live(n, d) && !EndPhase(n) && !GoPhase(n) && !AckPhase(n, d)
    ensures DataPhase(n, d) && n.data != []
  {
  }

  /** While the block's last segment or what it causes is still on its way, frames need only be delivered for the
      transfer to complete, whatever was lost before. */
  lemma {:induction false} Completes(n: Net, d: seq<Byte>, v0: seq<Byte>) returns (evs: seq<Event>)
    requires Inv(n, d, v0) && Live(n, d)
    ensures forall i :: 0 <= i < |evs| ==> Delivery(evs[i])
    ensures Completed(Run(n, evs), d)
    decreases Missing(n, d), Rank(n), |n.data|
  {
    assert ValidNet(n);
    hide Inv, Live, Step, ValidNet, EndPhase, Completed, Missing, Rank;
    if EndPhase(n) {
      LiveEnd(n, d, v0);
      if n.down {
        evs := [DeliverData] + [DeliverAck];
        RunOne(n, DeliverData, [DeliverAck]);
        assert [DeliverAck] + [] == [DeliverAck];
        RunOne(Step(n, DeliverData), DeliverAck, []);
      } else {
        evs := [DeliverData] + [];
        RunOne(n, DeliverData, []);
      }
    } else {
      var ev := LiveStep(n, d, v0);
      var rest := Completes(Step(n, ev), d, v0);
      evs := [ev] + rest;
      RunOne(n, ev, rest);
    }
  }

  // ----- the beginning of a transfer -----

  /** The client has asked for a block download and the server has agreed. */
  function DownloadNet(client: Line, server: Line, mux: Mux, d: seq<Byte>, e: Entry, bs: Byte): Net
    requires ValidLine(client) && ValidLine(server) && client.state == server.state == Reset && |d| <= |client.data|
  {
    var (p, request) := StartWrite(client, mux, d, true);
    var r := Proceed(Server, server, e, request, bs);
    Net(true, bs, p, r.line, r.entry, [], r.sent)
  }

  lemma DownloadBegins(client: Line, server: Line, mux: Mux, d: seq<Byte>, e: Entry, bs: Byte)
    requires ValidLine(client) && ValidLine(server) && client.state == server.state == Reset
    requires 1 <= |d| <= 255 && |d| <= |client.data| && |d| <= |server.data| && 0 < bs < 32
    ensures var n := DownloadNet(client, server, mux, d, e, bs); Inv(n, d, e.value) && Live(n, d)
  {
    Le32RoundTrip(|d|);
    var (p, request) := StartWrite(client, mux, d, true);
    assert request[4..8] == Le32(|d|);
    SegmentsAborts(d, 0, 0, bs, []);
  }

  /** The client has asked for a block upload, the server has told the size, and the client has agreed. */
  function UploadNet(client: Line, server: Line, mux: Mux, e: Entry, bs: Byte): Net
    requires ValidLine(client) && ValidLine(server) && client.state == server.state == Reset
    requires |e.value| <= |server.data| && e.readError == 0
  {
    var (c, request) := StartRead(client, mux, true, bs);
    var r := Proceed(Server, server, e, request, bs);
    var r1 := Proceed(Client, c, r.entry, r.sent[0], bs);
    Net(false, bs, r.line, r1.line, r.entry, [], r1.sent)
  }

  lemma UploadBegins(client: Line, server: Line, mux: Mux, e: Entry, bs: Byte)
    requires ValidLine(client) && ValidLine(server) && client.state == server.state == Reset && e.readError == 0
    requires var d := e.value; 1 <= |d| <= 255 && |d| <= |client.data| && |d| <= |server.data|
    requires 0 < bs < 32
    ensures var n := UploadNet(client, server, mux, e, bs); Inv(n, e.value, e.value) && Live(n, e.value)
  {
    hide Le32, FromLe32, Segments, Proceed;
    var d := e.value;
    Le32RoundTrip(|d|);
    var (c, request) := StartRead(client, mux, true, bs);
    assert request[4..8] == [bs, 0, 0, 0] && MuxOf(request) == mux;
    ServerOffers(server, e, request, bs);
    var r := Proceed(Server, server, e, request, bs);
    assert r.sent[0][4..8] == Le32(|d|);
    ClientAgrees(c, r.entry, r.sent[0], bs);
    SegmentsAborts(d, 0, 0, bs, []);
  }

  lemma ServerOffers(l: Line, e: Entry, f: Frame, bs: Byte)
    requires ValidLine(l) && l.state == Reset && e.readError == 0 && |e.value| <= |l.data| && f[0] == 160 && bs > 0
    ensures var r, n := Proceed(Server, l, e, f, bs), |e.value|;
            && r.sent == [WithMux(194, MuxOf(f), Le32(n))] && r.entry == e
            && r.line == Init(l, MuxOf(f), BlockUpload).(blksize := f[4], objsize := n, count := n,
               data := e.value + l.data[n..])
  {
    hide Le32;
  }

  lemma ClientAgrees(l: Line, e: Entry, f: Frame, bs: Byte)
    requires ValidLine(l) && l.state == BlockUpload && l.rxstep == RxInit && f[0] == 194 && bs > 0
    ensures Proceed(Client, l, e, f, bs) ==
            Reply(l.(rxstep := RxStarted, objsize := FromLe32(f[4..8])), [Plain(163)], e)
  {
    hide FromLe32;
  }
}
