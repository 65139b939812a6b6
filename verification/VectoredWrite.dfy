/** lwip_netconn_do_writemore of api_msg.c: a cursor over a vector of buffers which goes on where it stopped each time
    the connection can take more. The TCP layer below answers as it likes. LWIP_SO_SNDTIMEO and core locking are off. */
module VectoredWrite {
  import opened FatCodec

  /** err_t, as far as it matters here. */
  datatype ErrT = ErrOk | ErrMem | ErrWouldBlock | ErrRte | ErrInProgress | ErrConn | ErrOther

  /** What the TCP layer answers in one turn of the loop: tcp_sndbuf, and the result of tcp_write. */
  datatype Answer = Answer(available: nat, err: ErrT)

  // ----- the vectors -----

  /** All the bytes of the vectors. */
  function Flat(v: seq<seq<Byte>>): seq<Byte> {
    if v == [] then [] else Flat(v[..|v| - 1]) + v[|v| - 1]
  }

  /** Where vector i begins. */
  function Before(v: seq<seq<Byte>>, i: nat): nat
    requires i <= |v|
  {
    |Flat(v[..i])|
  }

  lemma {:induction false} FlatPrefix(v: seq<seq<Byte>>, i: nat)
    requires i <= |v|
    ensures Before(v, i) <= |Flat(v)| && Flat(v)[..Before(v, i)] == Flat(v[..i])
    decreases |v|
  {
    if i == |v| {
      assert v[..i] == v;
    } else {
      FlatPrefix(v[..|v| - 1], i);
      assert v[..|v| - 1][..i] == v[..i];
    }
  }

  lemma NextVector(v: seq<seq<Byte>>, i: nat)
    requires i < |v|
    ensures Before(v, i + 1) == Before(v, i) + |v[i]| <= |Flat(v)| && Flat(v)[Before(v, i)..Before(v, i + 1)] == v[i]
    ensures Before(v, |v|) == |Flat(v)| && Before(v, 0) == 0
  {
    FlatPrefix(v, i + 1);
    assert v[..i + 1][..i] == v[..i] && v[..i + 1][i] == v[i];
    assert v[..|v|] == v;
    assert Flat(v)[..Before(v, i + 1)][Before(v, i)..] == v[i];
  }

  /** Nothing is left from vector i on just when all of these are empty. */
  lemma {:induction false} RestEmpty(v: seq<seq<Byte>>, i: nat)
    requires i <= |v|
    ensures Before(v, i) <= |Flat(v)|
    ensures Before(v, i) == |Flat(v)| <==> forall j :: i <= j < |v| ==> v[j] == []
    decreases |v| - i
  {
    FlatPrefix(v, i);
    if i < |v| {
      NextVector(v, i);
      RestEmpty(v, i + 1);
    } else {
      assert v[..i] == v;
    }
  }

  /** A chunk of vector i is the next piece of the whole. */
  lemma NextChunk(v: seq<seq<Byte>>, i: nat, off: nat, len: nat)
    requires i < |v| && off + len <= |v[i]|
    ensures Before(v, i) + off + len <= |Flat(v)|
    ensures Flat(v)[..Before(v, i) + off] + v[i][off..off + len] == Flat(v)[..Before(v, i) + off + len]
  {
    NextVector(v, i);
    hide Flat, Before;
    var f, b := Flat(v), Before(v, i);
    SubSlice(f, b, |v[i]|, off, len);
    assert f[..b + off] + f[b + off..b + off + len] == f[..b + off + len];
  }

  lemma SubSlice(f: seq<Byte>, b: nat, n: nat, off: nat, len: nat)
    requires b + n <= |f| && off + len <= n
    ensures f[b..b + n][off..off + len] == f[b + off..b + off + len]
  {
    var l, r := f[b..b + n][off..off + len], f[b + off..b + off + len];
    forall i | 0 <= i < len ensures l[i] == r[i] { assert f[b..b + n][off + i] == f[b + off + i]; }
  }

  // ----- the connection -----

  /** The part of an api_msg which a write uses. */
  class WriteMsg {
    const vectors: seq<seq<Byte>>
    const len: nat
    const dontBlock: bool        // a non-blocking connection, or NETCONN_DONTBLOCK
    var vector: nat
    var vectorOff: nat
    var vectorCnt: nat
    var offset: nat
    var err: ErrT

    constructor (vectors: seq<seq<Byte>>, dontBlock: bool)
      requires Flat(vectors) != []
      ensures Valid() && fresh(this) && offset == 0 && vectorCnt > 0 && this.vectors == vectors
      ensures this.dontBlock == dontBlock
    {
      this.vectors, this.dontBlock, len := vectors, dontBlock, |Flat(vectors)|;
      vector, vectorOff, vectorCnt, offset, err := 0, 0, |vectors|, 0, ErrOk;
      new;
      NextVector(vectors, 0);
    }

    /** The cursor: offset bytes are before it. Behind the last vector the count of vectors is 0. */
    ghost predicate Valid()
      reads this
    {
      && len == |Flat(vectors)| > 0 && vector < |vectors| && vectorOff <= |vectors[vector]|
      && offset == Before(vectors, vector) + vectorOff <= len
      && (if vectorCnt == 0 then vector + 1 == |vectors| && vectorOff == |vectors[vector]|
         else vectorCnt == |vectors| - vector)
    }

    /** The bytes before the cursor. */
    ghost function Done(): seq<Byte>
      requires Valid()
      reads this
    {
      Flat(vectors)[..offset]
    }

    /** No vector is empty: the assertions at the start of the source's function hold. */
    predicate NoEmpty() {
      forall j :: 0 <= j < |vectors| ==> vectors[j] != []
    }

    /** Some byte is left in the vector of the cursor or in one behind it. */
    predicate BytesLeft()
      requires vector < |vectors|
      reads this
    {
      vectorOff < |vectors[vector]| || exists j :: vector < j < |vectors| && vectors[j] != []
    }

    /** When the offset is below the length. */
    lemma Unfinished()
      requires Valid()
      ensures offset < len <==> BytesLeft()
      ensures vectorCnt == 0 ==> offset == len
    {
      NextVector(vectors, vector);
      RestEmpty(vectors, vector + 1);
    }

    /** The bytes of the cursor's vector which are accepted, and the cursor behind them. */
    method Accept(n: nat)
      requires Valid() && vectorCnt > 0 && vectorOff + n <= |vectors[vector]|
      modifies this`vector, this`vectorOff, this`vectorCnt, this`offset
      ensures Valid() && offset == old(offset) + n
      ensures Done() == old(Done()) + old(vectors[vector][vectorOff..vectorOff + n])
      ensures vectorCnt == 0 ==> offset == len
      ensures vectorCnt == old(vectorCnt) - if old(vectorOff) + n == old(|vectors[vector]|) then 1 else 0
      ensures NoEmpty() && vectorCnt > 0 ==> vectorOff < |vectors[vector]|
    {
      NextChunk(vectors, vector, vectorOff, n);
      NextVector(vectors, vector);
      offset := offset + n;
      vectorOff := vectorOff + n;
      if vectorOff == |vectors[vector]| {
        vectorCnt := vectorCnt - 1;
        if vectorCnt > 0 {
          vector := vector + 1;
          vectorOff := 0;
        }
      }
    }
  }

  /** How much of the diff bytes left of a vector one turn offers to tcp_write. */
  function Chunk(diff: nat, available: nat): nat {
    var len := if diff > 0xFFFF then 0xFFFF else diff;
    if available < len then available else len
  }

  /** Whether the loop goes on after a successful turn: write_more. */
  predicate More(diff: nat, len: nat, vectorCnt: nat) {
    (len == 0xFFFF && diff > 0xFFFF) || (len == diff % 0x1_0000 && vectorCnt > 1)
  }

  /** A turn which moves nothing asks for another one just when the vector is used up, or nothing can be sent and the
      16-bit remainder of what is left is 0; and other vectors follow. */
  lemma TurnWithoutProgress(diff: nat, available: nat, vectorCnt: nat)
    ensures Chunk(diff, available) == 0 && More(diff, 0, vectorCnt) <==>
      vectorCnt > 1 && (diff == 0 || (available == 0 && diff % 0x1_0000 == 0))
  {
  }

  datatype ConnState = Idle | Writing | Busy

  class Conn {
    var state: ConnState               // Busy: connecting or closing
    var hasPcb: bool
    var currentMsg: WriteMsg?
    var checkWritespace: bool          // NETCONN_FLAG_CHECK_WRITESPACE
    ghost var accepted: seq<Byte>      // what tcp_write has accepted since the write began

    /** What has been accepted is what the cursor has passed. */
    ghost predicate Valid()
      reads this, currentMsg
    {
      if state == Writing then
        && hasPcb && currentMsg != null && currentMsg.Valid() && currentMsg.vectorCnt > 0
        && accepted == currentMsg.Done()
        && (currentMsg.NoEmpty() ==> currentMsg.vectorOff < |currentMsg.vectors[currentMsg.vector]|)
      else currentMsg == null
    }

    constructor ()
      ensures Valid() && state == Idle && hasPcb
    {
      state, hasPcb, currentMsg, checkWritespace, accepted := Idle, true, null, false, [];
    }

    /** How a write ends for the application thread that waits for it. */
    ghost predicate Ended(msg: WriteMsg)
      reads this, msg
    {
      && state == Idle && currentMsg == null && msg.Valid() && accepted == msg.Done()
      && (msg.err == ErrOk && !msg.dontBlock ==> msg.offset == msg.len)
      && (msg.err == ErrOk && msg.dontBlock ==> msg.offset > 0)
      && (msg.err == ErrWouldBlock && msg.dontBlock ==> msg.offset == 0)
      && msg.err != ErrMem
    }

    /** The loop that hands chunks to tcp_write. answers: what the TCP layer answers, turn by turn; used up, if they end
        before the loop does. */
    method SendChunks(msg: WriteMsg, answers: seq<Answer>) returns (err: ErrT, blocked: bool, usedUp: bool)
      requires state == Writing && currentMsg == msg && Valid()
      requires forall i :: 0 <= i < |answers| ==> answers[i].available < 0x1_0000 && answers[i].err != ErrWouldBlock
      modifies this`accepted, msg`vector, msg`vectorOff, msg`vectorCnt, msg`offset
      ensures msg.Valid() && accepted == msg.Done() && old(accepted) <= accepted
      ensures msg.vectorCnt == 0 ==> msg.offset == msg.len && err == ErrOk && !usedUp
      ensures msg.NoEmpty() && msg.vectorCnt > 0 ==> msg.vectorOff < |msg.vectors[msg.vector]|
      ensures blocked ==> msg.dontBlock && msg.vectorCnt > 0 && err == if msg.offset == 0 then ErrWouldBlock else ErrOk
      ensures !blocked ==> err != ErrWouldBlock
      ensures !blocked && !usedUp && err == ErrOk && msg.dontBlock ==> msg.offset > 0
    {
      var i := 0;
      blocked, err := false, ErrOk;
      while true
        invariant 0 <= i <= |answers| && msg.Valid() && msg.vectorCnt > 0 && accepted == msg.Done()
        invariant old(accepted) <= accepted
        invariant msg.NoEmpty() ==> msg.vectorOff < |msg.vectors[msg.vector]|
        decreases |answers| - i
      {
        if i == |answers| { return ErrOk, false, true; }
        var diff := |msg.vectors[msg.vector]| - msg.vectorOff;
        var len := Chunk(diff, answers[i].available);
        if len < diff && msg.dontBlock && len == 0 {
          return if msg.offset == 0 then ErrWouldBlock else ErrOk, true, false;
        }
        var more := More(diff, len, msg.vectorCnt);
        err := answers[i].err;
        i := i + 1;
        if err == ErrOk {
          accepted := accepted + msg.vectors[msg.vector][msg.vectorOff..msg.vectorOff + len];
          msg.Accept(len);
        }
        if !(more && err == ErrOk) { break; }
      }
      usedUp := false;
    }

    /** lwip_netconn_do_writemore. output: the result of tcp_output. It either ends the write, or leaves it to be taken
        up again. */
    method WriteMore(answers: seq<Answer>, output: ErrT) returns (usedUp: bool)
      requires state == Writing && Valid()
      requires forall i :: 0 <= i < |answers| ==> answers[i].available < 0x1_0000 && answers[i].err != ErrWouldBlock
      modifies this, currentMsg
      ensures Valid() && old(accepted) <= accepted
      ensures !usedUp ==>
        if state == Writing then currentMsg == old(currentMsg) && !currentMsg.dontBlock else Ended(old(currentMsg))
      ensures usedUp ==> state == Writing && currentMsg == old(currentMsg)
      // where the write is left open, the assertion with which the source takes it up again
      ensures state == Writing ==>
        && (currentMsg.offset < currentMsg.len <==> currentMsg.BytesLeft())
        && (currentMsg.NoEmpty() ==> currentMsg.offset < currentMsg.len)
    {
      var msg := currentMsg;
      var err, blocked;
      err, blocked, usedUp := SendChunks(msg, answers);
      msg.Unfinished();
      if usedUp { return; }
      var finished := false;
      if err == ErrOk || err == ErrMem || blocked {
        if msg.dontBlock && msg.offset < msg.len { checkWritespace := true; }
      }
      if err == ErrOk {
        if msg.offset == msg.len || msg.dontBlock { finished := true; }
        if output == ErrRte { err, finished := output, true; }
      } else if err == ErrMem {
        if output == ErrRte {
          err, finished := output, true;
        } else if msg.dontBlock {
          err := if msg.offset == 0 then ErrWouldBlock else ErrOk;
          finished := true;
        }
      } else {
        finished := true;
      }
      if finished {
        msg.err := err;
        currentMsg := null;
        state := Idle;
      }
    }

    /** A write of one byte and an empty vector behind it: with the byte accepted and the write left open, the source's
        assertion that the offset is below the length does not hold. */
    static method EmptyBehind() returns (c: Conn, msg: WriteMsg)
      ensures c.Valid() && c.state == Writing && c.currentMsg == msg && !msg.BytesLeft() && msg.offset == msg.len
    {
      var v: seq<seq<Byte>> := [[1], []];
      assert Flat(v[..1]) == [1] by { assert v[..1][..0] == []; }
      assert v[..|v| - 1] == v[..1];
      msg := new WriteMsg(v, false);
      c := new Conn();
      msg.Accept(1);
      msg.Unfinished();
      c.state, c.currentMsg, c.accepted := Writing, msg, msg.Done();
    }

    /** lwip_netconn_do_write. pending: an error the connection has met before. */
    method DoWrite(msg: WriteMsg, pending: ErrT, answers: seq<Answer>, output: ErrT) returns (usedUp: bool)
      requires Valid() && msg.Valid() && msg.offset == 0 && msg.vectorCnt > 0 && msg != currentMsg
      requires msg.NoEmpty() ==> msg.vectorOff < |msg.vectors[msg.vector]|
      requires forall i :: 0 <= i < |answers| ==> answers[i].available < 0x1_0000 && answers[i].err != ErrWouldBlock
      modifies this, msg
      ensures Valid()
      ensures pending != ErrOk || old(state) != Idle || !old(hasPcb) ==>
        && state == old(state) && accepted == old(accepted) && msg.offset == 0
        && msg.err == if pending != ErrOk then pending else if old(state) != Idle then ErrInProgress else ErrConn
      ensures pending == ErrOk && old(state) == Idle && old(hasPcb) && !usedUp ==>
        if state == Writing then currentMsg == msg && !msg.dontBlock else Ended(msg)
    {
      usedUp := false;
      var err := pending;
      if err == ErrOk {
        if state != Idle {
          err := ErrInProgress;
        } else if hasPcb {
          state := Writing;
          currentMsg := msg;
          accepted := [];
          usedUp := WriteMore(answers, output);
          return;
        } else {
          err := ErrConn;
        }
      }
      msg.err := err;
    }

    /** sent_tcp and poll_tcp: the write is taken up again. */
    method OnWritable(answers: seq<Answer>, output: ErrT) returns (usedUp: bool)
      requires Valid()
      requires forall i :: 0 <= i < |answers| ==> answers[i].available < 0x1_0000 && answers[i].err != ErrWouldBlock
      modifies this, currentMsg
      ensures Valid() && old(accepted) <= accepted
      ensures old(state) != Writing ==> accepted == old(accepted) && state == old(state)
      ensures old(state) == Writing && !usedUp ==>
        if state == Writing then currentMsg == old(currentMsg) else Ended(old(currentMsg))
    {
      usedUp := false;
      if state == Writing { usedUp := WriteMore(answers, output); }
    }
  }
}
