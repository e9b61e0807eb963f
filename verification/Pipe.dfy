/** Pipes as queues: the data path of fs/pipe.c over flexible buffers. */
module Pipe {
  import opened Machine
  import opened KernelPages
  import opened Flexbuf

  /** A non-blocking write, one round of a blocking write, or a read. */
  datatype PipeOp = Write(src: seq<Byte>) | Round(src: seq<Byte>) | Get(len: int)

  /** What the caller sees. Stray: the transfer was empty and read page pointers behind the buffer's descriptor. */
  datatype Reply = Again | Wrote(n: int) | Got(bytes: seq<Byte>) | Stray

  /** The bytes in a pipe, and how many were ever taken out of it. */
  datatype State = State(q: seq<Byte>, taken: nat)

  /** An operation that moves no byte strays exactly at a page boundary of the stream of bytes. */
  predicate Strays(s: State, op: PipeOp) {
    match op
    case Write(_) => false
    case Round(src) => Min(|src|, PIPE_BUF - |s.q|) == 0 && (s.taken + |s.q|) % FRAME_SIZE == 0
    case Get(len) => Min(len, |s.q|) == 0 && s.taken % FRAME_SIZE == 0
  }

  predicate ProperOp(op: PipeOp) { op.Get? ==> 0 <= op.len < W32 }

  /** What an operation does to the bytes in a pipe. */
  function After(s: State, op: PipeOp): (State, Reply)
    requires |s.q| <= PIPE_BUF && ProperOp(op)
  {
    var room := PIPE_BUF - |s.q|;
    if Strays(s, op) then (s, Stray)
    else
      match op
      case Write(src) =>
        if |src| <= PIPE_BUF then (if |src| <= room then (s.(q := s.q + src), Wrote(|src|)) else (s, Again))
        else if room == 0 then (s, Again)
        else (s.(q := s.q + src[..room]), Wrote(room))
      case Round(src) =>
        var n := Min(|src|, room);
        (s.(q := s.q + src[..n]), Wrote(n))
      case Get(len) =>
        var n := Min(len, |s.q|);
        if n == 0 then (s, Again) else (State(s.q[n..], s.taken + n), Got(s.q[..n]))
  }

  /**
   * A non-blocking write of up to PIPE_BUF bytes goes in as a whole if there is room for it, and not at all otherwise; a
   * larger one fills the pipe, and is put off only if the pipe is full.
   */
  predicate Written(q: seq<Byte>, src: seq<Byte>, r: Reply, q': seq<Byte>)
    requires |q| <= PIPE_BUF
  {
    if |src| <= PIPE_BUF then
      if |q| + |src| <= PIPE_BUF then r == Wrote(|src|) && q' == q + src else r == Again && q' == q
    else
      if |q| < PIPE_BUF then r == Wrote(PIPE_BUF - |q|) && q' == q + src[..PIPE_BUF - |q|] else r == Again && q' == q
  }

  /** One round of a blocking write puts in what there is room for. Only one that puts in nothing may stray. */
  predicate RoundMade(q: seq<Byte>, src: seq<Byte>, r: Reply, q': seq<Byte>)
    requires |q| <= PIPE_BUF
  {
    var n := Min(|src|, PIPE_BUF - |q|);
    q' == q + src[..n] && (r == Wrote(n) || (r == Stray && n == 0))
  }

  /** A read delivers and takes out the first bytes, as many as there are. Only one that finds none may stray or be put off. */
  predicate Fetched(q: seq<Byte>, len: int, r: Reply, q': seq<Byte>)
    requires 0 <= len
  {
    var n := Min(len, |q|);
    q' == q[n..] && if n > 0 then r == Got(q[..n]) else r == Again || r == Stray
  }

  /** What each operation moves. */
  lemma AfterMoves(s: State, op: PipeOp)
    requires |s.q| <= PIPE_BUF && ProperOp(op)
    ensures var (s', r) := After(s, op);
            match op
            case Write(src) => Written(s.q, src, r, s'.q) && s'.taken == s.taken
            case Round(src) => RoundMade(s.q, src, r, s'.q) && s'.taken == s.taken
            case Get(len) => Fetched(s.q, len, r, s'.q) && s'.taken == s.taken + Min(len, |s.q|)
  {
    assert s.q[0..] == s.q && s.q + [] == s.q;
    if op.Round? { assert op.src[..0] == []; }
  }

  // ---------------------------------------------------------------- runs of the queue

  predicate Proper(ops: seq<PipeOp>) { forall i :: 0 <= i < |ops| ==> ProperOp(ops[i]) }

  /** The bytes an operation puts in, and the bytes it takes out. */
  function Taken(op: PipeOp, r: Reply): seq<Byte> {
    if op.Get? || !r.Wrote? || !(0 <= r.n <= |op.src|) then [] else op.src[..r.n]
  }
  function Given(r: Reply): seq<Byte> { if r.Got? then r.bytes else [] }

  function StateAfter(s: State, ops: seq<PipeOp>): (r: State)
    requires |s.q| <= PIPE_BUF && Proper(ops)
    ensures |r.q| <= PIPE_BUF
    decreases |ops|
  {
    if ops == [] then s else StateAfter(After(s, ops[0]).0, ops[1..])
  }

  function Replies(s: State, ops: seq<PipeOp>): (r: seq<Reply>)
    requires |s.q| <= PIPE_BUF && Proper(ops)
    ensures |r| == |ops|
    decreases |ops|
  {
    if ops == [] then [] else [After(s, ops[0]).1] + Replies(After(s, ops[0]).0, ops[1..])
  }

  function In(s: State, ops: seq<PipeOp>): seq<Byte>
    requires |s.q| <= PIPE_BUF && Proper(ops)
    decreases |ops|
  {
    if ops == [] then [] else Taken(ops[0], After(s, ops[0]).1) + In(After(s, ops[0]).0, ops[1..])
  }

  function Out(s: State, ops: seq<PipeOp>): seq<Byte>
    requires |s.q| <= PIPE_BUF && Proper(ops)
    decreases |ops|
  {
    if ops == [] then [] else Given(After(s, ops[0]).1) + Out(After(s, ops[0]).0, ops[1..])
  }

  lemma OneStep(s: State, op: PipeOp)
    requires |s.q| <= PIPE_BUF && ProperOp(op)
    ensures var (s', r) := After(s, op);
            s.q + Taken(op, r) == Given(r) + s'.q && |s'.q| <= PIPE_BUF && s'.taken == s.taken + |Given(r)|
  {
  }

  /**
   * First in, first out: what was in the pipe and what came in is what went out and what is still there, in order; and the
   * count of bytes taken is the number of bytes that went out.
   */
  lemma {:induction false} Fifo(s: State, ops: seq<PipeOp>)
    requires |s.q| <= PIPE_BUF && Proper(ops)
    ensures s.q + In(s, ops) == Out(s, ops) + StateAfter(s, ops).q && StateAfter(s, ops).taken == s.taken + |Out(s, ops)|
    decreases |ops|
  {
    if ops != [] {
      var (s', r) := After(s, ops[0]);
      OneStep(s, ops[0]);
      hide After, Taken, Given;
      Fifo(s', ops[1..]);
      Glue(s.q, Taken(ops[0], r), Given(r), s'.q, In(s', ops[1..]), Out(s', ops[1..]), StateAfter(s', ops[1..]).q);
    } else {
      assert s.q + [] == s.q && [] + s.q == s.q;
    }
  }

  lemma Glue(q: seq<Byte>, a: seq<Byte>, b: seq<Byte>, q': seq<Byte>, i: seq<Byte>, o: seq<Byte>, z: seq<Byte>)
    requires q + a == b + q' && q' + i == o + z
    ensures q + (a + i) == (b + o) + z
  {
    assert q + (a + i) == (q + a) + i && (b + q') + i == b + (q' + i) && b + (o + z) == (b + o) + z;
  }

  const Fresh: State := State([], 0)

  /** Reading a fresh pipe strays. */
  lemma FreshPipeStrays(len: int)
    requires 0 <= len < W32
    ensures After(Fresh, Get(len)).1 == Stray
  {
  }

  /** So does the second round of a write that filled a fresh pipe with its first. */
  lemma FullPipeStrays(src: seq<Byte>, more: seq<Byte>)
    requires |src| == PIPE_BUF
    ensures After(After(Fresh, Round(src)).0, Round(more)).1 == Stray
  {
    assert [] + src[..PIPE_BUF] == src;
  }

  // ---------------------------------------------------------------- the pipe

  /** The pipe's buffer is in this state. */
  ghost predicate Shows(b: Buffer, s: State)
    reads b, b.k
  {
    b.Valid() && b.Contents() == s.q && b.pos == s.taken % FRAME_SIZE
  }

  /** One round of pipe_do_write. */
  method PipeRound(b: Buffer, src: seq<Byte>, ghost s: State) returns (r: Reply)
    requires Shows(b, s)
    modifies b`size, b`slots, b`mem, b.k`present, b.k`firstFree
    ensures |s.q| <= PIPE_BUF && r == After(s, Round(src)).1 && Shows(b, After(s, Round(src)).0)
    ensures RoundMade(old(b.Contents()), src, r, b.Contents())
  {
    AfterMoves(s, Round(src));
    var n, stray := b.Enqueue(src[..Min(|src|, PIPE_BUF - b.size)]);
    r := if stray then Stray else Wrote(n);
  }

  /** pipe_write on a non-blocking file. */
  method PipeWrite(b: Buffer, src: seq<Byte>, ghost s: State) returns (r: Reply)
    requires Shows(b, s)
    modifies b`size, b`slots, b`mem, b.k`present, b.k`firstFree
    ensures |s.q| <= PIPE_BUF && r == After(s, Write(src)).1 && Shows(b, After(s, Write(src)).0)
    ensures Written(old(b.Contents()), src, r, b.Contents())
  {
    AfterMoves(s, Write(src));
    var headroom := PIPE_BUF - b.size;
    if |src| <= PIPE_BUF && |src| > headroom { return Again; }
    var n, stray;
    if |src| > PIPE_BUF {
      if headroom == 0 { return Again; }
      n, stray := b.Enqueue(src[..headroom]);
      return Wrote(n);
    }
    if |src| == 0 {
      assert s.q + src == s.q;
      return Wrote(0);
    }
    n, stray := b.Enqueue(src);
    r := Wrote(n);
  }

  /** pipe_read on a non-blocking file whose write end is open. */
  method PipeRead(b: Buffer, len: int, ghost s: State) returns (r: Reply)
    requires Shows(b, s) && 0 <= len < W32
    modifies b`size, b`pos, b`slots
    ensures |s.q| <= PIPE_BUF && r == After(s, Get(len)).1 && Shows(b, After(s, Get(len)).0)
    ensures Fetched(old(b.Contents()), len, r, b.Contents())
  {
    AfterMoves(s, Get(len));
    var dst := new Byte[Min(len, b.size)](_ => 0);
    var n, stray := b.Dequeue(dst, len);
    assert s.q[0..] == s.q;
    TakenMore(s.taken, n);
    r := if stray then Stray else if n == 0 then Again else Got(dst[..n]);
  }

  lemma TakenMore(taken: nat, n: nat)
    ensures (taken % FRAME_SIZE + n) % FRAME_SIZE == (taken + n) % FRAME_SIZE
  {
  }

  method Perform(b: Buffer, op: PipeOp, ghost s: State) returns (r: Reply)
    requires Shows(b, s) && ProperOp(op)
    modifies b`size, b`pos, b`slots, b`mem, b.k`present, b.k`firstFree
    ensures |s.q| <= PIPE_BUF && r == After(s, op).1 && Shows(b, After(s, op).0) && |After(s, op).0.q| <= PIPE_BUF
  {
    hide After, Shows;
    match op {
      case Write(src) => r := PipeWrite(b, src, s);
      case Round(src) => r := PipeRound(b, src, s);
      case Get(len) => r := PipeRead(b, len, s);
    }
    OneStep(s, op);
  }

  lemma ShowsFits(b: Buffer, s: State)
    requires Shows(b, s)
    ensures |s.q| <= PIPE_BUF
  {
  }

  /**
   * Over any run of writes, write rounds and reads, up to the first one that strays, the pipe behaves as the queue does;
   * and an operation strays exactly when the queue says so.
   */
  method RunPipe(b: Buffer, ops: seq<PipeOp>, ghost s: State) returns (n: nat, replies: seq<Reply>)
    requires Shows(b, s) && Proper(ops)
    modifies b`size, b`pos, b`slots, b`mem, b.k`present, b.k`firstFree
    ensures |s.q| <= PIPE_BUF && n <= |ops| && replies == Replies(s, ops)[..n] && Shows(b, StateAfter(s, ops[..n]))
    ensures Stray !in replies && (n < |ops| ==> Replies(s, ops)[n] == Stray)
  {
    ShowsFits(b, s);
    hide After, Shows, Progress, StateAfter, Replies;
    replies := [];
    n := 0;
    ghost var t := s;
    ProgressStart(s, ops);
    while n < |ops|
      invariant n <= |ops| && Shows(b, t) && Progress(s, ops, n, t, replies) && Stray !in replies
    {
      ProgressStep(s, ops, n, t, replies);
      ghost var t' := After(t, ops[n]).0;
      var r := Perform(b, ops[n], t);
      if r == Stray {
        StrayChangesNothing(t, ops[n]);
        ProgressIs(s, ops, n, t, replies);
        return;
      }
      replies, t := replies + [r], t';
      n := n + 1;
    }
    ProgressIs(s, ops, n, t, replies);
  }

  /** n operations are done, which led from s to t with these replies. */
  ghost predicate Progress(s: State, ops: seq<PipeOp>, n: nat, t: State, replies: seq<Reply>) {
    && |s.q| <= PIPE_BUF && |t.q| <= PIPE_BUF && Proper(ops) && n <= |ops| && |replies| == n
    && t == StateAfter(s, ops[..n]) && Replies(s, ops) == replies + Replies(t, ops[n..])
  }

  lemma ProgressStart(s: State, ops: seq<PipeOp>)
    requires |s.q| <= PIPE_BUF && Proper(ops)
    ensures Progress(s, ops, 0, s, [])
  {
    assert ops[..0] == [] && ops[0..] == ops;
  }

  lemma ProgressStep(s: State, ops: seq<PipeOp>, n: nat, t: State, replies: seq<Reply>)
    requires Progress(s, ops, n, t, replies) && n < |ops|
    ensures |t.q| <= PIPE_BUF && ProperOp(ops[n]) && |s.q| <= PIPE_BUF
    ensures Progress(s, ops, n + 1, After(t, ops[n]).0, replies + [After(t, ops[n]).1]) && Replies(s, ops)[n] == After(t, ops[n]).1
  {
    hide After, Replies, StateAfter;
    OneStep(t, ops[n]);
    StateSnoc(s, ops, n);
    RepliesUnfold(t, ops, n);
    var r, rest := After(t, ops[n]).1, Replies(After(t, ops[n]).0, ops[n + 1..]);
    assert replies + ([r] + rest) == (replies + [r]) + rest;
  }

  lemma RepliesUnfold(t: State, ops: seq<PipeOp>, n: nat)
    requires |t.q| <= PIPE_BUF && Proper(ops) && n < |ops|
    ensures |After(t, ops[n]).0.q| <= PIPE_BUF && Replies(t, ops[n..]) == [After(t, ops[n]).1] + Replies(After(t, ops[n]).0, ops[n + 1..])
  {
    hide After;
    OneStep(t, ops[n]);
    assert ops[n..][0] == ops[n] && ops[n..][1..] == ops[n + 1..];
  }

  lemma ProgressIs(s: State, ops: seq<PipeOp>, n: nat, t: State, replies: seq<Reply>)
    requires Progress(s, ops, n, t, replies)
    ensures |s.q| <= PIPE_BUF && n <= |ops| && replies == Replies(s, ops)[..n] && t == StateAfter(s, ops[..n])
  {
  }

  lemma StrayChangesNothing(s: State, op: PipeOp)
    requires |s.q| <= PIPE_BUF && ProperOp(op) && After(s, op).1 == Stray
    ensures After(s, op).0 == s
  {
  }

  lemma {:induction false} StateSnoc(s: State, ops: seq<PipeOp>, n: nat)
    requires |s.q| <= PIPE_BUF && Proper(ops) && n < |ops|
    ensures StateAfter(s, ops[..n + 1]) == After(StateAfter(s, ops[..n]), ops[n]).0
    decreases n
  {
    hide After;
    OneStep(s, ops[0]);
    if n > 0 {
      StateSnoc(After(s, ops[0]).0, ops[1..], n - 1);
      assert ops[..n + 1][1..] == ops[1..][..n] && ops[..n][1..] == ops[1..][..n - 1];
    } else {
      assert ops[..1][1..] == [];
    }
  }
}
