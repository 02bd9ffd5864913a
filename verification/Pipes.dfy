/** Pipes with blocked threads (kernel/src/proc/pipe.c): a ring buffer per pipe, and one
    guarded wake pass over all threads after every change. */
module Pipes {
  import opened Bytes

  const EAGAIN: int := -11
  const EBADF: int := -9
  const EFAULT: int := -14
  const EPIPE: int := -32
  const PIPE_BUF: nat := 4096
  const PIPE_CAP: nat := 65536
  const PIPES: nat := 16

  datatype Pipe = Pipe(used: bool, hadWriter: bool, readers: nat, writers: nat, fifo: bool,
                       ring: seq<byte>, head: nat, len: nat, readOffset: nat, writeOffset: nat)

  ghost predicate PipeOk(p: Pipe) {
    |p.ring| == PIPE_CAP && p.head < PIPE_CAP && p.len <= PIPE_CAP
  }

  /** Ring position of the `k`-th byte from `head`. */
  function Pos(head: nat, k: nat): nat {
    if head + k < PIPE_CAP then head + k else head + k - PIPE_CAP
  }

  /** The bytes in the pipe, oldest first. */
  ghost function Contents(p: Pipe): (s: seq<byte>)
    requires PipeOk(p)
    ensures |s| == p.len
  {
    seq(p.len, k requires 0 <= k < p.len => p.ring[Pos(p.head, k)])
  }

  /** The same pipe except for its bytes. */
  ghost predicate SameEnds(p: Pipe, q: Pipe) {
    q.used == p.used && q.hadWriter == p.hadWriter && q.readers == p.readers && q.writers == p.writers &&
        q.fifo == p.fifo
  }

  lemma SameRing(p: Pipe, q: Pipe)
    requires PipeOk(p) && q.ring == p.ring && q.head == p.head && q.len == p.len
    ensures PipeOk(q) && Contents(q) == Contents(p)
  {
  }

  lemma WriteChunk(p: Pipe, chunk: seq<byte>)
    requires PipeOk(p) && p.len + |chunk| <= PIPE_CAP
    requires var tail := (p.head + p.len) % PIPE_CAP; tail + |chunk| <= PIPE_CAP
    ensures var tail := (p.head + p.len) % PIPE_CAP;
            var q := p.(ring := p.ring[..tail] + chunk + p.ring[tail + |chunk|..], len := p.len + |chunk|);
            PipeOk(q) && Contents(q) == Contents(p) + chunk
  {
    var tail := (p.head + p.len) % PIPE_CAP;
    assert p.len < PIPE_CAP ==> tail == Pos(p.head, p.len);
    var q := p.(ring := p.ring[..tail] + chunk + p.ring[tail + |chunk|..], len := p.len + |chunk|);
    forall k | 0 <= k < q.len
      ensures Contents(q)[k] == (Contents(p) + chunk)[k]
    {
      if k < p.len {
        assert Pos(p.head, k) < tail || tail + |chunk| <= Pos(p.head, k);
      } else {
        assert Pos(p.head, k) == tail + (k - p.len);
      }
    }
  }

  lemma ReadChunk(p: Pipe, n: nat)
    requires PipeOk(p) && n <= p.len && p.head + n <= PIPE_CAP
    ensures var q := p.(head := (p.head + n) % PIPE_CAP, len := p.len - n);
            PipeOk(q) && Contents(p) == p.ring[p.head..p.head + n] + Contents(q)
  {
    var q := p.(head := (p.head + n) % PIPE_CAP, len := p.len - n);
    var s := p.ring[p.head..p.head + n] + Contents(q);
    forall k | 0 <= k < p.len
      ensures Contents(p)[k] == s[k]
    {
      if n <= k {
        assert Pos(q.head, k - n) == Pos(p.head, k);
      }
    }
  }

  /** The copy loop of a write: chunks end at the ring's end and at page boundaries. */
  method Push(p: Pipe, src: seq<byte>) returns (q: Pipe)
    requires PipeOk(p) && p.len + |src| <= PIPE_CAP
    ensures PipeOk(q) && SameEnds(p, q) && Contents(q) == Contents(p) + src
    ensures q.readOffset == p.readOffset && q.writeOffset == p.writeOffset
  {
    hide Contents;
    q := p;
    var done := 0;
    assert src[..0] == [];
    while done < |src|
      invariant 0 <= done <= |src| && PipeOk(q) && SameEnds(p, q)
      invariant q.len == p.len + done && Contents(q) == Contents(p) + src[..done]
      invariant q.readOffset == p.readOffset && q.writeOffset == p.writeOffset
    {
      var tail := (q.head + q.len) % PIPE_CAP;
      var chunk := PIPE_CAP - tail;
      var pageRoom := 4096 - tail % 4096;
      if chunk > pageRoom { chunk := pageRoom; }
      if chunk > |src| - done { chunk := |src| - done; }
      WriteChunk(q, src[done..done + chunk]);
      q := q.(ring := q.ring[..tail] + src[done..done + chunk] + q.ring[tail + chunk..], len := q.len + chunk);
      assert src[..done] + src[done..done + chunk] == src[..done + chunk];
      done := done + chunk;
    }
    assert src[..done] == src;
  }

  /** The copy loop of a read. */
  method Pull(p: Pipe, n: nat) returns (q: Pipe, out: seq<byte>)
    requires PipeOk(p) && n <= p.len
    ensures PipeOk(q) && SameEnds(p, q) && |out| == n && Contents(p) == out + Contents(q)
    ensures q.readOffset == p.readOffset && q.writeOffset == p.writeOffset
  {
    hide Contents;
    q := p;
    out := [];
    while |out| < n
      invariant |out| <= n && PipeOk(q) && SameEnds(p, q) && q.len == p.len - |out|
      invariant Contents(p) == out + Contents(q)
      invariant q.readOffset == p.readOffset && q.writeOffset == p.writeOffset
      decreases n - |out|
    {
      var chunk := PIPE_CAP - q.head;
      var pageRoom := 4096 - q.head % 4096;
      if chunk > pageRoom { chunk := pageRoom; }
      if chunk > n - |out| { chunk := n - |out|; }
      ReadChunk(q, chunk);
      ghost var before := out;
      var piece := q.ring[q.head..q.head + chunk];
      out := out + piece;
      q := q.(head := (q.head + chunk) % PIPE_CAP, len := q.len - chunk);
      assert before + (piece + Contents(q)) == out + Contents(q);
    }
  }

  // ---------------------------------------------------------------- threads

  datatype Request = ReadReq(pipe: nat, len: nat) | WriteReq(pipe: nat, data: seq<byte>)

  /** A thread blocked on a pipe, or one whose last request was completed by the wake pass. */
  datatype Thread = Free | Blocked(req: Request) | Completed(rc: int, out: seq<byte>)

  function Least(a: int, b: int): int {
    if a < b then a else b
  }

  predicate Usable(pipes: seq<Pipe>, id: nat) {
    id < |pipes| && pipes[id].used
  }

  /** No byte will ever come: every writer is gone, and for a FIFO there was one. */
  predicate AtEof(p: Pipe) {
    p.writers == 0 && (!p.fifo || p.hadWriter)
  }

  /** A write of `n` bytes must wait: the pipe is full, or the write is atomic and does not fit. */
  predicate MustWait(p: Pipe, n: nat) {
    p.len >= PIPE_CAP || (n <= PIPE_BUF && PIPE_CAP - p.len < n)
  }

  /** The request would be answered now, with bytes or with an error. */
  predicate CanProgress(pipes: seq<Pipe>, r: Request) {
    match r
    case ReadReq(id, n) => n == 0 || !Usable(pipes, id) || pipes[id].len > 0 || AtEof(pipes[id])
    case WriteReq(id, data) =>
      data == [] || !Usable(pipes, id) || pipes[id].readers == 0 || !MustWait(pipes[id], |data|)
  }

  predicate Stuck(pipes: seq<Pipe>, t: Thread) {
    t.Blocked? ==> !CanProgress(pipes, t.req)
  }

  /** No blocked thread could make progress. */
  ghost predicate Quiet(pipes: seq<Pipe>, threads: seq<Thread>) {
    forall k :: 0 <= k < |threads| ==> Stuck(pipes, threads[k])
  }

  predicate Opposed(t: Thread, u: Thread) {
    t.Blocked? && u.Blocked? && t.req.ReadReq? && u.req.WriteReq? && t.req.pipe == u.req.pipe
  }

  /** No pipe has both a blocked reader and a blocked writer. */
  ghost predicate OneSided(threads: seq<Thread>) {
    forall k, l :: 0 <= k < |threads| && 0 <= l < |threads| ==> !Opposed(threads[k], threads[l])
  }

  /** A reader waits on an empty pipe, a writer on one that is nearly full. */
  lemma QuietIsOneSided(pipes: seq<Pipe>, threads: seq<Thread>)
    requires Quiet(pipes, threads)
    ensures OneSided(threads)
  {
    forall k, l | 0 <= k < |threads| && 0 <= l < |threads|
      ensures !Opposed(threads[k], threads[l])
    {
      assert Stuck(pipes, threads[k]) && Stuck(pipes, threads[l]);
    }
  }

  /** What a write or a read does to the table: bytes move on one pipe. */
  ghost predicate BytesMoved(pipes: seq<Pipe>, pipes': seq<Pipe>, id: nat) {
    |pipes'| == |pipes| && id < |pipes| && SameEnds(pipes[id], pipes'[id])
    && forall q :: 0 <= q < |pipes| && q != id ==> pipes'[q] == pipes[q]
  }

  /** Nothing moved, or one request that could progress moved bytes its way. */
  ghost predicate OneServed(pipes: seq<Pipe>, pipes': seq<Pipe>, r: Request) {
    pipes' == pipes || (BytesMoved(pipes, pipes', r.pipe) && CanProgress(pipes, r) && pipes[r.pipe].used
                        && if r.WriteReq? then pipes[r.pipe].len <= pipes'[r.pipe].len else pipes[r.pipe].len > 0)
  }

  /** A thread that was stuck stays stuck while the pass serves others of its own kind: a write
      takes room away, and a read that got bytes or end-of-file proves no reader was stuck. */
  lemma StaysStuck(pipes: seq<Pipe>, pipes': seq<Pipe>, threads: seq<Thread>, k: nat, i: nat)
    requires k < |threads| && i < |threads| && threads[i].Blocked? && OneSided(threads) && Stuck(pipes, threads[k])
    requires OneServed(pipes, pipes', threads[i].req)
    ensures Stuck(pipes', threads[k])
  {
    assert !Opposed(threads[k], threads[i]) && !Opposed(threads[i], threads[k]);
  }

  /** Reads so far followed by the bytes in the pipe are the writes so far. */
  ghost predicate Fifo(p: Pipe, sent: seq<byte>, received: seq<byte>) {
    && PipeOk(p)
    && sent == received + Contents(p)
    && |sent| == p.writeOffset && |received| == p.readOffset
  }

  ghost predicate Faithful(pipes: seq<Pipe>, sent: seq<seq<byte>>, received: seq<seq<byte>>) {
    && |pipes| == |sent| == |received| == PIPES
    && (forall id :: 0 <= id < PIPES ==> Fifo(pipes[id], sent[id], received[id]))
  }

  /** Histories only grow. */
  ghost predicate Grew(sent: seq<seq<byte>>, received: seq<seq<byte>>, sent': seq<seq<byte>>,
      received': seq<seq<byte>>) {
    && |sent'| == |sent| && |received'| == |received|
    && (forall id :: 0 <= id < |sent| ==> sent[id] <= sent'[id])
    && (forall id :: 0 <= id < |received| ==> received[id] <= received'[id])
  }

  lemma GrewTransitive(s: seq<seq<byte>>, r: seq<seq<byte>>, s1: seq<seq<byte>>, r1: seq<seq<byte>>,
      s2: seq<seq<byte>>, r2: seq<seq<byte>>)
    requires Grew(s, r, s1, r1) && Grew(s1, r1, s2, r2)
    ensures Grew(s, r, s2, r2)
  {
  }

  lemma GrewRefl(s: seq<seq<byte>>, r: seq<seq<byte>>)
    ensures Grew(s, r, s, r)
  {
  }

  lemma GrewAt(s: seq<seq<byte>>, r: seq<seq<byte>>, s': seq<seq<byte>>, r': seq<seq<byte>>, id: nat)
    requires Grew(s, r, s', r')
    ensures |s'| == |s| && |r'| == |r| && (id < |s| ==> s[id] <= s'[id]) && (id < |r| ==> r[id] <= r'[id])
  {
  }

  lemma Sent(pipes: seq<Pipe>, sent: seq<seq<byte>>, received: seq<seq<byte>>, id: nat, q: Pipe, bytes: seq<byte>)
    requires Faithful(pipes, sent, received) && id < PIPES
    requires PipeOk(q) && Contents(q) == Contents(pipes[id]) + bytes
    requires q.writeOffset == pipes[id].writeOffset + |bytes| && q.readOffset == pipes[id].readOffset
    ensures Faithful(pipes[id := q], sent[id := sent[id] + bytes], received)
    ensures Grew(sent, received, sent[id := sent[id] + bytes], received)
  {
    hide Contents;
    assert Fifo(pipes[id], sent[id], received[id]);
    assert received[id] + (Contents(pipes[id]) + bytes) == (received[id] + Contents(pipes[id])) + bytes;
  }

  lemma Received(pipes: seq<Pipe>, sent: seq<seq<byte>>, received: seq<seq<byte>>, id: nat, q: Pipe, bytes: seq<byte>)
    requires Faithful(pipes, sent, received) && id < PIPES
    requires PipeOk(q) && Contents(pipes[id]) == bytes + Contents(q)
    requires q.readOffset == pipes[id].readOffset + |bytes| && q.writeOffset == pipes[id].writeOffset
    ensures Faithful(pipes[id := q], sent, received[id := received[id] + bytes])
    ensures Grew(sent, received, sent, received[id := received[id] + bytes])
  {
    hide Contents;
    assert Fifo(pipes[id], sent[id], received[id]);
    assert received[id] + (bytes + Contents(q)) == (received[id] + bytes) + Contents(q);
  }

  lemma FaithfulAt(pipes: seq<Pipe>, sent: seq<seq<byte>>, received: seq<seq<byte>>)
    requires Faithful(pipes, sent, received)
    ensures |pipes| == |sent| == |received| == PIPES && forall id :: 0 <= id < PIPES ==> PipeOk(pipes[id])
  {
  }

  // ---------------------------------------------------------------- what a call is answered

  /** Somewhere past `before`, the history `after` holds these bytes. */
  predicate HeldAt(before: seq<byte>, after: seq<byte>, bytes: seq<byte>, i: nat) {
    |before| <= i && i + |bytes| <= |after| && after[i..i + |bytes|] == bytes
  }

  ghost predicate Delivered(before: seq<byte>, after: seq<byte>, bytes: seq<byte>) {
    exists i: nat :: HeldAt(before, after, bytes, i)
  }

  /** The histories of all pipes, and whether user memory and free pages never fail a call. */
  datatype Histories = Histories(sent: seq<seq<byte>>, received: seq<seq<byte>>, reliable: bool)

  /** A truthful answer to a request: bytes counted as written or read did enter or leave the pipe,
      end of file and errors are reported only where they hold. */
  ghost predicate Answer(pipes: seq<Pipe>, r: Request, rc: int, out: seq<byte>, h: Histories, h': Histories) {
    && rc != EAGAIN
    && match r
       case WriteReq(id, data) =>
         || (rc == 0 && data == [])
         || (rc == EFAULT && !h.reliable)
         || (rc == EBADF && !Usable(pipes, id))
         || (rc == EPIPE && Usable(pipes, id) && pipes[id].readers == 0)
         || (0 < rc <= |data| && (|data| <= PIPE_BUF ==> rc == |data|) && id < |h.sent| && id < |h'.sent| &&
             Delivered(h.sent[id], h'.sent[id], data[..rc]))
       case ReadReq(id, n) =>
         || (rc == 0 && out == [] && (n == 0 || (Usable(pipes, id) && AtEof(pipes[id]))))
         || (rc == EFAULT && !h.reliable)
         || (rc == EBADF && !Usable(pipes, id))
         || (0 < rc == |out| <= n && id < |h.received| && id < |h'.received| &&
             Delivered(h.received[id], h'.received[id], out))
  }

  /** A thread is as it was, or its request was answered. */
  ghost predicate Served(pipes: seq<Pipe>, t: Thread, t': Thread, h: Histories, h': Histories) {
    t' == t || (t.Blocked? && t'.Completed? && Answer(pipes, t.req, t'.rc, t'.out, h, h'))
  }

  ghost predicate AllServed(pipes: seq<Pipe>, threads: seq<Thread>, threads': seq<Thread>, h: Histories,
      h': Histories) {
    |threads'| == |threads| && forall k: nat :: k < |threads| ==> Served(pipes, threads[k], threads'[k], h, h')
  }

  /** No end was opened or closed, no pipe made or destroyed. */
  ghost predicate EndsKept(pipes: seq<Pipe>, pipes': seq<Pipe>) {
    |pipes'| == |pipes| && forall q :: 0 <= q < |pipes| ==> SameEnds(pipes[q], pipes'[q])
  }

  lemma EndsTrans(a: seq<Pipe>, b: seq<Pipe>, c: seq<Pipe>)
    requires EndsKept(a, b) && EndsKept(b, c)
    ensures EndsKept(a, c)
  {
  }

  lemma EndsRefl(a: seq<Pipe>)
    ensures EndsKept(a, a)
  {
  }

  ghost predicate Later(h: Histories, h': Histories) {
    h'.reliable == h.reliable && Grew(h.sent, h.received, h'.sent, h'.received)
  }

  lemma DeliveredLonger(a: seq<byte>, b: seq<byte>, c: seq<byte>, d: seq<byte>, bytes: seq<byte>)
    requires Delivered(b, c, bytes) && a <= b && c <= d
    ensures Delivered(a, d, bytes)
  {
    var i: nat :| HeldAt(b, c, bytes, i);
    assert d[i..i + |bytes|] == c[i..i + |bytes|];
    assert HeldAt(a, d, bytes, i);
  }

  /** An answer stays truthful: from an earlier beginning, to a later end, and whatever bytes move. */
  lemma AnswerStays(pipes: seq<Pipe>, pipes': seq<Pipe>, r: Request, rc: int, out: seq<byte>, a: Histories,
      b: Histories, c: Histories, d: Histories)
    requires Answer(pipes, r, rc, out, b, c) && EndsKept(pipes, pipes') && Later(a, b) && Later(c, d)
    ensures Answer(pipes', r, rc, out, a, d)
  {
    hide Delivered;
    match r
    case WriteReq(id, data) =>
      if 0 < rc <= |data| && id < |b.sent| && id < |c.sent| && Delivered(b.sent[id], c.sent[id], data[..rc]) {
        DeliveredLonger(a.sent[id], b.sent[id], c.sent[id], d.sent[id], data[..rc]);
      }
    case ReadReq(id, n) =>
      if 0 < rc == |out| <= n && id < |b.received| && id < |c.received| &&
          Delivered(b.received[id], c.received[id], out) {
        DeliveredLonger(a.received[id], b.received[id], c.received[id], d.received[id], out);
      }
  }

  lemma ServedStays(pipes: seq<Pipe>, pipes': seq<Pipe>, threads: seq<Thread>, threads': seq<Thread>, a: Histories,
      b: Histories, c: Histories)
    requires AllServed(pipes, threads, threads', b, c) && EndsKept(pipes, pipes') && Later(a, b)
    ensures AllServed(pipes', threads, threads', a, c)
  {
    hide Answer, Later, EndsKept;
    LaterRefl(c);
    forall k: nat | k < |threads|
      ensures Served(pipes', threads[k], threads'[k], a, c)
    {
      assert Served(pipes, threads[k], threads'[k], b, c);
      if threads'[k] != threads[k] {
        AnswerStays(pipes, pipes', threads[k].req, threads'[k].rc, threads'[k].out, a, b, c, c);
      }
    }
  }

  lemma LaterRefl(h: Histories)
    ensures Later(h, h)
  {
  }

  lemma SentAnswer(pipes: seq<Pipe>, id: nat, data: seq<byte>, n: nat, h: Histories)
    requires 0 < n <= |data| && id < |h.sent| && (|data| <= PIPE_BUF ==> n == |data|)
    ensures Answer(pipes, WriteReq(id, data), n, [], h, h.(sent := h.sent[id := h.sent[id] + data[..n]]))
  {
    assert HeldAt(h.sent[id], h.sent[id] + data[..n], data[..n], |h.sent[id]|);
  }

  lemma ReceivedAnswer(pipes: seq<Pipe>, id: nat, n: nat, out: seq<byte>, h: Histories)
    requires 0 < |out| <= n && id < |h.received|
    ensures Answer(pipes, ReadReq(id, n), |out|, out, h, h.(received := h.received[id := h.received[id] + out]))
  {
    assert HeldAt(h.received[id], h.received[id] + out, out, |h.received[id]|);
  }

  lemma OneMoves(pipes: seq<Pipe>, id: nat, q: Pipe)
    requires id < |pipes| && SameEnds(pipes[id], q)
    ensures EndsKept(pipes, pipes[id := q])
  {
  }

  lemma RingFits(p: Pipe)
    requires PipeOk(p)
    ensures p.len <= PIPE_CAP
  {
  }

  /** The answers that move no byte. */
  lemma Refused(pipes: seq<Pipe>, r: Request, rc: int, h: Histories)
    requires || (rc == EFAULT && !h.reliable) || (rc == EBADF && !Usable(pipes, r.pipe))
             || (r.WriteReq? && ((rc == 0 && r.data == []) ||
                 (rc == EPIPE && Usable(pipes, r.pipe) && pipes[r.pipe].readers == 0)))
             || (r.ReadReq? && rc == 0 && (r.len == 0 || (Usable(pipes, r.pipe) && AtEof(pipes[r.pipe]))))
    ensures Answer(pipes, r, rc, [], h, h)
  {
  }

  lemma NothingServed(pipes: seq<Pipe>, threads: seq<Thread>, h: Histories)
    ensures EndsKept(pipes, pipes) && AllServed(pipes, threads, threads, h, h)
  {
  }

  /** A call's own answer and those of the threads it woke, together. */
  lemma AfterMove(p0: seq<Pipe>, p1: seq<Pipe>, p2: seq<Pipe>, threads: seq<Thread>, threads': seq<Thread>,
      r: Request, rc: int, out: seq<byte>, h0: Histories, h1: Histories, h2: Histories)
    requires EndsKept(p0, p1) && EndsKept(p1, p2) && Answer(p0, r, rc, out, h0, h1) && Later(h0, h1) && Later(h1, h2)
    requires AllServed(p2, threads, threads', h1, h2)
    ensures EndsKept(p0, p2) && Answer(p2, r, rc, out, h0, h2) && AllServed(p2, threads, threads', h0, h2)
  {
    hide EndsKept, Answer, AllServed, Later;
    EndsTrans(p0, p1, p2);
    LaterRefl(h0);
    AnswerStays(p0, p2, r, rc, out, h0, h0, h1, h2);
    EndsRefl(p2);
    ServedStays(p2, p2, threads, threads', h0, h1, h2);
  }

  lemma ServeNone(p0: seq<Pipe>, p1: seq<Pipe>, p2: seq<Pipe>, threads: seq<Thread>, threads': seq<Thread>,
      h0: Histories, h1: Histories, h2: Histories)
    requires EndsKept(p0, p1) && EndsKept(p1, p2) && Later(h0, h1) && Later(h1, h2) &&
             AllServed(p1, threads, threads', h0, h1)
    ensures EndsKept(p0, p2) && AllServed(p2, threads, threads', h0, h2)
  {
    hide EndsKept, Answer, Later;
    EndsTrans(p0, p1, p2);
    LaterRefl(h0);
    forall k: nat | k < |threads|
      ensures Served(p2, threads[k], threads'[k], h0, h2)
    {
      assert Served(p1, threads[k], threads'[k], h0, h1);
      if threads'[k] != threads[k] {
        AnswerStays(p1, p2, threads[k].req, threads'[k].rc, threads'[k].out, h0, h0, h1, h2);
      }
    }
  }

  /** One more thread of a wake pass answered. */
  lemma ServeOne(p0: seq<Pipe>, p1: seq<Pipe>, p2: seq<Pipe>, threads: seq<Thread>, threads': seq<Thread>, i: nat,
      rc: int, out: seq<byte>, h0: Histories, h1: Histories, h2: Histories)
    requires EndsKept(p0, p1) && EndsKept(p1, p2) && Later(h0, h1) && Later(h1, h2) &&
             AllServed(p1, threads, threads', h0, h1)
    requires i < |threads| == |threads'| && threads[i].Blocked? && Answer(p2, threads[i].req, rc, out, h1, h2)
    ensures EndsKept(p0, p2) && AllServed(p2, threads, threads'[i := Completed(rc, out)], h0, h2)
  {
    hide EndsKept, Answer, Later;
    ServeNone(p0, p1, p2, threads, threads', h0, h1, h2);
    LaterRefl(h2);
    EndsRefl(p2);
    AnswerStays(p2, p2, threads[i].req, rc, out, h0, h1, h2, h2);
    forall k: nat | k < |threads|
      ensures Served(p2, threads[k], threads'[i := Completed(rc, out)][k], h0, h2)
    {
      assert Served(p2, threads[k], threads'[k], h0, h2);
    }
  }

  class PipeTable {
    var pipes: seq<Pipe>
    var threads: seq<Thread>
    var waking: bool
    /** No call names an unmapped user range, and there are pages for every pipe. */
    const reliable: bool
    /** Everything written to and read from each pipe since it was created. */
    ghost var sent: seq<seq<byte>>
    ghost var received: seq<seq<byte>>

    ghost predicate Valid()
      reads this
    {
      Faithful(pipes, sent, received)
    }

    ghost function H(): Histories
      reads this
    {
      Histories(sent, received, reliable)
    }

    constructor (threadCount: nat, reliable: bool)
      ensures Valid() && !waking && Quiet(pipes, threads) && |threads| == threadCount && this.reliable == reliable
    {
      this.reliable := reliable;
      pipes := seq(PIPES, _ => Pipe(false, false, 0, 0, false, seq(PIPE_CAP, _ => 0), 0, 0, 0, 0));
      threads := seq(threadCount, _ => Free);
      waking := false;
      sent := seq(PIPES, _ => []);
      received := seq(PIPES, _ => []);
    }

    /** A write with the wake pass after it. EAGAIN exactly when the request must wait; a write of
        at most PIPE_BUF bytes is taken whole or not at all. */
    method Write(id: nat, data: seq<byte>) returns (rc: int)
      requires Valid() && (waking || OneSided(threads))
      modifies this
      ensures Valid() && waking == old(waking) && |threads| == |old(threads)| &&
              Grew(old(sent), old(received), sent, received)
      ensures rc == EAGAIN <==> !CanProgress(old(pipes), WriteReq(id, data))
      ensures rc != EAGAIN ==> Answer(pipes, WriteReq(id, data), rc, [], old(H()), H())
      ensures EndsKept(old(pipes), pipes) && AllServed(pipes, old(threads), threads, old(H()), H())
      ensures rc <= 0 ==>
                pipes == old(pipes) && threads == old(threads) && sent == old(sent) && received == old(received)
      ensures rc > 0 ==> Usable(old(pipes), id) && rc == Least(|data|, PIPE_CAP - old(pipes)[id].len)
      ensures rc > 0 ==> rc <= |data| && old(sent)[id] + data[..rc] <= sent[id]
      ensures rc > 0 && |data| <= PIPE_BUF ==> rc == |data|
      ensures waking && rc > 0 ==> threads == old(threads) && BytesMoved(old(pipes), pipes, id)
                                   && pipes[id].len == old(pipes)[id].len + rc
      ensures !waking && rc > 0 ==> Quiet(pipes, threads)
      decreases if waking then 0 else 1, 3
    {
      hide Faithful, Grew, Quiet, OneSided, Contents, EndsKept, AllServed, Delivered, Answer, PipeOk;
      FaithfulAt(pipes, sent, received);
      GrewRefl(sent, received);
      NothingServed(pipes, threads, H());
      if |data| == 0 {
        Refused(pipes, WriteReq(id, data), 0, H());
        return 0;
      }
      if id >= PIPES || !pipes[id].used {
        Refused(pipes, WriteReq(id, data), EBADF, H());
        return EBADF;
      }
      var p := pipes[id];
      RingFits(p);
      if p.readers == 0 {
        Refused(pipes, WriteReq(id, data), EPIPE, H());
        return EPIPE;
      }
      var room := PIPE_CAP - p.len;
      if room == 0 || (|data| <= PIPE_BUF && room < |data|) {
        return EAGAIN;
      }
      var target := if |data| < room then |data| else room;
      var fault: bool := *;
      if fault && !reliable {
        Refused(pipes, WriteReq(id, data), EFAULT, H());
        return EFAULT;
      }
      Deposit(id, data, target);
      return target;
    }

    /** The copy and the wake pass of a write that was admitted. */
    method Deposit(id: nat, data: seq<byte>, target: nat)
      requires Valid() && (waking || OneSided(threads)) && id < PIPES == |pipes| && PipeOk(pipes[id])
      requires 0 < target <= |data| && pipes[id].len + target <= PIPE_CAP && (|data| <= PIPE_BUF ==> target == |data|)
      modifies this
      ensures Valid() && waking == old(waking) && |threads| == |old(threads)| &&
              Grew(old(sent), old(received), sent, received)
      ensures Answer(pipes, WriteReq(id, data), target, [], old(H()), H())
      ensures EndsKept(old(pipes), pipes) && AllServed(pipes, old(threads), threads, old(H()), H())
      ensures id < |old(sent)| && id < |sent| && old(sent)[id] + data[..target] <= sent[id]
      ensures waking ==>
                threads == old(threads) && BytesMoved(old(pipes), pipes, id) &&
                pipes[id].len == old(pipes)[id].len + target
      ensures !waking ==> Quiet(pipes, threads)
      decreases if waking then 0 else 1, 2
    {
      hide Faithful, Grew, Quiet, OneSided, Contents, EndsKept, AllServed, Delivered, Answer;
      FaithfulAt(pipes, sent, received);
      var p := pipes[id];
      var q := Push(p, data[..target]);
      SameRing(q, q.(writeOffset := q.writeOffset + target));
      q := q.(writeOffset := q.writeOffset + target);
      Sent(pipes, sent, received, id, q, data[..target]);
      OneMoves(pipes, id, q);
      SentAnswer(pipes, id, data, target, H());
      pipes := pipes[id := q];
      sent := sent[id := sent[id] + data[..target]];
      ghost var s1, r1, h1, p1 := sent, received, H(), pipes;
      Notify();
      GrewTransitive(old(sent), old(received), s1, r1, sent, received);
      GrewAt(s1, r1, sent, received, id);
      AfterMove(old(pipes), p1, pipes, old(threads), threads, WriteReq(id, data), target, [], old(H()), h1, H());
    }

    /** A read with the wake pass after it. EAGAIN exactly when the request must wait; 0 is end of
        file; otherwise the oldest bytes of the pipe. */
    method Read(id: nat, n: nat) returns (rc: int, out: seq<byte>)
      requires Valid() && (waking || OneSided(threads))
      modifies this
      ensures Valid() && waking == old(waking) && |threads| == |old(threads)| &&
              Grew(old(sent), old(received), sent, received)
      ensures rc == EAGAIN <==> !CanProgress(old(pipes), ReadReq(id, n))
      ensures rc != EAGAIN ==> Answer(pipes, ReadReq(id, n), rc, out, old(H()), H())
      ensures EndsKept(old(pipes), pipes) && AllServed(pipes, old(threads), threads, old(H()), H())
      ensures rc <= 0 ==>
                pipes == old(pipes) && threads == old(threads) && sent == old(sent) && received == old(received)
      ensures rc > 0 ==> rc == |out| <= n && Usable(old(pipes), id) && old(received)[id] + out <= received[id]
      ensures rc > 0 ==> PipeOk(old(pipes)[id]) && out <= Contents(old(pipes)[id]) && rc == Least(n, old(pipes)[id].len)
      ensures waking && rc > 0 ==>
                threads == old(threads) && BytesMoved(old(pipes), pipes, id) && 0 < old(pipes)[id].len
      ensures !waking && rc > 0 ==> Quiet(pipes, threads)
      decreases if waking then 0 else 1, 3
    {
      hide Faithful, Grew, Quiet, OneSided, Contents, EndsKept, AllServed, Delivered, Answer;
      FaithfulAt(pipes, sent, received);
      GrewRefl(sent, received);
      NothingServed(pipes, threads, H());
      out := [];
      if n == 0 {
        Refused(pipes, ReadReq(id, n), 0, H());
        return 0, [];
      }
      if id >= PIPES || !pipes[id].used {
        Refused(pipes, ReadReq(id, n), EBADF, H());
        return EBADF, [];
      }
      var p := pipes[id];
      var target := if n < p.len then n else p.len;
      if target == 0 {
        if p.writers == 0 && (!p.fifo || p.hadWriter) {
          Refused(pipes, ReadReq(id, n), 0, H());
          return 0, [];
        }
        return EAGAIN, [];
      }
      var fault: bool := *;
      if fault && !reliable {
        Refused(pipes, ReadReq(id, n), EFAULT, H());
        return EFAULT, [];
      }
      out := Withdraw(id, n, target);
      rc := target;
    }

    /** The copy and the wake pass of a read that found bytes. */
    method Withdraw(id: nat, n: nat, target: nat) returns (out: seq<byte>)
      requires Valid() && (waking || OneSided(threads)) && id < PIPES == |pipes| && PipeOk(pipes[id])
      requires 0 < target <= n && target <= pipes[id].len
      modifies this
      ensures Valid() && waking == old(waking) && |threads| == |old(threads)| &&
              Grew(old(sent), old(received), sent, received)
      ensures Answer(pipes, ReadReq(id, n), target, out, old(H()), H())
      ensures EndsKept(old(pipes), pipes) && AllServed(pipes, old(threads), threads, old(H()), H())
      ensures |out| == target && id < |old(received)| && id < |received| && old(received)[id] + out <= received[id]
      ensures out <= Contents(old(pipes)[id])
      ensures waking ==> threads == old(threads) && BytesMoved(old(pipes), pipes, id)
      ensures !waking ==> Quiet(pipes, threads)
      decreases if waking then 0 else 1, 2
    {
      hide Faithful, Grew, Quiet, OneSided, Contents, EndsKept, AllServed, Delivered, Answer;
      FaithfulAt(pipes, sent, received);
      var p := pipes[id];
      var q;
      q, out := Pull(p, target);
      SameRing(q, q.(readOffset := q.readOffset + target));
      q := q.(readOffset := q.readOffset + target);
      Received(pipes, sent, received, id, q, out);
      OneMoves(pipes, id, q);
      ReceivedAnswer(pipes, id, n, out, H());
      pipes := pipes[id := q];
      received := received[id := received[id] + out];
      ghost var s1, r1, h1, p1 := sent, received, H(), pipes;
      Notify();
      GrewTransitive(old(sent), old(received), s1, r1, sent, received);
      GrewAt(s1, r1, sent, received, id);
      AfterMove(old(pipes), p1, pipes, old(threads), threads, ReadReq(id, n), target, out, old(H()), h1, H());
    }

    method Notify()
      requires Valid() && (waking || OneSided(threads))
      modifies this
      ensures Valid() && waking == old(waking) && |threads| == |old(threads)| &&
              Grew(old(sent), old(received), sent, received)
      ensures waking ==>
                pipes == old(pipes) && threads == old(threads) && sent == old(sent) && received == old(received)
      ensures !waking ==> Quiet(pipes, threads)
      ensures EndsKept(old(pipes), pipes) && AllServed(pipes, old(threads), threads, old(H()), H())
      decreases if waking then 0 else 1, 1
    {
      WakeWaiters();
    }

    /** A blocked request tried again during a wake pass. */
    method Retry(r: Request) returns (rc: int, out: seq<byte>)
      requires Valid() && waking
      modifies this
      ensures Valid() && waking && threads == old(threads) && Later(old(H()), H()) && EndsKept(old(pipes), pipes)
      ensures rc == EAGAIN <==> !CanProgress(old(pipes), r)
      ensures rc == EAGAIN ==> pipes == old(pipes)
      ensures rc != EAGAIN ==> Answer(pipes, r, rc, out, old(H()), H())
      ensures OneServed(old(pipes), pipes, r)
      decreases 0, 4
    {
      hide Faithful, Grew, Contents, EndsKept, AllServed, Answer, CanProgress;
      match r {
        case WriteReq(id, data) => rc := Write(id, data); out := [];
        case ReadReq(id, n) => rc, out := Read(id, n);
      }
    }

    /** The wake pass: one walk over all threads, during which further notifications do nothing.
        Afterwards no blocked thread could make progress. */
    method WakeWaiters()
      requires Valid() && (waking || OneSided(threads))
      modifies this
      ensures Valid() && waking == old(waking) && |threads| == |old(threads)| &&
              Grew(old(sent), old(received), sent, received)
      ensures waking ==>
                pipes == old(pipes) && threads == old(threads) && sent == old(sent) && received == old(received)
      ensures !waking ==> Quiet(pipes, threads)
      ensures EndsKept(old(pipes), pipes) && AllServed(pipes, old(threads), threads, old(H()), H())
      decreases if waking then 0 else 1, 0
    {
      hide CanProgress, Faithful, Grew, EndsKept, Answer, AllServed, OneServed;
      GrewRefl(sent, received);
      NothingServed(pipes, threads, H());
      if waking {
        return;
      }
      waking := true;
      var i := 0;
      while i < |threads|
        invariant 0 <= i <= |threads| == |old(threads)| && waking && Valid() &&
                  Grew(old(sent), old(received), sent, received)
        invariant EndsKept(old(pipes), pipes) && AllServed(pipes, old(threads), threads, old(H()), H())
        invariant forall k :: i <= k < |threads| ==> threads[k] == old(threads)[k]
        invariant OneSided(threads)
        invariant forall k :: 0 <= k < i ==> Stuck(pipes, threads[k])
      {
        if threads[i].Blocked? {
          ghost var pipes0, s0, r0, h0 := pipes, sent, received, H();
          var rc, out := Retry(threads[i].req);
          GrewTransitive(old(sent), old(received), s0, r0, sent, received);
          if rc != EAGAIN {
            forall k | 0 <= k < i
              ensures Stuck(pipes, threads[k])
            {
              StaysStuck(pipes0, pipes, threads, k, i);
            }
            ServeOne(old(pipes), pipes0, pipes, old(threads), threads, i, rc, out, old(H()), h0, H());
            threads := threads[i := Completed(rc, out)];
          } else {
            ServeNone(old(pipes), pipes0, pipes, old(threads), threads, old(H()), h0, H());
          }
        }
        i := i + 1;
      }
      waking := false;
    }

    // ------------------------------------------------------------ what threads and descriptors do

    /** A blocking write: answered at once, or the thread sleeps on a request that must wait. */
    method SysWrite(t: nat, id: nat, data: seq<byte>) returns (rc: int)
      requires Valid() && !waking && Quiet(pipes, threads) && t < |threads| && threads[t] == Free
      modifies this
      ensures Valid() && !waking && Quiet(pipes, threads) && |threads| == |old(threads)|
      ensures Grew(old(sent), old(received), sent, received) && EndsKept(old(pipes), pipes)
      ensures rc == EAGAIN <==> !CanProgress(old(pipes), WriteReq(id, data))
      ensures rc == EAGAIN ==> threads == old(threads)[t := Blocked(WriteReq(id, data))] && pipes == old(pipes)
      ensures rc != EAGAIN ==>
                Answer(pipes, WriteReq(id, data), rc, [], old(H()), H()) &&
                AllServed(pipes, old(threads), threads, old(H()), H())
    {
      hide Faithful, Grew, EndsKept, AllServed, Answer;
      QuietIsOneSided(pipes, threads);
      rc := Write(id, data);
      if rc == EAGAIN {
        threads := threads[t := Blocked(WriteReq(id, data))];
      }
    }

    /** A blocking read. */
    method SysRead(t: nat, id: nat, n: nat) returns (rc: int, out: seq<byte>)
      requires Valid() && !waking && Quiet(pipes, threads) && t < |threads| && threads[t] == Free
      modifies this
      ensures Valid() && !waking && Quiet(pipes, threads) && |threads| == |old(threads)|
      ensures Grew(old(sent), old(received), sent, received) && EndsKept(old(pipes), pipes)
      ensures rc == EAGAIN <==> !CanProgress(old(pipes), ReadReq(id, n))
      ensures rc == EAGAIN ==> threads == old(threads)[t := Blocked(ReadReq(id, n))] && pipes == old(pipes)
      ensures rc != EAGAIN ==>
                Answer(pipes, ReadReq(id, n), rc, out, old(H()), H()) &&
                AllServed(pipes, old(threads), threads, old(H()), H())
    {
      hide Faithful, Grew, EndsKept, AllServed, Answer;
      QuietIsOneSided(pipes, threads);
      rc, out := Read(id, n);
      if rc == EAGAIN {
        threads := threads[t := Blocked(ReadReq(id, n))];
      }
    }

    /** A thread collects its result, or is interrupted. */
    method Resume(t: nat)
      requires Valid() && !waking && Quiet(pipes, threads) && t < |threads|
      modifies this`threads
      ensures Valid() && Quiet(pipes, threads) && threads == old(threads)[t := Free]
    {
      threads := threads[t := Free];
    }

    /** A new empty pipe in the first unused slot, -1 when there is none or no memory for it. */
    method Create(fifo: bool) returns (id: int)
      requires Valid() && !waking && Quiet(pipes, threads)
      modifies this
      ensures Valid() && !waking && Quiet(pipes, threads) && threads == old(threads)
      ensures id < 0 ==> pipes == old(pipes) && (reliable ==> forall k :: 0 <= k < PIPES ==> old(pipes)[k].used)
      ensures id >= 0 ==> id < PIPES && !old(pipes)[id].used && forall k :: 0 <= k < id ==> old(pipes)[k].used
      ensures id >= 0 ==>
                pipes == old(pipes)[id := pipes[id]] && sent == old(sent)[id := []] &&
                received == old(received)[id := []]
      ensures id >= 0 ==>
                pipes[id].used && pipes[id].fifo == fifo && pipes[id].hadWriter == !fifo && pipes[id].len == 0 &&
                pipes[id].readers == 0 && pipes[id].writers == 0
    {
      hide Faithful;
      FaithfulAt(pipes, sent, received);
      var i := 0;
      while i < PIPES
        invariant 0 <= i <= PIPES
        invariant forall k :: 0 <= k < i ==> pipes[k].used
      {
        if !pipes[i].used {
          var short: bool := *;
          if short && !reliable {
            return -1;
          }
          var created := Pipe(true, !fifo, 0, 0, fifo, seq(PIPE_CAP, _ => 0), 0, 0, 0, 0);
          Renewed(pipes, sent, received, i, created);
          pipes := pipes[i := created];
          sent := sent[i := []];
          received := received[i := []];
          return i;
        }
        i := i + 1;
      }
      return -1;
    }

    /** Opening one more end, and the wake pass for whoever it concerns. */
    method Open(id: nat, writeEnd: bool)
      requires Valid() && !waking && Quiet(pipes, threads)
      modifies this
      ensures Valid() && !waking && Quiet(pipes, threads) && Grew(old(sent), old(received), sent, received)
      ensures EndsKept(Opened(old(pipes), id, writeEnd), pipes) &&
              AllServed(pipes, old(threads), threads, old(H()), H())
    {
      hide Faithful, Grew, EndsKept, AllServed;
      QuietIsOneSided(pipes, threads);
      FaithfulAt(pipes, sent, received);
      if id < PIPES && pipes[id].used {
        var q := if writeEnd then pipes[id].(writers := pipes[id].writers + 1, hadWriter := true)
                 else pipes[id].(readers := pipes[id].readers + 1);
        Relabelled(pipes, sent, received, id, q);
        pipes := pipes[id := q];
      }
      Notify();
    }

    /** `cell_pipe_release_file`: one end fewer, the pipe destroyed with its last end; then a wake
        pass, so nobody is left waiting for an end that is gone. */
    method Close(id: nat, writeEnd: bool)
      requires Valid() && !waking && Quiet(pipes, threads)
      modifies this
      ensures Valid() && !waking && Quiet(pipes, threads)
      ensures EndsKept(Closed(old(pipes), id, writeEnd), pipes)
      ensures AllServed(pipes, old(threads), threads, ClosedHistories(old(H()), old(pipes), id, writeEnd), H())
    {
      hide Faithful, Grew, EndsKept, AllServed, Closed, ClosedHistories;
      QuietIsOneSided(pipes, threads);
      DropEnd(id, writeEnd);
      Notify();
    }

    /** Closing a connected stream socket drops one end of each of its two pipes. */
    method CloseStream(rx: nat, tx: nat)
      requires Valid() && !waking && Quiet(pipes, threads)
      modifies this
      ensures Valid() && !waking && Quiet(pipes, threads)
      ensures EndsKept(Closed(Closed(old(pipes), rx, false), tx, true), pipes)
      ensures AllServed(pipes, old(threads), threads,
                ClosedHistories(ClosedHistories(old(H()), old(pipes), rx, false), Closed(old(pipes), rx, false), tx,
                    true), H())
    {
      hide Faithful, Grew, EndsKept, AllServed, Closed, ClosedHistories;
      QuietIsOneSided(pipes, threads);
      DropEnd(rx, false);
      DropEnd(tx, true);
      Notify();
    }

    method DropEnd(id: nat, writeEnd: bool)
      requires Valid() && !waking
      modifies this`pipes, this`sent, this`received
      ensures Valid() && pipes == Closed(old(pipes), id, writeEnd) &&
              H() == ClosedHistories(old(H()), old(pipes), id, writeEnd)
    {
      hide Faithful;
      FaithfulAt(pipes, sent, received);
      if id >= PIPES || !pipes[id].used {
        return;
      }
      var p := pipes[id];
      var q := if writeEnd then p.(writers := Less(p.writers)) else p.(readers := Less(p.readers));
      if q.readers == 0 && q.writers == 0 {
        Renewed(pipes, sent, received, id, NoPipe());
        pipes := pipes[id := NoPipe()];
        sent := sent[id := []];
        received := received[id := []];
      } else {
        Relabelled(pipes, sent, received, id, q);
        pipes := pipes[id := q];
      }
    }
  }

  function NoPipe(): Pipe {
    Pipe(false, false, 0, 0, false, seq(PIPE_CAP, _ => 0), 0, 0, 0, 0)
  }

  /** The table after one more end of a pipe is open. */
  function Opened(pipes: seq<Pipe>, id: nat, writeEnd: bool): seq<Pipe> {
    if !Usable(pipes, id) then pipes
    else if writeEnd then pipes[id := pipes[id].(writers := pipes[id].writers + 1, hadWriter := true)]
    else pipes[id := pipes[id].(readers := pipes[id].readers + 1)]
  }

  function EndDropped(p: Pipe, writeEnd: bool): Pipe {
    if writeEnd then p.(writers := Less(p.writers)) else p.(readers := Less(p.readers))
  }

  /** Closing this end leaves none. */
  predicate LastEnd(pipes: seq<Pipe>, id: nat, writeEnd: bool) {
    Usable(pipes, id) && EndDropped(pipes[id], writeEnd).readers == 0 && EndDropped(pipes[id], writeEnd).writers == 0
  }

  /** The table after an end of a pipe is closed. */
  function Closed(pipes: seq<Pipe>, id: nat, writeEnd: bool): seq<Pipe> {
    if !Usable(pipes, id) then pipes
    else if LastEnd(pipes, id, writeEnd) then pipes[id := NoPipe()]
    else pipes[id := EndDropped(pipes[id], writeEnd)]
  }

  ghost function ClosedHistories(h: Histories, pipes: seq<Pipe>, id: nat, writeEnd: bool): Histories {
    if LastEnd(pipes, id, writeEnd) && id < |h.sent| && id < |h.received|
    then h.(sent := h.sent[id := []], received := h.received[id := []]) else h
  }

  function Less(n: nat): nat {
    if n > 0 then n - 1 else 0
  }

  lemma Renewed(pipes: seq<Pipe>, sent: seq<seq<byte>>, received: seq<seq<byte>>, id: nat, q: Pipe)
    requires Faithful(pipes, sent, received) && id < PIPES
    requires PipeOk(q) && q.len == 0 && q.readOffset == 0 && q.writeOffset == 0
    ensures Faithful(pipes[id := q], sent[id := []], received[id := []])
  {
    assert Contents(q) == [];
  }

  lemma Relabelled(pipes: seq<Pipe>, sent: seq<seq<byte>>, received: seq<seq<byte>>, id: nat, q: Pipe)
    requires Faithful(pipes, sent, received) && id < PIPES
    requires q == pipes[id].(readers := q.readers, writers := q.writers, hadWriter := q.hadWriter)
    ensures Faithful(pipes[id := q], sent, received)
  {
    assert Fifo(pipes[id], sent[id], received[id]);
    SameRing(pipes[id], q);
  }

  /** In every state the methods keep, the reads are a prefix of the writes. */
  lemma ReadsArePrefixOfWrites(pipes: seq<Pipe>, sent: seq<seq<byte>>, received: seq<seq<byte>>, id: nat)
    requires Faithful(pipes, sent, received) && id < PIPES
    ensures received[id] <= sent[id] && |sent[id]| - |received[id]| == pipes[id].len
  {
    assert Fifo(pipes[id], sent[id], received[id]);
  }
}
