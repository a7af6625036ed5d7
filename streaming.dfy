/** Sending the bytes of a file: the fast handler's zero-copy loop over
    os.sendfile, its buffered fallback, and the download route's two
    generators. The file is its content; the kernel's sendfile is an oracle
    that answers each call with a byte count or an error. */
module Streaming {
  import opened Text

  /** The fast handler's chunk size: 4 MiB. */
  const CHUNK: nat := 4 * 1024 * 1024
  /** The download route's chunk size: 1 MiB. */
  const FLASK_CHUNK: nat := 1 * 1024 * 1024

  /** f.read(k) after seeking to `pos`: up to k bytes, fewer at the end of the
      file, none past it. */
  function ReadAt(content: string, pos: nat, k: nat): (data: string)
    ensures |data| <= k
    ensures pos < |content| && k > 0 ==> data != []
  {
    content[Min(pos, |content|)..Min(pos + k, |content|)]
  }

  /** The bytes of the file from `start` on, at most `length` of them. */
  function Slice(content: string, start: nat, length: int): string {
    content[Min(start, |content|)..Min(start + Max(length, 0), |content|)]
  }

  // ---------------------------------------------------------------------
  // Buffered copy (the fast handler's fallback and generate_partial)

  /** The chunks the loop "read min(chunk, remaining); stop on an empty read;
      send; remaining -= len" produces, reading from `pos`. */
  function BufferedFrom(content: string, pos: nat, remaining: int, chunk: nat): seq<string>
    requires chunk > 0
    decreases Max(remaining, 0)
  {
    if remaining <= 0 then []
    else
      var data := ReadAt(content, pos, Min(chunk, remaining));
      if data == [] then []
      else [data] + BufferedFrom(content, pos + |data|, remaining - |data|, chunk)
  }

  predicate ChunksBounded(chunks: seq<string>, chunk: nat) {
    forall i :: 0 <= i < |chunks| ==> 0 < |chunks[i]| <= chunk
  }

  /** The buffered loop sends exactly the requested bytes that the file has,
      in order. */
  lemma {:induction false} BufferedFromSlice(content: string, pos: nat, remaining: int, chunk: nat)
    requires chunk > 0
    ensures Concat(BufferedFrom(content, pos, remaining, chunk)) == Slice(content, pos, remaining)
  {
    SliceFrom(content, pos, remaining, chunk, BufferedFrom(content, pos, remaining, chunk));
  }

  lemma {:induction false} SliceFrom(content: string, pos: nat, remaining: int, chunk: nat, r: seq<string>)
    requires chunk > 0
    requires r == BufferedFrom(content, pos, remaining, chunk)
    ensures Concat(r) == Slice(content, pos, remaining)
    decreases Max(remaining, 0)
  {
    if remaining > 0 {
      var data := ReadAt(content, pos, Min(chunk, remaining));
      if data != [] {
        var rest := BufferedFrom(content, pos + |data|, remaining - |data|, chunk);
        assert r == [data] + rest;
        SliceFrom(content, pos + |data|, remaining - |data|, chunk, rest);
        SliceStep(content, pos, remaining, chunk, data, rest);
      }
    }
  }

  /** One piece read, then the rest of the slice. */
  lemma SliceStep(content: string, pos: nat, remaining: int, chunk: nat, data: string, rest: seq<string>)
    requires chunk > 0 && remaining > 0
    requires data == ReadAt(content, pos, Min(chunk, remaining))
    requires Concat(rest) == Slice(content, pos + |data|, remaining - |data|)
    ensures Concat([data] + rest) == Slice(content, pos, remaining)
  {
    ConcatCons(data, rest);
    SliceSplits(content, pos, remaining, Min(chunk, remaining));
  }

  lemma ConcatCons(data: string, rest: seq<string>)
    ensures Concat([data] + rest) == data + Concat(rest)
  {
    assert ([data] + rest)[1..] == rest;
  }

  /** Reading k bytes and then the rest covers the slice. */
  lemma SliceSplits(content: string, pos: nat, remaining: int, k: nat)
    requires 0 < k <= remaining
    ensures var data := ReadAt(content, pos, k);
            Slice(content, pos, remaining) == data + Slice(content, pos + |data|, remaining - |data|)
  {
  }

  /** The bytes the buffered loop sends from `pos`: exactly the requested
      bytes that the file has. */
  function BufferedBytes(content: string, pos: nat, remaining: int, chunk: nat): (out: string)
    requires chunk > 0
    ensures out == Slice(content, pos, remaining)
  {
    BufferedFromSlice(content, pos, remaining, chunk);
    Concat(BufferedFrom(content, pos, remaining, chunk))
  }

  /** The buffered loop's pieces are non-empty and at most `chunk` bytes. */
  lemma {:induction false} BufferedFromBounded(content: string, pos: nat, remaining: int, chunk: nat)
    requires chunk > 0
    ensures ChunksBounded(BufferedFrom(content, pos, remaining, chunk), chunk)
    decreases Max(remaining, 0)
  {
    if remaining > 0 {
      var data := ReadAt(content, pos, Min(chunk, remaining));
      if data != [] {
        BufferedFromBounded(content, pos + |data|, remaining - |data|, chunk);
      }
    }
  }

  /** The buffered loop as a loop: from `start`, `length` bytes in pieces of
      `chunk`. Returns the pieces sent and the final value of `remaining`. */
  method BufferedCopy(content: string, start: nat, length: int, chunk: nat)
    returns (chunks: seq<string>, remaining: int)
    requires chunk > 0
    ensures chunks == BufferedFrom(content, start, length, chunk)
    ensures remaining == length - |Concat(chunks)|
  {
    var pos: nat := start;
    remaining := length;
    chunks := [];
    assert Copying(content, start, length, chunk, chunks, pos, remaining);
    while remaining > 0
      invariant Copying(content, start, length, chunk, chunks, pos, remaining)
      decreases remaining
    {
      var data := ReadAt(content, pos, Min(chunk, remaining));
      if data == [] {
        break;
      }
      CopyStep(content, start, length, chunk, chunks, pos, remaining, data);
      chunks, pos, remaining := chunks + [data], pos + |data|, remaining - |data|;
    }
    CopyDone(content, start, length, chunk, chunks, pos, remaining);
  }

  /** The buffered loop's invariant: `remaining` has gone down by the bytes
      sent, and the pieces sent followed by the pieces still to come are all the
      pieces. */
  predicate Copying(content: string, start: nat, length: int, chunk: nat,
                    chunks: seq<string>, pos: nat, remaining: int)
    requires chunk > 0
  {
    remaining == length - |Concat(chunks)| &&
    chunks + BufferedFrom(content, pos, remaining, chunk) == BufferedFrom(content, start, length, chunk)
  }

  /** One pass of the buffered loop keeps its invariant. */
  lemma CopyStep(content: string, start: nat, length: int, chunk: nat,
                 chunks: seq<string>, pos: nat, remaining: int, data: string)
    requires chunk > 0 && remaining > 0
    requires data == ReadAt(content, pos, Min(chunk, remaining)) && data != []
    requires Copying(content, start, length, chunk, chunks, pos, remaining)
    ensures Copying(content, start, length, chunk, chunks + [data], pos + |data|, remaining - |data|)
  {
    var rest := BufferedFrom(content, pos + |data|, remaining - |data|, chunk);
    BufferedStep(content, pos, remaining, chunk, data);
    AppendChunk(chunks, data, rest);
  }

  /** When the buffered loop stops, it has sent all the pieces. */
  lemma CopyDone(content: string, start: nat, length: int, chunk: nat,
                 chunks: seq<string>, pos: nat, remaining: int)
    requires chunk > 0 && (remaining <= 0 || ReadAt(content, pos, Min(chunk, remaining)) == [])
    requires Copying(content, start, length, chunk, chunks, pos, remaining)
    ensures chunks == BufferedFrom(content, start, length, chunk)
    ensures remaining == length - |Concat(chunks)|
  {
    BufferedStop(content, pos, remaining, chunk);
    assert chunks + [] == chunks;
  }

  lemma BufferedStep(content: string, pos: nat, remaining: int, chunk: nat, data: string)
    requires chunk > 0 && remaining > 0
    requires data == ReadAt(content, pos, Min(chunk, remaining)) && data != []
    ensures BufferedFrom(content, pos, remaining, chunk) == [data] + BufferedFrom(content, pos + |data|, remaining - |data|, chunk)
  {
  }

  lemma BufferedStop(content: string, pos: nat, remaining: int, chunk: nat)
    requires chunk > 0 && (remaining <= 0 || ReadAt(content, pos, Min(chunk, remaining)) == [])
    ensures BufferedFrom(content, pos, remaining, chunk) == []
  {
  }

  lemma AppendChunk(chunks: seq<string>, data: string, rest: seq<string>)
    ensures chunks + ([data] + rest) == (chunks + [data]) + rest
    ensures |Concat(chunks + [data])| == |Concat(chunks)| + |data|
  {
    ConcatAppend(chunks, [data]);
    assert Concat([data]) == data;
  }

  /** generate_partial: the download route's ranged body, in 1 MiB pieces. */
  method GeneratePartial(content: string, start: nat, length: int) returns (chunks: seq<string>)
    ensures Concat(chunks) == Slice(content, start, length)
    ensures ChunksBounded(chunks, FLASK_CHUNK)
  {
    var remaining;
    chunks, remaining := BufferedCopy(content, start, length, FLASK_CHUNK);
    BufferedFromSlice(content, start, length, FLASK_CHUNK);
    BufferedFromBounded(content, start, length, FLASK_CHUNK);
  }

  /** generate_full: the whole file in 1 MiB pieces, read until a read comes
      back empty. */
  method GenerateFull(content: string) returns (chunks: seq<string>)
    ensures Concat(chunks) == content
    ensures ChunksBounded(chunks, FLASK_CHUNK)
  {
    chunks := [];
    var pos := 0;
    while true
      invariant pos == |Concat(chunks)| <= |content|
      invariant Concat(chunks) == content[..pos]
      invariant ChunksBounded(chunks, FLASK_CHUNK)
      decreases |content| - pos
    {
      var data := ReadAt(content, pos, FLASK_CHUNK);
      if data == [] {
        break;
      }
      ConcatAppend(chunks, [data]);
      assert Concat([data]) == data;
      assert content[..pos] + data == content[..pos + |data|];
      chunks := chunks + [data];
      pos := pos + |data|;
    }
  }

  // ---------------------------------------------------------------------
  // The zero-copy loop

  /** What one os.sendfile call does: it writes n bytes, or raises. */
  datatype SendReply = Wrote(n: nat) | Failed

  /** os.sendfile as the model sees it: the reply to the call with the given
      index, file offset and byte count. A missing os.sendfile (no such
      attribute on the platform) is a kernel that fails on every call. */
  type Kernel = (nat, nat, nat) -> SendReply

  /** How the zero-copy loop ended: all bytes sent, a call that wrote
      nothing, or an exception that switches to the buffered fallback. */
  datatype SendExit = AllSent | ZeroWrite | Raised

  datatype Call = Call(offset: nat, count: nat)

  datatype SendResult = SendResult(sent: nat, trace: seq<Call>, exit: SendExit, wire: string)

  /** The zero-copy loop from the state (sent, trace, wire): while fewer
      than `length` bytes are sent, ask for min(CHUNK, length - sent) bytes at
      start + sent; stop when a call writes nothing or raises. */
  function SendfileFrom(kernel: Kernel, content: string, start: nat, length: int,
                        sent: nat, trace: seq<Call>, wire: string): SendResult
    decreases Max(length - sent, 0)
  {
    if sent >= length then SendResult(sent, trace, AllSent, wire)
    else
      var call := Call(start + sent, Min(CHUNK, length - sent));
      match kernel(|trace|, call.offset, call.count)
      case Failed => SendResult(sent, trace + [call], Raised, wire)
      case Wrote(n) =>
        if n == 0 then SendResult(sent, trace + [call], ZeroWrite, wire)
        else SendfileFrom(kernel, content, start, length, sent + n, trace + [call],
                          wire + ReadAt(content, call.offset, n))
  }

  function Sendfile(kernel: Kernel, content: string, start: nat, length: int): SendResult {
    SendfileFrom(kernel, content, start, length, 0, [], [])
  }

  /** The zero-copy loop as a loop. */
  method SendfileLoop(kernel: Kernel, content: string, start: nat, length: int) returns (r: SendResult)
    ensures r == Sendfile(kernel, content, start, length)
  {
    var sent: nat := 0;
    var trace: seq<Call> := [];
    var wire: string := [];
    while sent < length
      invariant SendfileFrom(kernel, content, start, length, sent, trace, wire) == Sendfile(kernel, content, start, length)
      decreases Max(length - sent, 0)
    {
      var call := Call(start + sent, Min(CHUNK, length - sent));
      var reply := kernel(|trace|, call.offset, call.count);
      if reply.Failed? {
        return SendResult(sent, trace + [call], Raised, wire);
      }
      if reply.n == 0 {
        return SendResult(sent, trace + [call], ZeroWrite, wire);
      }
      wire := wire + ReadAt(content, call.offset, reply.n);
      sent := sent + reply.n;
      trace := trace + [call];
    }
    return SendResult(sent, trace, AllSent, wire);
  }

  /** Every call asks for between 1 and CHUNK bytes inside the requested
      range, at strictly increasing offsets. */
  predicate CallsWithin(trace: seq<Call>, start: nat, length: int) {
    (forall i :: 0 <= i < |trace| ==>
       0 < trace[i].count <= CHUNK && start <= trace[i].offset &&
       trace[i].offset + trace[i].count <= start + length) &&
    (forall i, j :: 0 <= i < j < |trace| ==> trace[i].offset < trace[j].offset)
  }

  lemma SendfileStep(kernel: Kernel, content: string, start: nat, length: int,
                     sent: nat, trace: seq<Call>, wire: string)
    requires sent < length
    requires var call := Call(start + sent, Min(CHUNK, length - sent));
             var reply := kernel(|trace|, call.offset, call.count);
             reply.Wrote? && reply.n > 0
    ensures var call := Call(start + sent, Min(CHUNK, length - sent));
            var n := kernel(|trace|, call.offset, call.count).n;
            SendfileFrom(kernel, content, start, length, sent, trace, wire) ==
            SendfileFrom(kernel, content, start, length, sent + n, trace + [call], wire + ReadAt(content, call.offset, n))
  {
  }

  /** SendfileStep for a call of `count` bytes that wrote `n` of them. */
  lemma SendfileWrote(kernel: Kernel, content: string, start: nat, length: int,
                      sent: nat, trace: seq<Call>, wire: string, count: nat, n: nat)
    requires sent < length && count == Min(CHUNK, length - sent)
    requires kernel(|trace|, start + sent, count) == Wrote(n) && n > 0
    ensures SendfileFrom(kernel, content, start, length, sent, trace, wire) ==
            SendfileFrom(kernel, content, start, length, sent + n, trace + [Call(start + sent, count)],
                         wire + ReadAt(content, start + sent, n))
  {
  }

  /** Whatever the kernel answers, the loop never asks for more than CHUNK
      bytes or for bytes outside the requested range. */
  lemma SendfileCallsWithin(kernel: Kernel, content: string, start: nat, length: int,
                            sent: nat, trace: seq<Call>, wire: string)
    requires CallsWithin(trace, start, length)
    requires trace != [] ==> trace[|trace| - 1].offset < start + sent
    ensures var r := SendfileFrom(kernel, content, start, length, sent, trace, wire);
            CallsWithin(r.trace, start, length) && |trace| <= |r.trace| && r.trace[..|trace|] == trace
  {
    CallsWithinFrom(kernel, content, start, length, sent, trace, wire,
                    SendfileFrom(kernel, content, start, length, sent, trace, wire));
  }

  /** The trace of result `r` extends `trace` and keeps its calls within
      the range. */
  predicate TraceGrows(trace: seq<Call>, start: nat, length: int, r: SendResult) {
    CallsWithin(r.trace, start, length) && |trace| <= |r.trace| && r.trace[..|trace|] == trace
  }

  /** SendfileCallsWithin for the loop's result `r`, by induction on the
      bytes left to send. */
  lemma {:induction false} CallsWithinFrom(kernel: Kernel, content: string, start: nat, length: int,
                                           sent: nat, trace: seq<Call>, wire: string, r: SendResult)
    requires CallsWithin(trace, start, length)
    requires trace != [] ==> trace[|trace| - 1].offset < start + sent
    requires r == SendfileFrom(kernel, content, start, length, sent, trace, wire)
    ensures TraceGrows(trace, start, length, r)
    decreases Max(length - sent, 0), 1
  {
    if sent < length {
      var call := Call(start + sent, Min(CHUNK, length - sent));
      var reply := kernel(|trace|, call.offset, call.count);
      CallsExtend(trace, call, start, length);
      if reply.Wrote? && reply.n > 0 {
        CallsAfterWrite(kernel, content, start, length, sent, trace, wire, r);
      } else {
        SendfileStopTrace(kernel, content, start, length, sent, trace, wire);
      }
    }
  }

  /** CallsWithinFrom when the call at `sent` wrote some bytes. */
  lemma {:induction false} CallsAfterWrite(kernel: Kernel, content: string, start: nat, length: int,
                                           sent: nat, trace: seq<Call>, wire: string, r: SendResult)
    requires sent < length
    requires var call := Call(start + sent, Min(CHUNK, length - sent));
             var reply := kernel(|trace|, call.offset, call.count);
             reply.Wrote? && reply.n > 0 &&
             CallsWithin(trace + [call], start, length) && (trace + [call])[..|trace|] == trace
    requires r == SendfileFrom(kernel, content, start, length, sent, trace, wire)
    ensures TraceGrows(trace, start, length, r)
    decreases Max(length - sent, 0), 0
  {
    var call := Call(start + sent, Min(CHUNK, length - sent));
    var n := kernel(|trace|, call.offset, call.count).n;
    SendfileStep(kernel, content, start, length, sent, trace, wire);
    CallsWithinFrom(kernel, content, start, length, sent + n, trace + [call],
                    wire + ReadAt(content, call.offset, n), r);
    PrefixOfPrefix(r.trace, trace + [call], trace);
  }

  lemma SendfileStopTrace(kernel: Kernel, content: string, start: nat, length: int,
                          sent: nat, trace: seq<Call>, wire: string)
    requires sent < length
    requires var call := Call(start + sent, Min(CHUNK, length - sent));
             var reply := kernel(|trace|, call.offset, call.count);
             !(reply.Wrote? && reply.n > 0)
    ensures SendfileFrom(kernel, content, start, length, sent, trace, wire).trace
            == trace + [Call(start + sent, Min(CHUNK, length - sent))]
  {
  }

  lemma CallsExtend(trace: seq<Call>, call: Call, start: nat, length: int)
    requires CallsWithin(trace, start, length)
    requires trace != [] ==> trace[|trace| - 1].offset < call.offset
    requires 0 < call.count <= CHUNK && start <= call.offset && call.offset + call.count <= start + length
    ensures CallsWithin(trace + [call], start, length) && (trace + [call])[..|trace|] == trace
  {
  }

  lemma PrefixOfPrefix(r: seq<Call>, t: seq<Call>, u: seq<Call>)
    requires |t| <= |r| && r[..|t|] == t && |u| <= |t| && t[..|u|] == u
    ensures r[..|u|] == u
  {
    assert r[..|u|] == r[..|t|][..|u|];
  }

  /** A kernel that behaves like sendfile on a regular file: it writes no
      more than asked and no more than the file has left, and writes nothing
      only at the end of the file. */
  ghost predicate Faithful(kernel: Kernel, content: string) {
    forall i: nat, offset: nat, count: nat :: HonestReply(kernel, content, i, offset, count)
  }

  /** The `i`-th call, asking for `count` bytes from `offset`, is answered
      as sendfile answers on a regular file. */
  predicate HonestReply(kernel: Kernel, content: string, i: nat, offset: nat, count: nat) {
    var reply := kernel(i, offset, count);
    reply.Wrote? ==>
      reply.n <= count && reply.n <= Max(|content| - offset, 0) &&
      (reply.n == 0 ==> count == 0 || offset >= |content|)
  }

  /** What the zero-copy loop has achieved when it returns `r`, having
      started from `sent0` sent bytes. */
  predicate Delivered(content: string, start: nat, length: int, sent0: nat, r: SendResult) {
    sent0 <= r.sent <= Max(length, 0) &&
    (r.sent > 0 ==> start + r.sent <= |content|) &&
    r.wire == Slice(content, start, r.sent) &&
    (r.exit != Raised ==> r.wire == Slice(content, start, length))
  }

  /** With a faithful kernel the loop sends the file's bytes in order; when
      it ends without an exception it has sent the whole requested range (up
      to the end of the file). */
  lemma SendfileDelivers(kernel: Kernel, content: string, start: nat, length: int,
                         sent: nat, trace: seq<Call>, wire: string)
    requires Faithful(kernel, content)
    requires sent <= Max(length, 0)
    requires sent > 0 ==> start + sent <= |content|
    requires wire == Slice(content, start, sent)
    ensures Delivered(content, start, length, sent, SendfileFrom(kernel, content, start, length, sent, trace, wire))
  {
    DeliversFrom(kernel, content, start, length, sent, trace, wire,
                 SendfileFrom(kernel, content, start, length, sent, trace, wire));
  }

  /** SendfileDelivers for the loop's result `r`, by induction on the bytes
      left to send. */
  lemma {:induction false} DeliversFrom(kernel: Kernel, content: string, start: nat, length: int,
                                        sent: nat, trace: seq<Call>, wire: string, r: SendResult)
    requires Faithful(kernel, content)
    requires sent <= Max(length, 0)
    requires sent > 0 ==> start + sent <= |content|
    requires wire == Slice(content, start, sent)
    requires r == SendfileFrom(kernel, content, start, length, sent, trace, wire)
    ensures Delivered(content, start, length, sent, r)
    decreases Max(length - sent, 0), 2
  {
    if sent < length {
      var count := Min(CHUNK, length - sent);
      var reply := kernel(|trace|, start + sent, count);
      if reply.Wrote? && reply.n > 0 {
        DeliversAfterWrite(kernel, content, start, length, sent, trace, wire, count, reply.n, r);
      } else {
        DeliversAtStop(kernel, content, start, length, sent, trace, wire, r);
      }
    } else {
      DeliversAtEnd(kernel, content, start, length, sent, trace, wire, r);
    }
  }

  /** The loop has nothing left to send. */
  lemma DeliversAtEnd(kernel: Kernel, content: string, start: nat, length: int,
                      sent: nat, trace: seq<Call>, wire: string, r: SendResult)
    requires length <= sent <= Max(length, 0)
    requires sent > 0 ==> start + sent <= |content|
    requires wire == Slice(content, start, sent)
    requires r == SendfileFrom(kernel, content, start, length, sent, trace, wire)
    ensures Delivered(content, start, length, sent, r)
  {
  }

  /** The step of the zero-copy loop in which the kernel writes nothing or
      fails: the loop ends there. */
  lemma DeliversAtStop(kernel: Kernel, content: string, start: nat, length: int,
                       sent: nat, trace: seq<Call>, wire: string, r: SendResult)
    requires Faithful(kernel, content)
    requires sent < length
    requires sent > 0 ==> start + sent <= |content|
    requires wire == Slice(content, start, sent)
    requires var reply := kernel(|trace|, start + sent, Min(CHUNK, length - sent));
             !(reply.Wrote? && reply.n > 0)
    requires r == SendfileFrom(kernel, content, start, length, sent, trace, wire)
    ensures Delivered(content, start, length, sent, r)
  {
    var call := Call(start + sent, Min(CHUNK, length - sent));
    var reply := kernel(|trace|, call.offset, call.count);
    FaithfulReply(kernel, content, |trace|, call.offset, call.count);
    if reply.Wrote? {
      SliceAtEnd(content, start, sent, length);
    }
    DeliveredStop(kernel, content, start, length, sent, trace, wire);
  }

  /** The step of the zero-copy loop in which the kernel writes `n` bytes. */
  lemma {:induction false} DeliversAfterWrite(kernel: Kernel, content: string, start: nat, length: int,
                                              sent: nat, trace: seq<Call>, wire: string, count: nat, n: nat,
                                              r: SendResult)
    requires Faithful(kernel, content)
    requires sent < length && count == Min(CHUNK, length - sent)
    requires sent > 0 ==> start + sent <= |content|
    requires wire == Slice(content, start, sent)
    requires kernel(|trace|, start + sent, count) == Wrote(n) && n > 0
    requires r == SendfileFrom(kernel, content, start, length, sent, trace, wire)
    ensures Delivered(content, start, length, sent, r)
    decreases Max(length - sent, 0), 1
  {
    WroteStep(kernel, content, start, length, sent, trace, wire, count, n, r);
    DeliversLater(kernel, content, start, length, sent, sent + n, trace + [Call(start + sent, count)], r);
  }

  /** The loop goes on from `later` with the bytes up to it on the wire. */
  lemma {:induction false} DeliversLater(kernel: Kernel, content: string, start: nat, length: int,
                                         sent: nat, later: nat, trace: seq<Call>, r: SendResult)
    requires Faithful(kernel, content)
    requires sent < later <= Max(length, 0) && start + later <= |content|
    requires r == SendfileFrom(kernel, content, start, length, later, trace, Slice(content, start, later))
    ensures Delivered(content, start, length, sent, r)
    decreases Max(length - sent, 0), 0
  {
    DeliversFrom(kernel, content, start, length, later, trace, Slice(content, start, later), r);
    DeliveredEarlier(content, start, length, sent, later, r);
  }

  /** A call that writes `n` bytes moves the loop to `sent + n`, with the
      bytes up to there on the wire. */
  lemma WroteStep(kernel: Kernel, content: string, start: nat, length: int,
                  sent: nat, trace: seq<Call>, wire: string, count: nat, n: nat, r: SendResult)
    requires Faithful(kernel, content)
    requires sent < length && count == Min(CHUNK, length - sent)
    requires sent > 0 ==> start + sent <= |content|
    requires wire == Slice(content, start, sent)
    requires kernel(|trace|, start + sent, count) == Wrote(n) && n > 0
    requires r == SendfileFrom(kernel, content, start, length, sent, trace, wire)
    ensures sent + n <= Max(length, 0) && start + sent + n <= |content|
    ensures r == SendfileFrom(kernel, content, start, length, sent + n, trace + [Call(start + sent, count)],
                              Slice(content, start, sent + n))
  {
    FaithfulReply(kernel, content, |trace|, start + sent, count);
    WriteAdvances(content, start, length, sent, n, wire);
    SendfileWrote(kernel, content, start, length, sent, trace, wire, count, n);
  }

  /** What the loop achieves from a later state it also achieves from an
      earlier one. */
  lemma DeliveredEarlier(content: string, start: nat, length: int, sent: nat, later: nat, r: SendResult)
    requires sent <= later && Delivered(content, start, length, later, r)
    ensures Delivered(content, start, length, sent, r)
  {
  }

  /** A write of `n` bytes by a faithful kernel keeps the loop's invariant. */
  lemma WriteAdvances(content: string, start: nat, length: int, sent: nat, n: nat, wire: string)
    requires sent < length && 0 < n <= Min(CHUNK, length - sent)
    requires n <= Max(|content| - (start + sent), 0)
    requires wire == Slice(content, start, sent)
    ensures sent + n <= Max(length, 0) && start + sent + n <= |content|
    ensures wire + ReadAt(content, start + sent, n) == Slice(content, start, sent + n)
  {
    SliceExtend(content, start, sent, n);
  }

  /** One reply of a faithful kernel. */
  lemma FaithfulReply(kernel: Kernel, content: string, i: nat, offset: nat, count: nat)
    requires Faithful(kernel, content)
    ensures var reply := kernel(i, offset, count);
            reply.Wrote? ==>
              reply.n <= count && reply.n <= Max(|content| - offset, 0) &&
              (reply.n == 0 ==> count == 0 || offset >= |content|)
  {
    assert HonestReply(kernel, content, i, offset, count);
  }

  lemma DeliveredStop(kernel: Kernel, content: string, start: nat, length: int,
                      sent: nat, trace: seq<Call>, wire: string)
    requires sent < length && sent > 0 ==> start + sent <= |content|
    requires sent < length
    requires wire == Slice(content, start, sent)
    requires var call := Call(start + sent, Min(CHUNK, length - sent));
             var reply := kernel(|trace|, call.offset, call.count);
             !(reply.Wrote? && reply.n > 0) &&
             (reply.Wrote? ==> Slice(content, start, sent) == Slice(content, start, length))
    ensures Delivered(content, start, length, sent, SendfileFrom(kernel, content, start, length, sent, trace, wire))
  {
  }

  lemma SliceExtend(content: string, start: nat, sent: nat, n: nat)
    requires start + sent + n <= |content|
    ensures Slice(content, start, sent) + ReadAt(content, start + sent, n) == Slice(content, start, sent + n)
  {
  }

  lemma SliceAtEnd(content: string, start: nat, sent: nat, length: int)
    requires sent <= Max(length, 0) && start + sent >= |content|
    requires sent > 0 ==> start + sent <= |content|
    ensures Slice(content, start, sent) == Slice(content, start, length)
  {
  }

  // ---------------------------------------------------------------------
  // The body the fast handler sends

  /** The body as written: the zero-copy loop, and when it raises, the
      buffered loop from the file position, which is still `start`
      (sendfile with an explicit offset does not move it) with the full
      `length` still to send. */
  function StreamBody(kernel: Kernel, content: string, start: nat, length: int): string {
    var r := Sendfile(kernel, content, start, length);
    if r.exit == Raised then r.wire + BufferedBytes(content, start, length, CHUNK)
    else r.wire
  }

  /** The streaming step of the handler. */
  method Stream(kernel: Kernel, content: string, start: nat, length: int) returns (wire: string)
    ensures wire == StreamBody(kernel, content, start, length)
  {
    var r := SendfileLoop(kernel, content, start, length);
    wire := r.wire;
    if r.exit == Raised {
      var chunks, remaining := BufferedCopy(content, start, length, CHUNK);
      wire := wire + Concat(chunks);
    }
  }

  /** As written: with a faithful kernel the body is the requested bytes,
      except when sendfile raises after sending some bytes; then those bytes
      are sent twice. */
  lemma StreamBodyAsWritten(kernel: Kernel, content: string, start: nat, length: int)
    requires Faithful(kernel, content)
    ensures var r := Sendfile(kernel, content, start, length);
            var want := Slice(content, start, length);
            r.sent <= |want| &&
            StreamBody(kernel, content, start, length) ==
              (if r.exit == Raised then want[..r.sent] + want else want)
  {
    SendfileDelivers(kernel, content, start, length, 0, [], []);
    var r := Sendfile(kernel, content, start, length);
    SliceSplit(content, start, r.sent, length);
  }

  /** The duplication on a two-byte file: sendfile writes one byte and then
      raises; the client receives "aab" for "ab". */
  lemma DuplicatedBytesExample()
    ensures var kernel: Kernel := (i: nat, offset: nat, count: nat) =>
              if i == 0 && offset < 2 && count > 0 then Wrote(1) else Failed;
            Faithful(kernel, "ab") && StreamBody(kernel, "ab", 0, 2) == "aab"
  {
    var kernel: Kernel := (i: nat, offset: nat, count: nat) =>
      if i == 0 && offset < 2 && count > 0 then Wrote(1) else Failed;
    var r1 := SendfileFrom(kernel, "ab", 0, 2, 1, [Call(0, 2)], "a");
    assert r1 == SendResult(1, [Call(0, 2), Call(1, 1)], Raised, "a");
    assert ReadAt("ab", 0, 1) == "a";
    assert Sendfile(kernel, "ab", 0, 2) == r1;
    assert ReadAt("ab", 0, 2) == "ab";
    assert BufferedFrom("ab", 2, 0, CHUNK) == [];
    assert BufferedFrom("ab", 0, 2, CHUNK) == ["ab"];
    assert Concat(["ab"]) == "ab";
  }

  /** The body as intended: on an exception the buffered loop resumes where
      the zero-copy loop stopped. */
  function ResumedStreamBody(kernel: Kernel, content: string, start: nat, length: int): string {
    Resumed(content, start, length, Sendfile(kernel, content, start, length))
  }

  /** The bytes sent when the buffered loop takes over from the zero-copy
      loop's outcome `r` after an exception. */
  function Resumed(content: string, start: nat, length: int, r: SendResult): string {
    if r.exit == Raised then r.wire + BufferedBytes(content, start + r.sent, length - r.sent, CHUNK)
    else r.wire
  }

  /** With resumption, a faithful kernel always yields exactly the requested
      bytes, however the zero-copy loop ends. */
  lemma ResumedStreamDelivers(kernel: Kernel, content: string, start: nat, length: int)
    requires Faithful(kernel, content)
    ensures ResumedStreamBody(kernel, content, start, length) == Slice(content, start, length)
  {
    SendfileDelivers(kernel, content, start, length, 0, [], []);
    ResumedFinish(content, start, length, Sendfile(kernel, content, start, length));
  }

  lemma ResumedFinish(content: string, start: nat, length: int, r: SendResult)
    requires Delivered(content, start, length, 0, r)
    ensures Resumed(content, start, length, r) == Slice(content, start, length)
  {
    if r.exit == Raised {
      ResumedRaised(content, start, length, r);
    }
  }

  lemma ResumedRaised(content: string, start: nat, length: int, r: SendResult)
    requires Delivered(content, start, length, 0, r) && r.exit == Raised
    ensures Resumed(content, start, length, r) == Slice(content, start, length)
  {
    SliceJoin(content, start, r.sent, length);
  }

  /** The first k requested bytes followed by the rest are the requested
      bytes. */
  lemma SliceJoin(content: string, start: nat, k: nat, length: int)
    requires k <= Max(length, 0)
    requires k > 0 ==> start + k <= |content|
    ensures Slice(content, start, k) + Slice(content, start + k, length - k) == Slice(content, start, length)
  {
    SliceSplit(content, start, k, length);
  }

  /** The first k requested bytes, and the rest. */
  lemma SliceSplit(content: string, start: nat, k: nat, length: int)
    requires k <= Max(length, 0)
    requires k > 0 ==> start + k <= |content|
    ensures var want := Slice(content, start, length);
            k <= |want| && Slice(content, start, k) == want[..k] &&
            Slice(content, start, k) + Slice(content, start + k, length - k) == want
  {
    var lo, hi := Min(start, |content|), Min(start + Max(length, 0), |content|);
    var mid := if k == 0 then lo else start + k;
    assert lo <= mid <= hi;
    assert Slice(content, start, k) == content[lo..mid];
    assert Slice(content, start + k, length - k) == content[mid..hi];
    assert content[lo..hi] == content[lo..mid] + content[mid..hi];
  }

  /** The zero-copy loop does not raise after it has sent some bytes. */
  predicate NoMidStreamFailure(kernel: Kernel, content: string, start: nat, length: int) {
    var r := Sendfile(kernel, content, start, length);
    r.exit == Raised ==> r.sent == 0
  }

  /** When the zero-copy loop either succeeds or fails before sending (as
      when os.sendfile is missing), the body is exactly the requested bytes. */
  lemma StreamBodyExact(kernel: Kernel, content: string, start: nat, length: int)
    requires Faithful(kernel, content) && NoMidStreamFailure(kernel, content, start, length)
    ensures StreamBody(kernel, content, start, length) == Slice(content, start, length)
  {
    StreamBodyAsWritten(kernel, content, start, length);
    var want := Slice(content, start, length);
    assert want[..0] + want == want;
  }
}
