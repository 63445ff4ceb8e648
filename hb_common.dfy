/** The service codec and chunked memory reader of the Harbor Bay
    diagnostics client: ReadMemoryByAddress with a 4-byte address and a
    2-byte size (format 0x24), halving the chunk on any negative reply. */
module HarborBayCommon {
  import opened Bits
  import opened Wire

  /** Header size of each positive response, keyed by its leading byte:
      ReadDTCInformation, ReadDataByIdentifier, ReadMemoryByAddress and
      SecurityAccess. There is no entry for a negative response. */
  const DataOffs: map<Byte, nat> := map[0x59 := 3, 0x62 := 3, 0x63 := 1, 0x67 := 2]

  const ReadMemoryMaxSize: nat := 0x800

  /** The table holds the positive responses (SID + 0x40) of services 0x19,
      0x22, 0x23 and 0x27; `get_data` on a negative response is a KeyError. */
  lemma DataOffsKeys(reply: Reply)
    requires |reply| > 0 && reply[0] == 0x7f
    ensures DataOffs.Keys == {0x19 + 0x40, 0x22 + 0x40, 0x23 + 0x40, 0x27 + 0x40}
    ensures GetData(DataOffs, reply) == Err(KeyError)
  {
  }

  /** `xorbytes(a, b)`: the byte-wise exclusive-or of `a` and `b`, as long as
      the shorter of the two (`map` stops at the end of either). */
  function XorBytes(a: seq<Byte>, b: seq<Byte>): (r: seq<Byte>)
    ensures |r| == Min(|a|, |b|)
    ensures forall i | 0 <= i < |r| :: Xor(r[i], b[i]) == a[i]
  {
    seq(Min(|a|, |b|), i requires 0 <= i < Min(|a|, |b|) => XorByte(a[i], b[i]))
  }

  /** Exclusive-or with the same bytes twice gives back the part of `a` that
      `b` covers; all of `a` when `b` is at least as long. */
  lemma XorBytesTwice(a: seq<Byte>, b: seq<Byte>)
    ensures XorBytes(XorBytes(a, b), b) == a[..Min(|a|, |b|)]
    ensures |a| <= |b| ==> XorBytes(XorBytes(a, b), b) == a
  {
    var x := XorBytes(a, b);
    var y := XorBytes(x, b);
    forall i | 0 <= i < |y|
      ensures y[i] == a[i]
    {
      assert y[i] == Xor(x[i], b[i]);
      assert x[i] == Xor(a[i], b[i]);
      XorSelfInverse(a[i], b[i]);
    }
  }

  // ReadMemoryByAddress with a 4-byte address and a 2-byte size (0x24).

  function ReadRequest(addr: U32, len: U16): (r: Request)
    ensures |r| == 8 && r[..2] == [0x23, 0x24]
  {
    [0x23, 0x24] + Pack32(addr) + Pack16(len)
  }

  function AddressField(r: Request): U32
    requires |r| == 8
  {
    Unpack32(r[2..6])
  }

  function LengthField(r: Request): U16
    requires |r| == 8
  {
    Unpack16(r[6..])
  }

  /** The request carries the address as four big-endian bytes and the
      length as two. */
  lemma ReadRequestFields(addr: U32, len: U16)
    ensures AddressField(ReadRequest(addr, len)) == addr
    ensures LengthField(ReadRequest(addr, len)) == len
  {
    var r := ReadRequest(addr, len);
    assert r[2..6] == Pack32(addr) && r[6..] == Pack16(len);
    Pack32RoundTrip(addr, Pack32(addr));
    Pack16RoundTrip(len, Pack16(len));
  }

  /** A reply `readmem` takes as data: present and not a negative response. */
  predicate Positive(reply: Reply)
  {
    |reply| > 0 && reply[0] != 0x7f
  }

  /** The state of the `readmem` loop at its head. */
  datatype Cursor = Cursor(addr: nat, size: nat, step: nat, dump: seq<Byte>)

  /** What the loop keeps true: the step neither exceeds the largest chunk
      nor what is left to read. */
  predicate Fits(c: Cursor)
  {
    c.step <= ReadMemoryMaxSize && c.step <= c.size
  }

  /** One pass of the loop body: an error, after the requests in `sent`, or
      the request sent and the loop head it leads to. */
  datatype Pass = Fail(error: Error, sent: seq<Request>) | Sent(req: Request, next: Cursor)

  /** One pass of the `readmem` loop body from a head where `step > 0`. */
  function Body(ecu: Ecu, h: seq<Request>, c: Cursor): (p: Pass)
    requires Fits(c) && c.step > 0
    ensures p.Sent? ==> Fits(p.next) && p.next.size + p.next.step < c.size + c.step
    ensures p.Sent? ==> c.addr < 0x1_0000_0000 && p.req == ReadRequest(c.addr, c.step)
  {
    if c.addr >= 0x1_0000_0000 then Fail(StructError, [])
    else
      var req := ReadRequest(c.addr, c.step);
      var reply := ecu(h + [req]);
      if Positive(reply) then
        match GetData(DataOffs, reply)
        case Err(e) => Fail(e, [req])
        case Ok(data) =>
          Sent(req, Cursor(c.addr + c.step, c.size - c.step, Min(c.step, c.size - c.step), c.dump + data))
      else Sent(req, Cursor(c.addr, c.size, c.step / 2, c.dump))
  }

  /** What one pass does with each kind of reply: the data of a positive
      reply is appended and the cursor moves on by the step, which then
      does not exceed what is left; any negative reply, whatever its code,
      and a timeout halve the step and leave the rest alone. */
  lemma BodyReplies(ecu: Ecu, h: seq<Request>, c: Cursor)
    requires Fits(c) && c.step > 0 && c.addr < 0x1_0000_0000
    ensures var req := ReadRequest(c.addr, c.step);
            var reply := ecu(h + [req]);
            var p := Body(ecu, h, c);
            && (!Positive(reply) ==> p == Sent(req, Cursor(c.addr, c.size, c.step / 2, c.dump)))
            && (Positive(reply) && reply[0] !in DataOffs ==> p == Fail(KeyError, [req]))
            && (Positive(reply) && reply[0] in DataOffs ==>
                  p == Sent(req, Cursor(c.addr + c.step, c.size - c.step, Min(c.step, c.size - c.step),
                                        c.dump + reply[Min(DataOffs[reply[0]], |reply|)..])))
  {
  }

  /** The `readmem` loop from a loop head with cursor `c`, `h` sent before. */
  function ReadLoop(ecu: Ecu, h: seq<Request>, c: Cursor): (e: Exchange<seq<Byte>>)
    requires Fits(c)
    ensures e.result.Ok? ==> c.dump <= e.result.value
    ensures e.result.Err? ==> e.result.error == StructError || e.result.error == KeyError
    ensures e.result == Err(KeyError) ==> |e.sent| > 0
    decreases c.size + c.step
  {
    if c.step == 0 then Exchange(Ok(c.dump), [])
    else match Body(ecu, h, c)
      case Fail(e, sent) => Exchange(Err(e), sent)
      case Sent(req, next) => Then([req], ReadLoop(ecu, h + [req], next))
  }

  function Start(addr: nat, size: nat): (c: Cursor)
    ensures Fits(c)
  {
    Cursor(addr, size, Min(ReadMemoryMaxSize, size), [])
  }

  /** `readmem(s, addr, size)`: reads `size` bytes at `addr` in chunks of at
      most 0x800 bytes, halving the chunk on any negative reply or timeout. */
  method ReadMem(ecu: Ecu, h: seq<Request>, addr: nat, size: nat) returns (e: Exchange<seq<Byte>>)
    ensures e == ReadLoop(ecu, h, Start(addr, size))
  {
    ghost var whole := ReadLoop(ecu, h, Start(addr, size));
    var dump: seq<Byte> := [];
    var step: nat := Min(ReadMemoryMaxSize, size);
    var a: nat, n: nat := addr, size;
    var sent: seq<Request> := [];
    assert h + sent == h;
    while step > 0
      invariant Fits(Cursor(a, n, step, dump))
      invariant whole == Then(sent, ReadLoop(ecu, h + sent, Cursor(a, n, step, dump)))
      decreases n + step
    {
      ghost var c, sent0 := Cursor(a, n, step, dump), sent;
      if a >= 0x1_0000_0000 {
        assert ReadLoop(ecu, h + sent0, c) == Exchange(Err(StructError), []);
        return Exchange(Err(StructError), sent);
      }
      var req := ReadRequest(a, step);
      var reply := ecu(h + sent + [req]);
      sent := sent + [req];
      if |reply| > 0 && reply[0] != 0x7f {
        var data := GetData(DataOffs, reply);
        if data.Err? {
          assert ReadLoop(ecu, h + sent0, c) == Exchange(Err(data.error), [req]);
          return Exchange(Err(data.error), sent);
        }
        dump := dump + data.value;
        a, n := a + step, n - step;
        step := Min(step, n);
      } else {
        step := step / 2;
      }
      assert Body(ecu, h + sent0, c) == Sent(req, Cursor(a, n, step, dump));
      assert h + sent0 + [req] == h + sent;
      ThenThen(sent0, [req], ReadLoop(ecu, h + sent, Cursor(a, n, step, dump)));
    }
    return Exchange(Ok(dump), sent);
  }

  /** Reading nothing sends nothing. */
  lemma ReadMemEmpty(ecu: Ecu, h: seq<Request>, addr: nat)
    ensures ReadLoop(ecu, h, Start(addr, 0)) == Exchange(Ok([]), [])
  {
  }

  lemma ReadLoopUnfold(ecu: Ecu, h: seq<Request>, c: Cursor, req: Request, next: Cursor)
    requires Fits(c) && c.step > 0 && Body(ecu, h, c) == Sent(req, next)
    ensures Fits(next)
    ensures ReadLoop(ecu, h, c) == Then([req], ReadLoop(ecu, h + [req], next))
  {
  }

  /** Each of `sent` is a ReadMemoryByAddress request for a non-empty window
      inside `[lo, hi)` of at most `maxLen` bytes. */
  predicate ReadsWithin(sent: seq<Request>, lo: nat, hi: nat, maxLen: nat)
  {
    forall i | 0 <= i < |sent| ::
      |sent[i]| == 8 && sent[i][..2] == [0x23, 0x24] && 0 < LengthField(sent[i]) <= maxLen
      && lo <= AddressField(sent[i]) && AddressField(sent[i]) + LengthField(sent[i]) <= hi
  }

  lemma ReadsWithinAppend(a: seq<Request>, b: seq<Request>, lo: nat, hi: nat, maxLen: nat)
    requires ReadsWithin(a, lo, hi, maxLen) && ReadsWithin(b, lo, hi, maxLen)
    ensures ReadsWithin(a + b, lo, hi, maxLen)
  {
    assert forall i | |a| <= i < |a + b| :: (a + b)[i] == b[i - |a|];
  }

  /** Every request the loop sends from `c` asks for a non-empty window
      inside `[c.addr, c.addr + c.size)` of at most the current step, so
      the 2-byte size field never overflows. */
  lemma {:induction false} ReadLoopRequests(ecu: Ecu, h: seq<Request>, c: Cursor)
    requires Fits(c)
    ensures ReadsWithin(ReadLoop(ecu, h, c).sent, c.addr, c.addr + c.size, c.step)
    decreases c.size + c.step
  {
    if c.step > 0 && c.addr < 0x1_0000_0000 {
      var req := ReadRequest(c.addr, c.step);
      ReadRequestFields(c.addr, c.step);
      assert ReadsWithin([req], c.addr, c.addr + c.size, c.step);
      match Body(ecu, h, c)
      case Fail(_, sent) =>
        assert sent == [] || sent == [req];
      case Sent(_, next) =>
        ReadLoopUnfold(ecu, h, c, req, next);
        ReadLoopRequests(ecu, h + [req], next);
        BodyReplies(ecu, h, c);
        ReadsWithinAppend([req], ReadLoop(ecu, h + [req], next).sent, c.addr, c.addr + c.size, c.step);
    }
  }

  // Against an ECU that always answers positively.

  /** Every reply is a positive response whose header size is in the table. */
  ghost predicate AlwaysPositive(ecu: Ecu)
  {
    forall hist: seq<Request> :: |ecu(hist)| > 0 && ecu(hist)[0] in DataOffs
  }

  /** The requests that read `size` bytes at `addr` in chunks of 0x800, the
      last possibly shorter. */
  function Chunks(addr: nat, size: nat): seq<Request>
    requires addr + size <= 0x1_0000_0000
    decreases size
  {
    if size == 0 then []
    else
      var m := Min(ReadMemoryMaxSize, size);
      [ReadRequest(addr, m)] + Chunks(addr + m, size - m)
  }

  /** There are `ceil(size / 0x800)` chunks; chunk `i` starts at
      `addr + i * 0x800` and is 0x800 bytes long or what is left. */
  lemma ChunksShape(addr: nat, size: nat)
    requires addr + size <= 0x1_0000_0000
    ensures var cs := Chunks(addr, size);
            && |cs| == CeilDiv(size, ReadMemoryMaxSize)
            && forall i | 0 <= i < |cs| ::
                 |cs[i]| == 8 && cs[i][..2] == [0x23, 0x24] && AddressField(cs[i]) == addr + i * 0x800
                 && LengthField(cs[i]) == Min(0x800, size - i * 0x800)
  {
    ChunksCount(addr, size);
    var cs := Chunks(addr, size);
    forall i | 0 <= i < |cs|
      ensures |cs[i]| == 8 && cs[i][..2] == [0x23, 0x24] && AddressField(cs[i]) == addr + i * 0x800
              && LengthField(cs[i]) == Min(0x800, size - i * 0x800)
    {
      ChunkAt(addr, size, i);
    }
  }

  lemma {:induction false} ChunksCount(addr: nat, size: nat)
    requires addr + size <= 0x1_0000_0000
    ensures |Chunks(addr, size)| == CeilDiv(size, ReadMemoryMaxSize)
    decreases size
  {
    CeilDivStep(size, ReadMemoryMaxSize);
    if size > 0 {
      var m := Min(ReadMemoryMaxSize, size);
      ChunksCount(addr + m, size - m);
      if size < ReadMemoryMaxSize {
        CeilDivStep(0, ReadMemoryMaxSize);
      }
    }
  }

  lemma {:induction false} ChunkAt(addr: nat, size: nat, i: nat)
    requires addr + size <= 0x1_0000_0000 && i < |Chunks(addr, size)|
    ensures var c := Chunks(addr, size)[i];
            && |c| == 8 && c[..2] == [0x23, 0x24] && AddressField(c) == addr + i * 0x800
            && LengthField(c) == Min(0x800, size - i * 0x800)
    decreases i
  {
    var m := Min(ReadMemoryMaxSize, size);
    var rest := Chunks(addr + m, size - m);
    assert Chunks(addr, size) == [ReadRequest(addr, m)] + rest;
    if i == 0 {
      ReadRequestFields(addr, m);
    } else {
      assert Chunks(addr, size)[i] == rest[i - 1];
      assert size - m > 0;
      ChunkAt(addr + m, size - m, i - 1);
      assert m == 0x800;
      assert (addr + m) + (i - 1) * 0x800 == addr + i * 0x800;
      assert (size - m) - (i - 1) * 0x800 == size - i * 0x800;
    }
  }

  /** Against an ECU that always answers positively, `readmem` succeeds and
      sends exactly the chunk requests, in order. */
  lemma {:induction false} ReadLoopAlwaysPositive(ecu: Ecu, h: seq<Request>, c: Cursor)
    requires AlwaysPositive(ecu)
    requires c.step == Min(ReadMemoryMaxSize, c.size) && c.addr + c.size <= 0x1_0000_0000
    ensures ReadLoop(ecu, h, c).result.Ok?
    ensures ReadLoop(ecu, h, c).sent == Chunks(c.addr, c.size)
    decreases c.size
  {
    if c.size > 0 {
      var req := ReadRequest(c.addr, c.step);
      var reply := ecu(h + [req]);
      assert |reply| > 0 && reply[0] in DataOffs;
      BodyReplies(ecu, h, c);
      var next := Body(ecu, h, c).next;
      assert next.addr == c.addr + c.step && next.size == c.size - c.step;
      assert next.step == Min(ReadMemoryMaxSize, next.size);
      ReadLoopUnfold(ecu, h, c, req, next);
      ReadLoopAlwaysPositive(ecu, h + [req], next);
      assert Chunks(c.addr, c.size) == [req] + Chunks(next.addr, next.size);
    }
  }

  /** `readmem(addr, size)` against such an ECU: exactly
      `ceil(size / 0x800)` requests, at `addr`, `addr + 0x800`, ... */
  lemma ReadMemAlwaysPositive(ecu: Ecu, h: seq<Request>, addr: nat, size: nat)
    requires AlwaysPositive(ecu) && addr + size <= 0x1_0000_0000
    ensures var e := ReadLoop(ecu, h, Start(addr, size));
            && e.result.Ok?
            && |e.sent| == CeilDiv(size, ReadMemoryMaxSize)
            && forall i | 0 <= i < |e.sent| ::
                 |e.sent[i]| == 8 && AddressField(e.sent[i]) == addr + i * 0x800
                 && LengthField(e.sent[i]) == Min(0x800, size - i * 0x800)
  {
    ReadLoopAlwaysPositive(ecu, h, Start(addr, size));
    ChunksShape(addr, size);
  }

  // Against an ECU that serves a memory image in chunks of at most `limit`.

  /** `ecu` answers every read of a window inside `mem` (taken to start at
      address 0) of at most `limit` bytes with 0x63 and the bytes of the
      window, and every longer read negatively or not at all, whatever was
      sent before. */
  ghost predicate ServesMemory(ecu: Ecu, mem: seq<Byte>, limit: nat)
  {
    && (forall hist: seq<Request>, a: U32, n: U16 | a + n <= |mem| && n <= limit ::
          ecu(hist + [ReadRequest(a, n)]) == [0x63] + mem[a..a + n])
    && (forall hist: seq<Request>, a: U32, n: U16 | a + n <= |mem| && n > limit ::
          !Positive(ecu(hist + [ReadRequest(a, n)])))
  }

  /** One such ECU: it refuses a read longer than `limit` or past the end of
      `mem` with requestOutOfRange, and anything else with
      serviceNotSupported. */
  function MemoryReply(mem: seq<Byte>, limit: nat, req: Request): Reply
  {
    if |req| == 8 && req[..2] == [0x23, 0x24] then
      var a, n := AddressField(req), LengthField(req);
      if a + n <= |mem| && n <= limit then [0x63] + mem[a..a + n] else [0x7f, 0x23, 0x31]
    else if |req| > 0 then [0x7f, req[0], 0x11]
    else [0x7f, 0x00, 0x11]
  }

  function MemoryEcu(mem: seq<Byte>, limit: nat): (ecu: Ecu)
    ensures ServesMemory(ecu, mem, limit)
  {
    var ecu := (hist: seq<Request>) => if |hist| == 0 then [] else MemoryReply(mem, limit, hist[|hist| - 1]);
    assert forall hist: seq<Request>, a: U32, n: U16 | a + n <= |mem| ::
      ecu(hist + [ReadRequest(a, n)]) == MemoryReplyTo(mem, limit, a, n) by {
      forall hist: seq<Request>, a: U32, n: U16 | a + n <= |mem|
        ensures ecu(hist + [ReadRequest(a, n)]) == MemoryReplyTo(mem, limit, a, n)
      {
        var req := ReadRequest(a, n);
        assert (hist + [req])[|hist + [req]| - 1] == req;
        MemoryReplyRead(mem, limit, a, n);
      }
    }
    ServesByReplyTo(ecu, mem, limit);
    ecu
  }

  lemma ServesByReplyTo(ecu: Ecu, mem: seq<Byte>, limit: nat)
    requires forall hist: seq<Request>, a: U32, n: U16 | a + n <= |mem| ::
      ecu(hist + [ReadRequest(a, n)]) == MemoryReplyTo(mem, limit, a, n)
    ensures ServesMemory(ecu, mem, limit)
  {
    forall hist: seq<Request>, a: U32, n: U16 | a + n <= |mem| && n > limit
      ensures !Positive(ecu(hist + [ReadRequest(a, n)]))
    {
      assert ecu(hist + [ReadRequest(a, n)]) == [0x7f, 0x23, 0x31];
    }
  }

  /** The reply of `MemoryReply` to a read inside `mem`. */
  function MemoryReplyTo(mem: seq<Byte>, limit: nat, a: nat, n: nat): Reply
    requires a + n <= |mem|
  {
    if n <= limit then [0x63] + mem[a..a + n] else [0x7f, 0x23, 0x31]
  }

  lemma MemoryReplyRead(mem: seq<Byte>, limit: nat, a: U32, n: U16)
    requires a + n <= |mem|
    ensures MemoryReply(mem, limit, ReadRequest(a, n)) == MemoryReplyTo(mem, limit, a, n)
  {
    ReadRequestFields(a, n);
  }

  /** Where one pass of the loop leads against such an ECU. */
  function NextOnMemory(mem: seq<Byte>, limit: nat, c: Cursor): Cursor
    requires c.addr + c.size <= |mem| && c.step <= c.size
  {
    if c.step <= limit then
      Cursor(c.addr + c.step, c.size - c.step, Min(c.step, c.size - c.step), c.dump + mem[c.addr..c.addr + c.step])
    else Cursor(c.addr, c.size, c.step / 2, c.dump)
  }

  lemma BodyOnMemory(ecu: Ecu, mem: seq<Byte>, limit: nat, h: seq<Request>, c: Cursor)
    requires ServesMemory(ecu, mem, limit)
    requires Fits(c) && c.step > 0 && c.addr + c.size <= |mem| && c.addr + c.size <= 0x1_0000_0000
    ensures Body(ecu, h, c) == Sent(ReadRequest(c.addr, c.step), NextOnMemory(mem, limit, c))
  {
    var req := ReadRequest(c.addr, c.step);
    BodyReplies(ecu, h, c);
    if c.step <= limit {
      var reply := ecu(h + [req]);
      assert reply == [0x63] + mem[c.addr..c.addr + c.step];
      assert reply[0] == 0x63 && reply[1..] == mem[c.addr..c.addr + c.step];
    } else {
      assert !Positive(ecu(h + [req]));
    }
  }

  /** The window read from the next loop head, after what the pass added,
      is the window from this one. */
  lemma OnMemoryStep(mem: seq<Byte>, limit: nat, c: Cursor, req: Request, e: Exchange<seq<Byte>>, e': Exchange<seq<Byte>>)
    requires c.addr + c.size <= |mem| && c.step <= c.size
    requires e == Then([req], e')
    requires var next := NextOnMemory(mem, limit, c);
             e'.result == Ok(next.dump + mem[next.addr..next.addr + next.size])
    ensures e.result == Ok(c.dump + mem[c.addr..c.addr + c.size])
  {
    if c.step <= limit {
      var a, m, z := c.addr, c.addr + c.step, c.addr + c.size;
      assert mem[a..m] + mem[m..z] == mem[a..z];
      assert c.dump + mem[a..m] + mem[m..z] == c.dump + (mem[a..m] + mem[m..z]);
    }
  }

  /** Against an ECU that serves every read of at most `limit >= 1` bytes
      of `mem` and refuses longer ones, the loop returns exactly the window
      `[c.addr, c.addr + c.size)` after what it had already read: halving
      reaches a step the ECU accepts before it reaches 0. */
  lemma {:induction false} ReadLoopOnMemory(ecu: Ecu, mem: seq<Byte>, limit: nat, h: seq<Request>, c: Cursor)
    requires ServesMemory(ecu, mem, limit) && limit >= 1
    requires Fits(c) && (c.size > 0 ==> c.step > 0)
    requires c.addr + c.size <= |mem| && c.addr + c.size <= 0x1_0000_0000
    ensures ReadLoop(ecu, h, c).result == Ok(c.dump + mem[c.addr..c.addr + c.size])
    decreases c.size + c.step
  {
    if c.step == 0 {
      assert mem[c.addr..c.addr + c.size] == [];
      assert c.dump + [] == c.dump;
    } else {
      var req := ReadRequest(c.addr, c.step);
      var next := NextOnMemory(mem, limit, c);
      BodyOnMemory(ecu, mem, limit, h, c);
      ReadLoopUnfold(ecu, h, c, req, next);
      ReadLoopOnMemory(ecu, mem, limit, h + [req], next);
      OnMemoryStep(mem, limit, c, req, ReadLoop(ecu, h, c), ReadLoop(ecu, h + [req], next));
    }
  }

  /** `readmem(addr, size)` against such an ECU returns the `size` bytes of
      memory at `addr`, without the response headers. */
  lemma ReadMemOnMemory(ecu: Ecu, mem: seq<Byte>, limit: nat, h: seq<Request>, addr: nat, size: nat)
    requires ServesMemory(ecu, mem, limit) && limit >= 1
    requires addr + size <= |mem| && addr + size <= 0x1_0000_0000
    ensures ReadLoop(ecu, h, Start(addr, size)).result == Ok(mem[addr..addr + size])
  {
    ReadLoopOnMemory(ecu, mem, limit, h, Start(addr, size));
    assert [] + mem[addr..addr + size] == mem[addr..addr + size];
  }
}
