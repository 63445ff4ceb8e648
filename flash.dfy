/** The firmware flasher of the user-space diagnostics client: a
    RequestDownload of the image with its digest appended, the payload in
    TransferData blocks with a wrapping sequence counter, and the routine
    that installs and starts the new firmware. */
module Flash {
  import opened Bits
  import opened Wire
  import opened UserSpaceCommon

  const BlockSize: nat := ReadMemoryMaxSize

  /** The ECU routine that flashes the downloaded image and runs it. */
  const FlashRoutine: U16 := 0xa5a5

  /** `bytes([0x34, 0x00, 0x41, 0x00]) + p32(size)`: RequestDownload with no
      compression or encryption, one address byte (a dummy) and four size
      bytes. */
  function DownloadRequest(size: U32): (r: Request)
    ensures |r| == 8 && r[..4] == [0x34, 0x00, 0x41, 0x00] && Unpack32(r[4..]) == size
  {
    var r := [0x34, 0x00, 0x41, 0x00] + Pack32(size);
    Pack32RoundTrip(size, r[4..]);
    assert r[4..] == Pack32(size);
    r
  }

  /** `bytes([0x36, seqn]) + chunk`: one TransferData block. */
  function BlockRequest(seqn: Byte, chunk: seq<Byte>): Request
  {
    [0x36, seqn] + chunk
  }

  /** Block `k` (from 0) of `data`: the bytes `k * 0x800` up to the next
      block boundary or the end. */
  function Block(data: seq<Byte>, k: nat): (b: seq<Byte>)
    requires k * BlockSize < |data|
    ensures 0 < |b| <= BlockSize
  {
    data[k * BlockSize .. Min((k + 1) * BlockSize, |data|)]
  }

  /** The block loop from the state `(data, seqn)` on: while bytes are left,
      send the next block and check its reply, then step the counter modulo
      256 and drop the block. */
  function Transfer(ecu: Ecu, h: seq<Request>, data: seq<Byte>, seqn: Byte): (e: Exchange<()>)
    ensures |e.sent| <= CeilDiv(|data|, BlockSize)
    ensures e.result.Ok? ==> |e.sent| == CeilDiv(|data|, BlockSize)
    ensures e.result.Err? ==> e.result.error == AssertionError
    decreases |data|
  {
    if |data| == 0 then Exchange(Ok(()), [])
    else
      var n := Min(BlockSize, |data|);
      var req := BlockRequest(seqn, data[..n]);
      match AssertNotNrc(ecu(h + [req]))
      case Err(e) => Exchange(Err(e), [req])
      case Ok(_) => Then([req], Transfer(ecu, h + [req], data[n..], (seqn + 1) % 256))
  }

  /** The flasher after the image was read, `digest` standing for its MD5
      digest: download request, blocks, then `rtctl(s, 0xa5a5,
      RT_CTL_START, no_return=True)`. `p32(size)` raises before anything is
      sent when the payload does not fit in 32 bits. */
  function Flash(ecu: Ecu, h: seq<Request>, image: seq<Byte>, digest: seq<Byte>): (e: Exchange<()>)
    ensures e.result == Err(StructError) <==> |image| + |digest| >= 0x1_0000_0000
    ensures e.sent == [] <==> |image| + |digest| >= 0x1_0000_0000
    ensures e.sent != [] ==> e.sent[0] == DownloadRequest(|image| + |digest|)
    ensures e.result.Ok? ==> |e.sent| == 2 + CeilDiv(|image| + |digest|, BlockSize)
  {
    var payload := image + digest;
    if |payload| >= 0x1_0000_0000 then Exchange(Err(StructError), [])
    else
      var req := DownloadRequest(|payload|);
      match AssertNotNrc(ecu(h + [req]))
      case Err(e) => Exchange(Err(e), [req])
      case Ok(_) =>
        var t := Transfer(ecu, h + [req], payload, 1);
        if t.result.Err? then Then([req], t)
        else
          var r := RtCtl(ecu, h + [req] + t.sent, FlashRoutine, RtCtlStart, true);
          var sent := [req] + t.sent + r.sent;
          match r.result
          case Err(e) => Exchange(Err(e), sent)
          case Ok(_) => Exchange(Ok(()), sent)
  }

  /** The block loop as written: `size` counts down by whole blocks and goes
      negative after a short last block, `data` loses its first block each
      time round. */
  method RunTransfer(ecu: Ecu, h: seq<Request>, payload: seq<Byte>) returns (t: Exchange<()>)
    ensures t == Transfer(ecu, h, payload, 1)
  {
    var data := payload;
    var size: int := |payload|;
    var seqn: Byte := 1;
    var sent: seq<Request> := [];
    ghost var whole := Transfer(ecu, h, payload, 1);
    assert h + sent == h;
    assert Then(sent, whole) == whole;
    while size > 0
      invariant size > 0 ==> size == |data|
      invariant size <= 0 ==> data == []
      invariant whole == Then(sent, Transfer(ecu, h + sent, data, seqn))
      decreases size
    {
      var n := Min(BlockSize, |data|);
      var req := BlockRequest(seqn, data[..n]);
      var reply := ecu(h + sent + [req]);
      var check := AssertNotNrc(reply);
      if check.Err? {
        assert h + sent + [req] == (h + sent) + [req];
        return Exchange(Err(check.error), sent + [req]);
      }
      TransferStep(ecu, h, sent, data, seqn);
      seqn := (seqn + 1) % 256;
      data := data[n..];
      size := size - BlockSize;
      sent := sent + [req];
    }
    return Exchange(Ok(()), sent);
  }

  /** An accepted block hands on to the rest of the loop. */
  lemma TransferStep(ecu: Ecu, h: seq<Request>, sent: seq<Request>, data: seq<Byte>, seqn: Byte)
    requires |data| > 0
    requires AssertNotNrc(ecu(h + sent + [BlockRequest(seqn, data[..Min(BlockSize, |data|)])])).Ok?
    ensures var n := Min(BlockSize, |data|);
            var req := BlockRequest(seqn, data[..n]);
            Then(sent, Transfer(ecu, h + sent, data, seqn))
              == Then(sent + [req], Transfer(ecu, h + (sent + [req]), data[n..], (seqn + 1) % 256))
  {
    var n := Min(BlockSize, |data|);
    var req := BlockRequest(seqn, data[..n]);
    assert h + sent + [req] == h + (sent + [req]);
    ThenThen(sent, [req], Transfer(ecu, h + (sent + [req]), data[n..], (seqn + 1) % 256));
  }

  /** The flasher as written, the block loop in `RunTransfer`. */
  method RunFlash(ecu: Ecu, h: seq<Request>, image: seq<Byte>, digest: seq<Byte>) returns (e: Exchange<()>)
    ensures e == Flash(ecu, h, image, digest)
  {
    var data := image + digest;
    var size := |data|;
    if size >= 0x1_0000_0000 {
      return Exchange(Err(StructError), []);
    }
    var req := DownloadRequest(size);
    var check := AssertNotNrc(ecu(h + [req]));
    if check.Err? {
      return Exchange(Err(check.error), [req]);
    }
    var t := RunTransfer(ecu, h + [req], data);
    if t.result.Err? {
      return Then([req], t);
    }
    var r := RtCtl(ecu, h + [req] + t.sent, FlashRoutine, RtCtlStart, true);
    if r.result.Err? {
      return Exchange(Err(r.result.error), [req] + t.sent + r.sent);
    }
    e := Exchange(Ok(()), [req] + t.sent + r.sent);
  }

  // What the block loop sends.

  /** The loop sends at most one block per 0x800 bytes, and all of them
      when it finishes. */
  lemma {:induction false} TransferCount(ecu: Ecu, h: seq<Request>, data: seq<Byte>, seqn: Byte)
    ensures var t := Transfer(ecu, h, data, seqn);
            && |t.sent| <= CeilDiv(|data|, BlockSize)
            && (t.result.Ok? ==> |t.sent| == CeilDiv(|data|, BlockSize))
            && (|data| > 0 ==> |t.sent| >= 1)
    decreases |data|
  {
    CeilDivStep(|data|, BlockSize);
    if |data| > 0 {
      var n := Min(BlockSize, |data|);
      var req := BlockRequest(seqn, data[..n]);
      if AssertNotNrc(ecu(h + [req])).Ok? {
        TransferCount(ecu, h + [req], data[n..], (seqn + 1) % 256);
        if n < |data| {
          assert n == BlockSize;
        } else {
          assert data[n..] == [];
        }
      }
    }
  }

  /** Block `k` of the loop carries sequence number `seqn + k` modulo 256
      and the `k`-th slice of the data. */
  lemma {:induction false} TransferBlockAt(ecu: Ecu, h: seq<Request>, data: seq<Byte>, seqn: Byte, k: nat)
    requires k < |Transfer(ecu, h, data, seqn).sent|
    ensures k * BlockSize < |data|
    ensures Transfer(ecu, h, data, seqn).sent[k] == BlockRequest((seqn + k) % 256, Block(data, k))
    decreases k
  {
    var n := Min(BlockSize, |data|);
    var req := BlockRequest(seqn, data[..n]);
    var t := Transfer(ecu, h, data, seqn);
    if k == 0 {
      assert Block(data, 0) == data[..n];
    } else {
      var rest := Transfer(ecu, h + [req], data[n..], (seqn + 1) % 256);
      assert t.sent == [req] + rest.sent;
      TransferBlockAt(ecu, h + [req], data[n..], (seqn + 1) % 256, k - 1);
      assert t.sent[k] == rest.sent[k - 1];
      BlockShift(data, k, n, seqn);
    }
  }

  lemma TransferBlocks(ecu: Ecu, h: seq<Request>, data: seq<Byte>, seqn: Byte)
    ensures var t := Transfer(ecu, h, data, seqn);
            forall k | 0 <= k < |t.sent| ::
              k * BlockSize < |data| && t.sent[k] == BlockRequest((seqn + k) % 256, Block(data, k))
  {
    var t := Transfer(ecu, h, data, seqn);
    forall k | 0 <= k < |t.sent|
      ensures k * BlockSize < |data| && t.sent[k] == BlockRequest((seqn + k) % 256, Block(data, k))
    {
      TransferBlockAt(ecu, h, data, seqn, k);
    }
  }

  /** Block `k - 1` after the first one was dropped is block `k`, one
      sequence number later. */
  lemma BlockShift(data: seq<Byte>, k: nat, n: nat, seqn: Byte)
    requires n == BlockSize < |data| && k >= 1 && (k - 1) * BlockSize < |data| - n
    ensures k * BlockSize < |data|
    ensures Block(data[n..], k - 1) == Block(data, k)
    ensures ((seqn + 1) % 256 + (k - 1)) % 256 == (seqn + k) % 256
  {
    var lo, hi := (k - 1) * BlockSize, Min(k * BlockSize, |data| - n);
    assert Block(data[n..], k - 1) == data[n..][lo..hi];
    assert data[n..][lo..hi] == data[n + lo .. n + hi];
    assert n + lo == k * BlockSize;
    assert n + hi == Min((k + 1) * BlockSize, |data|);
    ModAddOne(seqn, k);
  }

  lemma ModAddOne(a: nat, k: nat)
    requires k >= 1
    ensures ((a + 1) % 256 + (k - 1)) % 256 == (a + k) % 256
  {
    var q := (a + 1) / 256;
    DivModSpec(a + 1, 256);
    DivModUnique(a + k, 256, q + ((a + 1) % 256 + (k - 1)) / 256, ((a + 1) % 256 + (k - 1)) % 256);
  }

  /** The payload bytes of a sequence of blocks, in order. */
  function Payloads(sent: seq<Request>): seq<Byte>
  {
    if |sent| == 0 then [] else (if |sent[0]| >= 2 then sent[0][2..] else []) + Payloads(sent[1..])
  }

  /** A prefix of what follows the first `n` bytes, put after them, is a
      prefix of the whole. */
  lemma PrefixCons(data: seq<Byte>, n: nat, r: seq<Byte>)
    requires n <= |data| && |r| <= |data| - n && r == data[n..][..|r|]
    ensures data[..n] + r == data[..n + |r|]
    ensures r == data[n..] ==> data[..n] + r == data
  {
  }

  /** The blocks sent carry a prefix of the data in order, and all of it
      when the loop finishes. */
  lemma {:induction false} TransferPayload(ecu: Ecu, h: seq<Request>, data: seq<Byte>, seqn: Byte)
    ensures var t := Transfer(ecu, h, data, seqn);
            var p := Payloads(t.sent);
            && |p| <= |data| && p == data[..|p|]
            && (t.result.Ok? ==> p == data)
    decreases |data|
  {
    if |data| > 0 {
      var n := Min(BlockSize, |data|);
      var req := BlockRequest(seqn, data[..n]);
      var t := Transfer(ecu, h, data, seqn);
      assert req[2..] == data[..n];
      if AssertNotNrc(ecu(h + [req])).Ok? {
        var rest := Transfer(ecu, h + [req], data[n..], (seqn + 1) % 256);
        TransferPayload(ecu, h + [req], data[n..], (seqn + 1) % 256);
        assert t.sent == [req] + rest.sent;
        assert t.sent[1..] == rest.sent;
        var r := Payloads(rest.sent);
        assert Payloads(t.sent) == data[..n] + r;
        PrefixCons(data, n, r);
      } else {
        assert t.sent == [req];
        assert t.sent[1..] == [];
      }
    }
  }

  /** Every block but the last got a reply that passed the negative-response
      check before the next block went out; the loop fails exactly when the
      last block's reply did not pass. */
  lemma {:induction false} TransferReplies(ecu: Ecu, h: seq<Request>, data: seq<Byte>, seqn: Byte)
    ensures var t := Transfer(ecu, h, data, seqn);
            var rs := Replies(ecu, h, t.sent);
            && (forall k | 0 <= k < |rs| - 1 :: AssertNotNrc(rs[k]).Ok?)
            && (t.result.Err? <==> |rs| >= 1 && AssertNotNrc(rs[|rs| - 1]).Err?)
            && (t.result.Err? ==> t.result.error == AssertionError)
    decreases |data|
  {
    if |data| > 0 {
      var n := Min(BlockSize, |data|);
      var req := BlockRequest(seqn, data[..n]);
      var t := Transfer(ecu, h, data, seqn);
      if AssertNotNrc(ecu(h + [req])).Ok? {
        var rest := Transfer(ecu, h + [req], data[n..], (seqn + 1) % 256);
        TransferReplies(ecu, h + [req], data[n..], (seqn + 1) % 256);
        assert t.sent == [req] + rest.sent;
        RepliesCons(ecu, h, req, rest.sent);
        if rest.sent == [] {
          assert rest.result.Ok?;
        }
      } else {
        assert t.sent == [req];
        RepliesCons(ecu, h, req, []);
      }
    }
  }

  // What the flasher sends.

  /** The download request goes first, carrying the size of the image plus
      the sixteen-byte digest, and is never sent again: every later request
      is a TransferData block or the RoutineControl request. A payload too
      large for `p32` stops the flasher before anything is sent. */
  lemma FlashDownload(ecu: Ecu, h: seq<Request>, image: seq<Byte>, digest: seq<Byte>)
    requires |digest| == 16
    ensures var e := Flash(ecu, h, image, digest);
            var size := |image| + 16;
            && (size >= 0x1_0000_0000 ==> e == Exchange(Err(StructError), []))
            && (size < 0x1_0000_0000 ==>
                  && |e.sent| >= 1 && e.sent[0] == DownloadRequest(size)
                  && e.sent[0][..4] == [0x34, 0x00, 0x41, 0x00] && Unpack32(e.sent[0][4..]) == size
                  && (forall i | 1 <= i < |e.sent| :: |e.sent[i]| >= 2 && e.sent[i][0] in {0x31, 0x36}))
  {
    var e := Flash(ecu, h, image, digest);
    var payload := image + digest;
    if |payload| < 0x1_0000_0000 {
      var req := DownloadRequest(|payload|);
      if AssertNotNrc(ecu(h + [req])).Ok? {
        var t := Transfer(ecu, h + [req], payload, 1);
        TransferBlocks(ecu, h + [req], payload, 1);
        if t.result.Ok? {
          var r := RtCtl(ecu, h + [req] + t.sent, FlashRoutine, RtCtlStart, true);
          RtCtlReplies(ecu, h + [req] + t.sent, FlashRoutine, RtCtlStart, true);
          assert e.sent == [req] + t.sent + r.sent;
          FlashLater(req, t.sent, r.sent, e.sent);
        } else {
          FlashLater(req, t.sent, [], e.sent);
        }
      }
    }
  }

  lemma FlashLater(req: Request, blocks: seq<Request>, rest: seq<Request>, sent: seq<Request>)
    requires sent == [req] + blocks + rest
    requires forall k | 0 <= k < |blocks| :: |blocks[k]| >= 2 && blocks[k][0] == 0x36
    requires forall k | 0 <= k < |rest| :: |rest[k]| >= 2 && rest[k][0] == 0x31
    ensures forall i | 1 <= i < |sent| :: |sent[i]| >= 2 && sent[i][0] in {0x31, 0x36}
  {
    forall i | 1 <= i < |sent|
      ensures |sent[i]| >= 2 && sent[i][0] in {0x31, 0x36}
    {
      if i <= |blocks| {
        assert sent[i] == blocks[i - 1];
      } else {
        assert sent[i] == rest[i - 1 - |blocks|];
      }
    }
  }

  /** A completed flash is the download request, the whole block loop and
      the RoutineControl request, whose reply was missing or positive. */
  lemma FlashSplit(ecu: Ecu, h: seq<Request>, image: seq<Byte>, digest: seq<Byte>)
    requires Flash(ecu, h, image, digest).result.Ok?
    ensures var e := Flash(ecu, h, image, digest);
            var payload := image + digest;
            var t := Transfer(ecu, h + [DownloadRequest(|payload|)], payload, 1);
            var last := ecu(h + e.sent);
            && |payload| < 0x1_0000_0000 && t.result.Ok?
            && e.sent == [DownloadRequest(|payload|)] + t.sent + [[0x31, 0x01, 0xa5, 0xa5]]
            && (last == [] || (last[0] != 0x7f && last[0] in DataOffs))
  {
    var e := Flash(ecu, h, image, digest);
    var payload := image + digest;
    var req := DownloadRequest(|payload|);
    var t := Transfer(ecu, h + [req], payload, 1);
    RtCtlReplies(ecu, h + [req] + t.sent, FlashRoutine, RtCtlStart, true);
    assert h + e.sent == h + [req] + t.sent + [[0x31, 0x01, 0xa5, 0xa5]];
  }

  /** A completed flash sent `ceil(size / 0x800) + 2` requests and ended
      with `31 01 a5 a5`, to which the reply was missing or positive. */
  lemma FlashCompleted(ecu: Ecu, h: seq<Request>, image: seq<Byte>, digest: seq<Byte>)
    requires |digest| == 16
    ensures var e := Flash(ecu, h, image, digest);
            var count := CeilDiv(|image| + 16, BlockSize);
            e.result.Ok? ==>
              && |e.sent| == count + 2
              && e.sent[count + 1] == [0x31, 0x01, 0xa5, 0xa5]
              && var last := ecu(h + e.sent);
                 last == [] || (last[0] != 0x7f && last[0] in DataOffs)
  {
    var e := Flash(ecu, h, image, digest);
    var payload := image + digest;
    if e.result.Ok? {
      FlashSplit(ecu, h, image, digest);
      TransferCount(ecu, h + [DownloadRequest(|payload|)], payload, 1);
    }
  }

  /** The blocks of a completed flash are numbered 1, 2, ..., 255, 0, 1, ...
      and together carry the image followed by its digest. */
  lemma FlashBlocks(ecu: Ecu, h: seq<Request>, image: seq<Byte>, digest: seq<Byte>)
    requires |digest| == 16
    ensures var e := Flash(ecu, h, image, digest);
            var payload := image + digest;
            var count := CeilDiv(|payload|, BlockSize);
            e.result.Ok? ==>
              && count + 2 == |e.sent|
              && Payloads(e.sent[1..count + 1]) == payload
              && (forall k | 0 <= k < count ::
                    k * BlockSize < |payload| && e.sent[k + 1] == BlockRequest((k + 1) % 256, Block(payload, k)))
  {
    var e := Flash(ecu, h, image, digest);
    var payload := image + digest;
    if e.result.Ok? {
      var req := DownloadRequest(|payload|);
      var t := Transfer(ecu, h + [req], payload, 1);
      FlashSplit(ecu, h, image, digest);
      TransferCount(ecu, h + [req], payload, 1);
      TransferBlocks(ecu, h + [req], payload, 1);
      TransferPayload(ecu, h + [req], payload, 1);
      var count := |t.sent|;
      assert e.sent[1..count + 1] == t.sent;
      forall k | 0 <= k < count
        ensures e.sent[k + 1] == t.sent[k]
      {
      }
    }
  }
}
