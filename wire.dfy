/** What both diagnostic clients share: Python's exceptions as values, the
    ECU behind the ISO-TP socket as an oracle, big-endian packing
    (`struct.pack('>H')`, `struct.pack('>I')`), the negative-reply check and
    the payload extraction through a response-offset table. */
module Wire {
  import opened Bits

  /** The Python exceptions the client code can raise. */
  datatype Error =
    | AssertionError   // a failed `assert`
    | KeyError         // a reply byte missing from the offset table
    | IndexError       // indexing past the end of a sequence
    | TypeError        // using `None` (a receive timeout) as bytes
    | ValueError       // `bytes([...])` or `int(..., 16)` given a bad value
    | StructError      // `struct.pack`/`unpack` given a bad value or length
    | AttributeError   // calling a method on `None`
    | OverflowError    // `int.to_bytes` given too few bytes for the value

  datatype Result<T> = Ok(value: T) | Err(error: Error)

  datatype Option<T> = None | Some(value: T)

  type Request = seq<Byte>

  /** A reply; the empty reply stands for `None`, what `recv()` gives on a
      timeout (an ISO-TP message carries at least one byte). */
  type Reply = seq<Byte>

  /** The ECU on the other end of the socket: given every request sent on the
      session so far, the last one included, the reply to that last request.
      A function of the whole history lets the ECU keep state (sessions,
      security levels, a pseudo-random generator). */
  type Ecu = seq<Request> -> Reply

  /** What one client operation did: its outcome and the requests it sent,
      in order. */
  datatype Exchange<T> = Exchange(result: Result<T>, sent: seq<Request>)

  /** The exchange `e`, run after the requests `pre` were sent. */
  function Then<T>(pre: seq<Request>, e: Exchange<T>): Exchange<T>
  {
    Exchange(e.result, pre + e.sent)
  }

  lemma ThenThen<T>(a: seq<Request>, b: seq<Request>, e: Exchange<T>)
    ensures Then(a, Then(b, e)) == Then(a + b, e)
  {
  }

  /** `ceil(a / b)`. */
  function CeilDiv(a: nat, b: nat): nat
    requires b > 0
  {
    (a + b - 1) / b
  }

  /** Taking one chunk of `b` off `a` takes one off the number of chunks. */
  lemma CeilDivStep(a: nat, b: nat)
    requires b > 0
    ensures a == 0 ==> CeilDiv(a, b) == 0
    ensures 0 < a <= b ==> CeilDiv(a, b) == 1
    ensures a >= b ==> CeilDiv(a, b) == 1 + CeilDiv(a - b, b)
  {
    Bits.DivModUnique(b - 1, b, 0, b - 1);
    if 0 < a <= b {
      Bits.DivModUnique(a + b - 1, b, 1, a - 1);
    }
    if a >= b {
      var q, r := (a - 1) / b, (a - 1) % b;
      Bits.DivModSpec(a - 1, b);
      Bits.DivModUnique(a + b - 1, b, q + 1, r);
      Bits.DivModUnique(a - 1, b, q, r);
      if a - b > 0 {
        Bits.DivModUnique(a - 1, b, q, r);
        assert a - b + b - 1 == (q - 1) * b + r + b;
        Bits.DivModUnique(a - b + b - 1, b, q, r);
      }
    }
  }

  function Min(a: int, b: int): int
  {
    if a <= b then a else b
  }

  function Max(a: int, b: int): int
  {
    if a <= b then b else a
  }

  /** `s.count(x)` for a single element `x`. */
  function Count<T(==)>(s: seq<T>, x: T): (n: nat)
    ensures n <= |s|
  {
    if s == [] then 0 else (if s[0] == x then 1 else 0) + Count(s[1..], x)
  }

  // Big-endian packing.

  /** `p16(x)`: `x` as two bytes, most significant first. */
  function Pack16(x: U16): (r: seq<Byte>)
    ensures |r| == 2 && r[0] as int * 0x100 + r[1] == x
  {
    [x / 0x100, x % 0x100]
  }

  /** `u16(b)`: the big-endian value of exactly two bytes. */
  function Unpack16(b: seq<Byte>): (x: U16)
    requires |b| == 2
    ensures x / 0x100 == b[0] && x % 0x100 == b[1]
  {
    b[0] as int * 0x100 + b[1]
  }

  /** `p32(x)`: `x` as four bytes, most significant first. */
  function Pack32(x: U32): (r: seq<Byte>)
    ensures |r| == 4 && ((r[0] as int * 0x100 + r[1]) * 0x100 + r[2]) * 0x100 + r[3] == x
  {
    var q1 := x / 0x100;
    var q2 := q1 / 0x100;
    DivModSpec(x, 0x100);
    DivModSpec(q1, 0x100);
    DivModSpec(q2, 0x100);
    [q2 / 0x100, q2 % 0x100, q1 % 0x100, x % 0x100]
  }

  /** `u32(b)`: the big-endian value of exactly four bytes. */
  function Unpack32(b: seq<Byte>): (x: U32)
    requires |b| == 4
    ensures x / 0x100_0000 == b[0] && (x / 0x1_0000) % 0x100 == b[1]
    ensures (x / 0x100) % 0x100 == b[2] && x % 0x100 == b[3]
  {
    var x := ((b[0] as int * 0x100 + b[1]) * 0x100 + b[2]) * 0x100 + b[3];
    DivModUnique(x, 0x100_0000, b[0], (b[1] as int * 0x100 + b[2]) * 0x100 + b[3]);
    DivModUnique(x, 0x1_0000, b[0] as int * 0x100 + b[1], b[2] as int * 0x100 + b[3]);
    DivModUnique(b[0] as int * 0x100 + b[1], 0x100, b[0], b[1]);
    DivModUnique(x, 0x100, (b[0] as int * 0x100 + b[1]) * 0x100 + b[2], b[3]);
    DivModUnique((b[0] as int * 0x100 + b[1]) * 0x100 + b[2], 0x100, b[0] as int * 0x100 + b[1], b[2]);
    x
  }

  lemma Pack16RoundTrip(x: U16, b: seq<Byte>)
    requires |b| == 2
    ensures Unpack16(Pack16(x)) == x && Pack16(Unpack16(b)) == b
  {
  }

  lemma Pack32RoundTrip(x: U32, b: seq<Byte>)
    requires |b| == 4
    ensures Unpack32(Pack32(x)) == x && Pack32(Unpack32(b)) == b
  {
  }

  // Replies.

  /** `assert_not_nrc(reply)`: passes exactly for a reply that is present and
      is not a negative response (leading byte 0x7f). */
  function AssertNotNrc(reply: Reply): (r: Result<()>)
    ensures r.Ok? <==> |reply| > 0 && reply[0] != 0x7f
    ensures r.Err? ==> r.error == AssertionError
  {
    if |reply| > 0 && reply[0] != 0x7f then Ok(()) else Err(AssertionError)
  }

  /** A positive response (request SID + 0x40) passes `assert_not_nrc`, a negative
      response `7f sid nrc` and a missing reply do not. */
  lemma AssertNotNrcClassifies(sid: Byte, rest: seq<Byte>)
    requires sid + 0x40 < 0x100 && sid != 0x3f
    ensures AssertNotNrc([sid + 0x40] + rest).Ok?
    ensures AssertNotNrc([0x7f, sid] + rest).Err?
    ensures AssertNotNrc([]).Err?
  {
  }

  /** `reply[DATA_OFFS[reply[0]]:]`: the reply without the header whose
      size the offset table gives for its leading byte. Python's slice
      gives the empty payload when the reply is shorter than the header. */
  function GetData(table: map<Byte, nat>, reply: Reply): (r: Result<seq<Byte>>)
    ensures r.Ok? <==> |reply| > 0 && reply[0] in table
    ensures |reply| == 0 ==> r == Err(TypeError)
    ensures |reply| > 0 && reply[0] !in table ==> r == Err(KeyError)
    ensures r.Ok? ==>
              |r.value| == Max(0, |reply| - table[reply[0]]) && r.value == reply[|reply| - |r.value|..]
  {
    if |reply| == 0 then Err(TypeError)
    else if reply[0] !in table then Err(KeyError)
    else Ok(reply[Min(table[reply[0]], |reply|)..])
  }
}
