# bhctf diagnostic clients in Dafny

This project models the client side of a set of CTF solutions (pwnalone/bhctf).
Most of them talk to an electronic control unit (ECU) over the Unified Diagnostic
Services protocol of ISO 14229-1 (UDS). There are two client libraries, one per
target ECU:

- the **user-space** ECU (`user-space-diagnostics/scripts`);
- the **Harbor Bay** ECU (`vsec-harborbay/scripts`).

Each library has a table of response data offsets, big-endian `p16`/`p32`
packing, the negative-response check, and a chunked `readmem` loop built on
ReadMemoryByAddress (service 0x23). The user-space library also has seed and key
helpers for SecurityAccess (0x27) and RoutineControl (0x31).

On top of the libraries sit the scripts:

- the unlock scripts of both ECUs, with their seed-to-key derivations;
- the level-1 brute force with its `broadcast` loop and the level-3 script;
- the firmware flasher, which sends RequestDownload (0x34), then TransferData
  (0x36) blocks with a wrapping sequence counter, then a RoutineControl;
- the request fuzzer;
- the shell REPL that reassembles output up to an 8-byte sentinel.

Two unrelated utilities are modelled as well:

- the LSB audio decoder of `sadcarnoises`;
- the query-string parser `to_dct` of the `holy-hell` web service, with the
  signature guard around it.

## How the model is built

- **The ECU.** It is an oracle `Ecu = seq<Request> -> Reply`: the reply to the
  last request, given every request sent so far. An empty reply stands for the
  `None` that `recv` returns on a timeout.
- **Exchanges.** Every protocol step returns an `Exchange` value. It holds the
  requests the step sent, in order, and its result. Python exceptions are
  `Err` values, named after the exception class: a failed `assert_not_nrc` is an
  `AssertionError`, a missing `DATA_OFFS` key a `KeyError`, a `None` reply
  indexed a `TypeError`, a `struct.pack` out of range a `StructError`.
- **Loops.** Where the source loops, the model has a `method` with a `while`
  loop. Each such method is proved equal to a recursive function that states
  the same computation one iteration at a time. The source's promises are then
  proved as lemmas about that function:
  - both `readmem` loops;
  - `broadcast` and the level-1 brute force;
  - the level-5 seed harvest;
  - the flash block loop;
  - the fuzzer loop;
  - the REPL and its reassembly loop;
  - the decoder's read loop;
  - `to_dct`;
  - the level-3 key array filled in place.
- **Integers and strings.**
  - Python integers are unbounded `int`/`nat`.
  - `^` and `|` are bitwise functions on `nat` (module `Bits`).
  - `& 0xff` on a possibly negative value is Dafny's Euclidean `% 256`, which
    agrees with Python's for a positive mask.
  - Bytes are `int`s in `0..255`. Strings are `seq<char>`.

### Behaviour worth noting

- **Level 3 key of the user-space ECU.** Each key byte is
  `((seed[i] + x) ^ C) - (seed[j] << 4)`, masked to a byte. For `key[0]` and
  `key[1]`, `x` is `seed[i] ^ seed[j]`: `key[0]` pairs `seed[0]` with
  `seed[3]`, and `key[1]` pairs `seed[1]` with `seed[2]`. For `key[2]` and
  `key[3]`, `x` leaves `seed[i]` out: `key[2]` uses `seed[1] ^ seed[3]` with
  `j = 1`, and `key[3]` uses `seed[0] ^ seed[2]` with `j = 0`.
- **`readmem` at step 0.** When `step` falls to 0, `readmem` returns what it
  collected so far. It raises no error.
- **User-space `readmem` output.** It appends each accepted reply whole,
  including the response SID byte, not the payload alone.
- **User-space `readmem` and other negative replies.** Only `7f 23 22` and
  `7f 23 31` are treated specially. Any other negative reply is appended to
  the dump like data, and the cursor moves on. The read is not aborted.
- **Harbor Bay `readmem`.** Every negative reply, whatever its code, and every
  timeout halve the step. None of them aborts the read.

## Model

| member | source | states |
|---|---|---|
| Wire.Pack16 | user-space-diagnostics/scripts/common.py:27 | `p16` gives two bytes whose big-endian value is the input |
| Wire.Unpack16 | user-space-diagnostics/scripts/common.py:27 | `u16` of two bytes has the first as its high byte and the second as its low byte |
| Wire.Pack32 | user-space-diagnostics/scripts/common.py:28 | `p32` gives four bytes whose big-endian value is the input |
| Wire.Unpack32 | user-space-diagnostics/scripts/common.py:28 | each of the four bytes of `u32` is the matching base-256 digit of the result |
| Wire.Pack16RoundTrip | user-space-diagnostics/scripts/common.py:27 | `u16(p16(x)) == x` for every 16-bit x, and `p16(u16(b)) == b` for every 2-byte b |
| Wire.Pack32RoundTrip | user-space-diagnostics/scripts/common.py:28 | `u32(p32(x)) == x` for every 32-bit x, and `p32(u32(b)) == b` for every 4-byte b |
| Wire.AssertNotNrc | user-space-diagnostics/scripts/common.py:45-46 | succeeds exactly on non-empty replies whose first byte is not 0x7f; otherwise it is an AssertionError |
| Wire.AssertNotNrcClassifies | vsec-harborbay/scripts/common.py:40-41 | a positive response (SID + 0x40) passes; a negative response `7f sid ...` and an empty reply fail |
| Wire.GetData | user-space-diagnostics/scripts/common.py:48-49 | succeeds exactly when the reply's first byte is a table key; the result is the reply without its first `offs` bytes (empty if shorter); an empty reply is a TypeError and an unknown SID a KeyError |
| UserSpaceCommon.DataOffsKeys | user-space-diagnostics/scripts/common.py:11-19 | the table holds exactly the seven keys 0x62, 0x63, 0x67, 0x71, 0x74, 0x76 and 0x7f; since 0x7f maps to 0, a negative reply comes back whole |
| UserSpaceCommon.ReadRequest | user-space-diagnostics/scripts/common.py:56 | a ReadMemoryByAddress request is 10 bytes and starts `23 44` |
| UserSpaceCommon.ReadRequestFields | user-space-diagnostics/scripts/common.py:56 | the request's 4-byte address field decodes to `addr` and its 4-byte length field to `step` |
| UserSpaceCommon.Body | user-space-diagnostics/scripts/common.py:55-56 | one iteration requests `min(step, size)` bytes at `addr` and fails with a struct error exactly when `addr` does not fit in 32 bits; unless it stops, the new step is at most `min(step, size)`, the window end is unchanged and the measure `size + step` drops |
| UserSpaceCommon.BodyReplies | user-space-diagnostics/scripts/common.py:54-69 | with `s = min(step, size)`: the iteration stops exactly on the reply `7f 23 22`, leaving the cursor unchanged; any other non-empty reply except `7f 23 31` is appended whole, `addr` grows by `s`, `size` drops by `s` and the step becomes `s`; an empty reply or `7f 23 31` sets the step to `s / 2` and leaves `addr`, `size` and the dump alone |
| UserSpaceCommon.ReadMem | user-space-diagnostics/scripts/common.py:51-70 | the while loop computes the recursive `ReadLoop` from `step = 0x800` and an empty dump |
| UserSpaceCommon.ReadLoop | user-space-diagnostics/scripts/common.py:54-70 | the loop only adds to the dump it starts with; its only error is the struct error of an address beyond 32 bits; from a positive step at a 32-bit address it sends at least one request |
| UserSpaceCommon.ReadLoopRequests | user-space-diagnostics/scripts/common.py:53-56 | every request is `23 44` + p32(address) + p32(length), with the length at most the current step and the window inside `[addr, addr + size)` |
| UserSpaceCommon.ReadLoopLengthsShrink | user-space-diagnostics/scripts/common.py:55-69 | every request asks for at most as many bytes as the one before it: the step never grows |
| UserSpaceCommon.ReadLoopReplies | user-space-diagnostics/scripts/common.py:59-69 | no request follows a `7f 23 22` reply; the result is the starting dump followed by every accepted reply, headers included, in order (neither empty nor `7f 23 31`) |
| UserSpaceCommon.Halvings | user-space-diagnostics/scripts/common.py:56-69 | the k read requests at one address have lengths `s`, then each half the one before |
| UserSpaceCommon.ReadLoopRefused | user-space-diagnostics/scripts/common.py:54-70 | against an ECU that answers every read with nothing or `7f 23 31`, the loop asks for the same address with lengths `s, s/2, ...` down to 1, where `s = min(step, size)` (one zero-length request when `s` is 0), and returns the dump it started with |
| UserSpaceCommon.ReadLoopAtEnd | user-space-diagnostics/scripts/common.py:54-69 | with `size == 0` the loop still sends one zero-length request, then returns, appending the reply if accepted |
| UserSpaceCommon.ReadLoopOnMemoryAtEnd | user-space-diagnostics/scripts/common.py:54-69 | against an ECU that serves a memory image, the zero-size cursor yields its dump plus one empty `63` frame after exactly one request |
| UserSpaceCommon.MemoryEcu | user-space-diagnostics/scripts/common.py:56 | an ECU that answers in-range reads with `63` + the memory bytes exists |
| UserSpaceCommon.ReadLoopOnMemory | user-space-diagnostics/scripts/common.py:51-70 | against such an ECU, `readmem` returns the memory window cut into `63`-headed frames of the step size, plus the final empty frame, after `ceil(size/step) + 1` requests |
| UserSpaceCommon.GetSeedReplies | user-space-diagnostics/scripts/common.py:72-80 | `getseed` sends `27 level`; a reply `67 level p` gives None exactly when p is `00 00` and p otherwise; a negative or empty reply is an AssertionError; an unknown positive SID is a KeyError |
| UserSpaceCommon.GetSeed | user-space-diagnostics/scripts/common.py:72-80 | a level above 255 is a ValueError from `bytes` with nothing sent; otherwise exactly the request `27 level` is sent; success needs a non-empty, non-negative reply; a returned seed is never `00 00` |
| UserSpaceCommon.GetSeedData | user-space-diagnostics/scripts/common.py:72-78 | `getseed` sends exactly `27 level`, and a seed it returns is `getdata` of the reply |
| UserSpaceCommon.GetSeedLevelRange | user-space-diagnostics/scripts/common.py:73 | a level above 255 cannot be a byte: ValueError, nothing sent |
| UserSpaceCommon.SendKeySent | user-space-diagnostics/scripts/common.py:82-85 | `sendkey` sends exactly `27 (level+1)` + key |
| UserSpaceCommon.SendKey | user-space-diagnostics/scripts/common.py:82-90 | a level of 255 or more is a ValueError with nothing sent; otherwise exactly the one request `27 (level+1)` + key is sent; returned data is non-empty and does not start with 0x7f |
| UserSpaceCommon.SendKeyReplies | user-space-diagnostics/scripts/common.py:82-90 | a `67` reply gives its payload when that is non-empty and does not start with 0x7f, and None otherwise; a negative reply gives None; no reply is a TypeError; an unknown SID a KeyError |
| UserSpaceCommon.RtCtlReplies | user-space-diagnostics/scripts/common.py:92-97 | `rtctl` sends `31 action` + p16(rid); it succeeds exactly when, with `no_return`, no reply came, or when the reply is positive with a known SID; without `no_return` an empty reply is an AssertionError; a `71` reply gives its data from byte 4 |
| UserSpaceCommon.RtCtl | user-space-diagnostics/scripts/common.py:92-97 | an action above 255 is a ValueError and a routine id of 2^16 or more a struct error, exactly, with nothing sent; otherwise one request is sent; None comes back only with `no_return` and no reply |
| HarborBayCommon.DataOffsKeys | vsec-harborbay/scripts/common.py:10-15 | the table holds exactly 0x59, 0x62, 0x63 and 0x67; there is no 0x7f entry, so `get_data` of a negative reply is a KeyError |
| HarborBayCommon.XorBytes | vsec-harborbay/scripts/common.py:23-24 | the result has length `min(|a|, |b|)`, and each result byte XORed with `b`'s byte gives `a`'s byte back |
| HarborBayCommon.XorBytesTwice | vsec-harborbay/scripts/common.py:23-24 | XORing twice with `b` returns `a` cut to the shorter length, and returns `a` itself when `|a| <= |b|` |
| HarborBayCommon.ReadRequest | vsec-harborbay/scripts/common.py:50 | a ReadMemoryByAddress request is 8 bytes and starts `23 24` |
| HarborBayCommon.ReadRequestFields | vsec-harborbay/scripts/common.py:50 | its 4-byte address field decodes to `addr` and its 2-byte length field to `step` |
| HarborBayCommon.Body | vsec-harborbay/scripts/common.py:50-57 | a sent iteration requests `step` bytes at an address that fits in 32 bits; the invariant `step <= min(0x800, size)` holds after it and the measure `size + step` drops |
| HarborBayCommon.BodyReplies | vsec-harborbay/scripts/common.py:50-57 | any negative or empty reply halves `step` and leaves `addr`, `size` and the dump alone, whatever the NRC; a positive reply with a table SID appends `get_data(reply)`, advances `addr`, lowers `size` and sets `step = min(step, size)`; any other positive SID is a KeyError |
| HarborBayCommon.Start | vsec-harborbay/scripts/common.py:48 | the initial cursor `step = min(0x800, size)` satisfies the loop invariant |
| HarborBayCommon.ReadMem | vsec-harborbay/scripts/common.py:46-58 | the while loop computes the recursive `ReadLoop` from the initial cursor |
| HarborBayCommon.ReadLoop | vsec-harborbay/scripts/common.py:49-58 | the loop only adds to the dump it starts with; its errors are the struct error of an address beyond 32 bits and the KeyError of an unknown positive SID, the latter only after a request was sent |
| HarborBayCommon.ReadMemEmpty | vsec-harborbay/scripts/common.py:48-49 | with `size == 0`, `readmem` sends nothing and returns `b''` |
| HarborBayCommon.ReadLoopRequests | vsec-harborbay/scripts/common.py:48-57 | every request is `23 24` + p32(address) + p16(length), with the length at most the step and the window inside `[addr, addr + size)` |
| HarborBayCommon.ChunksShape | vsec-harborbay/scripts/common.py:48-55 | the reference request list has `ceil(size/0x800)` requests; request i reads `min(0x800, size - 0x800*i)` bytes at `addr + 0x800*i` |
| HarborBayCommon.ChunksCount | vsec-harborbay/scripts/common.py:48-55 | the reference list has `ceil(size/0x800)` requests |
| HarborBayCommon.ChunkAt | vsec-harborbay/scripts/common.py:48-55 | the ith reference request is `23 24` with address `addr + 0x800*i` and length `min(0x800, size - 0x800*i)` |
| HarborBayCommon.ReadLoopAlwaysPositive | vsec-harborbay/scripts/common.py:49-55 | against an ECU that always answers positively, the loop succeeds and sends exactly the reference request list |
| HarborBayCommon.ReadMemAlwaysPositive | vsec-harborbay/scripts/common.py:46-58 | against such an ECU, `readmem` sends exactly `ceil(size/0x800)` requests, at `addr, addr + 0x800, ...`, each for a full block except the last |
| HarborBayCommon.MemoryEcu | vsec-harborbay/scripts/common.py:50 | an ECU exists that serves a memory image in reads of at most `limit` bytes and refuses longer ones |
| HarborBayCommon.BodyOnMemory | vsec-harborbay/scripts/common.py:50-57 | against such an ECU, one iteration reads `step` bytes and moves the cursor past them when `step` is within the limit, and halves `step` otherwise |
| HarborBayCommon.ReadLoopOnMemory | vsec-harborbay/scripts/common.py:49-57 | against such an ECU, even one that refuses reads longer than some limit, the loop returns the dump followed by exactly the memory bytes of the window |
| HarborBayCommon.ReadMemOnMemory | vsec-harborbay/scripts/common.py:46-58 | against such an ECU, `readmem(addr, size)` returns exactly `mem[addr .. addr + size]` |
| HarborBayUnlock.ComplementXor | vsec-harborbay/scripts/unlock.py:14 | `~x & 0xffff` is `0xffff - x`, and XORing it with x gives `ffff` |
| HarborBayUnlock.ComplementTwice | vsec-harborbay/scripts/unlock.py:14 | complementing twice gives the seed back |
| HarborBayUnlock.Level3Key | vsec-harborbay/scripts/unlock.py:12-14 | a key is derived exactly from a 2-byte seed; any other length is a struct error in `u16`; the key has 2 bytes |
| HarborBayUnlock.Level3KeyBytes | vsec-harborbay/scripts/unlock.py:14 | each key byte is `0xff` minus the seed byte |
| HarborBayUnlock.Level3KeyComplements | vsec-harborbay/scripts/unlock.py:14 | key XOR seed is `ff ff`, and deriving a key from the key gives the seed back |
| HarborBayUnlock.Level1Key | vsec-harborbay/scripts/unlock.py:28 | the key has the length of the shorter of the seed and the 4-byte mask |
| HarborBayUnlock.Level1MaskBytes | vsec-harborbay/scripts/unlock.py:28 | `p32(0x5539aa17)` is `55 39 aa 17` |
| HarborBayUnlock.Level1KeyInvolution | vsec-harborbay/scripts/unlock.py:28 | for a seed of at most 4 bytes, applying the XOR mask twice gives the seed back |
| HarborBayUnlock.LevelStarts | vsec-harborbay/scripts/unlock.py:5-11 | a level sends 1 to 3 requests: first the session request `10 session`, then, only if that reply passes `assert_not_nrc`, the seed request `27 level` |
| HarborBayUnlock.Checked | vsec-harborbay/scripts/unlock.py:7-8 | a checked exchange sends exactly its request and succeeds, returning the reply, exactly when the reply is non-empty and does not start with 0x7f; otherwise it is an AssertionError |
| HarborBayUnlock.Level | vsec-harborbay/scripts/unlock.py:5-17 | a level sends 1 to 3 requests: `10 session`, then `27 level`, then `27 (level+1)` + key; it succeeds only after all three |
| HarborBayUnlock.Level3 | vsec-harborbay/scripts/unlock.py:5-17 | `level3` starts `10 03`, `27 03`; on success its third request is the 4-byte `27 04` + 2-byte key |
| HarborBayUnlock.Level1 | vsec-harborbay/scripts/unlock.py:19-31 | `level1` starts `10 02`, `27 01`; on success its third request is `27 02` + a key of at most 4 bytes |
| HarborBayUnlock.LevelKey | vsec-harborbay/scripts/unlock.py:11-16 | a third request is sent only if the seed reply passes `assert_not_nrc`, carries data and yields a key; it is `27 (level+1)` + key, with the key derived from that data |
| HarborBayUnlock.LevelSucceeds | vsec-harborbay/scripts/unlock.py:16-17 | a level succeeds exactly when all three requests were sent and the key reply passes `assert_not_nrc` |
| HarborBayUnlock.LevelRequests | vsec-harborbay/scripts/unlock.py:5-31 | the three facts above together: requests in order, each reply checked before the next request, success exactly when the key is accepted |
| HarborBayUnlock.Level3ZeroSeed | vsec-harborbay/scripts/unlock.py:10-16 | there is no zero-seed shortcut: a `00 00` seed still gets the key `ff ff` sent |
| HarborBayUnlock.UnlockOrder | vsec-harborbay/scripts/unlock.py:33-35 | `unlock` starts with `10 03`; a successful run sends exactly `10 03`, `27 03`, `27 04 ..`, `10 02`, `27 01`, `27 02 ..`, level 3 before level 1 |
| HarborBayUnlock.Unlock | vsec-harborbay/scripts/unlock.py:33-35 | `unlock` sends 1 to 6 requests, `10 03` first; on success all six, the fourth being `10 02` |
| UserSpaceUnlock.Level1Key | user-space-diagnostics/scripts/unlock.py:11 | a key is derived exactly from a 4-byte seed (otherwise `u32` raises a struct error) and has 4 bytes |
| UserSpaceUnlock.Level1KeyInvolution | user-space-diagnostics/scripts/unlock.py:11 | XORing with `0x20202020` twice gives the seed back |
| UserSpaceUnlock.MixWraps | user-space-diagnostics/scripts/unlock.py:19-22 | each key byte, computed on unbounded integers with Python's precedence and then `& 0xff`, equals the same formula in wrapping 8-bit arithmetic |
| UserSpaceUnlock.Mix | user-space-diagnostics/scripts/unlock.py:19-22 | one key byte, `((x + (y ^ z)) ^ k) - (w << 4)` with Python's precedence, taken `& 0xff` as the remainder mod 256; `MixWraps` relates it to the 8-bit form |
| UserSpaceUnlock.MixKey | user-space-diagnostics/scripts/unlock.py:18-22 | the level-3 key has exactly 4 bytes |
| UserSpaceUnlock.MixKeyExamples | user-space-diagnostics/scripts/unlock.py:19-22 | seed `aa bb cc dd` gives key `0f 1f 18 ed`; seed `00 00 00 00` gives `fe ed fa ce` |
| UserSpaceUnlock.MixKeyDependencies | user-space-diagnostics/scripts/unlock.py:19-22 | key[0] depends only on seed[0], seed[3]; key[1] on seed[1], seed[2]; key[2] on seed[1..3]; key[3] on seed[0], seed[2], seed[3]; bytes after the fourth are never read |
| UserSpaceUnlock.ComputeMixKey | user-space-diagnostics/scripts/unlock.py:18-22 | filling the 4-element array in the source's order (key[1], key[0], key[2], key[3]) gives the mixing key for seeds of 4 or more bytes, and an IndexError for shorter seeds |
| UserSpaceUnlock.Level1Requests | user-space-diagnostics/scripts/unlock.py:6-11 | `level1` first sends `27 01`; with no seed it stops there returning None; with a 4-byte seed it sends `27 02` + the XOR key; a seed error ends it |
| UserSpaceUnlock.NoSeed | user-space-diagnostics/scripts/unlock.py:8 | `not seed`: true for None and for an empty seed; the Level1, Level3 and Level5 rows state what each level does then |
| UserSpaceUnlock.Level1 | user-space-diagnostics/scripts/unlock.py:6-11 | `level1` sends `27 01`, then at most a `27 02` key request; it returns data only after both |
| UserSpaceUnlock.RunLevel3 | user-space-diagnostics/scripts/unlock.py:13-23 | the imperative `level3` computes the `Level3` exchange |
| UserSpaceUnlock.Level3Requests | user-space-diagnostics/scripts/unlock.py:13-23 | `level3` first sends `27 03`; with no seed it stops there; a seed of 4 or more bytes gets `27 04` + the mixing key; a shorter seed is an IndexError before any key is sent |
| UserSpaceUnlock.Level3 | user-space-diagnostics/scripts/unlock.py:13-23 | `level3` sends `27 03`, then at most the 6-byte `27 04` key request; it returns data only after both |
| UserSpaceUnlock.HarvestRequests | user-space-diagnostics/scripts/unlock.py:34-35 | the harvest sends only `27 05` requests, at most n and at least one when n > 0; a successful harvest sends exactly n and appends n outputs to those it had |
| UserSpaceUnlock.Round | user-space-diagnostics/scripts/unlock.py:35 | one `u32(getseed(s, 5))`: getseed's error, a TypeError for None, a struct error for a seed that is not 4 bytes, or the seed's big-endian value; `RoundSends` gives the request. `Level5` hands it to the harvest as `RoundOf(ecu)`, a function of the requests sent before the round |
| UserSpaceUnlock.Harvest | user-space-diagnostics/scripts/unlock.py:34-35 | n rounds send at most n requests; a successful harvest sends exactly n and adds n outputs |
| UserSpaceUnlock.RunHarvest | user-space-diagnostics/scripts/unlock.py:34-35 | the 624-round loop of `level5` computes the harvest, stopping at the first failed round |
| UserSpaceUnlock.RunRounds | user-space-diagnostics/scripts/unlock.py:34-35 | the `for _ in range(count)` loop, one `27 05` round per iteration, computes the recursive `Harvest` of `count` rounds, stopping at the first exception |
| UserSpaceUnlock.HarvestStep | user-space-diagnostics/scripts/unlock.py:34-35 | one successful round extends the sent requests by `27 05` and the outputs by that round's value, without changing the final result |
| UserSpaceUnlock.RunLevel5 | user-space-diagnostics/scripts/unlock.py:25-38 | the imperative `level5` computes the `Level5` exchange |
| UserSpaceUnlock.Level5Requests | user-space-diagnostics/scripts/unlock.py:25-38 | `level5` sends `27 05`, then `27 03`, then 624 more `27 05`, then one `27 06` key; a successful run sends either only the first request or all 627. A seed error ends it after `27 05` with that error; no seed or an empty one returns None after `27 05` without a key; a present seed always sends `27 03` next |
| UserSpaceUnlock.Level5 | user-space-diagnostics/scripts/unlock.py:25-38 | `level5` sends between 1 and 627 requests, `27 05` first and `27 03` second; it returns data only after all 627 |
| UserSpaceUnlock.Level5Key | user-space-diagnostics/scripts/unlock.py:34-38 | after the harvest and key step the earlier requests are kept as a prefix, and at most 625 follow; data comes back only after all 625 |
| UserSpaceUnlock.RunUnlock | user-space-diagnostics/scripts/unlock.py:40-43 | the imperative `unlock` computes the `Unlock` exchange |
| UserSpaceUnlock.UnlockOrder | user-space-diagnostics/scripts/unlock.py:40-43 | `unlock` runs level 1, then level 3 (its first request `27 03` right after level 1's requests), then level 5 (its first request `27 05` right after level 3's) |
| UserSpaceUnlock.Unlock | user-space-diagnostics/scripts/unlock.py:40-43 | `unlock` always sends `27 01` first |
| Level3Script.RunScript | user-space-diagnostics/scripts/level3.py:7-21 | the script computes the `Script` exchange |
| Level3Script.ScriptIsLevel3 | user-space-diagnostics/scripts/level3.py:7-19 | the script sends what `level3` of unlock.py sends; it reports "already authenticated" exactly when no seed came; it prints exactly what `level3` returns; its errors are `level3`'s errors |
| Level3Script.Script | user-space-diagnostics/scripts/level3.py:7-21 | the script sends one or two requests, `27 03` first; it reports "already authenticated" only after one; what it prints came after two requests and is non-empty, not starting with 0x7f; it never ends exhausted |
| Level3Script.ScriptRequests | user-space-diagnostics/scripts/level3.py:7-19 | the script sends one or two requests, `27 03` first; with no seed it exits after one; the second request is `27 04` + the mixing key of a seed of 4 or more bytes |
| Level1Script.Broadcast | user-space-diagnostics/scripts/level1.py:5-12 | the while loop computes the recursive `BroadcastLoop` with `k` starting at 8 |
| Level1Script.BroadcastPass | user-space-diagnostics/scripts/level1.py:9 | one pass `x |= x << k` on m copies of a byte gives 2m copies |
| Level1Script.BroadcastCopies | user-space-diagnostics/scripts/level1.py:9-11 | from m copies with `k = 8m`, `2^j` as `n` gives `m * 2^j` copies of the byte |
| Level1Script.BroadcastPowerOfTwo | user-space-diagnostics/scripts/level1.py:5-12 | `broadcast(x, 2^j)` is x repeated in every one of `2^j` bytes |
| Level1Script.BroadcastSmall | user-space-diagnostics/scripts/level1.py:7-12 | `broadcast(x,1) == x`, `broadcast(x,2) == x * 0x0101`, `broadcast(x,4) == x * 0x01010101` |
| Level1Script.BroadcastThree | user-space-diagnostics/scripts/level1.py:7-12 | `broadcast(x,3)` gives only two copies, since `n >>= 1` rounds down |
| Level1Script.Broadcast4 | user-space-diagnostics/scripts/level1.py:5-12 | `broadcast(x,4)` fits in 32 bits, and its `p32` is four copies of x |
| Level1Script.CandidateKey | user-space-diagnostics/scripts/level1.py:21 | the key for each candidate has 4 bytes |
| Level1Script.CandidateKeyBytes | user-space-diagnostics/scripts/level1.py:21 | the key XORed with the seed is `x * 0x01010101`, so every key byte is seed byte XOR x |
| Level1Script.RunAttempt | user-space-diagnostics/scripts/level1.py:17-24 | one iteration of the for loop computes the `Attempt` exchange |
| Level1Script.RunScript | user-space-diagnostics/scripts/level1.py:16-24 | the for loop with its `break` and exit computes the recursive `Search` from candidate 0 |
| Level1Script.AttemptTried | user-space-diagnostics/scripts/level1.py:17-21 | an attempt sends a fresh `27 01` then, unless it stops, one key `27 02` + candidate key for that seed and candidate; an attempt that goes on sent both |
| Level1Script.Attempt | user-space-diagnostics/scripts/level1.py:17-24 | an attempt sends `27 01` and then at most the 6-byte `27 02` key; a rejected candidate, and a printed reply, came after both; an attempt never ends exhausted; how its outcome follows from the replies is `AttemptOutcome` |
| Level1Script.AttemptOutcome | user-space-diagnostics/scripts/level1.py:18-24 | a None or empty seed ends the attempt as already authenticated after `27 01` alone; for a 4-byte seed the search goes on exactly when `sendkey` of the candidate key returned None, and the attempt prints d exactly when `sendkey` returned d |
| Level1Script.Search | user-space-diagnostics/scripts/level1.py:16-24 | from candidate x the search sends at most two requests per remaining candidate, and exactly two per candidate when it ends exhausted |
| Level1Script.SearchUnfold | user-space-diagnostics/scripts/level1.py:16-24 | a candidate below 256 that the ECU rejects is followed by the search from the next candidate |
| Level1Script.SearchContinues | user-space-diagnostics/scripts/level1.py:16-24 | a rejected candidate leads to the next candidate, with the requests concatenated |
| Level1Script.SearchStops | user-space-diagnostics/scripts/level1.py:22-24 | a run that exits, fails or is accepted at candidate x sends nothing after that attempt, and is not the exhausted outcome |
| Level1Script.SearchTried | user-space-diagnostics/scripts/level1.py:16-24 | requests alternate: seed request `27 01` at even positions, candidate key for x, x+1, ... at odd positions; at most 256 keys are sent; an exhausted search sent exactly two requests per candidate |
| Flash.DownloadRequest | user-space-diagnostics/scripts/flash.py:28 | the request is 8 bytes: `34 00 41 00` followed by p32(size) |
| Flash.BlockRequest | user-space-diagnostics/scripts/flash.py:35 | a TransferData block `bytes([0x36, seqn]) + chunk`; `TransferBlockAt` states what each sent block holds |
| Flash.Block | user-space-diagnostics/scripts/flash.py:35-38 | block k is a non-empty slice of at most 0x800 bytes |
| Flash.RunTransfer | user-space-diagnostics/scripts/flash.py:32-39 | the while loop over `seqn`, `data`, `size` computes the recursive `Transfer` from sequence number 1 |
| Flash.Transfer | user-space-diagnostics/scripts/flash.py:32-39 | the loop sends at most `ceil(size/0x800)` blocks, exactly that many on success; its only error is the AssertionError of a rejected block |
| Flash.TransferStep | user-space-diagnostics/scripts/flash.py:34-39 | an accepted block moves on to the remaining data with `seqn + 1` taken mod 256 |
| Flash.RunFlash | user-space-diagnostics/scripts/flash.py:14-42 | the script computes the `Flash` exchange for image + digest |
| Flash.Flash | user-space-diagnostics/scripts/flash.py:14-42 | a payload of 2^32 bytes or more is exactly the struct error with nothing sent; otherwise the first request is the download request for the payload size; a successful flash sends `ceil(size/0x800) + 2` requests |
| Flash.TransferCount | user-space-diagnostics/scripts/flash.py:33-39 | at most `ceil(size/0x800)` TransferData requests are sent, exactly that many on success, at least one for a non-empty payload |
| Flash.TransferBlockAt | user-space-diagnostics/scripts/flash.py:32-38 | block k, counting from 0, is `36 ((seqn + k) mod 256)` + the kth 0x800-byte slice |
| Flash.TransferBlocks | user-space-diagnostics/scripts/flash.py:32-38 | every sent block is the kth slice with sequence number `(seqn + k) mod 256` |
| Flash.TransferPayload | user-space-diagnostics/scripts/flash.py:35-38 | the payloads of the sent blocks form a prefix of the data, and all of it on success |
| Flash.TransferReplies | user-space-diagnostics/scripts/flash.py:35-36 | every block but the last sent got a reply passing `assert_not_nrc`; the transfer fails, with AssertionError, exactly when the last block's reply does not |
| Flash.FlashDownload | user-space-diagnostics/scripts/flash.py:14-29 | a payload of 2^32 or more bytes is a struct error before anything is sent; otherwise the first request is the download request for `|image| + 16` bytes, and every later request is a 0x36 block or the 0x31 routine |
| Flash.FlashSplit | user-space-diagnostics/scripts/flash.py:28-42 | a successful flash sends the download request, then the successful transfer of the payload, then `31 01 a5 a5`, whose reply is empty or positive with a known SID |
| Flash.FlashCompleted | user-space-diagnostics/scripts/flash.py:33-42 | a successful flash sends `ceil(size/0x800) + 2` requests and ends with `31 01 a5 a5`; an empty reply to that is tolerated |
| Flash.FlashBlocks | user-space-diagnostics/scripts/flash.py:14-38 | on success, request k + 1 is block k with sequence number `(k+1) mod 256`, and the blocks concatenate to image + digest |
| Wire.Count | user-space-diagnostics/scripts/fuzzer.py:16 | `fmt.count('?')` is at most the length of the string |
| Fuzzer.Tokens | user-space-diagnostics/scripts/fuzzer.py:25 | `split()` gives no more tokens than characters, and every token is non-empty |
| Fuzzer.Fill | user-space-diagnostics/scripts/fuzzer.py:17 | substituting the nibbles for the placeholders keeps the template's length |
| Fuzzer.FillHoles | user-space-diagnostics/scripts/fuzzer.py:15-17 | the nibbles land exactly in the `?` positions, in order; every other character is kept; no `?` is left when the nibbles hold none |
| Fuzzer.Digits | user-space-diagnostics/scripts/fuzzer.py:24 | the ith tuple of the product has `cnt` digits |
| Fuzzer.Product | user-space-diagnostics/scripts/fuzzer.py:24 | `itertools.product(HEX_DIGITS, repeat=c)` built one digit position at a time; `ProductDigits` gives its length and order |
| Fuzzer.ProductDigits | user-space-diagnostics/scripts/fuzzer.py:24 | `itertools.product(HEX_DIGITS, repeat=cnt)` has `16^cnt` tuples, and the ith is i written in `cnt` hex digits: lexicographic order |
| Fuzzer.DigitsValue | user-space-diagnostics/scripts/fuzzer.py:24 | the ith tuple reads back as the hex number i |
| Fuzzer.ValueDigits | user-space-diagnostics/scripts/fuzzer.py:24 | every hex word is the tuple at index its own value |
| Fuzzer.ProductComplete | user-space-diagnostics/scripts/fuzzer.py:24 | every hex word of length `cnt` occurs in the product, at index its value |
| Fuzzer.TokensOfJoin | user-space-diagnostics/scripts/fuzzer.py:15 | splitting the space-joined arguments gives the arguments back when each is a token |
| Fuzzer.ParseByte | user-space-diagnostics/scripts/fuzzer.py:25 | `int(tok, 16)` turned into a byte succeeds exactly for a non-empty hex token below 256, giving its value; otherwise ValueError |
| Fuzzer.ParseRequest | user-space-diagnostics/scripts/fuzzer.py:25 | the request has one byte per token, each the value of its token, and fails with ValueError exactly when some token does not parse |
| Fuzzer.Instance | user-space-diagnostics/scripts/fuzzer.py:25 | the request for one tuple has at most as many bytes as the template has characters; its only error is ValueError |
| Fuzzer.Hex | user-space-diagnostics/scripts/fuzzer.py:27 | `bytes.hex()` gives two characters per byte |
| Fuzzer.Pieces | user-space-diagnostics/scripts/fuzzer.py:21-22 | the slices `s[i:i+n]` number `ceil(|s|/n)` |
| Fuzzer.SpacedPieces | user-space-diagnostics/scripts/fuzzer.py:21-22 | `spaced(s, n)` is the n-character slices joined with single spaces |
| Fuzzer.Spaced | user-space-diagnostics/scripts/fuzzer.py:21-22 | `spaced(s, n)` is empty exactly when s is, and is never shorter than s |
| Fuzzer.SpacedRemove | user-space-diagnostics/scripts/fuzzer.py:21-22 | for space-free s, deleting the spaces from `spaced(s, n)` gives s back |
| Fuzzer.SpacedLength | user-space-diagnostics/scripts/fuzzer.py:21-22 | `spaced(s, n)` adds one space between consecutive slices and none at the ends |
| Fuzzer.HexPieces | user-space-diagnostics/scripts/fuzzer.py:22-27 | the 2-character pieces of a hex dump are the hex of each byte, one piece per byte |
| Fuzzer.HexAt | user-space-diagnostics/scripts/fuzzer.py:27 | characters 2i and 2i+1 of the hex dump are the hex of byte i |
| Fuzzer.DumpLength | user-space-diagnostics/scripts/fuzzer.py:21-27 | the spaced hex dump of m bytes has `3m - 1` characters, none for no bytes |
| Fuzzer.Line | user-space-diagnostics/scripts/fuzzer.py:27 | a printed line is the request dump, `  ->  ` (`print`'s spaces around `' -> '`), then the reply dump, with lengths `3m - 1` for m bytes |
| Fuzzer.RunFuzzer | user-space-diagnostics/scripts/fuzzer.py:7-27 | the script, with its usage message and its loop over the product, computes `Fuzz` |
| Fuzzer.Fuzz | user-space-diagnostics/scripts/fuzzer.py:7-27 | with no arguments the script prints exactly the five usage lines and sends nothing; otherwise it sends at most `16^cnt` requests and prints no more lines than requests |
| Fuzzer.FuzzStep | user-space-diagnostics/scripts/fuzzer.py:24-27 | an iteration with a parsed request and a reply prints one line `spaced(req) -> spaced(reply)` and goes on with the rest of the product |
| Fuzzer.FuzzOver | user-space-diagnostics/scripts/fuzzer.py:24-27 | no more lines than requests and no more requests than tuples; a run ending without error prints one line per tuple |
| Fuzzer.FuzzOverCons | user-space-diagnostics/scripts/fuzzer.py:24-27 | a parsed first tuple with a reply prints its line and sends its request before the run over the rest |
| Fuzzer.FuzzOverFirst | user-space-diagnostics/scripts/fuzzer.py:24-27 | a run that printed anything parsed its first tuple and got a reply to it |
| Fuzzer.FuzzLines | user-space-diagnostics/scripts/fuzzer.py:24-27 | the kth printed line shows the kth request sent and the reply the ECU gave to it |
| Fuzzer.FuzzCount | user-space-diagnostics/scripts/fuzzer.py:24-27 | at most one request per tuple, exactly one each in a run ending without error; the only errors are ValueError (bad token) and AttributeError (no reply, which is sent but not printed) |
| Fuzzer.FuzzSentAt | user-space-diagnostics/scripts/fuzzer.py:24-25 | the jth request sent is the template filled with the jth tuple |
| Fuzzer.FuzzComplete | user-space-diagnostics/scripts/fuzzer.py:15-27 | a run ending without error sends exactly `16^cnt` requests, the jth being the template filled with j in `cnt` hex digits |
| TpRepl.Data | user-space-diagnostics/scripts/tprepl.py:14-15 | a `None` or empty chunk adds nothing; any other chunk adds its bytes |
| TpRepl.EndsWithEnd | user-space-diagnostics/scripts/tprepl.py:12 | `res.endswith(END)`: the last 8 bytes are `END`; `GatherFirst` states where reassembly stops by it |
| TpRepl.Gather | user-space-diagnostics/scripts/tprepl.py:12-15 | a finished reassembly used at most the chunks available and ends with `END` |
| TpRepl.Reassemble | user-space-diagnostics/scripts/tprepl.py:11-16 | the inner while loop gives the `Output` of the chunks; it produces output exactly when the sentinel arrives, after the chunks `Gather` used |
| TpRepl.Output | user-space-diagnostics/scripts/tprepl.py:12-16 | output exists exactly when reassembly finishes, and the output followed by `END` is the concatenation of the chunks it used |
| TpRepl.GatherFirst | user-space-diagnostics/scripts/tprepl.py:12-15 | reassembly stops at the first chunk boundary where the bytes so far end with `END`, and the bytes are the concatenation of the chunks up to there; with no such boundary it never finishes |
| TpRepl.EmptyChunksIgnored | user-space-diagnostics/scripts/tprepl.py:13-15 | dropping the `None` and empty chunks changes neither whether reassembly finishes nor what it gathers |
| TpRepl.NonEmpty | user-space-diagnostics/scripts/tprepl.py:13-15 | the filtered chunks all carry data |
| TpRepl.OutputIgnoresEmpty | user-space-diagnostics/scripts/tprepl.py:13-16 | the printed output is the same with or without the empty chunks |
| TpRepl.SendCompleteEnds | user-space-diagnostics/shell.c:15 | output followed by what `SEND_COMPLETE` writes ends with tprepl's `END` |
| TpRepl.ShellReplyPrinted | user-space-diagnostics/scripts/tprepl.py:5-16 | when the shell's output plus sentinel arrive in chunks, with no earlier boundary ending in `END`, the REPL prints exactly the output, whatever comes later |
| TpRepl.Repl | user-space-diagnostics/scripts/tprepl.py:9-17 | each command is sent before its output is printed: at most one output per command, and the first command is always sent |
| TpRepl.RunRepl | user-space-diagnostics/scripts/tprepl.py:7-19 | the outer loop over input lines computes `Repl` |
| TpRepl.ReplCounts | user-space-diagnostics/scripts/tprepl.py:9-17 | the commands sent are a prefix of the input lines, in order; every line gets an output exactly when each sent command got one; the first output is the reassembly of the first chunks |
| SadCarNoises.LsbString | sadcarnoises/decode.py:8 | the bit string has one character per input byte |
| SadCarNoises.LsbStringAppend | sadcarnoises/decode.py:8 | the bit string keeps input order: it distributes over concatenation |
| SadCarNoises.Base2Value | sadcarnoises/decode.py:9 | `int(s, 2)` of an n-bit string is below `2^n` |
| SadCarNoises.ParseBase2 | sadcarnoises/decode.py:9 | `int(s, 2)`: the empty string is a ValueError; a parsed n-digit string is below `2^n`; every error is ValueError |
| SadCarNoises.LsbStringValue | sadcarnoises/decode.py:8-9 | `int(s, 2)` of the bit string is the number whose bits, most significant first, are the bytes' bit 0 |
| SadCarNoises.BigEndian | sadcarnoises/decode.py:9 | `to_bytes(n, 'big')` has n bytes |
| SadCarNoises.BigEndianRoundTrip | sadcarnoises/decode.py:9 | reading back `to_bytes(n, 'big')` gives the value for every value below `2^(8n)` |
| SadCarNoises.ToBytes | sadcarnoises/decode.py:9 | `to_bytes(n, 'big')` fails, with OverflowError, exactly when the value needs more than n bytes; otherwise it gives n bytes that read back as the value |
| SadCarNoises.DecodeResult | sadcarnoises/decode.py:7-9 | `decode` fails with ValueError exactly on empty input; otherwise it gives `ceil(|data|/8)` bytes whose big-endian value is the LSB number, right-aligned |
| SadCarNoises.Decode | sadcarnoises/decode.py:7-9 | an empty input is a ValueError; otherwise `ceil(|data|/8)` bytes come out, never more than went in |
| SadCarNoises.DecodeLsbOnly | sadcarnoises/decode.py:8 | inputs that agree on bit 0 of every byte decode alike |
| SadCarNoises.DecodePacks | sadcarnoises/decode.py:8-9 | when `|data|` is a multiple of 8, output byte i packs the LSBs of `data[8i..8i+7]`, the first as the most significant bit |
| SadCarNoises.DecodeConcat | sadcarnoises/decode.py:7-9 | decoding two whole-byte inputs one after the other equals decoding their concatenation |
| SadCarNoises.DecodeFile | sadcarnoises/decode.py:11-18 | the read loop writes `Written(blocks)` |
| SadCarNoises.Written | sadcarnoises/decode.py:13-18 | the file written is never longer than the frames read, and starts with the decoding of the first block when that decodes |
| SadCarNoises.WrittenStep | sadcarnoises/decode.py:13-18 | a block that fails to decode ends the output; otherwise the output is its decoding followed by the rest |
| SadCarNoises.WrittenStops | sadcarnoises/decode.py:13-18 | an empty block ends the file: nothing after it is written |
| SadCarNoises.WrittenWhole | sadcarnoises/decode.py:13-18 | when every block is non-empty and a multiple of 8 frames, the file written is the decoding of all frames at once |
| HolyHell.Split | holy-hell/app.py:33 | `bytes.split(sep)` gives at least one part |
| HolyHell.SplitJoin | holy-hell/app.py:33 | split gives one more part than there are separators; no part holds the separator; joining the parts gives the input back |
| HolyHell.ToDict | holy-hell/app.py:30-39 | the for loop with its exception-ended exit computes `ToDct` |
| HolyHell.ToDct | holy-hell/app.py:30-39 | the result has at most one key more than there are `&` separators, and none when the data holds no `=` |
| HolyHell.NoEqualsNoPairs | holy-hell/app.py:33-35 | without `=` the first segment does not unpack into two parts |
| HolyHell.Stop | holy-hell/app.py:34-38 | parsing stops at the first segment that does not split into exactly two parts; every earlier segment does |
| HolyHell.WellFormedOneEquals | holy-hell/app.py:35 | `k, v = line.split(b'=')` succeeds exactly when the segment holds one `=` |
| HolyHell.FillKeys | holy-hell/app.py:34-36 | a key is in the result exactly when it was there before or some segment before the stop has it |
| HolyHell.Fill | holy-hell/app.py:34-36 | the loop keeps every key it had, adds at most one per segment, and changes nothing when the first segment is malformed |
| HolyHell.FillKeeps | holy-hell/app.py:34-36 | a key no segment before the stop mentions keeps its old value |
| HolyHell.FillLastWins | holy-hell/app.py:36 | the value of a key is that of its last segment before the stop |
| HolyHell.ToDctMeaning | holy-hell/app.py:30-39 | `to_dct` has exactly the keys of the segments before the first malformed one, each with the value of its last segment |
| HolyHell.ToDctExamples | holy-hell/app.py:30-39 | `to_dct(b'') == {}` and `to_dct(b'=') == {b'': b''}` |
| HolyHell.DuplicateVinWins | holy-hell/app.py:36 | `vin=X<pad>&vin=Y` parses to `{vin: Y}`: the appended duplicate overwrites the signed one |
| HolyHell.GetVinInfoGuard | holy-hell/app.py:55-68 | the answer is "Invalid signature..." exactly when the cookie is not the signature of the query; otherwise a VIN record is returned exactly when the query's `vin` is registered, and a missing key is a KeyError |
| HolyHell.LookupVin | holy-hell/app.py:21-22 | the lookup succeeds exactly for a registered VIN, with its record; otherwise a KeyError |
| HolyHell.GetVinInfo | holy-hell/app.py:55-68 | the answer is "Invalid signature..." exactly when the cookie is not the query's signature; an error is always the KeyError of a signed query |

## Left out

- Sockets, ISO 15765-2 transport and CAN setup (`socket`, `sendrecv`) are I/O. They are replaced by the `Ecu` oracle, and every step records the requests it sends.
- The `f.write` branch of user-space `readmem` is file I/O. The model always appends to `dump`.
- The MT19937 state recovery of `level5` comes from a library that is not part of this model. It is the parameter `Predictor` (the next output given the 624 seen). Only the request counts and their order are modelled. `level5.py` is left out for the same reason.
- The MD5 digest in `flash.py` is a foreign hash. It is a 16-byte parameter.
- The argument check and usage message of `flash.py`, its file read and its final `Ready!` are I/O. The image is a parameter.
- The SHA-256 `calc_sig` of `app.py` and `hlextend` in `extend.py` are foreign hashes. The signature is a function parameter.
- The Flask routes other than `get_vin_info`, `reg_vin` with `vinGen`/`VINDecoder`, and the file-reading routes are web framework and foreign code.
- `unquote_to_bytes` is left out: the query is taken after unquoting. The VIN records are taken as already rendered strings, so the `str()` of `lookup_vin` is not modelled either.
- `print`, `sys.exit` and `.decode()` of printed data are modelled as outcome values, such as "already authenticated" or "printed d". A `UnicodeDecodeError` while printing is not modelled.
- Fuzzer: `str.format` is modelled only for the `{}` the script inserts. Literal braces in an argument are not handled as Python would. `int(x, 16)` is modelled for plain lower- and upper-case hex digits only, without the sign, the `0x` prefix or the underscores Python also accepts. Whitespace is the ASCII whitespace set.
- The REPL waits forever when the sentinel never arrives. The model returns no output when the supplied chunks run out. `input()` lines are a parameter. `KeyboardInterrupt` is left out.
- `TpRepl.Repl` simply stops when the input lines run out. In the script, `input()` then raises `EOFError`. tprepl.py:18 catches only `KeyboardInterrupt`, so the script ends with a traceback, which the model does not represent.
- The wave-file reading of `decode.py` is file I/O. The frames come as a list of blocks; an empty block stands for the end of the file.
- `Base2Value` reads only `0`/`1` strings. `int(s, 2)` also accepts underscores, whitespace and a `0b` prefix, which the bit string never holds.
- `shell.c` runs commands through `system()` over a socket; only its `SEND_COMPLETE` bytes are modelled. `upload.py` and `download.py` are HTTP. The one-request scripts (`getmem.py`, `rtctl.py`, `rdbid.py`, `reset.py`, `getdtc.py`, `getvin.py`) are argument parsing around the modelled helpers.
- Negative integer arguments are not modelled. The address, size, level, routine id and action parameters are `nat`, and the flash sizes are lengths. Python raises `struct.error` for them (`p32(-1)`) or `ValueError` (`bytes([0x27, -1])`), and `getmem.py` passes `int(sys.argv[1], 16)` and `int(sys.argv[2], 10)` to `readmem` unchecked. A negative size, for instance, makes user-space `readmem` pack a negative step and fail; the model has no such input.
