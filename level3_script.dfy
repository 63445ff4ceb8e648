/** The stand-alone level-3 unlock script of the user-space diagnostics
    client: the same key derivation as `level3` in the unlock script, with
    an early exit when no seed is offered and the key reply printed. */
module Level3Script {
  import opened Bits
  import opened Wire
  import opened UserSpaceCommon
  import opened UserSpaceUnlock

  /** The script: `getseed(s, 3)`; exit when there is no seed; otherwise
      the mixed key, `sendkey(s, 3, key)`, and `data.decode()`, which raises
      AttributeError when `sendkey` gave `None`. */
  function Script(ecu: Ecu, h: seq<Request>): (e: Exchange<Outcome>)
    ensures 1 <= |e.sent| <= 2 && e.sent[0] == [0x27, 3]
    ensures e.result == Ok(AlreadyAuthenticated) ==> |e.sent| == 1
    ensures e.result.Ok? && e.result.value.Printed? ==>
              |e.sent| == 2 && e.result.value.data != [] && e.result.value.data[0] != 0x7f
    ensures e.result != Ok(Exhausted)
  {
    var g := GetSeed(ecu, h, 3);
    match g.result
    case Err(e) => Exchange(Err(e), g.sent)
    case Ok(seed) =>
      if NoSeed(seed) then Exchange(Ok(AlreadyAuthenticated), g.sent)
      else if |seed.value| < 4 then Exchange(Err(IndexError), g.sent)
      else
        var k := SendKey(ecu, h + g.sent, 3, MixKey(seed.value));
        match k.result
        case Err(e) => Exchange(Err(e), g.sent + k.sent)
        case Ok(data) =>
          if data.None? then Exchange(Err(AttributeError), g.sent + k.sent)
          else Exchange(Ok(Printed(data.value)), g.sent + k.sent)
  }

  /** The script as written: the key list filled in place. */
  method RunScript(ecu: Ecu, h: seq<Request>) returns (e: Exchange<Outcome>)
    ensures e == Script(ecu, h)
  {
    var g := GetSeed(ecu, h, 3);
    if g.result.Err? {
      return Exchange(Err(g.result.error), g.sent);
    }
    var seed := g.result.value;
    if seed.None? || seed.value == [] {
      return Exchange(Ok(AlreadyAuthenticated), g.sent);
    }
    var key := ComputeMixKey(seed.value);
    if key.Err? {
      return Exchange(Err(key.error), g.sent);
    }
    var k := SendKey(ecu, h + g.sent, 3, key.value);
    if k.result.Err? {
      return Exchange(Err(k.result.error), g.sent + k.sent);
    }
    if k.result.value.None? {
      return Exchange(Err(AttributeError), g.sent + k.sent);
    }
    e := Exchange(Ok(Printed(k.result.value.value)), g.sent + k.sent);
  }

  /** The script sends exactly what `level3` of the unlock script sends, and
      ends the same way: no seed is the early exit, a payload is printed, and
      a raised exception is the same one except that a `None` from `sendkey`
      fails only here. */
  lemma ScriptIsLevel3(ecu: Ecu, h: seq<Request>)
    ensures var s := Script(ecu, h);
            var l := Level3(ecu, h);
            && s.sent == l.sent
            && (s.result == Ok(AlreadyAuthenticated) <==> l == Exchange(Ok(None), [[0x27, 3]]))
            && (forall d :: s.result == Ok(Printed(d)) <==> l.result == Ok(Some(d)))
            && (l.result.Err? ==> s.result.Err? && s.result.error == l.result.error)
  {
    GetSeedReplies(ecu, h, 3, []);
    var g := GetSeed(ecu, h, 3);
    if g.result.Ok? && !NoSeed(g.result.value) && |g.result.value.value| >= 4 {
      SendKeyReplies(ecu, h + g.sent, 3, MixKey(g.result.value.value), []);
    }
  }

  /** The script never sends a key when no seed is offered, and otherwise
      sends `27 04` followed by the four mixed key bytes. */
  lemma ScriptRequests(ecu: Ecu, h: seq<Request>)
    ensures var s := Script(ecu, h);
            var g := GetSeed(ecu, h, 3);
            && 1 <= |s.sent| <= 2 && s.sent[0] == [0x27, 3]
            && (g.result.Ok? && NoSeed(g.result.value) ==> s == Exchange(Ok(AlreadyAuthenticated), [[0x27, 3]]))
            && (|s.sent| == 2 ==> g.result.Ok? && g.result.value.Some? && |g.result.value.value| >= 4
                                  && s.sent[1] == [0x27, 4] + MixKey(g.result.value.value))
  {
    GetSeedReplies(ecu, h, 3, []);
    var g := GetSeed(ecu, h, 3);
    if g.result.Ok? && !NoSeed(g.result.value) && |g.result.value.value| >= 4 {
      SendKeyReplies(ecu, h + g.sent, 3, MixKey(g.result.value.value), []);
    }
  }
}
