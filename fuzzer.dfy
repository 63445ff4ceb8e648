/** The protocol fuzzer of the user-space diagnostics client: the command
    line is a template of hex bytes in which every `?` stands for one hex
    digit; the fuzzer sends one request for every way of filling in the
    digits, in lexicographic order, and prints each request with its reply. */
module Fuzzer {
  import opened Bits
  import opened Wire

  /** `HEX_DIGITS`, in the order `itertools.product` takes them. */
  const HexDigits: string := "0123456789abcdef"

  function Pow16(c: nat): (r: nat)
    ensures r >= 1
  {
    if c == 0 then 1 else 16 * Pow16(c - 1)
  }

  // The template.

  /** `fmt.replace('?', '{}').format(*nibs)`: each `?` in turn replaced by
      the next character of `nibs`. */
  function Fill(t: string, nibs: string): (r: string)
    requires Count(t, '?') == |nibs|
    ensures |r| == |t|
  {
    if t == [] then []
    else if t[0] == '?' then [nibs[0]] + Fill(t[1..], nibs[1..])
    else [t[0]] + Fill(t[1..], nibs)
  }

  /** The characters of `r` at the positions where `t` has a `?`. */
  function Holes(t: string, r: string): string
    requires |t| == |r|
  {
    if t == [] then []
    else (if t[0] == '?' then [r[0]] else []) + Holes(t[1..], r[1..])
  }

  /** Filling keeps every other character in place and puts `nibs`, in order,
      exactly into the `?` positions, so no `?` is left when `nibs` has none. */
  lemma {:induction false} FillHoles(t: string, nibs: string)
    requires Count(t, '?') == |nibs|
    ensures var r := Fill(t, nibs);
            && Holes(t, r) == nibs
            && (forall i | 0 <= i < |t| && t[i] != '?' :: r[i] == t[i])
            && ('?' !in nibs ==> '?' !in r)
  {
    if t != [] {
      var r := Fill(t, nibs);
      if t[0] == '?' {
        FillHoles(t[1..], nibs[1..]);
        assert r[1..] == Fill(t[1..], nibs[1..]);
        assert nibs == [nibs[0]] + nibs[1..];
      } else {
        FillHoles(t[1..], nibs);
        assert r[1..] == Fill(t[1..], nibs);
      }
      forall i | 0 <= i < |t| && t[i] != '?'
        ensures r[i] == t[i]
      {
        if i > 0 {
          assert r[i] == r[1..][i - 1] && t[i] == t[1..][i - 1];
        }
      }
    }
  }

  // itertools.product(HEX_DIGITS, repeat=cnt)

  /** One more factor of the product: each tuple so far followed by each
      digit, the last position varying fastest. */
  function ProductStep(rs: seq<string>): seq<string>
  {
    if rs == [] then [] else seq(16, j requires 0 <= j < 16 => rs[0] + [HexDigits[j]]) + ProductStep(rs[1..])
  }

  function Product(c: nat): seq<string>
  {
    if c == 0 then [[]] else ProductStep(Product(c - 1))
  }

  /** The `c` base-16 digits of `i`, most significant first. */
  function Digits(i: nat, c: nat): (w: string)
    ensures |w| == c
  {
    if c == 0 then [] else Digits(i / 16, c - 1) + [HexDigits[i % 16]]
  }

  /** The value of a string of hex digits, either case. */
  function HexValue(w: string): nat
  {
    if w == [] then 0 else 16 * HexValue(w[..|w| - 1]) + DigitValue(w[|w| - 1])
  }

  predicate IsHexDigit(ch: char)
  {
    '0' <= ch <= '9' || 'a' <= ch <= 'f' || 'A' <= ch <= 'F'
  }

  function DigitValue(ch: char): (v: nat)
    ensures v < 16
  {
    if '0' <= ch <= '9' then ch as int - '0' as int
    else if 'a' <= ch <= 'f' then ch as int - 'a' as int + 10
    else if 'A' <= ch <= 'F' then ch as int - 'A' as int + 10
    else 0
  }

  lemma {:induction false} ProductStepAt(rs: seq<string>, i: nat)
    requires i < 16 * |rs|
    ensures |ProductStep(rs)| == 16 * |rs|
    ensures ProductStep(rs)[i] == rs[i / 16] + [HexDigits[i % 16]]
  {
    ProductStepLength(rs);
    if i >= 16 {
      ProductStepAt(rs[1..], i - 16);
      assert ProductStep(rs)[i] == ProductStep(rs[1..])[i - 16];
      assert (i - 16) / 16 == i / 16 - 1 && (i - 16) % 16 == i % 16;
    }
  }

  lemma {:induction false} ProductStepLength(rs: seq<string>)
    ensures |ProductStep(rs)| == 16 * |rs|
  {
    if rs != [] {
      ProductStepLength(rs[1..]);
    }
  }

  /** The product has `16^c` tuples, and the `i`-th is `i` written with `c`
      hex digits: the tuples come in lexicographic order. */
  lemma {:induction false} ProductDigits(c: nat, i: nat)
    requires i < Pow16(c)
    ensures |Product(c)| == Pow16(c)
    ensures Product(c)[i] == Digits(i, c)
  {
    if c > 0 {
      ProductDigits(c - 1, i / 16);
      ProductStepAt(Product(c - 1), i);
    }
  }

  predicate AllHex(w: string)
  {
    forall k | 0 <= k < |w| :: w[k] in HexDigits
  }

  /** `c` hex digits give back the number they were written from. */
  lemma {:induction false} DigitsValue(i: nat, c: nat)
    requires i < Pow16(c)
    ensures AllHex(Digits(i, c)) && HexValue(Digits(i, c)) == i
  {
    if c > 0 {
      var w := Digits(i, c);
      DigitsValue(i / 16, c - 1);
      assert w[..c - 1] == Digits(i / 16, c - 1);
      DigitOf(i % 16);
      assert w[c - 1] == HexDigits[i % 16];
      forall k | 0 <= k < c
        ensures w[k] in HexDigits
      {
        if k < c - 1 {
          assert w[k] == Digits(i / 16, c - 1)[k];
        }
      }
    }
  }

  lemma DigitOf(d: nat)
    requires d < 16
    ensures DigitValue(HexDigits[d]) == d
  {
  }

  /** Every string of hex digits is the writing of its value with as many
      digits as it has. */
  lemma {:induction false} ValueDigits(w: string)
    requires AllHex(w)
    ensures HexValue(w) < Pow16(|w|)
    ensures Digits(HexValue(w), |w|) == w
  {
    if w != [] {
      var c := |w|;
      var u, d := w[..c - 1], w[c - 1];
      LastSplit(w);
      assert AllHex(u) by {
        forall k | 0 <= k < |u|
          ensures u[k] in HexDigits
        {
          assert u[k] == w[k];
        }
      }
      ValueDigits(u);
      var j :| 0 <= j < 16 && HexDigits[j] == d;
      var v := HexValue(w);
      assert v == 16 * HexValue(u) + j by {
        DigitOf(j);
      }
      DigitStep(HexValue(u), j, v, c - 1);
      assert Digits(v, c) == Digits(HexValue(u), c - 1) + [HexDigits[j]];
    }
  }

  /** A nonempty string is its front followed by its last character. */
  lemma LastSplit(w: string)
    requires w != []
    ensures w == w[..|w| - 1] + [w[|w| - 1]]
  {
  }

  lemma DigitStep(q: nat, j: nat, v: nat, c: nat)
    requires j < 16 && q < Pow16(c) && v == 16 * q + j
    ensures v < Pow16(c + 1) && v / 16 == q && v % 16 == j
  {
  }

  /** Every string of `c` digits is a tuple of the product, at the index its
      value gives: no filling is skipped. */
  lemma ProductComplete(w: string)
    requires AllHex(w)
    ensures HexValue(w) < Pow16(|w|) && |Product(|w|)| == Pow16(|w|)
    ensures Product(|w|)[HexValue(w)] == w
  {
    ValueDigits(w);
    ProductDigits(|w|, HexValue(w));
  }

  // Tokens and bytes.

  /** The whitespace `str.split()` splits at, for ASCII characters. */
  predicate IsSpace(ch: char)
  {
    ch == ' ' || '\U{9}' <= ch <= '\U{D}' || '\U{1C}' <= ch <= '\U{1F}'
  }

  /** The length of the run of non-whitespace characters `s` starts with. */
  function RunLength(s: string): (n: nat)
    ensures n <= |s|
    ensures forall k | 0 <= k < n :: !IsSpace(s[k])
    ensures n < |s| ==> IsSpace(s[n])
  {
    if s == [] || IsSpace(s[0]) then 0 else 1 + RunLength(s[1..])
  }

  /** `s.split()`: the maximal runs of non-whitespace characters. */
  function Tokens(s: string): (ts: seq<string>)
    ensures |ts| <= |s|
    ensures forall k | 0 <= k < |ts| :: ts[k] != []
    decreases |s|
  {
    if s == [] then []
    else if IsSpace(s[0]) then Tokens(s[1..])
    else var n := RunLength(s); [s[..n]] + Tokens(s[n..])
  }

  predicate IsToken(t: string)
  {
    t != [] && forall k | 0 <= k < |t| :: !IsSpace(t[k])
  }

  /** `' '.join(ts)`. */
  function JoinSpace(ts: seq<string>): string
  {
    if ts == [] then [] else if |ts| == 1 then ts[0] else ts[0] + " " + JoinSpace(ts[1..])
  }

  /** Splitting gives non-empty tokens free of whitespace. */
  lemma {:induction false} TokensAreTokens(s: string)
    ensures forall k | 0 <= k < |Tokens(s)| :: IsToken(Tokens(s)[k])
    decreases |s|
  {
    if s != [] {
      if IsSpace(s[0]) {
        TokensAreTokens(s[1..]);
      } else {
        var n := RunLength(s);
        TokensAreTokens(s[n..]);
        assert Tokens(s) == [s[..n]] + Tokens(s[n..]);
      }
    }
  }

  /** Splitting undoes joining with single spaces: the fuzzer sees exactly
      the command-line words (when none of them holds whitespace). */
  lemma {:induction false} TokensOfJoin(ts: seq<string>)
    requires forall k | 0 <= k < |ts| :: IsToken(ts[k])
    ensures Tokens(JoinSpace(ts)) == ts
  {
    if ts != [] {
      var t := ts[0];
      RunOfToken(t, if |ts| == 1 then [] else " " + JoinSpace(ts[1..]));
      if |ts| == 1 {
        assert JoinSpace(ts) == t + [];
        assert JoinSpace(ts)[|t|..] == [];
      } else {
        var rest := JoinSpace(ts[1..]);
        assert JoinSpace(ts) == t + (" " + rest);
        assert JoinSpace(ts)[|t|..] == " " + rest;
        assert (" " + rest)[1..] == rest;
        TokensOfJoin(ts[1..]);
      }
      assert JoinSpace(ts)[..|t|] == t;
    }
  }

  lemma {:induction false} RunOfToken(t: string, rest: string)
    requires IsToken(t) && (rest == [] || IsSpace(rest[0]))
    ensures RunLength(t + rest) == |t|
    decreases |t|
  {
    var s := t + rest;
    if |t| > 1 {
      assert IsToken(t[1..]) by {
        forall k | 0 <= k < |t| - 1
          ensures !IsSpace(t[1..][k])
        {
          assert t[1..][k] == t[k + 1];
        }
      }
      RunOfToken(t[1..], rest);
      assert s[1..] == t[1..] + rest;
    } else {
      assert s[1..] == rest;
    }
  }

  /** `int(tok, 16)` followed by the byte-range check of `bytes(...)`; both a
      token that is not a hex number and a value from 256 up raise
      ValueError. */
  function ParseByte(tok: string): (r: Result<Byte>)
    ensures r.Ok? <==> tok != [] && (forall k | 0 <= k < |tok| :: IsHexDigit(tok[k])) && HexValue(tok) < 256
    ensures r.Ok? ==> r.value == HexValue(tok)
    ensures r.Err? ==> r.error == ValueError
  {
    if tok != [] && (forall k | 0 <= k < |tok| :: IsHexDigit(tok[k])) && HexValue(tok) < 256
    then Ok(HexValue(tok))
    else Err(ValueError)
  }

  /** `bytes(map(lambda x: int(x, 16), tokens))`. */
  function ParseRequest(tokens: seq<string>): (r: Result<Request>)
    ensures r.Ok? <==> forall k | 0 <= k < |tokens| :: ParseByte(tokens[k]).Ok?
    ensures r.Ok? ==> |r.value| == |tokens| && forall k | 0 <= k < |tokens| :: r.value[k] == ParseByte(tokens[k]).value
    ensures r.Err? ==> r.error == ValueError
  {
    if tokens == [] then Ok([])
    else match (ParseByte(tokens[0]), ParseRequest(tokens[1..]))
      case (Ok(b), Ok(bs)) => Ok([b] + bs)
      case (Err(e), _) => Err(e)
      case (_, Err(e)) => Err(e)
  }

  // Printing.

  /** `bs.hex()`: two lower-case hex digits per byte. */
  function Hex(bs: seq<Byte>): (s: string)
    ensures |s| == 2 * |bs|
  {
    if bs == [] then [] else [HexDigits[bs[0] / 16], HexDigits[bs[0] % 16]] + Hex(bs[1..])
  }

  /** `spaced(s, n)`: `s` cut into pieces of `n` characters, the last one
      possibly shorter, joined with single spaces. `range` with step 0
      raises, hence `n > 0`. */
  function Spaced(s: string, n: nat): (r: string)
    requires n > 0
    ensures r == [] <==> s == []
    ensures |s| <= |r|
    decreases |s|
  {
    if |s| <= n then s else s[..n] + " " + Spaced(s[n..], n)
  }

  /** `s[a:a+n]`, clamped to the end of `s` as Python slices are. */
  function Piece(s: string, n: nat, a: nat): string
  {
    s[Min(a, |s|)..Min(a + n, |s|)]
  }

  /** The pieces `s[i:i+n]` for `i` in `range(0, len(s), n)`. */
  function Pieces(s: string, n: nat): (ps: seq<string>)
    requires n > 0
    ensures |ps| == CeilDiv(|s|, n)
  {
    seq(CeilDiv(|s|, n), i requires 0 <= i < CeilDiv(|s|, n) => Piece(s, n, i * n))
  }

  /** `spaced` is the join of the pieces as the comprehension writes them. */
  lemma {:induction false} SpacedPieces(s: string, n: nat)
    requires n > 0
    ensures Spaced(s, n) == JoinSpace(Pieces(s, n))
    decreases |s|
  {
    CeilDivStep(|s|, n);
    if |s| > n {
      SpacedPieces(s[n..], n);
      var qs := Pieces(s[n..], n);
      PiecesCons(s, n);
      CeilDivStep(|s| - n, n);
      assert |qs| >= 1;
      var ps := [s[..n]] + qs;
      assert ps[0] == s[..n] && ps[1..] == qs;
    } else if |s| > 0 {
      assert Pieces(s, n)[0] == Piece(s, n, 0) == s;
      assert Pieces(s, n) == [s];
    } else {
      assert Pieces(s, n) == [];
    }
  }

  /** The first piece, then the pieces of the rest. */
  lemma PiecesCons(s: string, n: nat)
    requires 0 < n < |s|
    ensures Pieces(s, n) == [s[..n]] + Pieces(s[n..], n)
  {
    CeilDivStep(|s|, n);
    var ps, qs := Pieces(s, n), Pieces(s[n..], n);
    assert ps[0] == Piece(s, n, 0) == s[..n];
    forall i | 0 <= i < |qs|
      ensures ps[i + 1] == qs[i]
    {
      PieceShift(s, n, i, i * n);
    }
    assert ps == [ps[0]] + ps[1..];
  }

  lemma PieceShift(s: string, n: nat, i: nat, a: nat)
    requires 0 < n < |s| && a == i * n && i < CeilDiv(|s| - n, n) && i + 1 < CeilDiv(|s|, n)
    ensures Pieces(s, n)[i + 1] == Pieces(s[n..], n)[i]
  {
    MulSucc(i, n);
    assert Pieces(s, n)[i + 1] == Piece(s, n, a + n);
    assert Pieces(s[n..], n)[i] == Piece(s[n..], n, a);
  }

  lemma MulSucc(i: nat, n: nat)
    ensures (i + 1) * n == i * n + n
  {
  }

  function RemoveSpaces(s: string): (r: string)
  {
    if s == [] then [] else (if s[0] == ' ' then [] else [s[0]]) + RemoveSpaces(s[1..])
  }

  lemma {:induction false} RemoveSpacesAppend(a: string, b: string)
    ensures RemoveSpaces(a + b) == RemoveSpaces(a) + RemoveSpaces(b)
  {
    if a != [] {
      assert (a + b)[0] == a[0] && (a + b)[1..] == a[1..] + b;
      RemoveSpacesAppend(a[1..], b);
    } else {
      assert a + b == b;
    }
  }

  lemma {:induction false} RemoveSpacesNone(s: string)
    requires ' ' !in s
    ensures RemoveSpaces(s) == s
  {
    if s != [] {
      assert ' ' !in s[1..];
      RemoveSpacesNone(s[1..]);
    }
  }

  /** Deleting the spaces from `spaced(s, n)` gives back `s` when `s` has
      none of its own. */
  lemma {:induction false} SpacedRemove(s: string, n: nat)
    requires n > 0 && ' ' !in s
    ensures RemoveSpaces(Spaced(s, n)) == s
    decreases |s|
  {
    if |s| <= n {
      RemoveSpacesNone(s);
    } else {
      var a, b := s[..n], s[n..];
      assert ' ' !in a && ' ' !in b by {
        NoSpaceSlices(s, n);
      }
      var t := Spaced(b, n);
      assert Spaced(s, n) == (a + " ") + t;
      SpacedRemove(b, n);
      RemoveJoinSpace(a, t, b);
      SliceJoin(s, n);
    }
  }

  lemma RemoveJoinSpace(a: string, t: string, b: string)
    requires ' ' !in a && RemoveSpaces(t) == b
    ensures RemoveSpaces((a + " ") + t) == a + b
  {
    var sp := " ";
    assert RemoveSpaces(sp) == [] by {
      assert sp[1..] == [];
    }
    RemoveSpacesAppend(a, sp);
    RemoveSpacesNone(a);
    assert RemoveSpaces(a + sp) == a;
    RemoveSpacesAppend(a + sp, t);
  }

  lemma NoSpaceSlices(s: string, n: nat)
    requires n <= |s| && ' ' !in s
    ensures ' ' !in s[..n] && ' ' !in s[n..]
  {
  }

  lemma SliceJoin(s: string, n: nat)
    requires n <= |s|
    ensures s[..n] + s[n..] == s
  {
  }

  /** Only the joins add characters: one space between consecutive pieces. */
  lemma {:induction false} SpacedLength(s: string, n: nat)
    requires n > 0
    ensures |Spaced(s, n)| == |s| + (if s == [] then 0 else CeilDiv(|s|, n) - 1)
    decreases |s|
  {
    CeilDivStep(|s|, n);
    if |s| > n {
      SpacedLength(s[n..], n);
      CeilDivStep(|s| - n, n);
    }
  }

  /** With `n = 2` the hex of `m` bytes is cut into `m` pieces, one per byte. */
  lemma {:induction false} HexPieces(bs: seq<Byte>)
    ensures Pieces(Hex(bs), 2) == seq(|bs|, i requires 0 <= i < |bs| => Hex([bs[i]]))
  {
    var s := Hex(bs);
    var ps := Pieces(s, 2);
    assert CeilDiv(2 * |bs|, 2) == |bs|;
    forall i | 0 <= i < |bs|
      ensures ps[i] == Hex([bs[i]])
    {
      HexAt(bs, i);
    }
  }

  lemma {:induction false} HexAt(bs: seq<Byte>, i: nat)
    requires i < |bs|
    ensures Hex(bs)[2 * i .. 2 * i + 2] == Hex([bs[i]])
  {
    assert Hex([bs[i]]) == [HexDigits[bs[i] / 16], HexDigits[bs[i] % 16]] + Hex([]);
    if i > 0 {
      HexAt(bs[1..], i - 1);
      var t := Hex(bs[1..]);
      assert Hex(bs) == [HexDigits[bs[0] / 16], HexDigits[bs[0] % 16]] + t;
      assert Hex(bs)[2 * i .. 2 * i + 2] == t[2 * (i - 1) .. 2 * (i - 1) + 2];
    }
  }

  /** `print(spaced(request.hex(), 2), ' -> ', spaced(reply.hex(), 2))`. */
  function Line(req: Request, reply: Reply): (line: string)
    ensures |line| == DumpWidth(|req|) + 6 + DumpWidth(|reply|)
    ensures line[DumpWidth(|req|)..DumpWidth(|req|) + 6] == "  ->  "
  {
    DumpLength(req);
    DumpLength(reply);
    Spaced(Hex(req), 2) + "  ->  " + Spaced(Hex(reply), 2)
  }

  /** The width of the spaced hex dump of `m` bytes: two digits a byte and
      a space between bytes. */
  function DumpWidth(m: nat): nat
  {
    if m == 0 then 0 else 3 * m - 1
  }

  lemma DumpLength(bs: seq<Byte>)
    ensures |Spaced(Hex(bs), 2)| == DumpWidth(|bs|)
  {
    SpacedLength(Hex(bs), 2);
    assert CeilDiv(2 * |bs|, 2) == |bs|;
  }

  // The fuzzing loop.

  /** What a run printed, what it sent, and the exception that ended it. */
  datatype Run = Run(lines: seq<string>, sent: seq<Request>, error: Option<Error>)

  function Extend(lines: seq<string>, sent: seq<Request>, r: Run): Run
  {
    Run(lines + r.lines, sent + r.sent, r.error)
  }

  /** Every tuple has one digit per `?` of the template. */
  predicate Fits(fmt: string, combos: seq<string>)
  {
    forall k | 0 <= k < |combos| :: |combos[k]| == Count(fmt, '?')
  }

  /** The request for one tuple: `fmt.format(*nibs)` split into tokens and
      parsed. */
  function Instance(fmt: string, nibs: string): (r: Result<Request>)
    requires Count(fmt, '?') == |nibs|
    ensures r.Ok? ==> |r.value| <= |fmt|
    ensures r.Err? ==> r.error == ValueError
  {
    ParseRequest(Tokens(Fill(fmt, nibs)))
  }

  /** The loop over the remaining tuples `combos`. A token that does not
      parse stops it before the request is sent; a missing reply stops it
      after, since `None` has no `hex`. */
  function FuzzOver(ecu: Ecu, h: seq<Request>, fmt: string, combos: seq<string>): (r: Run)
    requires Fits(fmt, combos)
    ensures |r.lines| <= |r.sent| <= |combos|
    ensures r.error.None? ==> |r.lines| == |combos|
    decreases |combos|
  {
    if combos == [] then Run([], [], None)
    else match Instance(fmt, combos[0])
      case Err(e) => Run([], [], Some(e))
      case Ok(req) =>
        var reply := ecu(h + [req]);
        if reply == [] then Run([], [req], Some(AttributeError))
        else Extend([Line(req, reply)], [req], FuzzOver(ecu, h + [req], fmt, combos[1..]))
  }

  /** Every tuple of the product has `c` digits. */
  lemma ProductFits(fmt: string)
    ensures Fits(fmt, Product(Count(fmt, '?')))
  {
    var c := Count(fmt, '?');
    ProductDigits(c, 0);
    forall k | 0 <= k < |Product(c)|
      ensures |Product(c)[k]| == c
    {
      ProductDigits(c, k);
    }
  }

  /** The five lines printed when the script is given no arguments. */
  const Usage: seq<string> :=
    ["Usage: python fuzzer.py <fmt...>", "", "  Fuzz the UDS protocol.", "", "E.g.   python fuzzer.py 22 ?? 0?"]

  /** The script: usage and exit without arguments, otherwise the loop over
      the product for the arguments joined with spaces. */
  function Fuzz(ecu: Ecu, h: seq<Request>, args: seq<string>): (r: Run)
    ensures args == [] ==> r == Run(Usage, [], None)
    ensures args != [] ==> |r.lines| <= |r.sent| <= Pow16(Count(JoinSpace(args), '?'))
  {
    if args == [] then Run(Usage, [], None)
    else
      var fmt := JoinSpace(args);
      ProductFits(fmt);
      ProductDigits(Count(fmt, '?'), 0);
      FuzzOver(ecu, h, fmt, Product(Count(fmt, '?')))
  }

  /** The script as written, iterating over the product. */
  method RunFuzzer(ecu: Ecu, h: seq<Request>, args: seq<string>) returns (r: Run)
    ensures r == Fuzz(ecu, h, args)
  {
    if args == [] {
      return Run(Usage, [], None);
    }
    var fmt := JoinSpace(args);
    var cnt := Count(fmt, '?');
    var combos := Product(cnt);
    ProductFits(fmt);
    var lines: seq<string> := [];
    var sent: seq<Request> := [];
    ghost var whole := FuzzOver(ecu, h, fmt, combos);
    assert h + sent == h;
    assert Extend(lines, sent, whole) == whole;
    for i := 0 to |combos|
      invariant Fits(fmt, combos[i..])
      invariant whole == Extend(lines, sent, FuzzOver(ecu, h + sent, fmt, combos[i..]))
    {
      var nibs := combos[i];
      var req := ParseRequest(Tokens(Fill(fmt, nibs)));
      if req.Err? {
        return Run(lines, sent, Some(req.error));
      }
      var reply := ecu(h + sent + [req.value]);
      if reply == [] {
        assert h + sent + [req.value] == (h + sent) + [req.value];
        return Run(lines, sent + [req.value], Some(AttributeError));
      }
      FuzzStep(ecu, h, fmt, combos[i..], lines, sent, req.value);
      assert combos[i..][1..] == combos[i + 1..];
      lines := lines + [Line(req.value, reply)];
      sent := sent + [req.value];
    }
    assert combos[|combos|..] == [];
    return Extend(lines, sent, Run([], [], None));
  }

  lemma FuzzStep(ecu: Ecu, h: seq<Request>, fmt: string, combos: seq<string>, lines: seq<string>, sent: seq<Request>, req: Request)
    requires combos != [] && Fits(fmt, combos)
    requires Instance(fmt, combos[0]) == Ok(req)
    requires ecu(h + sent + [req]) != []
    ensures Fits(fmt, combos[1..])
    ensures Extend(lines, sent, FuzzOver(ecu, h + sent, fmt, combos))
            == Extend(lines + [Line(req, ecu(h + sent + [req]))], sent + [req], FuzzOver(ecu, h + (sent + [req]), fmt, combos[1..]))
  {
    var line := Line(req, ecu(h + sent + [req]));
    var rest := FuzzOver(ecu, h + (sent + [req]), fmt, combos[1..]);
    assert h + sent + [req] == h + (sent + [req]);
    assert FuzzOver(ecu, h + sent, fmt, combos) == Extend([line], [req], rest);
    ExtendExtend(lines, sent, [line], [req], rest);
  }

  lemma ExtendExtend(l1: seq<string>, s1: seq<Request>, l2: seq<string>, s2: seq<Request>, r: Run)
    ensures Extend(l1, s1, Extend(l2, s2, r)) == Extend(l1 + l2, s1 + s2, r)
  {
  }

  // What the loop sends.

  /** The loop sends at most one request per tuple, one for every tuple
      unless it stopped with an exception, and prints one line per reply. */
  lemma {:induction false} FuzzCount(ecu: Ecu, h: seq<Request>, fmt: string, combos: seq<string>)
    requires Fits(fmt, combos)
    ensures var r := FuzzOver(ecu, h, fmt, combos);
            && |r.sent| <= |combos|
            && (r.error.None? ==> |r.sent| == |combos|)
            && (r.error.Some? ==> r.error.value in {ValueError, AttributeError})
            && |r.lines| == (if r.error == Some(AttributeError) then |r.sent| - 1 else |r.sent|)
    decreases |combos|
  {
    if combos != [] {
      var p := Instance(fmt, combos[0]);
      if p.Ok? && ecu(h + [p.value]) != [] {
        var r := FuzzOver(ecu, h, fmt, combos);
        var rest := FuzzOver(ecu, h + [p.value], fmt, combos[1..]);
        assert r == Extend([Line(p.value, ecu(h + [p.value]))], [p.value], rest);
        FuzzCount(ecu, h + [p.value], fmt, combos[1..]);
      }
    }
  }

  /** Request `j` of the loop is the request for tuple `j`. */
  lemma {:induction false} FuzzSentAt(ecu: Ecu, h: seq<Request>, fmt: string, combos: seq<string>, j: nat)
    requires Fits(fmt, combos) && j < |FuzzOver(ecu, h, fmt, combos).sent|
    ensures j < |combos| && |combos[j]| == Count(fmt, '?')
    ensures Instance(fmt, combos[j]) == Ok(FuzzOver(ecu, h, fmt, combos).sent[j])
    decreases j
  {
    var p := Instance(fmt, combos[0]);
    var r := FuzzOver(ecu, h, fmt, combos);
    if j > 0 {
      var rest := FuzzOver(ecu, h + [p.value], fmt, combos[1..]);
      assert r == Extend([Line(p.value, ecu(h + [p.value]))], [p.value], rest);
      assert r.sent[j] == rest.sent[j - 1];
      FuzzSentAt(ecu, h + [p.value], fmt, combos[1..], j - 1);
      assert combos[1..][j - 1] == combos[j];
    }
  }

  /** A tuple whose request is sent and answered prints its line and hands
      on to the rest of the product. */
  lemma FuzzOverCons(ecu: Ecu, h: seq<Request>, fmt: string, combos: seq<string>, req: Request) returns (rest: Run)
    requires combos != [] && Fits(fmt, combos) && Instance(fmt, combos[0]) == Ok(req) && ecu(h + [req]) != []
    ensures Fits(fmt, combos[1..])
    ensures rest == FuzzOver(ecu, h + [req], fmt, combos[1..])
    ensures FuzzOver(ecu, h, fmt, combos) == Extend([Line(req, ecu(h + [req]))], [req], rest)
  {
    rest := FuzzOver(ecu, h + [req], fmt, combos[1..]);
  }

  /** A run that printed a line parsed its first tuple into `req` and got
      a reply to it. */
  lemma FuzzOverFirst(ecu: Ecu, h: seq<Request>, fmt: string, combos: seq<string>) returns (req: Request)
    requires Fits(fmt, combos) && |FuzzOver(ecu, h, fmt, combos).lines| > 0
    ensures combos != [] && Instance(fmt, combos[0]) == Ok(req) && ecu(h + [req]) != []
  {
    req := Instance(fmt, combos[0]).value;
  }

  /** Each line of `r` is `show` of the request of the same index and of
      the reply it got, `h` having been sent before. */
  ghost predicate Shows(ecu: Ecu, h: seq<Request>, r: Run, show: (Request, Reply) -> string)
  {
    && |r.lines| <= |r.sent|
    && forall k | 0 <= k < |r.lines| :: r.lines[k] == show(r.sent[k], ecu(h + r.sent[..k + 1]))
  }

  /** Printing the line for one more request in front keeps `Shows`. */
  lemma ShowsExtend(ecu: Ecu, h: seq<Request>, req: Request, rest: Run, show: (Request, Reply) -> string)
    requires Shows(ecu, h + [req], rest, show)
    ensures Shows(ecu, h, Extend([show(req, ecu(h + [req]))], [req], rest), show)
  {
    var r := Extend([show(req, ecu(h + [req]))], [req], rest);
    forall k | 0 <= k < |r.lines|
      ensures r.lines[k] == show(r.sent[k], ecu(h + r.sent[..k + 1]))
    {
      assert r.sent[..k + 1] == [req] + rest.sent[..k];
      assert h + r.sent[..k + 1] == (h + [req]) + rest.sent[..k];
    }
  }

  /** Line `k` of the output shows request `k` and the reply it got. */
  lemma {:induction false} FuzzLines(ecu: Ecu, h: seq<Request>, fmt: string, combos: seq<string>)
    requires Fits(fmt, combos)
    ensures Shows(ecu, h, FuzzOver(ecu, h, fmt, combos), Line)
    decreases |combos|
  {
    var r := FuzzOver(ecu, h, fmt, combos);
    if |r.lines| > 0 {
      var req := FuzzOverFirst(ecu, h, fmt, combos);
      var rest := FuzzOverCons(ecu, h, fmt, combos, req);
      FuzzLines(ecu, h + [req], fmt, combos[1..]);
      ShowsExtend(ecu, h, req, rest, Line);
    }
  }

  /** The fuzzer without an error sent exactly one request per filling of
      the template, `16^cnt` in all, the `j`-th for the digits of `j`: in
      lexicographic order, none skipped and none repeated. */
  lemma FuzzComplete(ecu: Ecu, h: seq<Request>, args: seq<string>, j: nat)
    requires args != []
    ensures var fmt := JoinSpace(args);
            var cnt := Count(fmt, '?');
            var r := Fuzz(ecu, h, args);
            r.error.None? ==>
              && |r.sent| == Pow16(cnt)
              && (j < Pow16(cnt) ==> Instance(fmt, Digits(j, cnt)) == Ok(r.sent[j]))
  {
    var fmt := JoinSpace(args);
    var cnt := Count(fmt, '?');
    ProductFits(fmt);
    ProductDigits(cnt, 0);
    FuzzCount(ecu, h, fmt, Product(cnt));
    var r := Fuzz(ecu, h, args);
    if r.error.None? && j < Pow16(cnt) {
      ProductDigits(cnt, j);
      FuzzSentAt(ecu, h, fmt, Product(cnt), j);
    }
  }
}
