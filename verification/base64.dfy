/**
 * Base64 with the standard alphabet and padding (section 4 of RFC 4648),
 * as Go's `base64.NewDecoder(base64.StdEncoding, …)` reads it to the end.
 *
 * The decoder drops carriage returns and line feeds, then reads groups of
 * four characters. Only the last group may carry padding (`xx==` or
 * `xxx=`). Bits that padding leaves over are ignored, since `StdEncoding`
 * is not strict. Anything else is a corrupt-input error.
 *
 * Characters are first read as symbols (a 6-bit value or padding), and
 * groups of symbols are then turned into bytes, so that the alphabet and
 * the bit arithmetic are reasoned about separately.
 */
module Base64 {
  import opened Wrappers
  import opened Text

  const PAD: Byte := '='

  type Sextet = v: nat | v < 64

  /** One character of encoded text: a 6-bit value, or the padding mark. */
  datatype Sym = Val(v: Sextet) | Pad

  predicate InAlphabet(c: Byte) {
    || 'A' <= c <= 'Z'
    || 'a' <= c <= 'z'
    || '0' <= c <= '9'
    || c == '+'
    || c == '/'
  }

  /** The character that stands for a 6-bit value. */
  function CharOf(v: Sextet): (c: Byte)
    ensures InAlphabet(c)
  {
    if v < 26 then ('A' as int + v) as char
    else if v < 52 then ('a' as int + (v - 26)) as char
    else if v < 62 then ('0' as int + (v - 52)) as char
    else if v == 62 then '+'
    else '/'
  }

  /** The 6-bit value a character of the alphabet stands for. */
  function ValueOf(c: Byte): Sextet
    requires InAlphabet(c)
  {
    if 'A' <= c <= 'Z' then c as int - 'A' as int
    else if 'a' <= c <= 'z' then c as int - 'a' as int + 26
    else if '0' <= c <= '9' then c as int - '0' as int + 52
    else if c == '+' then 62
    else 63
  }

  lemma ValueOfCharOf(v: Sextet)
    ensures ValueOf(CharOf(v)) == v
  {
  }

  function CharOfSym(s: Sym): (c: Byte)
    ensures c != '\r' && c != '\n'
  {
    match s
    case Val(v) => CharOf(v)
    case Pad => PAD
  }

  function SymOf(c: Byte): Option<Sym> {
    if InAlphabet(c) then Some(Val(ValueOf(c)))
    else if c == PAD then Some(Pad)
    else None
  }

  /** Writes symbols as text. */
  function Render(syms: seq<Sym>): (r: Bytes)
    ensures |r| == |syms|
    ensures forall i :: 0 <= i < |r| ==> r[i] == CharOfSym(syms[i])
  {
    seq(|syms|, i requires 0 <= i < |syms| => CharOfSym(syms[i]))
  }

  /** Reads text as symbols; None when a character is neither in the alphabet nor padding. */
  function Symbols(t: Bytes): (r: Option<seq<Sym>>)
    ensures r.Some? ==> |r.value| == |t|
    decreases |t|
  {
    if t == [] then Some([])
    else match (SymOf(t[0]), Symbols(t[1..]))
      case (Some(s), Some(rest)) => Some([s] + rest)
      case _ => None
  }

  function ByteOf(x: nat): Byte
    requires x < 256
  {
    x as char
  }

  /** The four symbols of a full group of three bytes. */
  function EncodeTriple(a: Byte, b: Byte, c: Byte): seq<Sym> {
    [Val(a as int / 4), Val((a as int % 4) * 16 + b as int / 16), Val((b as int % 16) * 4 + c as int / 64), Val(c as int % 64)]
  }

  /** The symbols of the standard encoding, padded to whole groups of four. */
  function EncodeSyms(b: Bytes): (r: seq<Sym>)
    ensures |r| == 4 * ((|b| + 2) / 3)
    decreases |b|
  {
    if |b| == 0 then []
    else if |b| == 1 then
      [Val(b[0] as int / 4), Val((b[0] as int % 4) * 16), Pad, Pad]
    else if |b| == 2 then
      [Val(b[0] as int / 4), Val((b[0] as int % 4) * 16 + b[1] as int / 16), Val((b[1] as int % 16) * 4), Pad]
    else
      EncodeTriple(b[0], b[1], b[2]) + EncodeSyms(b[3..])
  }

  /** Standard base64 encoding with padding, as `base64.StdEncoding.EncodeToString`. */
  function Encode(b: Bytes): (r: Bytes)
    ensures |r| == 4 * ((|b| + 2) / 3)
  {
    Render(EncodeSyms(b))
  }

  /** The bytes of a group of four values. */
  function DecodeFull(a: Sextet, b: Sextet, c: Sextet, d: Sextet): Bytes {
    [ByteOf(a * 4 + b / 16), ByteOf((b % 16) * 16 + c / 4), ByteOf((c % 4) * 64 + d)]
  }

  /** The last group: complete, or padded down to one or two bytes. */
  function DecodeLast(g: seq<Sym>): Option<Bytes>
    requires |g| == 4
  {
    match (g[0], g[1], g[2], g[3])
    case (Val(a), Val(b), Pad, Pad) => Some([ByteOf(a * 4 + b / 16)])
    case (Val(a), Val(b), Val(c), Pad) => Some([ByteOf(a * 4 + b / 16), ByteOf((b % 16) * 16 + c / 4)])
    case (Val(a), Val(b), Val(c), Val(d)) => Some(DecodeFull(a, b, c, d))
    case _ => None
  }

  /** Decodes whole groups of four symbols; padding is accepted only in the final group. */
  function DecodeGroups(t: seq<Sym>): Option<Bytes>
    requires |t| % 4 == 0
    decreases |t|
  {
    if t == [] then Some([])
    else if |t| == 4 then DecodeLast(t)
    else match (t[0], t[1], t[2], t[3])
      case (Val(a), Val(b), Val(c), Val(d)) =>
        (match DecodeGroups(t[4..])
         case Some(rest) => Some(DecodeFull(a, b, c, d) + rest)
         case None => None)
      case _ => None
  }

  /** What the decoder reads: the input with every '\r' and '\n' removed. */
  function StripNewlines(s: Bytes): (r: Bytes)
    ensures |r| <= |s|
    decreases |s|
  {
    if s == [] then []
    else (if s[0] == '\r' || s[0] == '\n' then [] else [s[0]]) + StripNewlines(s[1..])
  }

  /** Reads the whole input through the decoder: the bytes, or None on corrupt input. */
  function Decode(s: Bytes): Option<Bytes> {
    var t := StripNewlines(s);
    if |t| % 4 != 0 then None
    else match Symbols(t)
      case None => None
      case Some(syms) => DecodeGroups(syms)
  }

  lemma {:induction false} StripNewlinesKeeps(s: Bytes)
    requires forall i :: 0 <= i < |s| ==> s[i] != '\r' && s[i] != '\n'
    ensures StripNewlines(s) == s
    decreases |s|
  {
    if s != [] {
      StripNewlinesKeeps(s[1..]);
    }
  }

  lemma {:induction false} SymbolsRender(syms: seq<Sym>)
    ensures Symbols(Render(syms)) == Some(syms)
    decreases |syms|
  {
    if syms != [] {
      var r := Render(syms);
      assert r[1..] == Render(syms[1..]);
      SymbolsRender(syms[1..]);
      if syms[0].Val? {
        ValueOfCharOf(syms[0].v);
      }
      assert SymOf(r[0]) == Some(syms[0]);
      assert syms == [syms[0]] + syms[1..];
    }
  }

  lemma DecodeEncodeTriple(a: Byte, b: Byte, c: Byte)
    ensures var e := EncodeTriple(a, b, c);
            DecodeFull(e[0].v, e[1].v, e[2].v, e[3].v) == [a, b, c]
  {
  }

  lemma DecodeEncodeOne(b: Bytes)
    requires |b| == 1
    ensures DecodeGroups(EncodeSyms(b)) == Some(b)
  {
    assert b == [b[0]];
  }

  lemma DecodeEncodeTwo(b: Bytes)
    requires |b| == 2
    ensures DecodeGroups(EncodeSyms(b)) == Some(b)
  {
    var x, y := b[0] as int, b[1] as int;
    var v0, v1, v2 := x / 4, (x % 4) * 16 + y / 16, (y % 16) * 4;
    assert EncodeSyms(b) == [Val(v0), Val(v1), Val(v2), Pad];
    assert v1 / 16 == x % 4 && v1 % 16 == y / 16 && v2 / 4 == y % 16;
    assert v0 * 4 + v1 / 16 == x && (v1 % 16) * 16 + v2 / 4 == y;
    assert b == [b[0], b[1]];
  }

  lemma {:induction false} DecodeGroupsEncodeSyms(b: Bytes)
    ensures DecodeGroups(EncodeSyms(b)) == Some(b)
    decreases |b|
  {
    if |b| == 1 {
      DecodeEncodeOne(b);
    } else if |b| == 2 {
      DecodeEncodeTwo(b);
    } else if |b| >= 3 {
      var g := EncodeTriple(b[0], b[1], b[2]);
      var t := EncodeSyms(b);
      DecodeEncodeTriple(b[0], b[1], b[2]);
      assert t == g + EncodeSyms(b[3..]);
      assert t[4..] == EncodeSyms(b[3..]);
      if |b| == 3 {
        assert b == [b[0], b[1], b[2]];
      } else {
        DecodeGroupsEncodeSyms(b[3..]);
        assert b == [b[0], b[1], b[2]] + b[3..];
      }
    }
  }

  /** Decoding what the encoder produced gives back the original bytes. */
  lemma DecodeEncode(b: Bytes)
    ensures Decode(Encode(b)) == Some(b)
  {
    var syms := EncodeSyms(b);
    var e := Encode(b);
    assert e == Render(syms);
    assert StripNewlines(e) == e by {
      StripNewlinesKeeps(e);
    }
    assert |e| % 4 == 0;
    assert Symbols(e) == Some(syms) by {
      SymbolsRender(syms);
    }
    assert DecodeGroups(syms) == Some(b) by {
      DecodeGroupsEncodeSyms(b);
    }
  }

  lemma {:induction false} StripNewlinesKeepsOthers(s: Bytes, i: nat)
    requires i < |s| && s[i] != '\r' && s[i] != '\n'
    ensures s[i] in StripNewlines(s)
    decreases |s|
  {
    if i > 0 {
      StripNewlinesKeepsOthers(s[1..], i - 1);
    }
  }

  lemma {:induction false} SymbolsRejects(t: Bytes, c: Byte)
    requires c in t && SymOf(c).None?
    ensures Symbols(t) == None
    decreases |t|
  {
    if t[0] != c {
      assert c in t[1..] by {
        assert t == [t[0]] + t[1..];
      }
      SymbolsRejects(t[1..], c);
    }
  }

  /** A character that is neither in the alphabet, nor padding, nor a line break makes the input corrupt. */
  lemma DecodeRejectsForeign(s: Bytes, i: nat)
    requires i < |s|
    requires !InAlphabet(s[i]) && s[i] != PAD && s[i] != '\r' && s[i] != '\n'
    ensures Decode(s) == None
  {
    StripNewlinesKeepsOthers(s, i);
    SymbolsRejects(StripNewlines(s), s[i]);
  }
}
