/** base64url, section 5 of RFC 4648: the encoder with its padding stripped, as _b64url of the auth relay has it,
    and the lenient decoder of Python's base64 module, which skips what is not in the alphabet. */
module Base64Url {
  import opened Integers
  import opened Wrappers

  type sextet = x: int | 0 <= x < 64

  function Letter(v: sextet): (c: char)
    ensures c != '=' && c != '.'
  {
    if v < 26 then 'A' + v as char
    else if v < 52 then 'a' + (v - 26) as char
    else if v < 62 then '0' + (v - 52) as char
    else if v == 62 then '-'
    else '_'
  }

  // urlsafe_b64decode turns - and _ into + and /, and b64decode reads those.
  function ValueOf(c: char): Option<sextet> {
    if 'A' <= c <= 'Z' then Some(c as int - 'A' as int)
    else if 'a' <= c <= 'z' then Some(c as int - 'a' as int + 26)
    else if '0' <= c <= '9' then Some(c as int - '0' as int + 52)
    else if c == '-' || c == '+' then Some(62)
    else if c == '_' || c == '/' then Some(63)
    else None
  }

  lemma LetterValue(v: sextet)
    ensures ValueOf(Letter(v)) == Some(v)
  {}

  // Three bytes make four letters; one or two bytes at the end make two or three.
  function Sextets(d: seq<byte>): seq<sextet> {
    if d == [] then []
    else if |d| == 1 then [d[0] / 4, d[0] % 4 * 16]
    else if |d| == 2 then [d[0] / 4, d[0] % 4 * 16 + d[1] / 16, d[1] % 16 * 4]
    else [d[0] / 4, d[0] % 4 * 16 + d[1] / 16, d[1] % 16 * 4 + d[2] / 64, d[2] % 64] + Sextets(d[3..])
  }

  function Letters(vs: seq<sextet>): (s: string)
    ensures |s| == |vs| && forall i | 0 <= i < |s| :: s[i] == Letter(vs[i])
  {
    if vs == [] then "" else [Letter(vs[0])] + Letters(vs[1..])
  }

  // urlsafe_b64encode pads the last group to four letters.
  function Encode(d: seq<byte>): string {
    Letters(Sextets(d)) + if |d| % 3 == 1 then "==" else if |d| % 3 == 2 then "=" else ""
  }

  // The digits of the encoding are those of the bytes: in base 64 and in base 256 they are the same number, but for
  // the zero bits that fill the last sextet.
  function Number64(high: nat, vs: seq<sextet>): nat
    decreases |vs|
  {
    if vs == [] then high else Number64(high * 64 + vs[0], vs[1..])
  }

  function Number256(high: nat, d: seq<byte>): nat
    decreases |d|
  {
    if d == [] then high else Number256(high * 256 + d[0], d[1..])
  }

  lemma NextSextet(high: nat, v: sextet, rest: seq<sextet>)
    ensures Number64(high, [v] + rest) == Number64(high * 64 + v, rest)
  {
    assert ([v] + rest)[1..] == rest;
  }

  lemma FourSextets(high: nat, a: sextet, b: sextet, c: sextet, d: sextet, rest: seq<sextet>)
    ensures Number64(high, [a, b, c, d] + rest) == Number64((((high * 64 + a) * 64 + b) * 64 + c) * 64 + d, rest)
  {
    assert [a, b, c, d] + rest == [a] + ([b] + ([c] + ([d] + rest)));
    NextSextet(high, a, [b] + ([c] + ([d] + rest)));
    NextSextet(high * 64 + a, b, [c] + ([d] + rest));
    NextSextet((high * 64 + a) * 64 + b, c, [d] + rest);
    NextSextet(((high * 64 + a) * 64 + b) * 64 + c, d, rest);
  }

  lemma ThreeBytes(high: nat, d: seq<byte>)
    requires |d| >= 3
    ensures Number256(high, d) == Number256(((high * 256 + d[0]) * 256 + d[1]) * 256 + d[2], d[3..])
  {
    assert d[1..][1..] == d[2..] && d[2..][1..] == d[3..];
    assert Number256(high * 256 + d[0], d[1..]) == Number256((high * 256 + d[0]) * 256 + d[1], d[2..]);
  }

  lemma GroupNumber(high: nat, a: byte, b: byte, c: byte)
    ensures (((high * 64 + a / 4) * 64 + (a % 4 * 16 + b / 16)) * 64 + (b % 16 * 4 + c / 64)) * 64 + c % 64
         == ((high * 256 + a) * 256 + b) * 256 + c
  {}

  lemma LastByte(high: nat, a: byte)
    ensures Number64(high, [a / 4, a % 4 * 16]) == Number256(high, [a]) * 16
  {
    var v: sextet, w: sextet := a / 4, a % 4 * 16;
    assert [v, w] == [v] + ([w] + []);
    NextSextet(high, v, [w] + []);
    NextSextet(high * 64 + v, w, []);
    assert Number256(high, [a]) == Number256(high * 256 + a, []);
  }

  lemma LastTwoBytes(high: nat, a: byte, b: byte)
    ensures Number64(high, [a / 4, a % 4 * 16 + b / 16, b % 16 * 4]) == Number256(high, [a, b]) * 4
  {
    var v: sextet, w: sextet, x: sextet := a / 4, a % 4 * 16 + b / 16, b % 16 * 4;
    assert [v, w, x] == [v] + ([w] + ([x] + []));
    NextSextet(high, v, [w] + ([x] + []));
    NextSextet(high * 64 + v, w, [x] + []);
    NextSextet((high * 64 + v) * 64 + w, x, []);
    assert [a, b][1..] == [b];
    assert Number256(high * 256 + a, [b]) == Number256((high * 256 + a) * 256 + b, []);
  }

  // The same number, with four zero bits after one last byte and two after two.
  ghost predicate SameBits(m: nat, n: nat, length: nat) {
    && (length % 3 == 0 ==> m == n) && (length % 3 == 1 ==> m == 16 * n) && (length % 3 == 2 ==> m == 4 * n)
  }

  lemma GroupAreBits(high: nat, d: seq<byte>, next: nat)
    requires |d| >= 3 && next == ((high * 256 + d[0]) * 256 + d[1]) * 256 + d[2]
    ensures Number64(high, Sextets(d)) == Number64(next, Sextets(d[3..]))
    ensures Number256(high, d) == Number256(next, d[3..])
  {
    SextetsGroup(d);
    FourSextets(high, d[0] / 4, d[0] % 4 * 16 + d[1] / 16, d[1] % 16 * 4 + d[2] / 64, d[2] % 64, Sextets(d[3..]));
    ThreeBytes(high, d);
    GroupNumber(high, d[0], d[1], d[2]);
  }

  lemma TailAreBits(high: nat, d: seq<byte>)
    requires |d| < 3
    ensures SameBits(Number64(high, Sextets(d)), Number256(high, d), |d|)
  {
    if |d| == 1 {
      LastByte(high, d[0]);
      assert d == [d[0]];
    } else if |d| == 2 {
      LastTwoBytes(high, d[0], d[1]);
      assert d == [d[0], d[1]];
    }
  }

  lemma SameBitsLater(m: nat, n: nat, length: nat)
    requires length >= 3 && SameBits(m, n, length - 3)
    ensures SameBits(m, n, length)
  {
    assert length % 3 == (length - 3) % 3;
  }

  lemma {:induction false} SextetsAreBits(high: nat, d: seq<byte>)
    ensures SameBits(Number64(high, Sextets(d)), Number256(high, d), |d|)
    decreases |d|
  {
    if |d| < 3 {
      TailAreBits(high, d);
    } else {
      var next: nat := ((high * 256 + d[0]) * 256 + d[1]) * 256 + d[2];
      GroupAreBits(high, d, next);
      SextetsAreBits(next, d[3..]);
      SameBitsLater(Number64(high, Sextets(d)), Number256(high, d), |d|);
    }
  }

  lemma {:induction false} SextetsLength(d: seq<byte>)
    ensures |Sextets(d)| == (4 * |d| + 2) / 3
    decreases |d|
  {
    if |d| >= 3 {
      SextetsGroup(d);
      SextetsLength(d[3..]);
    }
  }

  // The text: a letter of the alphabet for each six bits, as many as are needed, and no padding.
  lemma B64UrlExactly(d: seq<byte>, i: nat)
    requires i < |B64Url(d)|
    ensures |B64Url(d)| == |Sextets(d)| == (4 * |d| + 2) / 3
    ensures B64Url(d)[i] == Letter(Sextets(d)[i])
    ensures SameBits(Number64(0, Sextets(d)), Number256(0, d), |d|)
  {
    B64UrlIsLetters(d);
    SextetsLength(d);
    SextetsAreBits(0, d);
  }

  // The alphabet of section 5 of RFC 4648; the decoder also reads that of section 4.
  lemma LetterExactly(v: sextet)
    ensures v < 26 ==> Letter(v) == "ABCDEFGHIJKLMNOPQRSTUVWXYZ"[v]
    ensures 26 <= v < 52 ==> Letter(v) == "abcdefghijklmnopqrstuvwxyz"[v - 26]
    ensures 52 <= v ==> Letter(v) == "0123456789-_"[v - 52]
  {}

  lemma ValueExactly(c: char, v: sextet)
    ensures ValueOf(c) == Some(v) <==> c == Letter(v) || (c == '+' && v == 62) || (c == '/' && v == 63)
  {
    if ValueOf(c) == Some(v) && c != '+' && c != '/' {
      assert c as int == Letter(v) as int;
    }
  }

  // rstrip("=")
  function Strip(s: string): string {
    if s != "" && s[|s| - 1] == '=' then Strip(s[..|s| - 1]) else s
  }

  function B64Url(d: seq<byte>): string {
    Strip(Encode(d))
  }

  // How far the decoder is in a group of four letters, the bits it holds, and the pads just seen.
  datatype Position = Position(quad: nat, left: nat, pads: nat, bytes: seq<byte>)

  ghost predicate Sound(p: Position) {
    match p.quad
    case 0 => p.left == 0
    case 1 => p.left < 64
    case 2 => p.left < 16
    case 3 => p.left < 4
    case _ => false
  }

  function Advance(p: Position, v: sextet): (q: Position)
    requires Sound(p)
    ensures Sound(q)
  {
    match p.quad
    case 0 => Position(1, v, 0, p.bytes)
    case 1 => Position(2, v % 16, 0, p.bytes + [p.left * 4 + v / 16])
    case 2 => Position(3, v % 4, 0, p.bytes + [p.left * 16 + v / 4])
    case _ => Position(0, 0, 0, p.bytes + [p.left * 64 + v])
  }

  function DecodeFrom(s: string, p: Position): Option<seq<byte>>
    requires Sound(p)
  {
    if s == "" then if p.quad == 0 then Some(p.bytes) else None
    else if s[0] == '=' then
      if p.quad < 2 then DecodeFrom(s[1..], p)
      else if p.quad + p.pads + 1 >= 4 then Some(p.bytes)
      else DecodeFrom(s[1..], p.(pads := p.pads + 1))
    else
      match ValueOf(s[0])
      case None => DecodeFrom(s[1..], p)
      case Some(v) => DecodeFrom(s[1..], Advance(p, v))
  }

  function Decode(s: string): Option<seq<byte>> {
    DecodeFrom(s, Position(0, 0, 0, []))
  }

  function AdvanceAll(p: Position, vs: seq<sextet>): (q: Position)
    requires Sound(p)
    ensures Sound(q)
    decreases |vs|
  {
    if vs == [] then p else AdvanceAll(Advance(p, vs[0]), vs[1..])
  }

  lemma {:induction false} DecodeLetters(vs: seq<sextet>, rest: string, p: Position)
    requires Sound(p)
    ensures DecodeFrom(Letters(vs) + rest, p) == DecodeFrom(rest, AdvanceAll(p, vs))
    decreases |vs|
  {
    if vs == [] {
      assert Letters(vs) + rest == rest;
    } else {
      LetterValue(vs[0]);
      assert (Letters(vs) + rest)[1..] == Letters(vs[1..]) + rest;
      DecodeLetters(vs[1..], rest, Advance(p, vs[0]));
    }
  }

  // The decoder skips what is neither a letter nor a pad.
  lemma {:induction false} ForeignSkipped(a: string, c: char, b: string, p: Position)
    requires Sound(p) && c != '=' && ValueOf(c) == None
    ensures DecodeFrom(a + [c] + b, p) == DecodeFrom(a + b, p)
    decreases |a|
  {
    if a == "" {
      assert (a + [c] + b)[1..] == b && a + b == b;
    } else {
      assert (a + [c] + b)[1..] == a[1..] + [c] + b && (a + b)[1..] == a[1..] + b;
      var q := match ValueOf(a[0]) case None => p case Some(v) => Advance(p, v);
      if a[0] != '=' {
        ForeignSkipped(a[1..], c, b, q);
      } else if p.quad < 2 {
        ForeignSkipped(a[1..], c, b, p);
      } else if p.quad + p.pads + 1 < 4 {
        ForeignSkipped(a[1..], c, b, p.(pads := p.pads + 1));
      }
    }
  }

  lemma {:induction false} QuadOfAll(vs: seq<sextet>, p: Position)
    requires Sound(p)
    ensures AdvanceAll(p, vs).quad == (p.quad + |vs|) % 4
    decreases |vs|
  {
    if vs != [] {
      QuadOfAll(vs[1..], Advance(p, vs[0]));
    }
  }

  // Letters alone are refused unless they come in fours, which is why the pads are appended.
  lemma UnpaddedRefused(vs: seq<sextet>, p: Position)
    requires Sound(p)
    ensures DecodeFrom(Letters(vs), p).Some? <==> (p.quad + |vs|) % 4 == 0
  {
    var rest: string := [];
    DecodeLetters(vs, rest, p);
    assert Letters(vs) + rest == Letters(vs);
    QuadOfAll(vs, p);
  }

  lemma {:induction false} StripPads(s: string, pads: string)
    requires s == "" || s[|s| - 1] != '='
    requires forall i | 0 <= i < |pads| :: pads[i] == '='
    ensures Strip(s + pads) == s
    decreases |pads|
  {
    if pads != "" {
      assert (s + pads)[..|s + pads| - 1] == s + pads[..|pads| - 1];
      StripPads(s, pads[..|pads| - 1]);
    } else {
      assert s + pads == s;
    }
  }

  lemma B64UrlIsLetters(d: seq<byte>)
    ensures B64Url(d) == Letters(Sextets(d))
    ensures '.' !in B64Url(d)
  {
    var pads := if |d| % 3 == 1 then "==" else if |d| % 3 == 2 then "=" else "";
    StripPads(Letters(Sextets(d)), pads);
  }

  lemma AdvanceOne(p: Position, v: sextet, rest: seq<sextet>)
    requires Sound(p)
    ensures AdvanceAll(p, [v] + rest) == AdvanceAll(Advance(p, v), rest)
  {
    assert ([v] + rest)[1..] == rest;
  }

  // Six bits of a byte and the first two of the next sextet put the byte out.
  lemma FirstByte(a: byte, low: nat, done: seq<byte>)
    requires low < 16
    ensures Advance(Advance(Position(0, 0, 0, done), a / 4), a % 4 * 16 + low) == Position(2, low, 0, done + [a])
  {
    assert (a % 4 * 16 + low) / 16 == a % 4 && (a % 4 * 16 + low) % 16 == low;
  }

  lemma SecondByte(b: byte, c: sextet, done: seq<byte>)
    requires c / 4 == b % 16
    ensures Advance(Position(2, b / 16, 0, done), c) == Position(3, c % 4, 0, done + [b])
  {}

  lemma AdvanceOneByte(a: byte, done: seq<byte>)
    ensures AdvanceAll(Position(0, 0, 0, done), [a / 4, a % 4 * 16]) == Position(2, 0, 0, done + [a])
  {
    var vs: seq<sextet> := [a / 4, a % 4 * 16];
    AdvanceTwo(Position(0, 0, 0, done), vs[0], vs[1], []);
    FirstByte(a, 0, done);
    assert vs + [] == vs;
  }

  lemma AdvanceTwoBytes(a: byte, b: byte, c: sextet, rest: seq<sextet>, done: seq<byte>)
    requires c / 4 == b % 16
    ensures AdvanceAll(Position(0, 0, 0, done), [a / 4, a % 4 * 16 + b / 16, c] + rest)
         == AdvanceAll(Position(3, c % 4, 0, done + [a] + [b]), rest)
  {
    var first: sextet, second: sextet := a / 4, a % 4 * 16 + b / 16;
    assert [first, second] + ([c] + rest) == [first, second, c] + rest;
    AdvanceTwo(Position(0, 0, 0, done), first, second, [c] + rest);
    FirstByte(a, b / 16, done);
    AdvanceOne(Position(2, b / 16, 0, done + [a]), c, rest);
    SecondByte(b, c, done + [a]);
  }

  lemma AdvanceThreeBytes(a: byte, b: byte, c: byte, rest: seq<sextet>, done: seq<byte>)
    ensures AdvanceAll(Position(0, 0, 0, done), [a / 4, a % 4 * 16 + b / 16, b % 16 * 4 + c / 64, c % 64] + rest)
         == AdvanceAll(Position(0, 0, 0, done + [a] + [b] + [c]), rest)
  {
    var third: sextet := b % 16 * 4 + c / 64;
    AdvanceTwoBytes(a, b, third, [c % 64] + rest, done);
    assert [a / 4, a % 4 * 16 + b / 16, third] + ([c % 64] + rest)
        == [a / 4, a % 4 * 16 + b / 16, third, c % 64] + rest;
    assert ([c % 64] + rest)[1..] == rest;
  }

  // Where the decoder stands after the letters of d: all whole groups are out, and no bit is left over.
  function After(d: seq<byte>, done: seq<byte>): Position {
    Position(if |d| % 3 == 0 then 0 else |d| % 3 + 1, 0, 0, done + d)
  }

  lemma AfterSplit(d: seq<byte>, done: seq<byte>)
    requires |d| >= 3
    ensures After(d[3..], done + d[..3]) == After(d, done)
  {
    assert done + d[..3] + d[3..] == done + d;
  }

  lemma AdvanceLastPair(a: byte, b: byte, done: seq<byte>)
    ensures AdvanceAll(Position(0, 0, 0, done), [a / 4, a % 4 * 16 + b / 16, b % 16 * 4])
         == Position(3, 0, 0, done + [a] + [b])
  {
    var c: sextet := b % 16 * 4;
    var vs: seq<sextet> := [a / 4, a % 4 * 16 + b / 16, c];
    AdvanceTwoBytes(a, b, c, [], done);
    assert vs + [] == vs;
  }

  lemma SextetsGroup(d: seq<byte>)
    requires |d| >= 3
    ensures Sextets(d) == [d[0] / 4, d[0] % 4 * 16 + d[1] / 16, d[1] % 16 * 4 + d[2] / 64, d[2] % 64] + Sextets(d[3..])
  {}

  lemma AdvanceGroup(d: seq<byte>, vs: seq<sextet>, rest: seq<sextet>, done: seq<byte>)
    requires |d| == 3
    requires vs == [d[0] / 4, d[0] % 4 * 16 + d[1] / 16, d[1] % 16 * 4 + d[2] / 64, d[2] % 64] + rest
    ensures AdvanceAll(Position(0, 0, 0, done), vs) == AdvanceAll(Position(0, 0, 0, done + d), rest)
  {
    AdvanceThreeBytes(d[0], d[1], d[2], rest, done);
    assert done + [d[0]] + [d[1]] + [d[2]] == done + d;
  }

  lemma {:induction false} AdvanceSextets(d: seq<byte>, done: seq<byte>)
    ensures AdvanceAll(Position(0, 0, 0, done), Sextets(d)) == After(d, done)
    decreases |d|
  {
    if d == [] {
      assert done + d == done;
    } else if |d| == 1 {
      AdvanceOneByte(d[0], done);
      assert d == [d[0]];
    } else if |d| == 2 {
      AdvanceLastPair(d[0], d[1], done);
      assert done + [d[0]] + [d[1]] == done + d;
    } else {
      SextetsGroup(d);
      AdvanceGroup(d[..3], Sextets(d), Sextets(d[3..]), done);
      AdvanceSextets(d[3..], done + d[..3]);
      AfterSplit(d, done);
    }
  }

  lemma AdvanceTwo(p: Position, a: sextet, b: sextet, rest: seq<sextet>)
    requires Sound(p)
    ensures AdvanceAll(p, [a, b] + rest) == AdvanceAll(Advance(Advance(p, a), b), rest)
  {
    assert ([a, b] + rest)[1..] == [b] + rest;
    assert ([b] + rest)[1..] == rest;
  }

  // What two pads do at the end of each kind of group.
  lemma TwoPads(p: Position)
    requires Sound(p) && p.quad != 1 && p.pads == 0
    ensures DecodeFrom("==", p) == Some(p.bytes)
  {
    assert "=="[1..] == "=" && "="[1..] == "";
    if p.quad == 0 {
      assert DecodeFrom("==", p) == DecodeFrom("=", p) == DecodeFrom("", p);
    }
  }

  // Two pads bring back the bytes, however many pads were stripped.
  lemma RoundTrip(d: seq<byte>)
    ensures Decode(B64Url(d) + "==") == Some(d)
  {
    B64UrlIsLetters(d);
    DecodeLetters(Sextets(d), "==", Position(0, 0, 0, []));
    AdvanceSextets(d, []);
    TwoPads(AdvanceAll(Position(0, 0, 0, []), Sextets(d)));
    assert [] + d == d;
  }
}
