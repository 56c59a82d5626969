/** The signed state parameter of scripts/vernex-auth-relay/relay.py: what _make_state prints, _decode_state reads. */
module OAuthState {
  import opened Base64Url
  import opened Integers
  import opened Text
  import opened Wrappers

  // UTF-8 and the hexadecimal HMAC of a text under a secret.
  datatype Platform = Platform(
    utf8: string -> seq<byte>,
    fromUtf8: seq<byte> -> Option<string>,
    hmacHex: (string, string) -> string)

  ghost predicate Correct(p: Platform) {
    && (forall s: string :: p.fromUtf8(p.utf8(s)) == Some(s))
    && (forall secret: string, text: string :: |p.hmacHex(secret, text)| == 64 && '.' !in p.hmacHex(secret, text))
  }

  function Signature(p: Platform, secret: string, text: string): string
    requires |p.hmacHex(secret, text)| >= 24
  {
    p.hmacHex(secret, text)[..24]
  }

  // ---------- Decimal numbers ----------

  function DigitChar(d: nat): char
    requires d < 10
  {
    '0' + d as char
  }

  function Digits(n: nat): (s: string)
    ensures s != ""
  {
    if n < 10 then [DigitChar(n)] else Digits(n / 10) + [DigitChar(n % 10)]
  }

  // str(n)
  function Str(n: int): string {
    if n < 0 then "-" + Digits(-n) else Digits(n)
  }

  function ParseDigits(s: string): Option<int> {
    if s == "" then None
    else
      var c, init := s[|s| - 1], s[..|s| - 1];
      if !('0' <= c <= '9') then None
      else
        var d := c as int - '0' as int;
        if init == "" then Some(d)
        else match ParseDigits(init)
          case None => None
          case Some(n) => Some(10 * n + d)
  }

  // int(s), for a sign and digits
  function Int(s: string): Option<int> {
    if s != "" && s[0] == '-' then
      match ParseDigits(s[1..])
      case None => None
      case Some(n) => Some(-n)
    else if s != "" && s[0] == '+' then ParseDigits(s[1..])
    else ParseDigits(s)
  }

  ghost predicate AllDigits(s: string) {
    forall i | 0 <= i < |s| :: '0' <= s[i] <= '9'
  }

  lemma {:induction false} DigitsRoundTrip(n: nat)
    ensures ParseDigits(Digits(n)) == Some(n) && AllDigits(Digits(n))
  {
    if n >= 10 {
      DigitsRoundTrip(n / 10);
      assert Digits(n)[..|Digits(n)| - 1] == Digits(n / 10);
    }
  }

  lemma IntOfDigits(s: string)
    requires s != "" && AllDigits(s)
    ensures Int(s) == ParseDigits(s) && '|' !in s && '|' !in "-" + s
    ensures Int("-" + s) == match ParseDigits(s) case None => None case Some(n) => Some(-n)
  {
    assert ("-" + s)[1..] == s;
  }

  // Decimal notation, one digit at a time.
  lemma StrExactly(n: int, d: nat)
    requires n >= 0 && d < 10
    ensures Str(d) == ["0123456789"[d]] && (n > 0 ==> Str(10 * n + d) == Str(n) + ["0123456789"[d]])
    ensures n > 0 ==> Str(-n) == "-" + Str(n)
  {}

  lemma IntRoundTrip(n: int)
    ensures Int(Str(n)) == Some(n) && '|' !in Str(n)
  {
    var m := if n < 0 then -n else n;
    DigitsRoundTrip(m);
    IntOfDigits(Digits(m));
  }

  // ---------- The state parameter ----------

  datatype Error = Malformed | BadEncoding | BadSignature | NoTimestamp | Expired

  function Payload(url: string, now: int): string {
    Str(now) + "|" + url
  }

  function MakeState(p: Platform, url: string, secret: string, now: int): string
    requires |p.hmacHex(secret, Payload(url, now))| >= 24
  {
    B64Url(p.utf8(Payload(url, now))) + "." + Signature(p, secret, Payload(url, now))
  }

  function DecodeState(p: Platform, state: string, secret: string, now: int): Result<string, Error>
    requires forall text: string :: |p.hmacHex(secret, text)| >= 24
  {
    var dot := RFind(state, '.');
    if dot < 0 then Err(Malformed)
    else
      match Decode(state[..dot] + "==")
      case None => Err(BadEncoding)
      case Some(bytes) =>
        match p.fromUtf8(bytes)
        case None => Err(BadEncoding)
        case Some(payload) =>
          if state[dot + 1..] != Signature(p, secret, payload) then Err(BadSignature)
          else
            var bar := Find(payload, '|');
            if bar == |payload| then Err(NoTimestamp)
            else
              match Int(payload[..bar])
              case None => Err(NoTimestamp)
              case Some(ts) => if now - ts > 600 then Err(Expired) else Ok(payload[bar + 1..])
  }

  // What was printed is read back for ten minutes, whatever the URL holds.
  lemma RoundTripState(p: Platform, url: string, secret: string, made: int, now: int)
    requires Correct(p)
    ensures DecodeState(p, MakeState(p, url, secret, made), secret, now)
         == if now - made > 600 then Err(Expired) else Ok(url)
  {
    var payload := Payload(url, made);
    var code, sig := B64Url(p.utf8(payload)), Signature(p, secret, payload);
    assert '.' !in sig;
    RFindSeparator(code, '.', sig);
    RoundTrip(p.utf8(payload));
    PayloadReadBack(url, made);
    assert MakeState(p, url, secret, made)[..|code|] == code;
    assert MakeState(p, url, secret, made)[|code| + 1..] == sig;
  }

  lemma PayloadReadBack(url: string, made: int)
    ensures var payload := Payload(url, made); var bar := Find(payload, '|');
      bar < |payload| && Int(payload[..bar]) == Some(made) && payload[bar + 1..] == url
  {
    var payload := Payload(url, made);
    IntRoundTrip(made);
    FindSeparator(Str(made), '|', url);
    assert payload[..|Str(made)|] == Str(made) && payload[|Str(made)| + 1..] == url;
  }

  // The state is the text "<seconds>|<url>" and the first 24 hexadecimal digits of its HMAC.
  lemma MadeOf(p: Platform, url: string, secret: string, now: int)
    requires Correct(p)
    ensures var text := Str(now) + "|" + url;
      MakeState(p, url, secret, now) == B64Url(p.utf8(text)) + "." + p.hmacHex(secret, text)[..24]
  {}

  // What is read back was signed with the secret at most ten minutes ago, with that URL after the first bar.
  lemma OnlySignedIsRead(p: Platform, state: string, secret: string, now: int)
    requires Correct(p) && DecodeState(p, state, secret, now).Ok?
    ensures RFind(state, '.') >= 0
    ensures exists ts: string ::
      (&& Int(ts).Some? && now - Int(ts).value <= 600 && '|' !in ts
       && Signed(p, state, secret, ts + "|" + DecodeState(p, state, secret, now).value))
  {
    var dot := RFind(state, '.');
    var payload := p.fromUtf8(Decode(state[..dot] + "==").value).value;
    var bar := Find(payload, '|');
    assert payload == payload[..bar] + "|" + payload[bar + 1..];
    assert Signed(p, state, secret, payload);
  }

  // And everything so signed is read.
  lemma SignedIsRead(p: Platform, state: string, secret: string, now: int, ts: string, url: string)
    requires Correct(p) && RFind(state, '.') >= 0 && Signed(p, state, secret, ts + "|" + url)
    requires Int(ts).Some? && '|' !in ts
    ensures DecodeState(p, state, secret, now) == if now - Int(ts).value > 600 then Err(Expired) else Ok(url)
  {
    var text := ts + "|" + url;
    FindSeparator(ts, '|', url);
    assert text[..|ts|] == ts && text[|ts| + 1..] == url;
  }

  // After its last dot the state carries the first 24 digits of the HMAC of the text that it encodes.
  ghost predicate Signed(p: Platform, state: string, secret: string, text: string)
    requires RFind(state, '.') >= 0 && |p.hmacHex(secret, text)| >= 24
  {
    var dot := RFind(state, '.');
    && state[dot + 1..] == p.hmacHex(secret, text)[..24]
    && Decode(state[..dot] + "==").Some? && p.fromUtf8(Decode(state[..dot] + "==").value) == Some(text)
  }
}
