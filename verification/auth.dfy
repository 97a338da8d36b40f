/**
 * The request-credential helpers of internal/auth/authentication.go:
 * `GetBearerToken`, which reads the token out of an `Authorization: Bearer`
 * header (a loose reading of section 2.1 of RFC 6750), and
 * `MakeRefreshToken`, which hex-encodes 256 random bytes (base16 with
 * lower-case digits, section 8 of RFC 4648).
 */
module Auth {
  import opened Options
  import opened GoStrings

  /** The errors the header parser reports. */
  datatype Error = NoAuthorizationHeader | MalformedAuthorizationHeader

  datatype Result<T> = Ok(value: T) | Err(error: Error)

  /** `http.Header`: each canonical header name with its list of values. */
  type Header = map<string, seq<string>>

  /** `Header.Get(key)`: the first value stored under `key`, or "" when the
      header is absent. */
  function Get(h: Header, key: string): string {
    if key in h && |h[key]| > 0 then h[key][0] else ""
  }

  /** The authentication scheme, matched case-sensitively. */
  const Scheme := "Bearer"

  /** `Scheme` followed by the one space that separates it from the token. */
  const SchemePrefix := "Bearer "

  /** `token` is what follows "Bearer " in `header`, up to the next space or
      the end: it has no space, "Bearer " + token opens the header, and the
      header either ends there or continues with a space. */
  ghost predicate IsTokenOf(header: string, token: string) {
    SchemePrefix + token <= header && ' ' !in token &&
    (|header| == |SchemePrefix| + |token| || header[|SchemePrefix| + |token|] == ' ')
  }

  /** The first field of a split is a prefix of the string that ends at the
      first separator, or at the end. */
  lemma FirstField(s: string, sep: char)
    ensures Split(s, sep)[0] <= s
    ensures |Split(s, sep)[0]| == |s| || s[|Split(s, sep)[0]|] == sep
  {
    var fields := Split(s, sep);
    JoinSplit(s, sep);
    if |fields| > 1 {
      assert s == fields[0] + [sep] + Join(fields[1..], sep);
    }
  }

  /** Splitting a header on " " gives at least two fields with "Bearer" first
      exactly when the header starts with "Bearer "; the second field is then
      the first field of what follows. */
  lemma {:induction false} SchemeFields(h: string)
    ensures (|Split(h, ' ')| >= 2 && Split(h, ' ')[0] == Scheme) <==> SchemePrefix <= h
    ensures SchemePrefix <= h ==>
      |Split(h, ' ')| >= 2 && Split(h, ' ')[1] == Split(h[|SchemePrefix|..], ' ')[0]
  {
    var fields := Split(h, ' ');
    if SchemePrefix <= h {
      assert h == Scheme + [' '] + h[|SchemePrefix|..];
      SplitAfterField(Scheme, h[|SchemePrefix|..], ' ');
    }
    if |fields| >= 2 && fields[0] == Scheme {
      JoinSplit(h, ' ');
      assert h == Scheme + [' '] + Join(fields[1..], ' ');
      assert SchemePrefix == Scheme + [' '];
    }
  }

  /** `GetBearerToken(headers)`. An empty or absent Authorization header is
      "no authorization header"; a header that does not start with "Bearer "
      (case-sensitive) is malformed; otherwise the token is the text after
      "Bearer " up to the next space. Extra fields are dropped and an empty
      token is accepted. */
  function GetBearerToken(headers: Header): (r: Result<string>)
    ensures Get(headers, "Authorization") == "" <==> r == Err(NoAuthorizationHeader)
    ensures Get(headers, "Authorization") != "" ==>
      (r.Ok? <==> SchemePrefix <= Get(headers, "Authorization"))
    ensures r.Ok? ==> IsTokenOf(Get(headers, "Authorization"), r.value)
  {
    var authHeader := Get(headers, "Authorization");
    if authHeader == "" then Err(NoAuthorizationHeader)
    else
      var splitAuth := Split(authHeader, ' ');
      SchemeFields(authHeader);
      if |splitAuth| < 2 || splitAuth[0] != Scheme then Err(MalformedAuthorizationHeader)
      else
        FirstField(authHeader[|SchemePrefix|..], ' ');
        assert authHeader == SchemePrefix + authHeader[|SchemePrefix|..];
        Ok(splitAuth[1])
  }

  /** The token of a header is unique: IsTokenOf determines it. */
  lemma TokenUnique(header: string, t1: string, t2: string)
    requires IsTokenOf(header, t1) && IsTokenOf(header, t2)
    ensures t1 == t2
  {
    if |t1| == |t2| {
      assert t1 == header[|SchemePrefix|..|SchemePrefix| + |t1|] == t2;
    }
  }

  /** Concrete headers: absent, wrong case, extra fields, empty token, double space. */
  lemma BearerExamples()
    ensures GetBearerToken(map[]) == Err(NoAuthorizationHeader)
    ensures GetBearerToken(map["Authorization" := ["bearer x"]]) == Err(MalformedAuthorizationHeader)
    ensures GetBearerToken(map["Authorization" := ["Bearer a b"]]) == Ok("a")
    ensures GetBearerToken(map["Authorization" := ["Bearer "]]) == Ok("")
    ensures GetBearerToken(map["Authorization" := ["Bearer  x"]]) == Ok("")
  {
    assert !(SchemePrefix <= "bearer x") by {
      assert "bearer x"[0] != SchemePrefix[0];
    }
    assert IsTokenOf("Bearer a b", "a");
    TokenUnique("Bearer a b", "a", GetBearerToken(map["Authorization" := ["Bearer a b"]]).value);
    assert IsTokenOf("Bearer ", "");
    TokenUnique("Bearer ", "", GetBearerToken(map["Authorization" := ["Bearer "]]).value);
    assert IsTokenOf("Bearer  x", "");
    TokenUnique("Bearer  x", "", GetBearerToken(map["Authorization" := ["Bearer  x"]]).value);
  }

  /** A lower-case base16 digit. */
  predicate IsHexDigit(c: char) {
    '0' <= c <= '9' || 'a' <= c <= 'f'
  }

  /** The digit for a value below 16. */
  function HexDigit(n: int): (c: char)
    requires 0 <= n < 16
    ensures IsHexDigit(c)
  {
    if n < 10 then ('0' as int + n) as char else ('a' as int + n - 10) as char
  }

  /** `hex.EncodeToString`: two lower-case digits per byte, high nibble first. */
  function HexEncode(src: seq<byte>): (dst: string)
    ensures |dst| == 2 * |src|
    ensures forall i | 0 <= i < |dst| :: IsHexDigit(dst[i])
  {
    if |src| == 0 then ""
    else [HexDigit(src[0] as int / 16), HexDigit(src[0] as int % 16)] + HexEncode(src[1..])
  }

  /** The value of a base16 digit; like Go's decoder, both cases are accepted. */
  function FromHexChar(c: char): (v: Option<int>)
    ensures v.Some? ==> 0 <= v.value < 16
  {
    if '0' <= c <= '9' then Some(c as int - '0' as int)
    else if 'a' <= c <= 'f' then Some(c as int - 'a' as int + 10)
    else if 'A' <= c <= 'F' then Some(c as int - 'A' as int + 10)
    else None
  }

  /** `hex.DecodeString`: fails on an odd length or a non-digit. */
  function HexDecode(s: string): (r: Option<seq<byte>>)
    ensures r.Some? ==> 2 * |r.value| == |s|
  {
    if |s| == 0 then Some([])
    else if |s| == 1 then None
    else
      match (FromHexChar(s[0]), FromHexChar(s[1]), HexDecode(s[2..]))
      case (Some(hi), Some(lo), Some(rest)) => Some([(hi * 16 + lo) as byte] + rest)
      case _ => None
  }

  /** Decoding an encoding gives the bytes back. */
  lemma {:induction false} HexRoundTrip(src: seq<byte>)
    ensures HexDecode(HexEncode(src)) == Some(src)
  {
    if |src| > 0 {
      var b := src[0] as int;
      var s := HexEncode(src);
      assert s[2..] == HexEncode(src[1..]);
      HexRoundTrip(src[1..]);
      assert FromHexChar(HexDigit(b / 16)) == Some(b / 16);
      assert FromHexChar(HexDigit(b % 16)) == Some(b % 16);
      assert (b / 16 * 16 + b % 16) as byte == src[0];
      assert [src[0]] + src[1..] == src;
    }
  }

  /** Distinct byte strings have distinct encodings. */
  lemma HexInjective(a: seq<byte>, b: seq<byte>)
    requires HexEncode(a) == HexEncode(b)
    ensures a == b
  {
    HexRoundTrip(a);
    HexRoundTrip(b);
  }

  /** How many random bytes a refresh token carries. */
  const RefreshTokenBytes := 256

  /** `rand.Read(buf)`: fills `buf` from the entropy source. The source is a
      parameter: the bytes it can deliver. The result says whether the read
      succeeded; when the source cannot deliver `buf.Length` bytes the read
      fails and the buffer is left as it was. */
  method ReadRandom(buf: array<byte>, entropy: seq<byte>) returns (ok: bool)
    modifies buf
    ensures ok <==> |entropy| >= buf.Length
    ensures ok ==> buf[..] == entropy[..buf.Length]
    ensures !ok ==> buf[..] == old(buf[..])
  {
    if |entropy| < buf.Length {
      return false;
    }
    var i := 0;
    while i < buf.Length
      invariant 0 <= i <= buf.Length
      invariant buf[..i] == entropy[..i]
    {
      buf[i] := entropy[i];
      i := i + 1;
    }
    return true;
  }

  /** `MakeRefreshToken()`: allocates a 256-byte buffer, fills it from the
      random source and returns its hex encoding, 512 lower-case digits that
      decode to the buffer. When the read fails it returns "" and no error:
      the failure is swallowed. */
  method MakeRefreshToken(entropy: seq<byte>) returns (token: string, err: Option<Error>)
    ensures err == None
    ensures |entropy| < RefreshTokenBytes ==> token == ""
    ensures |entropy| >= RefreshTokenBytes ==>
      |token| == 2 * RefreshTokenBytes &&
      (forall i | 0 <= i < |token| :: IsHexDigit(token[i])) &&
      HexDecode(token) == Some(entropy[..RefreshTokenBytes])
  {
    var randomBytes := new byte[RefreshTokenBytes];
    var readOk := ReadRandom(randomBytes, entropy);
    if !readOk {
      return "", None;
    }
    token := HexEncode(randomBytes[..]);
    HexRoundTrip(randomBytes[..]);
    err := None;
  }
}
