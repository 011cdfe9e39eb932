/**
 * The token envelope of utils/codec/codec.go. A sealed token is the base64url text (no padding,
 * section 5 of RFC 4648) of
 *   version (1 byte, always 1) | expiry (uint32, big-endian) | nonce (8 bytes) | zlib stream | tag (32 bytes)
 * where the tag is HMAC-SHA-256 under the fixed key "imgpipe" of everything before it.
 */
module Codec {
  import opened Results

  /**
   * The library calls the codec makes, taken as parameters: HMAC-SHA-256 keyed with "imgpipe"
   * (RFC 2104, FIPS 180-4), a zlib writer (RFC 1950), the matching reader, and base64url
   * without padding in both directions.
   */
  datatype Primitives = Primitives(
    hmac: seq<Byte> -> seq<Byte>,
    deflate: seq<Byte> -> seq<Byte>,
    inflate: seq<Byte> -> Option<seq<Byte>>,
    encode64: seq<Byte> -> string,
    decode64: string -> Option<seq<Byte>>)

  /** What the libraries promise and the round trip needs: 32-byte tags and two inverse pairs. */
  ghost predicate Sound(p: Primitives)
  {
    && (forall m :: |p.hmac(m)| == TagLen)
    && (forall m :: p.inflate(p.deflate(m)) == Some(m))
    && (forall b :: p.decode64(p.encode64(b)) == Some(b))
  }

  const Version: Byte := 1
  const ExpiryLen := 4
  const NonceLen := 8
  /** Bytes before the compressed payload: version, expiry, nonce. */
  const HeaderLen := 1 + ExpiryLen + NonceLen
  const TagLen := 32
  /** The shortest envelope `DecodeData` looks into: `1+4+8+32`. */
  const MinLen := HeaderLen + TagLen
  const Two32 := 0x1_0000_0000

  datatype CodecError =
    | Invalid        // not base64url, or shorter than 45 bytes
    | CheckFailed    // tag mismatch
    | Expired        // uint32(now) > expiry
    | Corrupt        // the zlib reader failed

  /** Go's `uint32(v)` of a 64-bit value: truncation to the low 32 bits, i.e. v mod 2^32. */
  function Uint32(v: int): (r: nat)
    ensures r < Two32
    ensures 0 <= v < Two32 ==> r == v
    ensures (r - v) % Two32 == 0
  {
    v % Two32
  }

  /** `binary.Read(r, binary.BigEndian, &exp)` on four bytes. */
  function ReadUint32(b: seq<Byte>): (v: nat)
    requires |b| == ExpiryLen
    ensures v < Two32
  {
    (((b[0] as int) * 256 + b[1] as int) * 256 + b[2] as int) * 256 + b[3] as int
  }

  /** `binary.Write(&buf, binary.BigEndian, exp)`: four bytes that read back as exp. */
  function PutUint32(v: nat): (b: seq<Byte>)
    requires v < Two32
    ensures |b| == ExpiryLen && ReadUint32(b) == v
    ensures b[0] == v / 0x100_0000
  {
    var q1 := v / 256;
    var q2 := q1 / 256;
    [q2 / 256, q2 % 256, q1 % 256, v % 256]
  }

  /** The expiry a token carries: the absolute time `now + ttl`, truncated to uint32 (not the duration ttl). */
  function Expiry(now: int, ttl: int): (e: nat)
    ensures e < Two32 && (e - (now + ttl)) % Two32 == 0
  {
    Uint32(now + ttl)
  }

  /** The bytes the tag covers: version, expiry, nonce, compressed payload. */
  function SealedBody(p: Primitives, raw: seq<Byte>, ttl: int, now: int, nonce: seq<Byte>): (body: seq<Byte>)
    requires |nonce| == NonceLen
    ensures |body| == HeaderLen + |p.deflate(raw)|
    ensures body[0] == Version && ReadUint32(body[1 .. 5]) == Expiry(now, ttl)
    ensures body[5 .. HeaderLen] == nonce && body[HeaderLen ..] == p.deflate(raw)
  {
    [Version] + PutUint32(Expiry(now, ttl)) + nonce + p.deflate(raw)
  }

  /**
   * The envelope `EncodeData` base64-encodes, by its layout: byte 0 is 1, bytes 1-4 the
   * big-endian expiry, bytes 5-12 the nonce, then the zlib stream, and with a 32-byte HMAC the
   * last 32 bytes are the tag of everything before them.
   */
  function Sealed(p: Primitives, raw: seq<Byte>, ttl: int, now: int, nonce: seq<Byte>): (env: seq<Byte>)
    requires |nonce| == NonceLen
    ensures |env| >= HeaderLen
    ensures env[0] == Version
    ensures env[1 .. 5] == PutUint32(Expiry(now, ttl)) && ReadUint32(env[1 .. 5]) == Expiry(now, ttl)
    ensures env[5 .. HeaderLen] == nonce
    ensures Sound(p) ==>
      && |env| == HeaderLen + |p.deflate(raw)| + TagLen
      && env[HeaderLen .. |env| - TagLen] == p.deflate(raw)
      && env[|env| - TagLen ..] == p.hmac(env[.. |env| - TagLen])
  {
    var body := SealedBody(p, raw, ttl, now, nonce);
    var env := body + p.hmac(body);
    assert env[.. |body|] == body;
    env
  }

  /**
   * `DecodeData` after base64 decoding, by its checks in order: fewer than 45 bytes is Invalid;
   * then a wrong tag is CheckFailed whatever the other bytes say; then a uint32 clock past the
   * expiry is Expired (equal is still accepted); then a zlib failure is Corrupt. The version byte
   * and the nonce are never examined.
   */
  function OpenBytes(p: Primitives, raw: seq<Byte>, now: int): (r: Result<seq<Byte>, CodecError>)
    ensures |raw| < MinLen ==> r == Err(Invalid)
    ensures |raw| >= MinLen && raw[|raw| - TagLen ..] != p.hmac(raw[.. |raw| - TagLen]) ==> r == Err(CheckFailed)
    ensures r.Ok? <==>
      && |raw| >= MinLen
      && raw[|raw| - TagLen ..] == p.hmac(raw[.. |raw| - TagLen])
      && Uint32(now) <= ReadUint32(raw[1 .. 5])
      && p.inflate(raw[HeaderLen .. |raw| - TagLen]).Some?
    ensures r.Ok? ==> Some(r.value) == p.inflate(raw[HeaderLen .. |raw| - TagLen])
    ensures
      && |raw| >= MinLen
      && raw[|raw| - TagLen ..] == p.hmac(raw[.. |raw| - TagLen])
      && Uint32(now) <= ReadUint32(raw[1 .. 5])
      && p.inflate(raw[HeaderLen .. |raw| - TagLen]).None?
      ==> r == Err(Corrupt)
    ensures r == Err(Expired) <==>
      && |raw| >= MinLen
      && raw[|raw| - TagLen ..] == p.hmac(raw[.. |raw| - TagLen])
      && Uint32(now) > ReadUint32(raw[1 .. 5])
  {
    if |raw| < MinLen then Err(Invalid)
    else
      var payload, mac := raw[.. |raw| - TagLen], raw[|raw| - TagLen ..];
      if mac != p.hmac(payload) then Err(CheckFailed)
      else if Uint32(now) > ReadUint32(payload[1 .. 5]) then Err(Expired)
      else match p.inflate(payload[HeaderLen ..])
        case None => Err(Corrupt)
        case Some(data) => Ok(data)
  }

  /** `DecodeData`: text that is not base64url is Invalid; otherwise the bytes are checked as OpenBytes says. */
  function Open(p: Primitives, token: string, now: int): (r: Result<seq<Byte>, CodecError>)
    ensures p.decode64(token).None? ==> r == Err(Invalid)
    ensures p.decode64(token).Some? ==> r == OpenBytes(p, p.decode64(token).value, now)
  {
    match p.decode64(token)
    case None => Err(Invalid)
    case Some(raw) => OpenBytes(p, raw, now)
  }

  // ---- the codec itself ----

  /**
   * `EncodeData`: writes the version byte, the big-endian expiry and the nonce into a buffer,
   * streams the compressed payload after them, appends the tag of the buffer and base64-encodes
   * the result. The clock reading `now` and the random nonce are inputs here.
   */
  method EncodeData(p: Primitives, raw: seq<Byte>, ttl: int, now: int, nonce: seq<Byte>) returns (token: string)
    requires |nonce| == NonceLen
    ensures token == p.encode64(Sealed(p, raw, ttl, now, nonce))
  {
    var buf: seq<Byte> := [];
    buf := buf + [Version];
    var exp := Uint32(now + ttl);
    buf := buf + PutUint32(exp);
    buf := buf + nonce;
    buf := buf + p.deflate(raw);
    assert buf == SealedBody(p, raw, ttl, now, nonce);
    var mac := p.hmac(buf);
    var out := buf + mac;
    token := p.encode64(out);
  }

  /**
   * `DecodeData`: decodes the text, splits off the tag and checks it, then reads the version,
   * the expiry and the nonce through a cursor over the remaining bytes and inflates the rest.
   */
  method DecodeData(p: Primitives, data: string, now: int) returns (r: Result<seq<Byte>, CodecError>)
    ensures r == Open(p, data, now)
  {
    var decoded := p.decode64(data);
    if decoded.None? || |decoded.value| < 1 + 4 + 8 + 32 {
      return Err(Invalid);
    }
    var raw := decoded.value;
    var payload, mac := raw[.. |raw| - TagLen], raw[|raw| - TagLen ..];
    if mac != p.hmac(payload) {
      return Err(CheckFailed);
    }
    var pos := 0;
    var ver := payload[pos];
    pos := pos + 1;
    var exp := ReadUint32(payload[pos .. pos + ExpiryLen]);
    pos := pos + ExpiryLen;
    if Uint32(now) > exp {
      return Err(Expired);
    }
    var nonce := payload[pos .. pos + NonceLen];
    pos := pos + NonceLen;
    var compressed := payload[pos ..];
    match p.inflate(compressed)
    case None => r := Err(Corrupt);
    case Some(out) => r := Ok(out);
  }

  // ---- properties ----

  /**
   * Round trip: with sound primitives, opening a freshly sealed token at clock `later` returns
   * the payload exactly when uint32(later) has not passed the stored expiry, and Expired otherwise.
   */
  lemma SealThenOpen(p: Primitives, raw: seq<Byte>, ttl: int, now: int, nonce: seq<Byte>, later: int)
    requires Sound(p) && |nonce| == NonceLen
    ensures Open(p, p.encode64(Sealed(p, raw, ttl, now, nonce)), later) ==
      if Uint32(later) <= Expiry(now, ttl) then Ok(raw) else Err(Expired)
  {
    var env := Sealed(p, raw, ttl, now, nonce);
    assert p.decode64(p.encode64(env)) == Some(env);
    assert p.inflate(p.deflate(raw)) == Some(raw);
    assert |p.hmac(env[.. |env| - TagLen])| == TagLen;
  }

  /**
   * Without wrap-around the clock comparison is the plain one: a token sealed at `now` with
   * ttl >= 0 opens at every time from `now` to `now + ttl` and is Expired one second later.
   */
  lemma OpenWithinTtl(p: Primitives, raw: seq<Byte>, ttl: int, now: int, nonce: seq<Byte>, later: int)
    requires Sound(p) && |nonce| == NonceLen
    requires 0 <= now <= later && 0 <= ttl && now + ttl + 1 < Two32
    ensures later <= now + ttl ==> Open(p, p.encode64(Sealed(p, raw, ttl, now, nonce)), later) == Ok(raw)
    ensures later == now + ttl + 1 ==> Open(p, p.encode64(Sealed(p, raw, ttl, now, nonce)), later) == Err(Expired)
  {
    SealThenOpen(p, raw, ttl, now, nonce, later);
  }

  /** "hello" sealed with ttl 60 opens 60 seconds later and is Expired after 61. */
  lemma HelloScenario(p: Primitives, now: int, nonce: seq<Byte>)
    requires Sound(p) && |nonce| == NonceLen
    requires 0 <= now && now + 61 < Two32
    ensures var token := p.encode64(Sealed(p, [104, 101, 108, 108, 111], 60, now, nonce));
      Open(p, token, now + 60) == Ok([104, 101, 108, 108, 111]) && Open(p, token, now + 61) == Err(Expired)
  {
    OpenWithinTtl(p, [104, 101, 108, 108, 111], 60, now, nonce, now + 60);
    OpenWithinTtl(p, [104, 101, 108, 108, 111], 60, now, nonce, now + 61);
  }

  /**
   * The version byte is never checked: for any correctly tagged body, replacing byte 0 by any
   * value (and tagging the result) opens to the same outcome.
   */
  lemma VersionUnchecked(p: Primitives, body: seq<Byte>, v: Byte, now: int)
    requires Sound(p) && |body| >= HeaderLen
    ensures OpenBytes(p, body[0 := v] + p.hmac(body[0 := v]), now) == OpenBytes(p, body + p.hmac(body), now)
  {
    var body' := body[0 := v];
    var a, b := body' + p.hmac(body'), body + p.hmac(body);
    assert |p.hmac(body)| == TagLen && |p.hmac(body')| == TagLen;
    assert a[.. |a| - TagLen] == body' && a[|a| - TagLen ..] == p.hmac(body');
    assert b[.. |b| - TagLen] == body && b[|b| - TagLen ..] == p.hmac(body);
    assert a[1 .. 5] == b[1 .. 5];
    assert a[HeaderLen .. |a| - TagLen] == b[HeaderLen .. |b| - TagLen];
  }

  /**
   * Tampering: changing any byte of a sealed envelope opens only if the new bytes carry the tag
   * of their own body, so with a tag function without collisions on the changed body every
   * single-byte change fails the tag check.
   */
  lemma TamperedEnvelope(p: Primitives, raw: seq<Byte>, ttl: int, now: int, nonce: seq<Byte>, i: nat, v: Byte, later: int)
    requires Sound(p) && |nonce| == NonceLen
    requires i < |Sealed(p, raw, ttl, now, nonce)| && v != Sealed(p, raw, ttl, now, nonce)[i]
    requires var env := Sealed(p, raw, ttl, now, nonce);
      p.hmac(env[.. |env| - TagLen]) != p.hmac(env[i := v][.. |env| - TagLen]) || i >= |env| - TagLen
    ensures OpenBytes(p, Sealed(p, raw, ttl, now, nonce)[i := v], later) == Err(CheckFailed)
  {
    var env := Sealed(p, raw, ttl, now, nonce);
    var env' := env[i := v];
    var n := |env| - TagLen;
    if i >= n {
      assert env'[.. n] == env[.. n];
      assert env'[n ..][i - n] == v != env[n ..][i - n];
    } else {
      assert env'[n ..] == env[n ..];
    }
  }
}
