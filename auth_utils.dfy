/**
 * Token issuing and password hashing (src/auth/utils.py).
 *
 * The JWT library and the bcrypt context are foreign code. They are modelled by an
 * abstract codec and an abstract hash whose only promised behaviour is stated below:
 * decoding an issued, unexpired token yields its payload, decoding anything else yields
 * `None`, and a password verifies against a hash exactly when bcrypt reads the same bytes
 * of it as of the hashed password: the first 72 bytes of its UTF-8 encoding.
 */
module AuthUtils {
  import opened Wrappers

  /** Process-wide settings read once from the environment (src/config.py). */
  datatype Config = Config(
    jwtSecret: string,
    jwtAlgorithm: string,
    accessTokenExpireMinutes: int,
    refreshTokenExpireDates: int)

  /** The payload of an issued token; `exp` is an absolute time in seconds. */
  datatype Claims = Claims(sub: string, role: string, refresh: bool, exp: int)

  /**
   * A presented token string. `Jwt` is a string produced by signing `payload` with `key`
   * under `algorithm`; `Malformed` is any other string (bad structure, bad signature).
   */
  datatype Token =
    | Jwt(payload: Claims, key: string, algorithm: string)
    | Malformed(text: string)

  /** An octet of an encoded password. */
  type Byte = b: int | 0 <= b < 256

  /**
   * A stored bcrypt hash. The salt is the per-call randomness of `pwd_context.hash`; the
   * model keeps the bytes bcrypt read inside the value so that verification is decidable,
   * and does not model one-wayness.
   */
  datatype PasswordHash = Bcrypt(salt: nat, preimage: seq<Byte>)

  /** bcrypt reads at most this many bytes of a password and ignores the rest. */
  const BCRYPT_MAX_BYTES := 72

  /** `timedelta(minutes=15)`, the lifetime used when no (or a zero) delta is given. */
  const DEFAULT_EXPIRE_SECONDS := 15 * 60
  const SECONDS_PER_DAY := 24 * 60 * 60

  /** `jwt.encode(payload, key=JWT_SECRET, algorithm=JWT_ALGORITHM)`. */
  function Encode(cfg: Config, payload: Claims): Token
  {
    Jwt(payload, cfg.jwtSecret, cfg.jwtAlgorithm)
  }

  /**
   * `decode_token`: never raises. It yields the payload of a token signed with the
   * configured secret and algorithm while `now < exp` (the JWT library treats a token as
   * expired once `exp <= now`), and `None` for everything else.
   */
  function DecodeToken(cfg: Config, token: Token, now: int): (data: Option<Claims>)
    ensures data.Some? ==> Encode(cfg, data.value) == token && now < data.value.exp
    ensures forall p :: Encode(cfg, p) == token && now < p.exp ==> data == Some(p)
  {
    match token
    case Jwt(payload, key, algorithm) =>
      if key == cfg.jwtSecret && algorithm == cfg.jwtAlgorithm && now < payload.exp
      then Some(payload) else None
    case Malformed(_) => None
  }

  // ---------------------------------------------------------------------------------
  // Password bytes. passlib hands bcrypt the UTF-8 encoding of a `str` password.

  /** The UTF-8 encoding of one character (a Unicode scalar value). */
  function Utf8Char(c: char): (bytes: seq<Byte>)
    ensures 1 <= |bytes| <= 4
  {
    var n := c as int;
    if n < 0x80 then [n]
    else if n < 0x800 then [0xC0 + n / 0x40, 0x80 + n % 0x40]
    else if n < 0x1_0000 then [0xE0 + n / 0x40 / 0x40, 0x80 + n / 0x40 % 0x40, 0x80 + n % 0x40]
    else [0xF0 + n / 0x40 / 0x40 / 0x40, 0x80 + n / 0x40 / 0x40 % 0x40, 0x80 + n / 0x40 % 0x40, 0x80 + n % 0x40]
  }

  /** The UTF-8 encoding of a string: one to four bytes per character. */
  function Utf8(s: string): (bytes: seq<Byte>)
    ensures |s| <= |bytes| <= 4 * |s|
  {
    if s == [] then [] else Utf8Char(s[0]) + Utf8(s[1..])
  }

  /** The number of bytes a UTF-8 sequence starting with `lead` occupies. */
  function LeadLength(lead: Byte): nat
  {
    if lead < 0x80 then 1 else if lead < 0xE0 then 2 else if lead < 0xF0 then 3 else 4
  }

  lemma LeadFixesLength(c: char)
    ensures |Utf8Char(c)| == LeadLength(Utf8Char(c)[0])
  {
  }

  /** A natural number is fixed by its quotient and remainder by 64. */
  lemma SameDigits(n: nat, m: nat)
    requires n / 0x40 == m / 0x40 && n % 0x40 == m % 0x40
    ensures n == m
  {
  }

  /** Distinct characters have distinct encodings. */
  lemma Utf8CharInjective(c: char, d: char)
    requires Utf8Char(c) == Utf8Char(d)
    ensures c == d
  {
    var n, m := c as int, d as int;
    var b := Utf8Char(c);
    if |b| == 2 {
      SameDigits(n, m);
    } else if |b| == 3 {
      SameDigits(n / 0x40, m / 0x40);
      SameDigits(n, m);
    } else if |b| == 4 {
      SameDigits(n / 0x40 / 0x40, m / 0x40 / 0x40);
      SameDigits(n / 0x40, m / 0x40);
      SameDigits(n, m);
    }
  }

  /** No character's encoding is a proper prefix of another's: the lead byte fixes the length. */
  lemma Utf8CharPrefixFree(c: char, d: char, x: seq<Byte>, y: seq<Byte>)
    requires Utf8Char(c) + x == Utf8Char(d) + y
    ensures c == d && x == y
  {
    var bc, bd := Utf8Char(c), Utf8Char(d);
    assert bc[0] == (bc + x)[0] == (bd + y)[0] == bd[0];
    LeadFixesLength(c);
    LeadFixesLength(d);
    assert bc == (bc + x)[..|bc|] == (bd + y)[..|bd|] == bd;
    assert x == (bc + x)[|bc|..] == (bd + y)[|bd|..] == y;
    Utf8CharInjective(c, d);
  }

  /** Distinct strings have distinct encodings. */
  lemma {:induction false} Utf8Injective(a: string, b: string)
    requires Utf8(a) == Utf8(b)
    ensures a == b
  {
    if a != [] && b != [] {
      Utf8CharPrefixFree(a[0], b[0], Utf8(a[1..]), Utf8(b[1..]));
      Utf8Injective(a[1..], b[1..]);
      assert a == [a[0]] + a[1..] && b == [b[0]] + b[1..];
    }
  }

  /** The encoding of a concatenation is the concatenation of the encodings. */
  lemma {:induction false} Utf8Append(a: string, b: string)
    ensures Utf8(a + b) == Utf8(a) + Utf8(b)
  {
    if a == [] {
      assert a + b == b;
    } else {
      assert (a + b)[0] == a[0] && (a + b)[1..] == a[1..] + b;
      Utf8Append(a[1..], b);
      calc {
        Utf8(a + b);
        Utf8Char(a[0]) + Utf8(a[1..] + b);
        Utf8Char(a[0]) + (Utf8(a[1..]) + Utf8(b));
        Utf8(a) + Utf8(b);
      }
    }
  }

  /** What bcrypt reads of a password: its encoding, cut after `BCRYPT_MAX_BYTES` bytes. */
  function BcryptInput(password: string): (bytes: seq<Byte>)
    ensures |bytes| <= BCRYPT_MAX_BYTES
    ensures bytes <= Utf8(password)
    ensures |Utf8(password)| <= BCRYPT_MAX_BYTES ==> bytes == Utf8(password)
    ensures BCRYPT_MAX_BYTES < |Utf8(password)| ==> |bytes| == BCRYPT_MAX_BYTES
  {
    var encoded := Utf8(password);
    if |encoded| <= BCRYPT_MAX_BYTES then encoded else encoded[..BCRYPT_MAX_BYTES]
  }

  /**
   * `generate_password_hash`: `pwd_context.hash(password)` with the salt it draws. The
   * hash keeps what bcrypt read: the whole encoding when it fits in `BCRYPT_MAX_BYTES`
   * bytes, otherwise exactly its first `BCRYPT_MAX_BYTES` bytes; a password that fits is
   * told apart from every other password that fits.
   */
  function GeneratePasswordHash(password: string, salt: nat): (h: PasswordHash)
    ensures h.salt == salt
    ensures h.preimage <= Utf8(password)
    ensures |Utf8(password)| <= BCRYPT_MAX_BYTES ==> h.preimage == Utf8(password)
    ensures BCRYPT_MAX_BYTES < |Utf8(password)| ==> |h.preimage| == BCRYPT_MAX_BYTES
    ensures |Utf8(password)| <= BCRYPT_MAX_BYTES ==>
      forall other :: other != password && |Utf8(other)| <= BCRYPT_MAX_BYTES ==> h.preimage != Utf8(other)
  {
    var h := Bcrypt(salt, BcryptInput(password));
    assert |Utf8(password)| <= BCRYPT_MAX_BYTES ==>
      forall other :: other != password && |Utf8(other)| <= BCRYPT_MAX_BYTES ==> h.preimage != Utf8(other) by {
      forall other | |Utf8(password)| <= BCRYPT_MAX_BYTES && other != password && |Utf8(other)| <= BCRYPT_MAX_BYTES
        ensures h.preimage != Utf8(other)
      {
        if h.preimage == Utf8(other) {
          Utf8Injective(other, password);
        }
      }
    }
    h
  }

  /** `verify_password`: `pwd_context.verify(plain_password, hashed_password)`. */
  function VerifyPassword(plainPassword: string, hashedPassword: PasswordHash): (ok: bool)
    ensures ok <==> hashedPassword == GeneratePasswordHash(plainPassword, hashedPassword.salt)
  {
    hashedPassword.preimage == BcryptInput(plainPassword)
  }

  /** A password verifies against every hash made from it. */
  lemma HashVerifies(password: string, salt: nat)
    ensures VerifyPassword(password, GeneratePasswordHash(password, salt))
  {
  }

  /**
   * A hash made from a password of at most `BCRYPT_MAX_BYTES` bytes verifies no other
   * password of at most that length.
   */
  lemma OtherPasswordFails(password: string, salt: nat)
    requires |Utf8(password)| <= BCRYPT_MAX_BYTES
    ensures forall other :: other != password && |Utf8(other)| <= BCRYPT_MAX_BYTES ==>
              !VerifyPassword(other, GeneratePasswordHash(password, salt))
  {
    forall other | other != password && |Utf8(other)| <= BCRYPT_MAX_BYTES
      ensures !VerifyPassword(other, GeneratePasswordHash(password, salt))
    {
      if VerifyPassword(other, GeneratePasswordHash(password, salt)) {
        Utf8Injective(other, password);
      }
    }
  }

  /**
   * The cut: once a password fills `BCRYPT_MAX_BYTES` bytes, appending to it changes
   * nothing bcrypt reads, so the longer password has the same hash and verifies against
   * the shorter one's.
   */
  lemma LongPasswordTailIgnored(password: string, tail: string, salt: nat)
    requires BCRYPT_MAX_BYTES <= |Utf8(password)|
    ensures GeneratePasswordHash(password + tail, salt) == GeneratePasswordHash(password, salt)
    ensures VerifyPassword(password + tail, GeneratePasswordHash(password, salt))
  {
    Utf8Append(password, tail);
    assert (Utf8(password) + Utf8(tail))[..BCRYPT_MAX_BYTES] == Utf8(password)[..BCRYPT_MAX_BYTES];
  }

  /**
   * The `exp` claim: `now + expires_delta` when the delta is truthy, otherwise
   * `now + 15 minutes`. A zero `timedelta` is falsy in Python, so it also gets 15 minutes.
   */
  function Expiry(now: int, expiresDelta: Option<int>): (exp: int)
    ensures expiresDelta.Some? && expiresDelta.value != 0 ==> exp == now + expiresDelta.value
    ensures expiresDelta.None? || expiresDelta == Some(0) ==> exp == now + DEFAULT_EXPIRE_SECONDS
  {
    if expiresDelta.Some? && expiresDelta.value != 0 then now + expiresDelta.value
    else now + DEFAULT_EXPIRE_SECONDS
  }

  /**
   * `create_access_token`: the token carries `sub` = username, `role`, the `refresh` flag
   * (false unless given) and the expiry above; it decodes to exactly those claims at every
   * instant before the expiry and to nothing from the expiry on.
   */
  function CreateAccessToken(cfg: Config, now: int, username: string, role: string,
                             refresh: bool := false, expiresDelta: Option<int> := None): (token: Token)
    ensures forall at :: at < Expiry(now, expiresDelta) ==>
              DecodeToken(cfg, token, at) == Some(Claims(username, role, refresh, Expiry(now, expiresDelta)))
    ensures forall at :: Expiry(now, expiresDelta) <= at ==> DecodeToken(cfg, token, at).None?
  {
    Encode(cfg, Claims(username, role, refresh, Expiry(now, expiresDelta)))
  }

  /** A zero delta is indistinguishable from no delta: both give a 15-minute token. */
  lemma ZeroDeltaFallsBack(cfg: Config, now: int, username: string, role: string, refresh: bool)
    ensures CreateAccessToken(cfg, now, username, role, refresh, Some(0))
         == CreateAccessToken(cfg, now, username, role, refresh)
    ensures DecodeToken(cfg, CreateAccessToken(cfg, now, username, role, refresh, Some(0)),
                        now + DEFAULT_EXPIRE_SECONDS - 1).Some?
  {
  }

  /** `ACCESS_TOKEN_EXPIRE_MINUTES` has no influence on any issued token. */
  lemma AccessExpireMinutesUnused(cfg: Config, minutes: int, now: int, username: string, role: string,
                                  refresh: bool, expiresDelta: Option<int>)
    ensures CreateAccessToken(cfg.(accessTokenExpireMinutes := minutes), now, username, role, refresh, expiresDelta)
         == CreateAccessToken(cfg, now, username, role, refresh, expiresDelta)
  {
  }

  /** A negative delta is truthy, so the token is issued already expired. */
  lemma NegativeDeltaIssuedExpired(cfg: Config, now: int, username: string, role: string,
                                   refresh: bool, delta: int)
    requires delta < 0
    ensures DecodeToken(cfg, CreateAccessToken(cfg, now, username, role, refresh, Some(delta)), now).None?
  {
  }

  /** A token signed with another secret never decodes, whatever its payload. */
  lemma ForeignSecretRejected(cfg: Config, other: Config, payload: Claims, now: int)
    requires other.jwtSecret != cfg.jwtSecret
    ensures DecodeToken(cfg, Encode(other, payload), now).None?
  {
  }
}
