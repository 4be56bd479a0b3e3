/** The two foreign libraries the account flows use, reduced to what the application relies
    on. bcrypt: a hash made with a random salt, and a comparison that accepts exactly the
    plaintext the hash was made from. jsonwebtoken: a compact token `header.payload.mac`
    whose payload carries the claims and whose mac binds header and payload to the signing
    key; verification checks the mac under the given key and the expiry. */
module Crypto {
  import opened Wrappers
  import Codec

  /** A bcrypt hash as the model sees it: the salt it was made with and what identifies the
      plaintext it was made from. */
  datatype PasswordHash = Bcrypt(salt: nat, digest: string)

  /** `bcrypt.hash(plaintext, salt)`; the salt is the random input of `genSalt`. */
  function Hash(plaintext: string, salt: nat): PasswordHash {
    Bcrypt(salt, plaintext)
  }

  /** `bcrypt.compare(plaintext, hash)`, idealised: the library reads only the first 72 bytes
      of the UTF-8 plaintext, the model all of it. */
  function Compare(plaintext: string, h: PasswordHash): bool {
    h.digest == plaintext
  }

  /** A hash accepts the plaintext it was made from and, under the idealised comparison, no
      other, whatever the salt. */
  lemma CompareHash(p: string, q: string, salt: nat)
    ensures Compare(q, Hash(p, salt)) <==> q == p
  {
  }

  /** The claims `generarToken` signs: the payload `{userId}` plus the `iat`, `exp`, `iss`
      and `sub` that the signing options add. Times are whole seconds. */
  datatype Claims = Claims(userId: string, iat: nat, exp: nat, iss: string, sub: string)

  /** The header jsonwebtoken writes by default, `{"alg":"HS256","typ":"JWT"}` in base64url. */
  const Header := "eyJhbGciOiJIUzI1NiIsInR5cCI6IkpXVCJ9"

  function EncodeClaims(c: Claims): (p: string)
    ensures '.' !in p
  {
    Codec.EncodeFields([c.userId, Codec.NatToString(c.iat), Codec.NatToString(c.exp), c.iss, c.sub])
  }

  /** What decoding a payload gives: None when it is not a well-formed set of claims. */
  function DecodeClaims(p: string): Option<Claims> {
    var fs := Codec.DecodeFields(p);
    if |fs| == 5 && Codec.ParseNat(fs[1]).Some? && Codec.ParseNat(fs[2]).Some? then
      Some(Claims(fs[0], Codec.ParseNat(fs[1]).value, Codec.ParseNat(fs[2]).value, fs[3], fs[4]))
    else None
  }

  lemma DecodeEncodeClaims(c: Claims)
    ensures DecodeClaims(EncodeClaims(c)) == Some(c)
  {
    var fs := [c.userId, Codec.NatToString(c.iat), Codec.NatToString(c.exp), c.iss, c.sub];
    Codec.DecodeEncodeFields(fs);
    Codec.ParseNatToString(c.iat);
    Codec.ParseNatToString(c.exp);
  }

  /** The keyed mac of HS256, as an injective function of key and message: a different key or
      message gives a different signature. */
  function Mac(key: string, message: string): (m: string)
    ensures '.' !in m
  {
    Codec.EncodeFields([key, message])
  }

  lemma MacInjective(k1: string, k2: string, m1: string, m2: string)
    requires Mac(k1, m1) == Mac(k2, m2)
    ensures k1 == k2 && m1 == m2
  {
    Codec.DecodeEncodeFields([k1, m1]);
    Codec.DecodeEncodeFields([k2, m2]);
  }

  /** `jwt.sign(payload, key)`. */
  function Sign(c: Claims, key: string): string {
    var body := Header + "." + EncodeClaims(c);
    body + "." + Mac(key, body)
  }

  /** `jwt.verify(token, key)` at time `now`: the claims when the token has three parts, the
      expected header, a mac made with this key over header and payload, a readable payload,
      and `now < exp`; None for any failure (bad signature, expired, malformed). */
  function Verify(token: string, key: string, now: nat): (r: Option<Claims>)
    ensures r.Some? ==> now < r.value.exp
  {
    var parts := Codec.Split(token, '.');
    if |parts| == 3 && parts[0] == Header && parts[2] == Mac(key, parts[0] + "." + parts[1]) then
      match DecodeClaims(parts[1])
      case Some(c) => if now < c.exp then Some(c) else None
      case None => None
    else None
  }

  /** The payload part of a compact token, as a client reads it with `token.split('.')[1]`. */
  function PayloadOf(token: string): Option<string> {
    var parts := Codec.Split(token, '.');
    if |parts| >= 2 then Some(parts[1]) else None
  }

  lemma HeaderHasNoDot()
    ensures '.' !in Header
  {
    assert Header == "eyJhbGciOiJIUzI1NiIsInR5cCI6IkpXVCJ9";
  }

  lemma SplitSigned(c: Claims, key: string)
    ensures Codec.Split(Sign(c, key), '.')
      == [Header, EncodeClaims(c), Mac(key, Header + "." + EncodeClaims(c))]
  {
    var p := EncodeClaims(c);
    var m := Mac(key, Header + "." + p);
    HeaderHasNoDot();
    Codec.SplitThree(Header, p, m, '.');
  }

  /** A signed token verifies under the key it was signed with, and only that key, exactly
      until its expiry; the claims come back unchanged. */
  lemma {:induction false} VerifySigned(c: Claims, key: string, other: string, now: nat)
    ensures Verify(Sign(c, key), other, now) == (if other == key && now < c.exp then Some(c) else None)
  {
    SplitSigned(c, key);
    DecodeEncodeClaims(c);
    var body := Header + "." + EncodeClaims(c);
    if Mac(key, body) == Mac(other, body) {
      MacInjective(key, other, body, body);
    }
  }

  /** A client reading the payload of a signed token gets back its claims. */
  lemma PayloadOfSigned(c: Claims, key: string)
    ensures PayloadOf(Sign(c, key)) == Some(EncodeClaims(c))
    ensures DecodeClaims(EncodeClaims(c)) == Some(c)
  {
    SplitSigned(c, key);
    DecodeEncodeClaims(c);
  }
}
