/** Stand-ins for the cryptographic primitives the backend calls: JSON Web
    Tokens (`jwt.sign` / `jwt.verify`), bcrypt password hashing and the SHA-1
    hex digest. Their internals are not modelled. Each stand-in is a concrete
    definition with the behaviour the handlers observe:
      - a token carries the user id and its issue time, and verifies to that
        id until it expires 30 days after issue;
      - a candidate password matches a hash iff it is the hashed plaintext;
      - a digest is a function of its input. */
module Crypto {
  import opened Common

  // ---------------------------------------------------------------------
  // Bearer tokens
  // ---------------------------------------------------------------------

  const TokenPrefix: string := "jwt."

  /** `expiresIn: '30d'`, in the seconds of the `iat` and `exp` claims. */
  const TokenLifetime: nat := 30 * 24 * 60 * 60

  /** The claims a token carries: `{ id }` and the `iat` jsonwebtoken adds
      (seconds since the epoch). `exp` is `iat + TokenLifetime`. */
  datatype Claims = Claims(id: Id, iat: nat)

  /** `signToken(id)` of the auth controller at time `iat`. Tokens contain
      no white space, so they survive the `Bearer <token>` header round
      trip. */
  function SignToken(id: Id, iat: nat): (t: string)
    ensures |t| > |TokenPrefix| && t[..|TokenPrefix|] == TokenPrefix
    ensures NoSpace(t)
  {
    var a, b := NatToString(id), NatToString(iat);
    assert Join([a, b], '.') == a + ['.'] + b;
    DigitsHaveNoDot(a);
    DigitsHaveNoDot(b);
    TokenPrefix + Join([a, b], '.')
  }

  /** A numeral contains no separator and no white space. */
  lemma DigitsHaveNoDot(s: string)
    requires AllDigits(s)
    ensures '.' !in s && NoSpace(s)
  {
  }

  /** The claims of a token the server signed, or None for any other
      string (the signature check fails and `jwt.verify` throws). */
  function DecodeToken(t: string): (r: Option<Claims>)
    ensures r.Some? ==> t == SignToken(r.value.id, r.value.iat)
  {
    if |t| > |TokenPrefix| && t[..|TokenPrefix|] == TokenPrefix then
      var body := t[|TokenPrefix|..];
      var parts := Split(body, '.');
      if |parts| == 2 && IsCanonicalNumeral(parts[0]) && IsCanonicalNumeral(parts[1]) then
        NatToStringParse(parts[0]);
        NatToStringParse(parts[1]);
        JoinSplit(body, '.');
        assert parts == [parts[0], parts[1]];
        assert t == TokenPrefix + body;
        Some(Claims(ParseDigits(parts[0]), ParseDigits(parts[1])))
      else
        None
    else
      None
  }

  /** Decoding a signed token gives back the claims it was signed with. */
  lemma {:induction false} DecodeSignedToken(id: Id, iat: nat)
    ensures DecodeToken(SignToken(id, iat)) == Some(Claims(id, iat))
  {
    var a, b := NatToString(id), NatToString(iat);
    var t := SignToken(id, iat);
    DigitsHaveNoDot(a);
    DigitsHaveNoDot(b);
    assert t[|TokenPrefix|..] == Join([a, b], '.');
    SplitJoin([a, b], '.');
    NatToStringCanonical(id);
    NatToStringCanonical(iat);
    ParseNatToString(id);
    ParseNatToString(iat);
  }

  /** `jwt.verify(token, secret)` at time `now`: the id of a token the
      server signed, while `now` is before its `exp`; None when
      verification throws. */
  function VerifyToken(t: string, now: nat): (r: Option<Id>)
    ensures r.Some? ==> exists iat: nat :: t == SignToken(r.value, iat) && now < iat + TokenLifetime
  {
    match DecodeToken(t)
    case None => None
    case Some(c) => if now < c.iat + TokenLifetime then Some(c.id) else None
  }

  /** A signed token verifies to its id before it expires, and to nothing
      from its expiry on. */
  lemma VerifySignedToken(id: Id, iat: nat, now: nat)
    ensures now < iat + TokenLifetime ==> VerifyToken(SignToken(id, iat), now) == Some(id)
    ensures now >= iat + TokenLifetime ==> VerifyToken(SignToken(id, iat), now) == None
  {
    DecodeSignedToken(id, iat);
  }

  /** A token verifies to `id` exactly when it was signed for `id` at a time
      less than 30 days before `now`. */
  lemma VerifyTokenIff(t: string, id: Id, now: nat)
    ensures VerifyToken(t, now) == Some(id) <==> exists iat: nat :: t == SignToken(id, iat) && now < iat + TokenLifetime
  {
    if exists iat: nat :: t == SignToken(id, iat) && now < iat + TokenLifetime {
      var iat: nat :| t == SignToken(id, iat) && now < iat + TokenLifetime;
      VerifySignedToken(id, iat, now);
    }
  }

  /** Tokens for different users, or issued at different seconds, differ. */
  lemma SignTokenInjective(id1: Id, iat1: nat, id2: Id, iat2: nat)
    ensures SignToken(id1, iat1) == SignToken(id2, iat2) <==> id1 == id2 && iat1 == iat2
  {
    if SignToken(id1, iat1) == SignToken(id2, iat2) {
      DecodeSignedToken(id1, iat1);
      DecodeSignedToken(id2, iat2);
    }
  }

  // ---------------------------------------------------------------------
  // Password hashing
  // ---------------------------------------------------------------------

  /** A bcrypt hash, kept as the uninterpreted image of its plaintext. */
  datatype PasswordHash = Bcrypt(plaintext: string)

  /** `bcrypt.hash(p, 12)`. */
  function HashPassword(p: string): PasswordHash {
    Bcrypt(p)
  }

  /** `bcrypt.compare(candidate, hash)`. */
  function ComparePassword(candidate: string, h: PasswordHash): bool {
    h == HashPassword(candidate)
  }

  /** The property of bcrypt the login flow relies on. */
  lemma CompareHashedPassword(p: string, q: string)
    ensures ComparePassword(p, HashPassword(q)) <==> p == q
  {
  }

  // ---------------------------------------------------------------------
  // SHA-1 hex digest
  // ---------------------------------------------------------------------

  /** `crypto.createHash('sha1').update(s).digest('hex')`, uninterpreted. */
  datatype Digest = Sha1Hex(input: string)

  function Sha1(s: string): Digest {
    Sha1Hex(s)
  }
}
