/**
 * The credential service: Register, Login and VerifyToken over the user
 * collection, the bcrypt hasher and the JWT library, with the claims builder
 * used by Login. The clock, the random source and the database's failures
 * are parameters of the calls that use them.
 */
module AuthServer {
  import opened Wrappers
  import opened Status
  import opened Bcrypt
  import opened Jwt
  import opened Store

  /** Lifetime of an issued token: 24 hours, in seconds. */
  const TokenLifetime: int := 24 * 60 * 60

  datatype RegisterResponse = RegisterResponse(message: string)

  datatype LoginResponse = LoginResponse(token: Token, message: string)

  datatype VerifyTokenResponse = VerifyTokenResponse(valid: bool, message: string, username: string)

  /** The "username" claim, when the claims are a claim map holding a string there. */
  function UsernameClaim(claims: Claims): (r: Option<string>)
    ensures r.Some? ==>
              claims.MapClaims? && "username" in claims.entries && claims.entries["username"] == Text(r.value)
    ensures r.None? ==>
              !claims.MapClaims? || "username" !in claims.entries || !claims.entries["username"].Text?
  {
    if claims.MapClaims? && "username" in claims.entries && claims.entries["username"].Text?
    then Some(claims.entries["username"].text)
    else None
  }

  /** The "exp" claim, when the claims are a claim map holding a number there. */
  function ExpClaim(claims: Claims): Option<int>
  {
    if claims.MapClaims? && "exp" in claims.entries && claims.entries["exp"].Number?
    then Some(claims.entries["exp"].number)
    else None
  }

  /**
   * generateJWT: an HS256 token over exactly two claims, the username and an
   * expiry 24 hours after `now` (Unix seconds), signed with the secret. With a
   * byte-slice key HMAC signing cannot fail, so no error is returned.
   */
  function GenerateJwt(username: string, secretKey: Secret, now: int): (t: Token)
    ensures SignedWith(t, secretKey) && t.alg == HS256
    ensures t.claims.MapClaims? && t.claims.entries.Keys == {"username", "exp"}
    ensures UsernameClaim(t.claims) == Some(username)
    ensures ExpClaim(t.claims) == Some(now + TokenLifetime)
  {
    var claims := MapClaims(map["username" := Text(username), "exp" := Number(now + TokenLifetime)]);
    Sign(HS256, claims, secretKey)
  }

  datatype KeyError = UnexpectedSigningMethod(alg: SigningMethod)

  /** The key function VerifyToken hands to the parser: the secret, for HMAC methods only. */
  function KeyFunc(secretKey: Secret, alg: SigningMethod): (r: Result<Secret, KeyError>)
    ensures r.Success? <==> alg.IsHmac()
    ensures r.Success? ==> r.value == secretKey
  {
    if alg.IsHmac() then Success(secretKey) else Failure(UnexpectedSigningMethod(alg))
  }

  class Server {
    const collection: Collection
    const secretKey: Secret

    constructor NewServer(collection: Collection, secretKey: string)
      ensures this.collection == collection && this.secretKey == secretKey
    {
      this.collection := collection;
      this.secretKey := secretKey;
    }

    /**
     * Register: reject a username that already has a document, otherwise hash
     * the password and insert one record. `countFails` and `insertFails` are
     * the two database calls failing; `random` is the salt source.
     */
    method Register(username: string, password: string, email: string,
                    countFails: bool, random: Option<Salt>, insertFails: bool)
      returns (r: Result<RegisterResponse, Code>)
      modifies collection
      ensures countFails ==> r == Failure(Internal)
      ensures !countFails && !Absent(old(collection.docs), username) ==> r == Failure(AlreadyExists)
      ensures !countFails && Absent(old(collection.docs), username) && random.None? ==> r == Failure(Internal)
      ensures !countFails && Absent(old(collection.docs), username) && random.Some? && insertFails ==> r == Failure(Internal)
      ensures r.Failure? ==> collection.docs == old(collection.docs)
      ensures r.Success? <==> !countFails && Absent(old(collection.docs), username) && random.Some? && !insertFails
      ensures r.Success? ==>
                && r.value == RegisterResponse("User registered successfully")
                && collection.docs == old(collection.docs) + [User(username, GenerateFromPassword(password, random).value, email)]
      ensures Unique(old(collection.docs)) ==> Unique(collection.docs)
    {
      var count := collection.CountDocuments(username, countFails);
      if count.Failure? {
        return Failure(Internal);
      }
      if count.value > 0 {
        return Failure(AlreadyExists);
      }
      var hashed := GenerateFromPassword(password, random);
      if hashed.None? {
        return Failure(Internal);
      }
      var newUser := User(username, hashed.value, email);
      ghost var before := collection.docs;
      var inserted := collection.InsertOne(newUser, insertFails);
      if inserted.Failure? {
        return Failure(Internal);
      }
      if Unique(before) {
        UniqueAfterAppend(before, newUser);
      }
      return Success(RegisterResponse("User registered successfully"));
    }

    /**
     * Login: find the record, check the password against its hash, issue a
     * token for the stored username. `findFails` is the lookup failing for
     * any reason other than there being no document; `now` is the clock.
     */
    method Login(username: string, password: string, findFails: bool, now: int)
      returns (r: Result<LoginResponse, Code>)
      ensures findFails ==> r == Failure(Internal)
      ensures !findFails && Absent(collection.docs, username) ==> r == Failure(NotFound)
      ensures (!findFails && !Absent(collection.docs, username)
                && !CompareHashAndPassword(Lookup(collection.docs, username).value.password, password))
                ==> r == Failure(InvalidArgument)
      ensures r.Success? <==>
                && !findFails && !Absent(collection.docs, username)
                && CompareHashAndPassword(Lookup(collection.docs, username).value.password, password)
      ensures r.Success? ==> r.value == LoginResponse(GenerateJwt(username, secretKey, now), "Login successful")
    {
      var found := collection.FindOne(username, findFails);
      if found.Failure? {
        if found.error == ErrNoDocuments {
          return Failure(NotFound);
        }
        return Failure(Internal);
      }
      var user := found.value;
      if !CompareHashAndPassword(user.password, password) {
        return Failure(InvalidArgument);
      }
      var token := GenerateJwt(user.username, secretKey, now);
      return Success(LoginResponse(token, "Login successful"));
    }

    /**
     * VerifyToken: parse with a key function that releases the secret to HMAC
     * methods only, map each parse outcome to a status code and return the
     * "username" claim. `claimsValid` is the library's verdict on the claims.
     */
    function VerifyToken(token: Token, claimsValid: bool): (r: Result<VerifyTokenResponse, Code>)
      ensures token.Garbled? ==> r == Failure(Internal)
      ensures token.Compact? && !token.alg.IsHmac() ==> r == Failure(Internal)
      ensures token.Compact? && token.alg.IsHmac() && !SignedWith(token, secretKey) ==> r == Failure(Unauthenticated)
      ensures SignedWith(token, secretKey) && token.alg.IsHmac() && !claimsValid ==> r == Failure(Unauthenticated)
      ensures (SignedWith(token, secretKey) && token.alg.IsHmac() && claimsValid && token.claims.OtherClaims?)
                ==> r == Failure(Unauthenticated)
      ensures (SignedWith(token, secretKey) && token.alg.IsHmac() && claimsValid && token.claims.MapClaims?
                && UsernameClaim(token.claims).None?) ==> r == Failure(Internal)
      ensures r.Success? <==>
                SignedWith(token, secretKey) && token.alg.IsHmac() && claimsValid && UsernameClaim(token.claims).Some?
      ensures r.Success? ==> r.value == VerifyTokenResponse(true, "Token is valid", UsernameClaim(token.claims).value)
    {
      match Parse(token, alg => KeyFunc(secretKey, alg), claimsValid)
      case SignatureInvalid => Failure(Unauthenticated)
      case OtherError => Failure(Internal)
      case Parsed(valid, claims) =>
        if !valid then Failure(Unauthenticated)
        else if !claims.MapClaims? || !valid then Failure(Unauthenticated)
        else if UsernameClaim(claims).None? then Failure(Internal)
        else Success(VerifyTokenResponse(true, "Token is valid", UsernameClaim(claims).value))
    }
  }

  /** The parser's outcome for a non-HMAC token does not depend on the secret. */
  lemma SecretWithheldFromNonHmac(token: Token, s1: Secret, s2: Secret, claimsValid: bool)
    requires token.Compact? && !token.alg.IsHmac()
    ensures Parse(token, alg => KeyFunc(s1, alg), claimsValid) == OtherError
    ensures Parse(token, alg => KeyFunc(s1, alg), claimsValid) == Parse(token, alg => KeyFunc(s2, alg), claimsValid)
  {
  }

  /** A token issued with the server's secret verifies to its username. */
  lemma IssuedTokenVerifies(s: Server, username: string, now: int)
    ensures s.VerifyToken(GenerateJwt(username, s.secretKey, now), true)
            == Success(VerifyTokenResponse(true, "Token is valid", username))
  {
  }

  /** A token issued with another secret is rejected as unauthenticated. */
  lemma ForeignSecretRejected(s: Server, username: string, other: Secret, now: int, claimsValid: bool)
    requires other != s.secretKey
    ensures s.VerifyToken(GenerateJwt(username, other, now), claimsValid) == Failure(Unauthenticated)
  {
  }

  /** Changing the claims of a signed token (to claim another user, say) makes it unauthenticated. */
  lemma TamperedClaimsRejected(s: Server, token: Token, forged: Claims, claimsValid: bool)
    requires SignedWith(token, s.secretKey) && token.alg.IsHmac() && forged != token.claims
    ensures s.VerifyToken(token.(claims := forged), claimsValid) == Failure(Unauthenticated)
  {
  }

  /**
   * Register then Login with the same credentials succeeds, and the token
   * verifies to the username; Login with another password is InvalidArgument.
   * In a collection with unique usernames the name then has exactly one record.
   */
  method RegisterLoginVerify(s: Server, username: string, password: string, wrong: string,
                             email: string, salt: Salt, now: int)
    returns (verified: Result<VerifyTokenResponse, Code>, rejected: Result<LoginResponse, Code>)
    requires Absent(s.collection.docs, username) && wrong != password
    modifies s.collection
    ensures verified == Success(VerifyTokenResponse(true, "Token is valid", username))
    ensures rejected == Failure(InvalidArgument)
    ensures Unique(old(s.collection.docs)) ==> Count(s.collection.docs, username) == 1
  {
    ghost var before := s.collection.docs;
    var registered := s.Register(username, password, email, false, Some(salt), false);
    var user := User(username, GenerateFromPassword(password, Some(salt)).value, email);
    assert s.collection.docs == before + [user];
    LookupAfterAppend(before, user, username);
    HashMatchesOnlyItsPassword(password, salt, password);
    HashMatchesOnlyItsPassword(password, salt, wrong);
    var login := s.Login(username, password, false, now);
    IssuedTokenVerifies(s, username, now);
    verified := s.VerifyToken(login.value.token, true);
    rejected := s.Login(username, wrong, false, now);
    if Unique(before) {
      UniqueCountsAtMostOne(s.collection.docs, username);
      assert s.collection.docs[|before|].username == username;
    }
  }
}
