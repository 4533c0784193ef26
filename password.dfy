/**
 * Password protection (src/lib/password.ts): the SHA-512 digest of the
 * password, hashed with bcrypt (cost 10), encrypted with AES-256-CTR under a
 * static key and a fresh 16-byte IV, stored as `ciphertext$base64(IV)`.
 *
 * The cryptographic primitives are fields of `Primitives`, so nothing is
 * assumed about them except where a lemma requires `Lawful` (what the
 * libraries guarantee) or `BcryptBinding` (that bcrypt has no collisions).
 * The random IV and the random bcrypt salt are parameters.
 */
module Password {
  import opened Wrappers
  import JsString
  import Base64

  type byte = Base64.byte

  const BcryptSaltRounds: nat := 10
  const IvLen: nat := 16
  /** AES-256 takes a 32-byte key; `createCipheriv` and `createDecipheriv` refuse any other length. */
  const KeyLen: nat := 32
  /** The separator between ciphertext and IV in a stored secret. */
  const Delimiter: char := '$'
  /** bcrypt uses at most the first 72 bytes of its input. */
  const BcryptMaxInput: nat := 72

  /** `crypto.randomBytes(IV_LEN)`: always sixteen bytes. */
  type Iv = s: seq<byte> | |s| == IvLen witness seq(16, _ => 0)

  datatype Primitives = Primitives(
    /** `createHash('SHA512')`: the raw digest. */
    sha512: string -> seq<byte>,
    /** `bcrypt.hash(data, cost)` with the salt it draws. */
    bcryptHash: (string, nat, seq<byte>) -> string,
    /** `bcrypt.compare(data, hash)`: the verdict, or the error it calls back with on a malformed hash. */
    bcryptCompare: (string, string) -> Result<bool, string>,
    /** AES-256-CTR encryption of the UTF-8 text under a key and IV. */
    aesCtrEncrypt: (seq<byte>, Iv, string) -> seq<byte>,
    /** AES-256-CTR decryption, read back as UTF-8 text. */
    aesCtrDecrypt: (seq<byte>, Iv, seq<byte>) -> string)

  /** The static configuration: the primitives and `PASSWORD_ENCRYPTION_KEY`. */
  datatype Vault = Vault(primitives: Primitives, key: seq<byte>)

  /** Errors the crypto library throws on a malformed stored secret or key. */
  datatype CryptoError =
    | MissingIvPart   // `Buffer.from(undefined, 'base64')` throws when the secret has no "$"
    | CipherRejected  // `createCipheriv`/`createDecipheriv` refuse a key or IV of the wrong length
    | HashRejected(message: string) // `bcrypt.compare` calls back with an error: the stored hash is malformed

  /** What the libraries guarantee. */
  ghost predicate Lawful(p: Primitives)
  {
    && (forall s :: |p.sha512(s)| == 64)
    && (forall s, cost, salt :: |p.bcryptHash(s, cost, salt)| == 60)
    && (forall s, cost, salt :: p.bcryptCompare(s, p.bcryptHash(s, cost, salt)) == Success(true))
    && (forall t, s, cost, salt :: p.bcryptCompare(t, p.bcryptHash(s, cost, salt)).Success?)
    && (forall key, iv, m :: p.aesCtrDecrypt(key, iv, p.aesCtrEncrypt(key, iv, m)) == m)
    && (forall key, iv, m :: p.aesCtrEncrypt(key, iv, m) == [] <==> m == "")
  }

  /** The part of a string bcrypt looks at. */
  function BcryptInput(s: string): (r: string)
    ensures |r| <= BcryptMaxInput && r <= s
  {
    if |s| <= BcryptMaxInput then s else s[..BcryptMaxInput]
  }

  /**
   * No bcrypt collisions among the digest texts this module hands to bcrypt:
   * `compare` accepts the digest of `b` against a hash of the digest of `a`
   * only when the two agree on what bcrypt reads. (Stated over digests only:
   * over all strings it could not hold, since hashes have a fixed length.)
   */
  ghost predicate BcryptBinding(p: Primitives)
  {
    forall a, b, cost, salt ::
      p.bcryptCompare(Digest(p, b), p.bcryptHash(Digest(p, a), cost, salt)) == Success(true)
      ==> BcryptInput(Digest(p, b)) == BcryptInput(Digest(p, a))
  }

  /** `sha512(input)`: the digest as base64 text. */
  function Digest(p: Primitives, input: string): (d: string)
    ensures Lawful(p) ==> |d| == 88
  {
    Base64.Encode(p.sha512(input))
  }

  /** What `cipher.read()` gives after the plaintext is written: base64 text, or `null` (printed "null") when nothing came out. */
  function CipherTextField(ct: seq<byte>): (s: string)
    ensures Delimiter !in s
  {
    if ct == [] then "null" else (Base64.EncodeAvoids(ct, Delimiter); Base64.Encode(ct))
  }

  function JoinSecret(cipherText: string, ivText: string): string
  {
    cipherText + [Delimiter] + ivText
  }

  /** `encrypt(input)` with the IV it draws. */
  function Encrypt(v: Vault, iv: Iv, input: string): (r: Result<string, CryptoError>)
    ensures r.Success? <==> |v.key| == KeyLen
    ensures r.Failure? ==> r.error == CipherRejected
  {
    if |v.key| != KeyLen then Failure(CipherRejected)
    else Success(JoinSecret(CipherTextField(v.primitives.aesCtrEncrypt(v.key, iv, input)), Base64.Encode(iv)))
  }

  /** `hashAndEncryptPassword(input)` with the salt and IV it draws. */
  function HashAndEncryptPassword(v: Vault, salt: seq<byte>, iv: Iv, input: string): (r: Result<string, CryptoError>)
    ensures r.Success? <==> |v.key| == KeyLen
  {
    Encrypt(v, iv, v.primitives.bcryptHash(Digest(v.primitives, input), BcryptSaltRounds, salt))
  }

  /** `decrypt(input)`: `null` for `null`; otherwise split on "$", decode both halves and decrypt. */
  function Decrypt(v: Vault, input: Option<string>): (r: Result<Option<string>, CryptoError>)
    ensures input.None? <==> r == Success(None)
    ensures r.Failure? ==> input.Some? && (r.error == MissingIvPart <==> Delimiter !in input.value)
    ensures input.Some? && Delimiter !in input.value ==> r == Failure(MissingIvPart)
    ensures input.Some? && Delimiter in input.value && |v.key| != KeyLen ==> r == Failure(CipherRejected)
  {
    match input
    case None => Success(None)
    case Some(s) =>
      var parts := JsString.Split(s, Delimiter);
      if |parts| < 2 then Failure(MissingIvPart)
      else
        var iv := Base64.Decode(parts[1]);
        if |v.key| != KeyLen || |iv| != IvLen then Failure(CipherRejected)
        else Success(Some(v.primitives.aesCtrDecrypt(v.key, iv, Base64.Decode(parts[0]))))
  }

  /** `comparePassword(clearPassword, encryptedPassword)`; `None` stands for any value that is not a string. */
  function ComparePassword(v: Vault, clearPassword: string, encryptedPassword: Option<string>): (r: Result<bool, CryptoError>)
    ensures encryptedPassword.None? ==> r == Success(false)
    ensures encryptedPassword.Some? && Decrypt(v, encryptedPassword).Failure?
            ==> r == Failure(Decrypt(v, encryptedPassword).error)
    ensures encryptedPassword.Some? && Decrypt(v, encryptedPassword).Success? ==>
              var verdict := v.primitives.bcryptCompare(Digest(v.primitives, clearPassword),
                                                        Decrypt(v, encryptedPassword).value.value);
              && (verdict.Failure? ==> r == Failure(HashRejected(verdict.error)))
              && (verdict.Success? ==> r == Success(verdict.value))
  {
    if encryptedPassword.None? then Success(false)
    else
      match Decrypt(v, encryptedPassword)
      case Failure(e) => Failure(e)
      case Success(None) => Success(false)
      case Success(Some(hash)) =>
        match v.primitives.bcryptCompare(Digest(v.primitives, clearPassword), hash)
        case Failure(message) => Failure(HashRejected(message))
        case Success(valid) => Success(valid)
  }

  // ---------------------------------------------------------------------------
  // The stored format

  /** Splitting on "$" gives back exactly the two halves that were joined. */
  lemma SplitJoinedSecret(ct: seq<byte>, iv: Iv)
    ensures JsString.Split(JoinSecret(CipherTextField(ct), Base64.Encode(iv)), Delimiter)
            == [CipherTextField(ct), Base64.Encode(iv)]
  {
    Base64.EncodeAvoids(iv, Delimiter);
    JsString.SplitTwo(CipherTextField(ct), Delimiter, Base64.Encode(iv));
  }

  /**
   * A protected secret is the field of ciphertext of the bcrypt hash of the
   * digest, "$", and the 24-character base64 of the IV, and splits back into
   * exactly those two parts.
   */
  lemma StoredSecretFormat(v: Vault, salt: seq<byte>, iv: Iv, password: string)
    requires |v.key| == KeyLen
    ensures var ct := v.primitives.aesCtrEncrypt(v.key, iv, v.primitives.bcryptHash(Digest(v.primitives, password), BcryptSaltRounds, salt));
            var r := HashAndEncryptPassword(v, salt, iv, password);
            && r == Success(JoinSecret(CipherTextField(ct), Base64.Encode(iv)))
            && JsString.Split(r.value, Delimiter) == [CipherTextField(ct), Base64.Encode(iv)]
            && |Base64.Encode(iv)| == 24
  {
    var ct := v.primitives.aesCtrEncrypt(v.key, iv, v.primitives.bcryptHash(Digest(v.primitives, password), BcryptSaltRounds, salt));
    SplitJoinedSecret(ct, iv);
  }

  /** `decrypt` undoes `encrypt` under the same key, for any non-empty plaintext. */
  lemma DecryptInvertsEncrypt(v: Vault, iv: Iv, m: string)
    requires Lawful(v.primitives)
    requires |v.key| == KeyLen
    requires m != ""
    ensures Decrypt(v, Some(Encrypt(v, iv, m).value)) == Success(Some(m))
  {
    var ct := v.primitives.aesCtrEncrypt(v.key, iv, m);
    SplitJoinedSecret(ct, iv);
    Base64.DecodeEncode(iv);
    Base64.DecodeEncode(ct);
  }

  /** What a protected secret decrypts to is the bcrypt hash (cost 10) of the password's digest. */
  lemma ProtectedHashIsBcryptOfDigest(v: Vault, salt: seq<byte>, iv: Iv, password: string)
    requires Lawful(v.primitives)
    requires |v.key| == KeyLen
    ensures Decrypt(v, Some(HashAndEncryptPassword(v, salt, iv, password).value))
            == Success(Some(v.primitives.bcryptHash(Digest(v.primitives, password), BcryptSaltRounds, salt)))
  {
    var h := v.primitives.bcryptHash(Digest(v.primitives, password), BcryptSaltRounds, salt);
    assert |h| == 60;
    DecryptInvertsEncrypt(v, iv, h);
  }

  /** Verifying a password against the secret protected from it succeeds. */
  lemma ProtectThenCompare(v: Vault, salt: seq<byte>, iv: Iv, password: string)
    requires Lawful(v.primitives)
    requires |v.key| == KeyLen
    ensures HashAndEncryptPassword(v, salt, iv, password).Success?
    ensures ComparePassword(v, password, Some(HashAndEncryptPassword(v, salt, iv, password).value)) == Success(true)
  {
    ProtectedHashIsBcryptOfDigest(v, salt, iv, password);
  }

  /** Digests that differ in their first 54 bytes differ in the 72 characters bcrypt reads. */
  lemma DistinctDigestsReachBcrypt(p: Primitives, a: string, b: string)
    requires Lawful(p)
    requires p.sha512(a)[..54] != p.sha512(b)[..54]
    ensures BcryptInput(Digest(p, a)) != BcryptInput(Digest(p, b))
  {
    Base64.EncodePrefix(p.sha512(a), 18);
    Base64.EncodePrefix(p.sha512(b), 18);
    if BcryptInput(Digest(p, a)) == BcryptInput(Digest(p, b)) {
      Base64.EncodeInjective(p.sha512(a)[..54], p.sha512(b)[..54]);
    }
  }

  /**
   * A secret protected from one password rejects another, provided bcrypt has
   * no collisions and the two SHA-512 digests differ in the first 54 bytes
   * (bcrypt reads only the first 72 of the 88 characters of the digest text).
   */
  lemma OtherPasswordRejected(v: Vault, salt: seq<byte>, iv: Iv, password: string, other: string)
    requires Lawful(v.primitives) && BcryptBinding(v.primitives)
    requires |v.key| == KeyLen
    requires v.primitives.sha512(password)[..54] != v.primitives.sha512(other)[..54]
    ensures ComparePassword(v, other, Some(HashAndEncryptPassword(v, salt, iv, password).value)) == Success(false)
  {
    ProtectedHashIsBcryptOfDigest(v, salt, iv, password);
    DistinctDigestsReachBcrypt(v.primitives, password, other);
  }

  /** Two protections of the same password that draw different IVs give different stored secrets, whatever salts they draw. */
  lemma DistinctIvsDistinctSecrets(v: Vault, salt1: seq<byte>, salt2: seq<byte>, iv1: Iv, iv2: Iv, password: string)
    requires |v.key| == KeyLen
    requires iv1 != iv2
    ensures HashAndEncryptPassword(v, salt1, iv1, password) != HashAndEncryptPassword(v, salt2, iv2, password)
  {
    StoredSecretFormat(v, salt1, iv1, password);
    StoredSecretFormat(v, salt2, iv2, password);
    if HashAndEncryptPassword(v, salt1, iv1, password) == HashAndEncryptPassword(v, salt2, iv2, password) {
      Base64.EncodeInjective(iv1, iv2);
    }
  }

  // ---------------------------------------------------------------------------
  // The library guarantees can all hold at once

  /** A three-byte code per character, so the witness cipher below has an inverse. */
  function CharCode(m: string): (b: seq<byte>)
    ensures |b| == 3 * |m|
  {
    if m == [] then []
    else
      var c := m[0] as int;
      [c / 65536, (c % 65536) / 256, c % 256] + CharCode(m[1..])
  }

  function CodeChar(b0: byte, b1: byte, b2: byte): char
  {
    var c := b0 * 65536 + b1 * 256 + b2;
    if c < 0xD800 || 0xE000 <= c < 0x11_0000 then c as char else ' '
  }

  function CodeText(b: seq<byte>): string
    decreases |b|
  {
    if |b| < 3 then [] else [CodeChar(b[0], b[1], b[2])] + CodeText(b[3..])
  }

  lemma {:induction false} CodeTextCharCode(m: string)
    ensures CodeText(CharCode(m)) == m
  {
    if m != [] {
      var c := m[0] as int;
      assert c == (c / 65536) * 65536 + ((c % 65536) / 256) * 256 + c % 256;
      assert CharCode(m)[3..] == CharCode(m[1..]);
      CodeTextCharCode(m[1..]);
    }
  }

  const ZeroDigest: seq<byte> := seq(64, _ => 0)
  const FullDigest: seq<byte> := seq(64, _ => 255)

  /** bcrypt's verdict in the witness: one hash for inputs that start like the digest of "", another for the rest. */
  function WitnessHash(s: string): string
  {
    if BcryptInput(s) == BcryptInput(Base64.Encode(ZeroDigest)) then seq(60, _ => 'a') else seq(60, _ => 'b')
  }

  /** Primitives that meet `Lawful` and `BcryptBinding`, with two passwords whose digests differ. */
  function Witness(): Primitives
  {
    Primitives(
      s => if s == "" then ZeroDigest else FullDigest,
      (s, cost, salt) => WitnessHash(s),
      (t, h) => Success(h == WitnessHash(t)),
      (key, iv, m) => CharCode(m),
      (key, iv, c) => CodeText(c))
  }

  /** The preconditions of `OtherPasswordRejected` can all be met: they do not contradict each other. */
  lemma AssumptionsCanHold()
    ensures Lawful(Witness()) && BcryptBinding(Witness())
    ensures Witness().sha512("")[..54] != Witness().sha512("x")[..54]
  {
    var p := Witness();
    forall key, iv, m ensures p.aesCtrDecrypt(key, iv, p.aesCtrEncrypt(key, iv, m)) == m {
      CodeTextCharCode(m);
    }
    var d0 := Base64.Encode(ZeroDigest);
    forall a, b, cost, salt | p.bcryptCompare(Digest(p, b), p.bcryptHash(Digest(p, a), cost, salt)) == Success(true)
      ensures BcryptInput(Digest(p, b)) == BcryptInput(Digest(p, a))
    {
      assert Digest(p, a) == d0 || Digest(p, a) == Base64.Encode(FullDigest);
      assert Digest(p, b) == d0 || Digest(p, b) == Base64.Encode(FullDigest);
    }
    assert p.sha512("")[0] != p.sha512("x")[0];
  }
}
