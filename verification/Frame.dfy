/** The encrypted artifact: magic, salt, nonce and authenticated ciphertext. AEAD is a pair of functions with one law. */
module Frame {
  import opened Basics
  import opened Pbkdf2

  const SALT_LENGTH: nat := 16
  const NONCE_LENGTH: nat := 12
  const TAG_LENGTH: nat := 16
  const KEY_LENGTH: nat := 32
  const KDF_ITERATIONS: nat := 200_000

  /** The text "CERTARIUM-BACKUP-V1" and a line feed. */
  const MAGIC: Bytes :=
    [0x43, 0x45, 0x52, 0x54, 0x41, 0x52, 0x49, 0x55, 0x4D, 0x2D, 0x42, 0x41, 0x43, 0x4B, 0x55, 0x50, 0x2D, 0x56, 0x31, 0x0A]

  const OVERHEAD: nat := |MAGIC| + SALT_LENGTH + NONCE_LENGTH + TAG_LENGTH

  /** seal and open take key, nonce, text and additional data. */
  datatype Crypto = Crypto(
    prf: Prf,
    seal: (Bytes, Bytes, Bytes, Bytes) -> Bytes,
    open: (Bytes, Bytes, Bytes, Bytes) -> Option<Bytes>)

  ghost predicate AeadLaw(c: Crypto) {
    forall key, nonce, plain, extra ::
      c.open(key, nonce, c.seal(key, nonce, plain, extra), extra) == Some(plain)
      && |c.seal(key, nonce, plain, extra)| == |plain| + TAG_LENGTH
  }

  ghost function KeyOf(c: Crypto, password: Bytes, salt: Bytes): Bytes {
    seq(KEY_LENGTH, n requires 0 <= n => CodeOctet(c.prf, password, salt, KDF_ITERATIONS, n))
  }

  /** The key of a password and a salt: 32 octets of PBKDF2 with 200000 rounds (section 5.2 of RFC 8018). */
  ghost predicate IsKey(c: Crypto, password: Bytes, salt: Bytes, key: Bytes) {
    |key| == 32 && forall n | 0 <= n < 32 :: key[n] == DerivedOctet(c.prf, password, salt, 200_000, n)
  }

  lemma KeyIsDerived(c: Crypto, password: Bytes, salt: Bytes)
    ensures IsKey(c, password, salt, KeyOf(c, password, salt))
    ensures forall key | IsKey(c, password, salt, key) :: key == KeyOf(c, password, salt)
  {
    forall n | 0 <= n < 32
      ensures KeyOf(c, password, salt)[n] == DerivedOctet(c.prf, password, salt, 200_000, n)
    {
      CodeMatchesStandard(c.prf, password, salt, 200_000, 32, n);
    }
  }

  /** The artifact begins with a line that names the format and its version. */
  lemma MagicText()
    ensures |MAGIC| == 20
    ensures forall i | 0 <= i < 10 :: MAGIC[i] as int == "CERTARIUM-"[i] as int
    ensures forall i | 10 <= i < 20 :: MAGIC[i] as int == "BACKUP-V1\n"[i - 10] as int
  {
    MagicBegins();
    MagicEnds();
  }

  lemma MagicBegins()
    ensures forall i | 0 <= i < 10 :: MAGIC[i] as int == "CERTARIUM-"[i] as int
  {
  }

  lemma MagicEnds()
    ensures forall i | 10 <= i < 20 :: MAGIC[i] as int == "BACKUP-V1\n"[i - 10] as int
  {
  }

  ghost function Sealed(c: Crypto, plain: Bytes, password: Bytes, salt: Bytes, nonce: Bytes): Bytes {
    MAGIC + salt + nonce + c.seal(KeyOf(c, password, salt), nonce, plain, MAGIC)
  }

  ghost function Opened(c: Crypto, data: Bytes, password: Bytes): Option<Bytes> {
    if |data| < OVERHEAD || data[..|MAGIC|] != MAGIC then None
    else
      var salt := data[|MAGIC|..|MAGIC| + SALT_LENGTH];
      var nonce := data[|MAGIC| + SALT_LENGTH..|MAGIC| + SALT_LENGTH + NONCE_LENGTH];
      c.open(KeyOf(c, password, salt), nonce, data[|MAGIC| + SALT_LENGTH + NONCE_LENGTH..], MAGIC)
  }

  lemma FrameParts(salt: Bytes, nonce: Bytes, text: Bytes)
    requires |salt| == SALT_LENGTH && |nonce| == NONCE_LENGTH
    ensures var data := MAGIC + salt + nonce + text;
            && data[..|MAGIC|] == MAGIC && data[|MAGIC|..|MAGIC| + SALT_LENGTH] == salt
            && data[|MAGIC| + SALT_LENGTH..|MAGIC| + SALT_LENGTH + NONCE_LENGTH] == nonce
            && data[|MAGIC| + SALT_LENGTH + NONCE_LENGTH..] == text
  {
  }

  lemma PartsOfFrame(data: Bytes)
    requires |data| >= |MAGIC| + SALT_LENGTH + NONCE_LENGTH && data[..|MAGIC|] == MAGIC
    ensures data == MAGIC + data[|MAGIC|..|MAGIC| + SALT_LENGTH]
                    + data[|MAGIC| + SALT_LENGTH..|MAGIC| + SALT_LENGTH + NONCE_LENGTH]
                    + data[|MAGIC| + SALT_LENGTH + NONCE_LENGTH..]
  {
  }

  /** data is a frame around a text that authenticates under the password's key. */
  ghost predicate Authentic(c: Crypto, data: Bytes, password: Bytes, salt: Bytes, nonce: Bytes, text: Bytes, key: Bytes) {
    && |salt| == 16 && |nonce| == 12 && |text| >= 16 && data == MAGIC + salt + nonce + text
    && IsKey(c, password, salt, key) && c.open(key, nonce, text, MAGIC).Some?
  }

  /** An artifact opens exactly when it is such a frame, and opens to its text. */
  lemma OpenedIffAuthentic(c: Crypto, data: Bytes, password: Bytes)
    ensures Opened(c, data, password).Some? <==> exists salt, nonce, text, key :: Authentic(c, data, password, salt, nonce, text, key)
    ensures forall salt, nonce, text, key | Authentic(c, data, password, salt, nonce, text, key) ::
              Opened(c, data, password) == c.open(key, nonce, text, MAGIC)
  {
    forall salt, nonce, text, key | Authentic(c, data, password, salt, nonce, text, key)
      ensures Opened(c, data, password) == c.open(key, nonce, text, MAGIC)
    {
      FrameParts(salt, nonce, text);
      KeyIsDerived(c, password, salt);
    }
    if Opened(c, data, password).Some? {
      PartsOfFrame(data);
      KeyIsDerived(c, password, data[20..36]);
      assert Authentic(c, data, password, data[20..36], data[36..48], data[48..], KeyOf(c, password, data[20..36]));
    }
  }

  method DeriveKey(c: Crypto, password: Bytes, salt: Bytes) returns (key: Bytes)
    ensures key == KeyOf(c, password, salt)
  {
    key := Derive(c.prf, password, salt, KDF_ITERATIONS, KEY_LENGTH);
  }

  method Encrypt(c: Crypto, plain: Bytes, password: Bytes, salt: Bytes, nonce: Bytes) returns (r: Bytes)
    requires |salt| == SALT_LENGTH && |nonce| == NONCE_LENGTH
    ensures r == Sealed(c, plain, password, salt, nonce)
    ensures exists key :: IsKey(c, password, salt, key) && r == MAGIC + salt + nonce + c.seal(key, nonce, plain, MAGIC)
  {
    KeyIsDerived(c, password, salt);
    var key := DeriveKey(c, password, salt);
    r := MAGIC + salt + nonce + c.seal(key, nonce, plain, MAGIC);
  }

  method Decrypt(c: Crypto, data: Bytes, password: Bytes) returns (r: Option<Bytes>)
    ensures r == Opened(c, data, password)
    ensures r.Some? <==> exists salt, nonce, text, key :: Authentic(c, data, password, salt, nonce, text, key)
    ensures forall salt, nonce, text, key | Authentic(c, data, password, salt, nonce, text, key) :: r == c.open(key, nonce, text, MAGIC)
  {
    OpenedIffAuthentic(c, data, password);
    if |data| < OVERHEAD || data[..|MAGIC|] != MAGIC {
      return None;
    }
    var salt := data[|MAGIC|..|MAGIC| + SALT_LENGTH];
    var nonce := data[|MAGIC| + SALT_LENGTH..|MAGIC| + SALT_LENGTH + NONCE_LENGTH];
    var key := DeriveKey(c, password, salt);
    r := c.open(key, nonce, data[|MAGIC| + SALT_LENGTH + NONCE_LENGTH..], MAGIC);
  }

  /** Decryption inverts encryption for every plaintext, password, salt and nonce; the artifact is 64 octets longer. */
  lemma FrameRoundTrip(c: Crypto, plain: Bytes, password: Bytes, salt: Bytes, nonce: Bytes)
    requires AeadLaw(c) && |salt| == SALT_LENGTH && |nonce| == NONCE_LENGTH
    ensures Opened(c, Sealed(c, plain, password, salt, nonce), password) == Some(plain)
    ensures |Sealed(c, plain, password, salt, nonce)| == |plain| + 64
  {
    FrameParts(salt, nonce, c.seal(KeyOf(c, password, salt), nonce, plain, MAGIC));
  }
}
