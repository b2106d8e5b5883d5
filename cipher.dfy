/**
 * The authenticated cipher behind `encryptBuffer` / `decryptBuffer`
 * (AES-256-GCM in `backend/routes/fileAuth.js`). The model replaces AES-GCM by a small
 * stand-in with the properties the file store relies on: the ciphertext is
 * as long as the plaintext, a 16-byte tag binds key, IV and ciphertext, and
 * decryption with the tag that encryption produced returns the plaintext.
 * Nothing about the secrecy of AES is modelled.
 */
module Cipher {
  import opened Wrappers
  import opened Bytes

  const KeyLength: nat := 32       // 256-bit key, crypto.randomBytes(32)
  const IvLength: nat := 12        // IV_LENGTH
  const AuthTagLength: nat := 16   // AUTH_TAG_LENGTH

  type Key = k: seq<byte> | |k| == KeyLength witness seq(32, _ => 0)
  type Iv = v: seq<byte> | |v| == IvLength witness seq(12, _ => 0)

  /** What `encryptBuffer` returns. */
  datatype Sealed = Sealed(iv: seq<byte>, authTag: seq<byte>, encryptedData: seq<byte>)

  /** The distinct reasons `decryptBuffer` throws. */
  datatype DecryptError = InvalidKey | InvalidIv | InvalidAuthTag | AuthenticationFailed

  function KeystreamByte(key: Key, iv: Iv, j: nat): byte
  {
    (key[j % KeyLength] + iv[j % IvLength] + j) % 256
  }

  function Encipher(key: Key, iv: Iv, p: seq<byte>): (c: seq<byte>)
    ensures |c| == |p|
  {
    seq(|p|, j requires 0 <= j < |p| => (p[j] + KeystreamByte(key, iv, j)) % 256)
  }

  function Decipher(key: Key, iv: Iv, c: seq<byte>): (p: seq<byte>)
    ensures |p| == |c|
  {
    seq(|c|, j requires 0 <= j < |c| => (c[j] - KeystreamByte(key, iv, j)) % 256)
  }

  function Checksum(c: seq<byte>): byte
  {
    if c == [] then 0 else (Checksum(c[..|c| - 1]) * 31 + c[|c| - 1] + 1) % 256
  }

  /** The authentication tag over key, IV and ciphertext. */
  function Tag(key: Key, iv: Iv, c: seq<byte>): (t: seq<byte>)
    ensures |t| == AuthTagLength
  {
    var sum := Checksum(c);
    seq(AuthTagLength, i requires 0 <= i < AuthTagLength => (key[i] + key[i + 16] + iv[i % IvLength] + sum) % 256)
  }

  /** `encryptBuffer(buffer, key)` with the IV it draws passed in. */
  function EncryptBuffer(p: seq<byte>, key: Key, iv: Iv): (s: Sealed)
    ensures s.iv == iv && |s.authTag| == AuthTagLength
    ensures |s.encryptedData| == |p|
  {
    var c := Encipher(key, iv, p);
    Sealed(iv, Tag(key, iv, c), c)
  }

  /**
   * `decryptBuffer(encrypted, key, iv, authTag)`: the key, IV and tag
   * lengths are checked, in that order, before the cipher is used; then the
   * tag must match.
   */
  function DecryptBuffer(c: seq<byte>, key: seq<byte>, iv: seq<byte>, authTag: seq<byte>): (r: Result<seq<byte>, DecryptError>)
    ensures |key| != KeyLength ==> r == Err(InvalidKey)
    ensures |key| == KeyLength && |iv| != IvLength ==> r == Err(InvalidIv)
    ensures |key| == KeyLength && |iv| == IvLength && |authTag| != AuthTagLength ==> r == Err(InvalidAuthTag)
    ensures r.Ok? ==> |key| == KeyLength && |iv| == IvLength && |authTag| == AuthTagLength
    ensures r.Ok? ==> |r.value| == |c|
  {
    if |key| != KeyLength then Err(InvalidKey)
    else if |iv| != IvLength then Err(InvalidIv)
    else if |authTag| != AuthTagLength then Err(InvalidAuthTag)
    else if authTag != Tag(key, iv, c) then Err(AuthenticationFailed)
    else Ok(Decipher(key, iv, c))
  }

  /** Decrypting what `EncryptBuffer` sealed, with its own key, IV and tag, gives the plaintext back. */
  lemma DecryptEncrypt(p: seq<byte>, key: Key, iv: Iv)
    ensures var s := EncryptBuffer(p, key, iv);
            DecryptBuffer(s.encryptedData, key, s.iv, s.authTag) == Ok(p)
  {
    var c := Encipher(key, iv, p);
    var d := Decipher(key, iv, c);
    forall j | 0 <= j < |p| ensures d[j] == p[j] {
      var k := KeystreamByte(key, iv, j);
      assert c[j] == (p[j] as int + k) % 256;
      assert d[j] == (c[j] as int - k) % 256;
    }
    assert d == p;
  }

  /**
   * A failed length check decides the outcome before the ciphertext is
   * looked at: any two ciphertexts give the same error.
   */
  lemma ValidationPrecedesCipher(c1: seq<byte>, c2: seq<byte>, key: seq<byte>, iv: seq<byte>, authTag: seq<byte>)
    requires |key| != KeyLength || |iv| != IvLength || |authTag| != AuthTagLength
    ensures DecryptBuffer(c1, key, iv, authTag) == DecryptBuffer(c2, key, iv, authTag)
    ensures DecryptBuffer(c1, key, iv, authTag).Err?
    ensures DecryptBuffer(c1, key, iv, authTag) != Err(AuthenticationFailed)
  {
  }

  /** A tag other than the one that binds key, IV and ciphertext is rejected. */
  lemma WrongTagRejected(c: seq<byte>, key: Key, iv: Iv, authTag: seq<byte>)
    requires |authTag| == AuthTagLength && authTag != Tag(key, iv, c)
    ensures DecryptBuffer(c, key, iv, authTag) == Err(AuthenticationFailed)
  {
  }
}
