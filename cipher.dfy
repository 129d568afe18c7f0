/** The field cipher that keeps exam results, photo file names and photo MIME
    types unreadable at rest (src/services/cryptoService.ts).

    The real construction is AES-256-CBC under a SHA-256-derived key with a fresh
    random IV per call. It is not modelled: `Encrypt` and `Decrypt` are a
    position-dependent additive keystream over code points that keeps what the
    services rely on, namely that a token carries its IV, that decryption under the
    same key inverts encryption, and that decryption can fail on a token it did not
    produce. */
module Cipher {
  import opened Wrappers

  /** A ciphertext token: the IV it was made with and the enciphered code points.
      The source writes this as `hex(iv) + ':' + hex(ciphertext)`. */
  datatype Token = Token(iv: nat, body: seq<int>)

  /** Keystream value for position `i` under `key` and `iv`. */
  function Pad(key: int, iv: nat, i: nat): int {
    key + iv * 257 + i
  }

  /** The integers that are Unicode scalar values, i.e. valid `char`s. */
  predicate IsScalar(n: int) {
    0 <= n < 0xD800 || 0xE000 <= n < 0x11_0000
  }

  /** Enciphers `text`, whose first character sits at keystream position `from`. */
  function Mask(key: int, iv: nat, text: string, from: nat): (body: seq<int>)
    ensures |body| == |text|
  {
    if text == [] then [] else [text[0] as int + Pad(key, iv, from)] + Mask(key, iv, text[1..], from + 1)
  }

  /** Deciphers `body` from keystream position `from`; `None` when some position
      does not decipher to a character. */
  function Unmask(key: int, iv: nat, body: seq<int>, from: nat): (r: Option<string>)
    ensures r.Some? ==> |r.value| == |body|
  {
    if body == [] then
      Some([])
    else
      var c := body[0] - Pad(key, iv, from);
      if !IsScalar(c) then None
      else match Unmask(key, iv, body[1..], from + 1)
        case None => None
        case Some(rest) => Some([c as char] + rest)
  }

  /** Encrypts `text` under `key` with initialisation vector `iv`. The body has
      one entry per character; that length fact holds of this stand-in only. */
  function Encrypt(key: int, iv: nat, text: string): (t: Token)
    ensures t.iv == iv && |t.body| == |text|
  {
    Token(iv, Mask(key, iv, text, 0))
  }

  /** Decrypts `t` under `key`; `None` stands for the exception `decrypt` throws
      on a token that does not decipher. What it returns has one character per
      body entry (a fact of this stand-in only); RoundTrip and
      OnlyEncryptionsDecrypt pin it down as the inverse of Encrypt. */
  function Decrypt(key: int, t: Token): (r: Option<string>)
    ensures r.Some? ==> |r.value| == |t.body|
  {
    Unmask(key, t.iv, t.body, 0)
  }

  lemma {:induction false} UnmaskMask(key: int, iv: nat, text: string, from: nat)
    ensures Unmask(key, iv, Mask(key, iv, text, from), from) == Some(text)
    decreases |text|
  {
    if text != [] {
      UnmaskMask(key, iv, text[1..], from + 1);
      assert [text[0]] + text[1..] == text;
    }
  }

  lemma {:induction false} MaskUnmask(key: int, iv: nat, body: seq<int>, from: nat)
    requires Unmask(key, iv, body, from).Some?
    ensures Mask(key, iv, Unmask(key, iv, body, from).value, from) == body
    decreases |body|
  {
    if body != [] {
      MaskUnmask(key, iv, body[1..], from + 1);
      assert [body[0]] + body[1..] == body;
    }
  }

  /** Decrypting what was encrypted under the same key gives the plaintext back,
      whatever the IV. */
  lemma RoundTrip(key: int, iv: nat, text: string)
    ensures Decrypt(key, Encrypt(key, iv, text)) == Some(text)
  {
    UnmaskMask(key, iv, text, 0);
  }

  /** Decryption succeeds only on tokens that are encryptions, under the same key,
      of what it returns. This holds of the stand-in only. */
  lemma OnlyEncryptionsDecrypt(key: int, t: Token)
    requires Decrypt(key, t).Some?
    ensures Encrypt(key, t.iv, Decrypt(key, t).value) == t
  {
    MaskUnmask(key, t.iv, t.body, 0);
  }

  /** Two encryptions with different IVs never produce the same token, even of
      the same plaintext. */
  lemma DistinctIvsDistinctTokens(key: int, iv1: nat, iv2: nat, a: string, b: string)
    requires iv1 != iv2
    ensures Encrypt(key, iv1, a) != Encrypt(key, iv2, b)
  {
  }
}
