/**
 * The envelope format of `src/core/encryption.ts`: `iv:authTag:ciphertext`
 * as three lower-case hex fields, and the master-key load-or-create rule.
 * AES-256-GCM itself is an abstract `Aead` pair; the round-trip property
 * the lemmas take as a hypothesis is `RoundTrips`.
 */
module Encryption {
  import opened Wrappers
  import opened Text

  type byte = b: int | 0 <= b < 256
  type Bytes = seq<byte>

  /** AES-256 key size in bytes. */
  const KeyLength: nat := 32
  /** The GCM IV size `encrypt` draws. */
  const IvLength: nat := 12
  /** The lower-case hex digit of a nibble, as `Buffer.toString('hex')` writes it. */
  function HexDigit(n: int): (c: char)
    requires 0 <= n < 16
    ensures IsHexDigit(c)
  {
    if n < 10 then ('0' as int + n) as char else ('a' as int + n - 10) as char
  }

  predicate IsHexDigit(c: char)
  {
    '0' <= c <= '9' || 'a' <= c <= 'f'
  }

  /** Two lower-case hex digits, high nibble first. */
  function HexByte(b: byte): string
  {
    [HexDigit(b / 16), HexDigit(b % 16)]
  }

  /** `Buffer.toString('hex')`. */
  function Hex(bs: Bytes): (h: string)
    ensures |h| == 2 * |bs|
    ensures forall i :: 0 <= i < |h| ==> IsHexDigit(h[i])
  {
    if |bs| == 0 then "" else HexByte(bs[0]) + Hex(bs[1..])
  }

  /** The value of one hex digit of either case. */
  function HexValue(c: char): (v: Option<int>)
    ensures v.Some? ==> 0 <= v.value < 16
  {
    if '0' <= c <= '9' then Some(c as int - '0' as int)
    else if 'a' <= c <= 'f' then Some(c as int - 'a' as int + 10)
    else if 'A' <= c <= 'F' then Some(c as int - 'A' as int + 10)
    else None
  }

  /**
   * Node's hex decoding, as `Buffer.from(s, 'hex')` and
   * `decipher.update(s, 'hex')` do it for all three envelope fields. It is
   * lenient: it decodes digit pairs up to the first pair that is not two
   * hex digits and drops an odd last digit.
   */
  function HexDecode(s: string): Bytes
  {
    if |s| < 2 then []
    else match (HexValue(s[0]), HexValue(s[1]))
      case (Some(hi), Some(lo)) => [hi * 16 + lo] + HexDecode(s[2..])
      case _ => []
  }

  /** Decoding the hex text of some bytes gives those bytes back. */
  lemma {:induction false} HexRoundTrip(bs: Bytes)
    ensures HexDecode(Hex(bs)) == bs
  {
    if |bs| > 0 {
      var h := Hex(bs);
      var b := bs[0];
      assert h == HexByte(b) + Hex(bs[1..]);
      assert HexValue(h[0]) == Some(b / 16);
      assert HexValue(h[1]) == Some(b % 16);
      assert h[2..] == Hex(bs[1..]);
      HexRoundTrip(bs[1..]);
    }
  }

  /** The output of authenticated encryption: tag and ciphertext bytes. */
  datatype Sealed = Sealed(tag: Bytes, body: Bytes)

  /**
   * An authenticated cipher: `seal(key, iv, text)` and
   * `open(key, iv, tag, body)`. Either fails (`None`) where Node's crypto
   * throws: a key or IV of the wrong size, a tag that does not verify.
   */
  datatype Aead = Aead(
    seal: (Bytes, Bytes, string) -> Option<Sealed>,
    open: (Bytes, Bytes, Bytes, Bytes) -> Option<string>)

  /** With a 32-byte key and a 12-byte IV, sealing succeeds and opening undoes it. */
  ghost predicate RoundTrips(cipher: Aead)
  {
    forall key: Bytes, iv: Bytes, text: string ::
      |key| == KeyLength && |iv| == IvLength ==>
        match cipher.seal(key, iv, text)
        case None => false
        case Some(s) => cipher.open(key, iv, s.tag, s.body) == Some(text)
  }

  /** Why `decrypt` throws: the field count is wrong, or the cipher rejects the fields. */
  datatype CipherError = MalformedEnvelope | CipherFailed

  /**
   * `encrypt(text)` with the IV `iv` drawn by `randomBytes(12)`: the
   * envelope holds exactly three `:`-separated fields, the first being the
   * IV's 24 hex digits, then the tag's and the ciphertext's hex.
   */
  function Encrypt(cipher: Aead, key: Bytes, iv: Bytes, text: string): (r: Result<string, CipherError>)
    requires |iv| == IvLength
    ensures r.Ok? <==> cipher.seal(key, iv, text).Some?
    ensures r.Ok? ==>
              var fields := Split(r.value, ':');
              var s := cipher.seal(key, iv, text).value;
              && |fields| == 3
              && fields[0] == Hex(iv) && |fields[0]| == 2 * IvLength
              && fields[1] == Hex(s.tag)
              && fields[2] == Hex(s.body)
  {
    match cipher.seal(key, iv, text)
    case None => Err(CipherFailed)
    case Some(s) =>
      var fields := [Hex(iv), Hex(s.tag), Hex(s.body)];
      var envelope := Hex(iv) + ":" + Hex(s.tag) + ":" + Hex(s.body);
      assert Join(fields[2..], ':') == Hex(s.body);
      assert Join(fields[1..], ':') == Hex(s.tag) + ":" + Hex(s.body);
      assert Join(fields, ':') == envelope;
      SplitJoin(fields, ':');
      Ok(envelope)
  }

  /**
   * `decrypt(envelope)`: split on `:`, insist on exactly three fields,
   * decode them and open. Rejected as malformed exactly when the envelope
   * does not hold exactly two `:`. All three fields are decoded by the
   * same lenient hex decoder; the ciphertext field alone is checked first
   * for parity, since `decipher.update(field, 'hex')` throws on an odd
   * number of digits, so an odd-length ciphertext field fails.
   */
  function Decrypt(cipher: Aead, key: Bytes, envelope: string): (r: Result<string, CipherError>)
    ensures r == Err(MalformedEnvelope) <==> multiset(envelope)[':'] != 2
    ensures var fields := Split(envelope, ':');
            |fields| == 3 && |fields[2]| % 2 == 1 ==> r == Err(CipherFailed)
    ensures r.Ok? ==>
              var fields := Split(envelope, ':');
              && |fields| == 3 && |fields[2]| % 2 == 0
              && cipher.open(key, HexDecode(fields[0]), HexDecode(fields[1]), HexDecode(fields[2])) == Some(r.value)
    ensures var fields := Split(envelope, ':');
            |fields| == 3 && |fields[2]| % 2 == 0 &&
            cipher.open(key, HexDecode(fields[0]), HexDecode(fields[1]), HexDecode(fields[2])).Some? ==>
              r == Ok(cipher.open(key, HexDecode(fields[0]), HexDecode(fields[1]), HexDecode(fields[2])).value)
  {
    var fields := Split(envelope, ':');
    SplitCount(envelope, ':');
    if |fields| != 3 then Err(MalformedEnvelope)
    else if |fields[2]| % 2 == 1 then Err(CipherFailed)
    else
      match cipher.open(key, HexDecode(fields[0]), HexDecode(fields[1]), HexDecode(fields[2]))
      case None => Err(CipherFailed)
      case Some(text) => Ok(text)
  }

  /** A stray digit appended to a genuine envelope makes decryption fail, however sound the cipher. */
  lemma OddCiphertextRejected(cipher: Aead, key: Bytes, iv: Bytes, text: string)
    requires |iv| == IvLength && cipher.seal(key, iv, text).Some?
    ensures Decrypt(cipher, key, Encrypt(cipher, key, iv, text).value + "0") == Err(CipherFailed)
  {
    var s := cipher.seal(key, iv, text).value;
    var fields := [Hex(iv), Hex(s.tag), Hex(s.body) + "0"];
    var envelope := Encrypt(cipher, key, iv, text).value + "0";
    assert ':' !in Hex(s.body) + "0" by {
      assert forall i :: 0 <= i < |Hex(s.body)| ==> IsHexDigit(Hex(s.body)[i]);
    }
    assert Join(fields[2..], ':') == Hex(s.body) + "0";
    assert Join(fields[1..], ':') == Hex(s.tag) + ":" + (Hex(s.body) + "0");
    assert Join(fields, ':') == envelope;
    SplitJoin(fields, ':');
    HexLengthParity(s.body, "0");
  }

  /** Hex text never contains the field separator. */
  lemma HexHasNoColon(bs: Bytes)
    ensures ':' !in Hex(bs)
  {
    assert forall i :: 0 <= i < |Hex(bs)| ==> IsHexDigit(Hex(bs)[i]);
  }

  /** `Buffer.from(hex)` stops at the first pair that is not two hex digits, dropping the rest. */
  lemma {:induction false} HexDecodeStopsAtJunk(bs: Bytes, junk: string)
    requires |junk| >= 2 && HexValue(junk[0]).None?
    ensures HexDecode(Hex(bs) + junk) == bs
    decreases |bs|
  {
    var h := Hex(bs) + junk;
    if |bs| == 0 {
      assert h == junk;
    } else {
      assert h == HexByte(bs[0]) + (Hex(bs[1..]) + junk);
      assert HexValue(h[0]) == Some(bs[0] / 16);
      assert HexValue(h[1]) == Some(bs[0] % 16);
      assert h[2..] == Hex(bs[1..]) + junk;
      HexDecodeStopsAtJunk(bs[1..], junk);
    }
  }

  /**
   * The IV field is decoded leniently: trailing junk after its hex digits
   * (here `zz`) is ignored, so the envelope decrypts exactly as without it.
   */
  lemma LenientIvField(cipher: Aead, key: Bytes, iv: Bytes, tag: Bytes, body: Bytes)
    ensures Decrypt(cipher, key, Hex(iv) + "zz" + ":" + Hex(tag) + ":" + Hex(body))
         == Decrypt(cipher, key, Hex(iv) + ":" + Hex(tag) + ":" + Hex(body))
  {
    HexHasNoColon(iv);
    HexHasNoColon(tag);
    HexHasNoColon(body);
    assert ':' !in Hex(iv) + "zz";
    SplitThree(Hex(iv) + "zz", Hex(tag), Hex(body), ':');
    SplitThree(Hex(iv), Hex(tag), Hex(body), ':');
    HexLengthParity(body, "");
    HexDecodeStopsAtJunk(iv, "zz");
    HexRoundTrip(iv);
  }

  /** Hex text has an even number of digits, so appending `extra` gives the parity of `|extra|`. */
  lemma HexLengthParity(bs: Bytes, extra: string)
    ensures |Hex(bs)| % 2 == 0
    ensures |Hex(bs) + extra| % 2 == |extra| % 2
  {
    var n := |bs|;
    assert |Hex(bs) + extra| == 2 * n + |extra|;
  }

  /** Under the cipher's round trip, decrypting what `encrypt` produced gives the text back. */
  lemma EncryptDecrypt(cipher: Aead, key: Bytes, iv: Bytes, text: string)
    requires RoundTrips(cipher)
    requires |key| == KeyLength && |iv| == IvLength
    ensures Encrypt(cipher, key, iv, text).Ok?
    ensures Decrypt(cipher, key, Encrypt(cipher, key, iv, text).value) == Ok(text)
  {
    var s := cipher.seal(key, iv, text).value;
    var envelope := Encrypt(cipher, key, iv, text).value;
    var fields := Split(envelope, ':');
    assert fields[0] == Hex(iv) && fields[1] == Hex(s.tag) && fields[2] == Hex(s.body);
    HexRoundTrip(iv);
    HexRoundTrip(s.tag);
    HexRoundTrip(s.body);
    assert cipher.open(key, HexDecode(fields[0]), HexDecode(fields[1]), HexDecode(fields[2])) == Some(text);
    HexLengthParity(s.body, "");
    assert |fields| == 3;
  }

  /** Where the master key lives under the home directory `home`. */
  function KeyFilePath(home: string): string
  {
    home + "/.anyaitoken/.key"
  }

  /**
   * `getOrGenerateKey` over a file map: an existing key file is read and
   * left alone; otherwise the 32 random bytes `drawn` become the key and
   * are written to the key file. Afterwards the key file holds the
   * returned key and no other file has changed.
   */
  function GetOrGenerateKey(files: map<string, Bytes>, home: string, drawn: Bytes): (r: (Bytes, map<string, Bytes>))
    requires |drawn| == KeyLength
    ensures KeyFilePath(home) in r.1 && r.1[KeyFilePath(home)] == r.0
    ensures r.1 - {KeyFilePath(home)} == files - {KeyFilePath(home)}
    ensures KeyFilePath(home) in files ==> r.1 == files
    ensures KeyFilePath(home) !in files ==> r.0 == drawn && |r.0| == KeyLength
  {
    var path := KeyFilePath(home);
    if path in files then (files[path], files)
    else (drawn, files[path := drawn])
  }

  /** Once a key exists, loading again returns it unchanged, whatever randomness is drawn. */
  lemma KeyIsStable(files: map<string, Bytes>, home: string, drawn1: Bytes, drawn2: Bytes)
    requires |drawn1| == KeyLength && |drawn2| == KeyLength
    ensures var (key, files') := GetOrGenerateKey(files, home, drawn1);
            GetOrGenerateKey(files', home, drawn2) == (key, files')
  {
  }
}
