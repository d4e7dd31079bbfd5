/** SSH public-key normalisation and fingerprinting: `generate_fingerprint`
    (src/key.rs) and its older twin `gen_ssh_fingerprint` (src/main.rs).
    SHA-256 and base64 decoding come from foreign crates and are parameters;
    base64 encoding is modelled concretely so that the two twins can be
    compared. */
module Fingerprint {
  import opened Wrappers
  import Text
  import Base64

  type Byte = Base64.Byte

  /** The foreign functions: SHA-256 and the standard base64 decoder. Both
      twins decode with the standard alphabet and canonical padding, so one
      decoder serves both. */
  datatype Crypto = Crypto(sha256: seq<Byte> -> seq<Byte>, decode: string -> Option<seq<Byte>>)

  /** The key types accepted, compared exactly. */
  const Algorithms: set<string> := {"ssh-ed25519", "ssh-rsa", "ecdsa-sha2-nistp256"}

  const Prefix: string := "SHA256:"

  const WrongFormat: string := "Wrong SSH key format."

  /** The conditions under which a key is fingerprinted rather than rejected. */
  predicate Accepted(c: Crypto, key: string)
  {
    var t := Text.Split(key, ' ');
    |t| >= 2 && t[0] in Algorithms && c.decode(t[1]).Some?
  }

  /** The digest of the key blob of an accepted key. */
  function Digest(c: Crypto, key: string): seq<Byte>
    requires Accepted(c, key)
  {
    c.sha256(c.decode(Text.Split(key, ' ')[1]).value)
  }

  /** `generate_fingerprint`: `SHA256:` and the unpadded base64 of the digest
      of the decoded second token. */
  function Fingerprint(c: Crypto, key: string): (r: Result<string, string>)
    ensures r.Ok? <==> Accepted(c, key)
    ensures r.Err? ==> r.error == WrongFormat
    ensures r.Ok? ==> Text.IsPrefix(Prefix, r.value)
    ensures r.Ok? ==> Base64.DecodeNoPad(r.value[|Prefix|..]) == Some(Digest(c, key))
    ensures r.Ok? ==> '=' !in r.value
  {
    var t := Text.Split(key, ' ');
    if |t| < 2 then Err(WrongFormat)
    else if t[0] in Algorithms then
      match c.decode(t[1])
      case Some(blob) =>
        var digest := c.sha256(blob);
        var fp := Prefix + Base64.EncodeNoPad(digest);
        Base64.DecodeEncode(digest);
        assert fp[|Prefix|..] == Base64.EncodeNoPad(digest);
        Ok(fp)
      case None => Err(WrongFormat)
    else Err(WrongFormat)
  }

  /** `gen_ssh_fingerprint`: the same, but with the padded encoder followed
      by stripping every trailing `=`. */
  function LegacyFingerprint(c: Crypto, key: string): (r: Result<string, string>)
    ensures r.Ok? <==> Accepted(c, key)
    ensures r.Err? ==> r.error == WrongFormat
  {
    var t := Text.Split(key, ' ');
    if |t| < 2 then Err(WrongFormat)
    else if t[0] in Algorithms then
      match c.decode(t[1])
      case Some(blob) => Ok(Text.TrimEndChar(Prefix + Base64.EncodePadded(c.sha256(blob)), '='))
      case None => Err(WrongFormat)
    else Err(WrongFormat)
  }

  /** Trimming the padding off the padded encoding yields exactly the
      unpadded encoding: the two fingerprint functions agree on every key. */
  lemma FingerprintVariantsAgree(c: Crypto, key: string)
    ensures Fingerprint(c, key) == LegacyFingerprint(c, key)
  {
    if Accepted(c, key) {
      var digest := Digest(c, key);
      var p := Prefix + Base64.EncodeNoPad(digest);
      assert !Text.EndsWithChar(p, '=') by {
        if |Base64.EncodeNoPad(digest)| > 0 {
          assert p[|p| - 1] == Base64.EncodeNoPad(digest)[|Base64.EncodeNoPad(digest)| - 1];
        } else {
          assert p == Prefix;
        }
      }
      Base64.TrimmedPaddedIsNoPad(Prefix, digest);
    }
  }

  /** The key as stored: the first two `' '`-separated tokens joined by one
      space (what add and update do after checking there are two tokens). */
  function NormalizeKey(key: string): (r: string)
    requires |Text.Split(key, ' ')| >= 2
    ensures Text.Split(r, ' ') == Text.Split(key, ' ')[..2]
  {
    var t := Text.Split(key, ' ');
    Text.SplitJoin(t[..2], ' ');
    Text.Join(t[..2], ' ')
  }

  /** Normalising twice is normalising once. */
  lemma NormalizeIdempotent(key: string)
    requires |Text.Split(key, ' ')| >= 2
    ensures |Text.Split(NormalizeKey(key), ' ')| == 2
    ensures NormalizeKey(NormalizeKey(key)) == NormalizeKey(key)
  {
    var r := NormalizeKey(key);
    var t := Text.Split(r, ' ');
    assert t[..2] == t;
    Text.SplitJoin(t, ' ');
  }

  /** The fingerprint reads only the first two tokens, so normalising a key
      does not change it. */
  lemma FingerprintOfNormalized(c: Crypto, key: string)
    requires |Text.Split(key, ' ')| >= 2
    ensures Fingerprint(c, NormalizeKey(key)) == Fingerprint(c, key)
  {
  }

  /** The token list of a key written with two spaces after its type. */
  lemma SplitDoubleSpace()
    ensures Text.Split("ssh-rsa  AAAA", ' ') == ["ssh-rsa", "", "AAAA"]
  {
    var parts := ["ssh-rsa", "", "AAAA"];
    assert Text.Join(parts[2..], ' ') == "AAAA";
    assert Text.Join(parts[1..], ' ') == " AAAA";
    assert Text.Join(parts, ' ') == "ssh-rsa  AAAA";
    assert ' ' !in parts[0] && ' ' !in parts[1] && ' ' !in parts[2];
    Text.SplitJoin(parts, ' ');
  }

  /** Two spaces after the key type make the second token empty: the blob
      is dropped and only `"<type> "` is kept. */
  lemma DoubleSpaceKey()
    ensures |Text.Split("ssh-rsa  AAAA", ' ')| >= 2
    ensures NormalizeKey("ssh-rsa  AAAA") == "ssh-rsa "
  {
    SplitDoubleSpace();
    var parts := ["ssh-rsa", "", "AAAA"];
    assert parts[..2] == ["ssh-rsa", ""];
    assert Text.Join(["ssh-rsa", ""], ' ') == "ssh-rsa ";
  }
}
