/** Reading a public or secret key typed at login. NIP-19 bech32 decoding is
    passed in as a function; only the prefix test and the hex test are
    modelled. */
module Keys {
  import opened Wrappers
  import opened Strings

  /** The result of `nip19.decode`: its type tag and payload; `None` when it
      throws. */
  datatype Decoded = Decoded(typ: string, data: string)

  predicate IsLowerHexChar(c: char) {
    ('0' <= c <= '9') || ('a' <= c <= 'f')
  }

  /** `/^[a-f0-9]{64}$/`. */
  predicate IsHex32Bytes(s: string) {
    |s| == 64 && forall k :: 0 <= k < |s| ==> IsLowerHexChar(s[k])
  }

  /** `parsePubkey`: an `npub1...` string is decoded; anything else is
      returned unchanged when it is 64 lower-case hex characters. */
  function ParsePubkey(s: string, decode: string -> Option<Decoded>): (r: Option<string>)
    ensures !StartsWith(s, "npub1") ==> (r == Some(s) <==> IsHex32Bytes(s))
    ensures !StartsWith(s, "npub1") ==> (r.None? <==> !IsHex32Bytes(s))
    ensures StartsWith(s, "npub1") ==>
              r == (if decode(s).Some? && decode(s).value.typ == "npub" then Some(decode(s).value.data) else None)
  {
    if StartsWith(s, "npub1") then
      match decode(s)
      case Some(Decoded(typ, data)) => if typ == "npub" then Some(data) else None
      case None => None
    else if IsHex32Bytes(s) then Some(s)
    else None
  }

  /** `parseSeckey`: only an `nsec1...` string is decoded, to the secret key
      bytes (here the payload of the decoder). */
  function ParseSeckey(s: string, decode: string -> Option<Decoded>): (r: Option<string>)
    ensures !StartsWith(s, "nsec1") ==> r.None?
    ensures r.Some? ==> decode(s) == Some(Decoded("nsec", r.value))
    ensures StartsWith(s, "nsec1") && decode(s).Some? && decode(s).value.typ == "nsec" ==>
              r == Some(decode(s).value.data)
  {
    if !StartsWith(s, "nsec1") then None
    else
      match decode(s)
      case Some(Decoded(typ, data)) => if typ == "nsec" then Some(data) else None
      case None => None
  }

  /** A hex key is never mistaken for a bech32 one: it cannot start with
      `npub1`, whose `n`, `p` and `u` are not hex digits. */
  lemma HexKeyIsNotNpub(s: string)
    requires IsHex32Bytes(s)
    ensures !StartsWith(s, "npub1")
  {
    assert !IsLowerHexChar(s[0]) || s[0] != 'n';
  }
}
