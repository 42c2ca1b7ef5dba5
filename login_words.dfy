/**
 * The login sentences both clients send: the name and password in clear, and
 * the legacy answer to a router's MD5 challenge. MD5 is a parameter.
 */
module LoginWords {
  import opened Wrappers
  import opened Bytes
  import opened Text
  import Hex
  import Utf8

  /** The first login sentence, carrying the password in clear. */
  function LoginSentence(user: string, password: string): seq<string> {
    ["/login", "=name=" + user, "=password=" + password]
  }

  /**
   * The legacy login answer to a challenge: '=response=00' followed by the
   * lower-case hex MD5 digest of a zero character, the password (UTF-8) and the
   * challenge bytes; None where unhexlify rejects the challenge.
   */
  function ChallengeResponse(user: string, password: string, token: string, md5: seq<Byte> -> seq<Byte>): (r: Option<seq<string>>)
    ensures r.None? <==> Hex.Unhexlify(token).None?
    ensures r.Some? ==>
      && |r.value| == 3 && r.value[0] == "/login" && r.value[1] == "=name=" + user
      && r.value[2] == "=response=00" + Hex.Hexlify(md5(Utf8.Encode("\0" + password) + Hex.Unhexlify(token).value))
      && StartsWith(r.value[2], "=response=00")
      && Hex.Unhexlify(r.value[2][12..]) == Some(md5(Utf8.Encode("\0" + password) + Hex.Unhexlify(token).value))
  {
    match Hex.Unhexlify(token)
    case None => None
    case Some(challenge) =>
      var digest := md5(Utf8.Encode("\0" + password) + challenge);
      var word := "=response=00" + Hex.Hexlify(digest);
      assert word[..12] == "=response=00" && word[12..] == Hex.Hexlify(digest);
      Hex.UnhexlifyHexlify(digest);
      Some(["/login", "=name=" + user, word])
  }
}
