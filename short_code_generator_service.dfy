/** ShortCodeGeneratorService: the short-code pipeline on its own, returning only
    the code and letting NoSuchAlgorithmException reach the caller. */
module ShortCodeGeneratorService {
  import opened Jdk
  import Protocol
  import ShortCode

  /** generateShortCode(url): the code for `url`; consumes two draws of the
      service's Random, or none when SHA-256 is missing, in which case the exception
      propagates unwrapped. */
  method GenerateShortCode(url: string, provider: Sha256Provider, random: Random) returns (r: Result<string>)
    modifies random
    ensures r == ShortCode.Generate(url, provider, random.raw, old(random.position))
    ensures r.Failure? ==> r.error == NoSuchAlgorithmException("SHA-256")
    ensures random.position == old(random.position) + ShortCode.DrawsUsed(provider)
  {
    var urlWithoutProtocol := Protocol.StripProtocol(url);
    var hashBase :- ShortCode.GenerateHashBase(urlWithoutProtocol, provider);
    var code := CombineHashWithRandomChars(hashBase, random);
    r := Success(code);
  }

  /** combineHashWithRandomChars(hashBase): hashBase padded to six characters
      from CHARSET, one draw per appended character. */
  method CombineHashWithRandomChars(hashBase: string, random: Random) returns (code: string)
    modifies random
    ensures code == ShortCode.Combine(hashBase, random.raw, old(random.position))
    ensures random.position == old(random.position) + ShortCode.RemainingLength(hashBase)
  {
    code := ShortCode.AppendRandomChars(hashBase, random);
  }
}
