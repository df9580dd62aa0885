/** ShortenerService: the same pipeline, wrapped into a response carrying the
    original URL and one timestamp for both creation and update. */
module ShortenerService {
  import opened Jdk
  import Protocol
  import ShortCode

  /** An instant of the system clock; Instant.now() is passed in. */
  type Instant = int

  /** The response DTO: the URL as given, its code, and the two timestamps. */
  datatype ShortenerResponse = ShortenerResponse(url: string, shortCode: string, createdAt: Instant, updatedAt: Instant)

  const FAILURE_MESSAGE: string := "Failed to generate short code"

  /** shortenUrl(url): a response holding the unstripped URL, the code
      generated for it and `now` as both timestamps. A missing SHA-256 provider
      surfaces as a RuntimeException wrapping NoSuchAlgorithmException, before
      any draw and without a response. */
  method ShortenUrl(url: string, provider: Sha256Provider, random: Random, now: Instant) returns (r: Result<ShortenerResponse>)
    modifies random
    ensures r.Success? <==> provider.Installed?
    ensures r.Success? ==>
      r.value == ShortenerResponse(url, ShortCode.Generate(url, provider, random.raw, old(random.position)).value, now, now)
    ensures r.Failure? ==> r.error == RuntimeException(FAILURE_MESSAGE, NoSuchAlgorithmException("SHA-256"))
    ensures random.position == old(random.position) + ShortCode.DrawsUsed(provider)
  {
    var urlWithoutProtocol := Protocol.StripProtocol(url);
    var hashBase := ShortCode.GenerateHashBase(urlWithoutProtocol, provider);
    if hashBase.Failure? {
      return Failure(RuntimeException(FAILURE_MESSAGE, hashBase.error));
    }
    var shortCode := GenerateShortCode(hashBase.value, random);
    r := Success(ShortenerResponse(url, shortCode, now, now));
  }

  /** generateShortCode(hashBase): hashBase padded to six characters from
      CHARSET, one draw per appended character. */
  method GenerateShortCode(hashBase: string, random: Random) returns (code: string)
    modifies random
    ensures code == ShortCode.Combine(hashBase, random.raw, old(random.position))
    ensures random.position == old(random.position) + ShortCode.RemainingLength(hashBase)
  {
    code := ShortCode.AppendRandomChars(hashBase, random);
  }
}
