/** The two services compute the same code: fed the same URL, the same SHA-256
    provider and generators with the same future draws, they agree. */
module ServiceAgreement {
  import opened Jdk
  import ShortCodeGeneratorService
  import ShortenerService

  method BothServicesAgree(url: string, provider: Sha256Provider, raw: nat -> nat, now: ShortenerService.Instant)
    returns (code: Result<string>, response: Result<ShortenerService.ShortenerResponse>)
    ensures code.Success? <==> response.Success?
    ensures code.Success? ==> response.value.shortCode == code.value && response.value.url == url
    ensures code.Failure? ==> response.error == RuntimeException(ShortenerService.FAILURE_MESSAGE, code.error)
  {
    var generatorRandom := new Random(raw);
    var shortenerRandom := new Random(raw);
    code := ShortCodeGeneratorService.GenerateShortCode(url, provider, generatorRandom);
    response := ShortenerService.ShortenUrl(url, provider, shortenerRandom, now);
  }
}
