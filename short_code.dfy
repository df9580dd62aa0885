/** The short-code pipeline that ShortenerService and ShortCodeGeneratorService
    each carry a private copy of: strip the protocol, take a 4-character prefix
    of the base64url SHA-256 digest, then pad to 6 characters with characters
    drawn at random from CHARSET. */
module ShortCode {
  import opened Jdk
  import Base64Url
  import Protocol

  /** The 62 characters the random padding is drawn from. */
  const CHARSET: string := "ABCDEFGHIJKLMNOPQRSTUVWXYZabcdefghijklmnopqrstuvwxyz0123456789"

  const SHORT_CODE_LENGTH: int := 6

  /** How many characters of the encoded digest are kept. */
  const HASH_PREFIX_LENGTH: nat := 4

  lemma CharsetLength()
    ensures |CHARSET| == 62
  {
  }

  /** CHARSET is the base64url alphabet without its last two characters '-' and '_'. */
  lemma CharsetInAlphabet()
    ensures CHARSET == Base64Url.ALPHABET[..62]
    ensures forall v | 0 <= v < 62 :: CHARSET[v] == Base64Url.CharOf(v)
  {
    assert CHARSET == Base64Url.UPPER + Base64Url.LOWER + Base64Url.DIGITS;
    assert Base64Url.ALPHABET == CHARSET + "-_";
    Base64Url.AlphabetTable();
  }

  /** CHARSET holds exactly the ASCII letters and digits. */
  lemma CharsetIsAlphanumeric()
    ensures forall c :: c in CHARSET <==> Base64Url.IsAlphanumeric(c)
  {
    CharsetInAlphabet();
    forall c
      ensures c in CHARSET <==> Base64Url.IsAlphanumeric(c)
    {
      if c in CHARSET {
        var v :| 0 <= v < 62 && CHARSET[v] == c;
        Base64Url.ValueOfCharOf(v);
      }
      if Base64Url.IsAlphanumeric(c) {
        var v := Base64Url.ValueOf(c);
        assert CHARSET[v] == c;
      }
    }
  }

  function Min(a: int, b: int): (m: int) {
    if a <= b then a else b
  }

  /** generateHashBase: the first min(4, length) characters of the unpadded
      base64url encoding of SHA-256(input). A 32-byte digest encodes to 43
      characters, so the prefix always has 4, all from the base64url alphabet, and
      they are determined by the digest's first three bytes. A missing SHA-256
      provider throws NoSuchAlgorithmException. */
  function GenerateHashBase(input: string, provider: Sha256Provider): (r: Result<string>)
    ensures r.Failure? <==> provider.Missing?
    ensures r.Failure? ==> r.error == NoSuchAlgorithmException("SHA-256")
    ensures r.Success? ==>
      var d := provider.digest(input);
      |r.value| == HASH_PREFIX_LENGTH &&
      r.value == Base64Url.Encode(d)[..HASH_PREFIX_LENGTH] &&
      r.value == Base64Url.Chars(Base64Url.Sextets(d[0], d[1], d[2])) &&
      forall k | 0 <= k < |r.value| :: Base64Url.IsBase64UrlChar(r.value[k])
  {
    var hashBytes :- Sha256(provider, input);
    var base64Hash := Base64Url.Encode(hashBytes);
    Base64Url.DigestEncodedLength(hashBytes);
    Base64Url.EncodePrefix(hashBytes);
    Success(base64Hash[..Min(HASH_PREFIX_LENGTH, |base64Hash|)])
  }

  /** CHARSET.charAt(random.nextInt(CHARSET.length())) when the generator's k-th
      accepted draw is raw(k). */
  function Pick(raw: nat -> nat, k: nat): (c: char)
    ensures c in CHARSET
  {
    CharsetLength();
    CHARSET[raw(k) % |CHARSET|]
  }

  /** The n characters appended by n iterations of the padding loop, starting at
      draw `from`. */
  function RandomChars(raw: nat -> nat, from: nat, n: nat): (s: string)
    ensures |s| == n
    ensures forall i | 0 <= i < n :: s[i] == Pick(raw, from + i) && s[i] in CHARSET
    decreases n
  {
    if n == 0 then [] else RandomChars(raw, from, n - 1) + [Pick(raw, from + n - 1)]
  }

  /** Iterations of the padding loop: SHORT_CODE_LENGTH - length when positive,
      none otherwise. */
  function RemainingLength(hashBase: string): (n: nat)
    ensures |hashBase| + n == if |hashBase| < SHORT_CODE_LENGTH then SHORT_CODE_LENGTH else |hashBase|
  {
    if |hashBase| < SHORT_CODE_LENGTH then SHORT_CODE_LENGTH - |hashBase| else 0
  }

  /** The code the padding loop builds from `hashBase` when the generator is at
      draw `from`: hashBase unchanged, followed by random CHARSET characters up to
      a length of max(6, |hashBase|). */
  function Combine(hashBase: string, raw: nat -> nat, from: nat): (code: string)
    ensures |code| == if |hashBase| < SHORT_CODE_LENGTH then SHORT_CODE_LENGTH else |hashBase|
    ensures code[..|hashBase|] == hashBase
    ensures forall i | |hashBase| <= i < |code| :: code[i] in CHARSET && code[i] == Pick(raw, from + i - |hashBase|)
  {
    hashBase + RandomChars(raw, from, RemainingLength(hashBase))
  }

  /** The padding loop of ShortenerService.generateShortCode and
      ShortCodeGeneratorService.combineHashWithRandomChars: a StringBuilder
      seeded with hashBase, one append per nextInt(62) on the service's Random. */
  method AppendRandomChars(hashBase: string, random: Random) returns (code: string)
    modifies random
    ensures code == Combine(hashBase, random.raw, old(random.position))
    ensures random.position == old(random.position) + RemainingLength(hashBase)
  {
    CharsetLength();
    var shortCode := hashBase;
    var remainingLength: int := SHORT_CODE_LENGTH - |shortCode|;
    var i := 0;
    while i < remainingLength
      invariant 0 <= i <= RemainingLength(hashBase)
      invariant shortCode == hashBase + RandomChars(random.raw, old(random.position), i)
      invariant random.position == old(random.position) + i
    {
      var index := random.NextInt(|CHARSET|);
      assert CHARSET[index] == Pick(random.raw, old(random.position) + i);
      shortCode := shortCode + [CHARSET[index]];
      i := i + 1;
    }
    code := shortCode;
  }

  /** How many draws one code generation consumes: none when SHA-256 is missing
      (the hash is computed before any draw), two otherwise. */
  function DrawsUsed(provider: Sha256Provider): (n: nat) {
    if provider.Missing? then 0 else SHORT_CODE_LENGTH - HASH_PREFIX_LENGTH
  }

  /** The whole pipeline for `url` when the service's generator is at draw `from`.
      The code is 6 characters: the 4-character hash prefix of the stripped URL,
      then two CHARSET characters chosen by draws `from` and `from + 1`. */
  function Generate(url: string, provider: Sha256Provider, raw: nat -> nat, from: nat): (r: Result<string>)
    ensures r.Failure? <==> provider.Missing?
    ensures r.Failure? ==> r.error == NoSuchAlgorithmException("SHA-256")
    ensures r.Success? ==>
      var hashBase := GenerateHashBase(Protocol.StripProtocol(url), provider).value;
      |r.value| == SHORT_CODE_LENGTH &&
      r.value[..HASH_PREFIX_LENGTH] == hashBase &&
      r.value[4] == Pick(raw, from) && r.value[5] == Pick(raw, from + 1)
  {
    var hashBase :- GenerateHashBase(Protocol.StripProtocol(url), provider);
    Success(Combine(hashBase, raw, from))
  }

  /** Every character of a code is a base64url character; the two random ones
      are letters or digits. */
  lemma CodeAlphabet(url: string, provider: Sha256Provider, raw: nat -> nat, from: nat)
    requires provider.Installed?
    ensures var code := Generate(url, provider, raw, from).value;
      (forall k | 0 <= k < |code| :: Base64Url.IsBase64UrlChar(code[k])) &&
      Base64Url.IsAlphanumeric(code[4]) && Base64Url.IsAlphanumeric(code[5])
  {
    var code := Generate(url, provider, raw, from).value;
    var hashBase := GenerateHashBase(Protocol.StripProtocol(url), provider).value;
    CharsetIsAlphanumeric();
    forall k | 0 <= k < |code|
      ensures Base64Url.IsBase64UrlChar(code[k])
    {
      if k < HASH_PREFIX_LENGTH {
        assert code[k] == hashBase[k];
      }
    }
  }

  /** Not every code is in CHARSET: a digest starting with the byte 0xF8 gives a
      code that starts with '-', and one starting with 0xFC a code that starts
      with '_'. */
  lemma CodeMayLeaveCharset(url: string, provider: Sha256Provider, raw: nat -> nat, from: nat)
    requires provider.Installed?
    requires provider.digest(Protocol.StripProtocol(url))[0] >= 0xF8
    ensures var code := Generate(url, provider, raw, from).value;
      code[0] == (if provider.digest(Protocol.StripProtocol(url))[0] < 0xFC then '-' else '_') &&
      code[0] !in CHARSET
  {
    var d := provider.digest(Protocol.StripProtocol(url));
    var code := Generate(url, provider, raw, from).value;
    var hashBase := GenerateHashBase(Protocol.StripProtocol(url), provider).value;
    assert code[0] == hashBase[0];
    Base64Url.AlphabetTable();
    assert hashBase[0] == Base64Url.CharOf(d[0] / 4);
    CharsetIsAlphanumeric();
  }

  /** Two codes for the same URL share their 4-character prefix and differ at
      most in the two random characters; with the same draws they are equal. */
  lemma SameUrlSamePrefix(url: string, provider: Sha256Provider, raw1: nat -> nat, from1: nat, raw2: nat -> nat, from2: nat)
    requires provider.Installed?
    ensures var c1, c2 := Generate(url, provider, raw1, from1).value, Generate(url, provider, raw2, from2).value;
      c1[..HASH_PREFIX_LENGTH] == c2[..HASH_PREFIX_LENGTH] &&
      (c1 == c2 <==> Pick(raw1, from1) == Pick(raw2, from2) && Pick(raw1, from1 + 1) == Pick(raw2, from2 + 1))
  {
  }

  /** The protocol is stripped before hashing: "http://" + x and "https://" + x
      get the hash prefix of x itself, taken as it is (x is not stripped again). */
  lemma ProtocolDoesNotAffectPrefix(rest: string, provider: Sha256Provider)
    ensures GenerateHashBase(Protocol.StripProtocol("http://" + rest), provider) == GenerateHashBase(rest, provider)
    ensures GenerateHashBase(Protocol.StripProtocol("https://" + rest), provider) == GenerateHashBase(rest, provider)
  {
    Protocol.StripAtMostOnce(rest);
  }

  /** The prefix identifies the first three digest bytes: inputs whose digests
      differ there get different prefixes, so their codes never collide. */
  lemma DistinctDigestsDistinctHashBases(input1: string, input2: string, provider: Sha256Provider)
    requires provider.Installed?
    requires provider.digest(input1)[..3] != provider.digest(input2)[..3]
    ensures GenerateHashBase(input1, provider).value != GenerateHashBase(input2, provider).value
  {
    var d1, d2 := provider.digest(input1), provider.digest(input2);
    assert d1[..3] == [d1[0], d1[1], d1[2]];
    assert d2[..3] == [d2[0], d2[1], d2[2]];
    if GenerateHashBase(input1, provider).value == GenerateHashBase(input2, provider).value {
      Base64Url.GroupCharsInjective(d1[0], d1[1], d1[2], d2[0], d2[1], d2[2]);
    }
  }
}
