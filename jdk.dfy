/** The parts of the Java platform the two services call: exceptions as a result
    type, MessageDigest.getInstance("SHA-256"), and the java.util.Random each service holds. */
module Jdk {

  /** An unsigned byte, as the Base64 encoder reads each digest byte (b & 0xff). */
  type byte = b: int | 0 <= b < 256

  /** A SHA-256 digest is always 32 bytes (FIPS 180-4). */
  const DIGEST_LENGTH: nat := 32

  type Digest = d: seq<byte> | |d| == DIGEST_LENGTH witness seq(32, i => 0)

  /** The exceptions that can leave the services. */
  datatype Exception =
    | NoSuchAlgorithmException(algorithm: string)
    | RuntimeException(message: string, cause: Exception)

  datatype Option<+T> = None | Some(value: T)

  /** A value or the exception that was thrown instead of returning it. */
  datatype Result<+T> = Success(value: T) | Failure(error: Exception) {
    predicate IsFailure() { Failure? }

    function PropagateFailure<U>(): Result<U>
      requires Failure?
    {
      Failure(error)
    }

    function Extract(): T
      requires Success?
    {
      value
    }
  }

  /** What MessageDigest.getInstance("SHA-256") finds in the running JVM: no
      provider, or one whose digest of a string's bytes (String.getBytes() in the
      platform charset, then SHA-256) is the uninterpreted function `digest`. */
  datatype Sha256Provider = Missing | Installed(digest: string -> Digest)

  /** MessageDigest.getInstance("SHA-256").digest(input.getBytes()). */
  function Sha256(provider: Sha256Provider, input: string): (r: Result<Digest>)
    ensures r.Failure? <==> provider.Missing?
    ensures r.Failure? ==> r.error == NoSuchAlgorithmException("SHA-256")
    ensures r.Success? ==> r.value == provider.digest(input)
  {
    match provider
    case Missing => Failure(NoSuchAlgorithmException("SHA-256"))
    case Installed(digest) => Success(digest(input))
  }

  /** The static java.util.Random each service holds (one per service, not shared
      between them). Its future is injected as `raw`: raw(k) is the 31-bit value
      the generator's k-th nextInt call accepts. `position` counts the nextInt
      calls made so far. */
  class Random {
    const raw: nat -> nat
    var position: nat

    constructor (raw: nat -> nat)
      ensures this.raw == raw && position == 0
    {
      this.raw := raw;
      position := 0;
    }

    /** nextInt(bound): for a bound that is not a power of two the JDK returns the
        accepted draw modulo the bound; it throws for a bound that is not positive. */
    method NextInt(bound: nat) returns (r: nat)
      requires bound > 0
      modifies this
      ensures r < bound
      ensures r == raw(old(position)) % bound
      ensures position == old(position) + 1
    {
      r := raw(position) % bound;
      position := position + 1;
    }
  }
}
