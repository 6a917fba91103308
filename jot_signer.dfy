/**
 * `HS256Signer_t`, the one signer the package provides: an identifier, a secret
 * key and an expiry instant. Only the expiry changes after construction.
 */
module JotSigner {
  import opened JotTypes

  /** The algorithm name written into the `alg` header field. */
  const HS256: string := "HS256"

  class HS256Signer {
    const id: string
    const key: seq<byte>
    var exp: int

    /** `NewHS256Signer`: the secret is copied and the expiry is `now + ttl`. */
    constructor (id: string, secret: seq<byte>, ttl: int, now: int)
      ensures this.id == id && key == secret && exp == now + ttl
      ensures Expired(now) <==> ttl < 0
    {
      this.id := id;
      key := secret;
      exp := now + ttl;
    }

    function Algorithm(): string {
      HS256
    }

    /** The expiry lies strictly before `now`; a signer is still live at its expiry instant. */
    predicate Expired(now: int)
      reads this
    {
      exp < now
    }

    /** Sets the expiry to the Unix epoch, so the signer is expired at every later instant. */
    method Expire()
      modifies this
      ensures exp == 0
      ensures forall now | now > 0 :: Expired(now)
      ensures !Expired(0)
    {
      exp := 0;
    }

    /** The HMAC-SHA-256 of `msg` under this signer's key. */
    function Sign(lib: Primitives, msg: string): seq<byte> {
      lib.hmac(key, msg)
    }

    /** The signature is exactly the MAC this signer computes for `msg`. */
    predicate Signed(lib: Primitives, msg: string, signature: seq<byte>) {
      signature == Sign(lib, msg)
    }
  }

  /** Two signers with the same key accept the same signatures, whatever their identifiers or expiries. */
  lemma SignedDependsOnKeyOnly(s: HS256Signer, t: HS256Signer, lib: Primitives, msg: string, signature: seq<byte>)
    requires s.key == t.key
    ensures s.Signed(lib, msg, signature) <==> t.Signed(lib, msg, signature)
    ensures s.Signed(lib, msg, s.Sign(lib, msg))
  {
  }
}
