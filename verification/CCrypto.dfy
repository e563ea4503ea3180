/** The checked hash operation over a caller-supplied provider. */
module CCrypto {
  import opened Bytes
  import opened Layout
  import opened Results
  import opened Status

  const DIGEST_SIZE: nat := 32

  datatype HashReply = HashReply(status: Status, digest: Digest)

  /**
   * A hash callback: absent, or any answer whatever, which may depend on everything it was asked
   * before. `reply` maps the messages hashed so far and the next message to the next answer.
   */
  datatype Hasher = Hasher(present: bool, reply: (seq<Octets>, Octets) -> HashReply)

  class Provider {
    const hasher: Hasher
    /** The messages the callback was given, in order. */
    var log: seq<Octets>

    constructor (hasher: Hasher)
      ensures this.hasher == hasher && log == []
    {
      this.hasher := hasher;
      log := [];
    }

    /** The callback. It may scribble on the digest buffer whatever status it returns. */
    method Sha256(message: Octets, digest: array<Byte>) returns (status: Status)
      requires digest.Length == DIGEST_SIZE
      modifies this, digest
      ensures log == old(log) + [message]
      ensures status == hasher.reply(old(log), message).status
      ensures digest[..] == hasher.reply(old(log), message).digest
    {
      var reply := hasher.reply(log, message);
      log := log + [message];
      forall k | 0 <= k < DIGEST_SIZE {
        digest[k] := reply.digest[k];
      }
      return reply.status;
    }
  }

  method CopySha256Digest(destination: array<Byte>, source: array<Byte>)
    requires destination.Length == source.Length == DIGEST_SIZE
    modifies destination
    ensures destination[..] == old(source[..])
  {
    for index := 0 to DIGEST_SIZE
      invariant destination[..index] == old(source[..index])
      invariant source[index..] == old(source[index..])
    {
      assert source[index] == old(source[index..])[0];
      destination[index] := source[index];
    }
    assert destination[..] == destination[..DIGEST_SIZE];
    assert old(source[..]) == old(source[..DIGEST_SIZE]);
  }

  /** `None` is a NULL message. The digest is published only when the provider reports success. */
  method Hash(provider: Provider?, algorithm: U16, message: Option<Octets>, messageLen: nat,
              digest: array?<Byte>, digestLen: nat)
    returns (status: Status)
    requires message.Some? ==> |message.value| == messageLen
    requires digest != null ==> digest.Length == digestLen
    modifies provider, digest
    ensures provider == null || digest == null || (message.None? && messageLen != 0) ==> status == ERR_INVALID_ARGUMENT
    ensures provider != null && digest != null && (message.Some? || messageLen == 0) ==>
              var octets := if message.Some? then message.value else [];
              var reply := provider.hasher.reply(old(provider.log), octets);
              status == if algorithm != 1 then ERR_UNSUPPORTED_ALGORITHM
                        else if digestLen != 32 then ERR_INVALID_ARGUMENT
                        else if !provider.hasher.present || !reply.status.OK? then ERR_CRYPTO_PROVIDER
                        else OK
    ensures status.OK? ==> digest[..] == provider.hasher.reply(old(provider.log),
                                                               if message.Some? then message.value else []).digest
    ensures digest != null && !status.OK? ==> digest[..] == old(digest[..])
    ensures provider != null ==>
              provider.log == if digest != null && (message.Some? || messageLen == 0) && algorithm == 1
                                 && digestLen == 32 && provider.hasher.present
                              then old(provider.log) + [if message.Some? then message.value else []]
                              else old(provider.log)
  {
    var computed := new Byte[DIGEST_SIZE](_ => 0);
    if provider == null || digest == null || (message.None? && messageLen != 0) {
      return ERR_INVALID_ARGUMENT;
    }
    if algorithm != 1 {
      return ERR_UNSUPPORTED_ALGORITHM;
    }
    if digestLen != DIGEST_SIZE {
      return ERR_INVALID_ARGUMENT;
    }
    if !provider.hasher.present {
      return ERR_CRYPTO_PROVIDER;
    }
    status := provider.Sha256(if message.Some? then message.value else [], computed);
    if status != OK {
      return ERR_CRYPTO_PROVIDER;
    }
    CopySha256Digest(digest, computed);
  }
}
