/** The two designs of SHA-256 agree: a stream in any chunks, and one call on the whole message. */
module Sha256Agreement {
  import opened Sha256
  import opened NettleContext
  import HaclSha256

  ghost function Joined(chunks: seq<array<bv8>>): seq<bv8>
    reads chunks
  {
    if chunks == [] then [] else Joined(chunks[..|chunks| - 1]) + chunks[|chunks| - 1][..]
  }

  lemma EmptyJoined()
    ensures Joined([]) == []
  {
  }

  lemma JoinedNext(chunks: seq<array<bv8>>, i: nat)
    requires i < |chunks|
    ensures Joined(chunks[..i + 1]) == Joined(chunks[..i]) + chunks[i][..]
  {
    assert chunks[..i + 1][..i] == chunks[..i];
  }

  /** sha256_init, then sha256_update for every chunk, then sha256_digest. */
  method DigestOfChunks(chunks: seq<array<bv8>>) returns (digest: array<bv8>)
    ensures fresh(digest) && digest.Length == 32 && digest[..] == Hash(Joined(chunks))
  {
    hide Hash, Taken, Context.Valid, Joined;
    EmptyJoined();
    var ctx := new Context();
    var i := 0;
    while i < |chunks|
      invariant i <= |chunks| && fresh(ctx) && fresh(ctx.state) && fresh(ctx.block)
      invariant ctx.Valid() && ctx.absorbed == Joined(chunks[..i])
    {
      JoinedNext(chunks, i);
      ctx.Update(chunks[i].Length, chunks[i]);
      i := i + 1;
    }
    assert chunks[..i] == chunks;
    digest := new bv8[32];
    ctx.GetDigest(32, digest);
    assert digest[..32] == digest[..];
  }

  /** Whatever the chunks are, the streamed digest is the one-shot hash of the whole message. */
  method StreamedIsOneShot(chunks: seq<array<bv8>>, message: array<bv8>)
    returns (streamed: array<bv8>, hashed: array<bv8>)
    requires message.Length < 0x1_0000_0000 && message[..] == Joined(chunks)
    ensures streamed.Length == hashed.Length == 32 && streamed[..] == hashed[..] == Hash(message[..])
  {
    hide Hash;
    streamed := DigestOfChunks(chunks);
    hashed := new bv8[32];
    HaclSha256.Hash256(message, message.Length, hashed);
    assert message[..message.Length] == message[..] && hashed[..32] == hashed[..];
  }
}
