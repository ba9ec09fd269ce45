/** `Blockchain.valid_proof`: a candidate proof is valid for the previous
    proof when the SHA-256 hex digest of their two decimal texts, written one
    after the other, starts with four '0' digits. */
module ProofOfWork {
  import opened Encoding
  import opened Hasher
  import Decimal

  /** The number of leading hex zeros a valid proof's digest must show. */
  const Difficulty := 4

  /** `f'{last_proof}{proof}'`: both decimal texts, no separator. */
  function Challenge(lastProof: int, proof: int): string {
    Decimal.IntText(lastProof) + Decimal.IntText(proof)
  }

  /** `valid_proof(last_proof, proof)` */
  predicate ValidProof(sha: Sha256, lastProof: int, proof: int) {
    sha(Utf8(Challenge(lastProof, proof)))[..Difficulty] == "0000"
  }

  /** A valid proof is one whose digest has four leading hex zeros. */
  lemma ValidProofLeadingZeros(sha: Sha256, lastProof: int, proof: int)
    ensures ValidProof(sha, lastProof, proof) <==>
            forall k :: 0 <= k < Difficulty ==> sha(Utf8(Challenge(lastProof, proof)))[k] == '0'
  {
    var d := sha(Utf8(Challenge(lastProof, proof)));
    if forall k :: 0 <= k < Difficulty ==> d[k] == '0' {
      assert d[..Difficulty] == "0000";
    } else {
      var k :| 0 <= k < Difficulty && d[k] != '0';
      assert d[..Difficulty][k] != "0000"[k];
      assert d[..Difficulty] != "0000";
      assert !ValidProof(sha, lastProof, proof);
      assert sha(Utf8(Challenge(lastProof, proof)))[k] != '0';
    }
  }

  /** The challenge is ASCII, so the hashed bytes are its character codes. */
  lemma ChallengeBytes(lastProof: int, proof: int)
    ensures IsAscii(Challenge(lastProof, proof))
    ensures Utf8(Challenge(lastProof, proof)) == AsciiCodes(Challenge(lastProof, proof))
  {
    var a := Decimal.IntText(lastProof);
    var b := Decimal.IntText(proof);
    forall k | 0 <= k < |a| ensures a[k] as int < 0x80 {
      if k > 0 { assert a[k] == a[1..][k - 1]; }
    }
    forall k | 0 <= k < |b| ensures b[k] as int < 0x80 {
      if k > 0 { assert b[k] == b[1..][k - 1]; }
    }
    Utf8OfAscii(a + b);
  }

  /** For a fixed previous proof, different candidates give different
      challenges, so the search never hashes the same text twice. */
  lemma ChallengeInjectiveInProof(lastProof: int, p: int, q: int)
    requires Challenge(lastProof, p) == Challenge(lastProof, q)
    ensures p == q
  {
    var n := |Decimal.IntText(lastProof)|;
    assert Decimal.IntText(p) == Challenge(lastProof, p)[n..];
    assert Decimal.IntText(q) == Challenge(lastProof, q)[n..];
    Decimal.IntTextInjective(p, q);
  }

  /** Without a separator the pair of proofs is not recoverable from the
      challenge: previous proof 1 with candidate 23 and previous proof 12 with
      candidate 3 hash the same text, so one is valid exactly when the other is. */
  lemma ChallengeIsAmbiguous(sha: Sha256)
    ensures Challenge(1, 23) == Challenge(12, 3) == "123"
    ensures ValidProof(sha, 1, 23) == ValidProof(sha, 12, 3)
  {
  }
}
