/**
 sha_commitment/sha_commitment.cpp: commit to a message by hashing it with a 32-byte seed.  Senders
 and receivers are values, as they are held by value in the arrays of the protocol; SHA-256 is the
 argument `sha`.
 */
module ShaCommitment {
  import opened Outcome
  import opened Bytes

  type Hash = seq<byte> -> seq<byte>

  ghost predicate IsHash(sha: Hash) {
    forall m :: |sha(m)| == 32
  }

  const SEED_SIZE := 32

  datatype Sender = Sender(m: seq<byte>, seed: seq<byte>, com: seq<byte>)

  datatype Receiver = Receiver(m: seq<byte>, seed: seq<byte>, com: seq<byte>, openVerified: bool)

  const FRESH_RECEIVER := Receiver([], [], [], false)

  function ComputeSha(sha: Hash, m: seq<byte>, seed: seq<byte>): seq<byte> {
    sha(m + seed)
  }

  function Exec(sha: Hash, s: Sender, r: Receiver, seed: seq<byte>): (Sender, Receiver) {
    var com := ComputeSha(sha, s.m, seed);
    (s.(seed := seed, com := com), r.(com := com))
  }

  function Open(sha: Hash, s: Sender, r: Receiver): Result<Receiver> {
    var ok := r.com == ComputeSha(sha, s.m, s.seed);
    if ok then Ok(r.(m := s.m, seed := s.seed, openVerified := true)) else Err("sha commitment open failed")
  }

  /** The commitment in the receiver's hands was made to the message the sender holds. */
  predicate Committed(sha: Hash, s: Sender, r: Receiver) {
    r.com == s.com == ComputeSha(sha, s.m, s.seed)
  }

  /** Completeness: executing and then opening hands over exactly the committed message. */
  lemma ExecOpens(sha: Hash, s: Sender, r: Receiver, seed: seq<byte>)
    ensures var (s', r') := Exec(sha, s, r, seed);
      && Committed(sha, s', r') && s'.m == s.m && r'.m == r.m
      && Open(sha, s', r').Ok? && Open(sha, s', r').value.m == s.m && Open(sha, s', r').value.openVerified
  {
  }

  /** Binding: whatever sender opens the commitment, the receiver obtains the committed message,
      unless two different inputs with the same hash are at hand. */
  lemma Binding(sha: Hash, s: Sender, r: Receiver, seed: seq<byte>, other: Sender)
    requires |seed| == SEED_SIZE && |other.seed| == SEED_SIZE
    requires Open(sha, other, Exec(sha, s, r, seed).1).Ok?
    ensures var x, y := s.m + seed, other.m + other.seed;
      Open(sha, other, Exec(sha, s, r, seed).1).value.m == s.m || (x != y && sha(x) == sha(y))
  {
    if s.m + seed == other.m + other.seed {
      assert |s.m| == |other.m|;
      assert s.m == (s.m + seed)[..|s.m|] == (other.m + other.seed)[..|s.m|] == other.m;
    }
  }
}
