/** Counting the revealed votes of a jury in contracts/escrow/src/lib.rs, and the commitments that
    hide them until then. */
module Tally {
  import opened EscrowTypes

  type Hash = nat
  type Byte = b: nat | b < 256
  type U32 = n: nat | n < 0x1_0000_0000

  datatype Ballot = Ballot(hash: Hash, revealed: bool, vote: Resolution, payload: nat)

  type Ballots = map<(nat, Address), Ballot>

  predicate HasRevealed(ballots: Ballots, d: nat, juror: Address) {
    (d, juror) in ballots && ballots[(d, juror)].revealed
  }

  /** The revealed ballots of a panel in panel order. */
  function Revealed(ballots: Ballots, d: nat, panel: seq<Address>): seq<Ballot> {
    if panel == [] then []
    else
      var n := |panel| - 1;
      Revealed(ballots, d, panel[..n]) + if HasRevealed(ballots, d, panel[n]) then [ballots[(d, panel[n])]] else []
  }

  function Count(votes: seq<Ballot>, v: Resolution): (n: nat)
    ensures n <= |votes|
  {
    if votes == [] then 0
    else Count(votes[..|votes| - 1], v) + if votes[|votes| - 1].vote == v then 1 else 0
  }

  datatype Leading = Leading(vote: Resolution, payload: nat, count: nat)

  /** The option in front after each vote in turn: it changes only when another gets ahead. */
  function Leader(votes: seq<Ballot>): Leading {
    if votes == [] then Leading(NoRes, 0, 0)
    else
      var lead, b := Leader(votes[..|votes| - 1]), votes[|votes| - 1];
      var n := Count(votes, b.vote);
      if n > lead.count then Leading(b.vote, b.payload, n) else lead
  }

  /** The table of counts of the votes so far. */
  ghost predicate Counts(table: map<Resolution, nat>, votes: seq<Ballot>) {
    forall v :: Count(votes, v) == if v in table then table[v] else 0
  }

  lemma CountOneMore(table: map<Resolution, nat>, votes: seq<Ballot>, b: Ballot)
    requires Counts(table, votes)
    ensures var lead, n := Leader(votes), (if b.vote in table then table[b.vote] else 0) + 1;
      && Counts(table[b.vote := n], votes + [b])
      && Leader(votes + [b]) == if n > lead.count then Leading(b.vote, b.payload, n) else lead
  {
    assert (votes + [b])[..|votes|] == votes;
  }

  lemma RevealedStep(ballots: Ballots, d: nat, panel: seq<Address>, i: nat)
    requires i < |panel|
    ensures Revealed(ballots, d, panel[..i + 1])
      == Revealed(ballots, d, panel[..i]) + if HasRevealed(ballots, d, panel[i]) then [ballots[(d, panel[i])]] else []
  {
    assert panel[..i + 1][..i] == panel[..i];
  }

  method FindLeader(ballots: Ballots, d: nat, panel: seq<Address>) returns (lead: Leading)
    ensures lead == Leader(Revealed(ballots, d, panel))
  {
    var votes: map<Resolution, nat> := map[];
    var winning, payload, most := NoRes, 0, 0;
    ghost var seen := [];
    for i := 0 to |panel|
      invariant seen == Revealed(ballots, d, panel[..i])
      invariant Leading(winning, payload, most) == Leader(seen)
      invariant Counts(votes, seen)
    {
      RevealedStep(ballots, d, panel, i);
      var juror := panel[i];
      if (d, juror) in ballots && ballots[(d, juror)].revealed {
        var b := ballots[(d, juror)];
        CountOneMore(votes, seen, b);
        seen := seen + [b];
        var count := if b.vote in votes then votes[b.vote] else 0;
        votes := votes[b.vote := count + 1];
        if count + 1 > most {
          winning, payload, most := b.vote, b.payload, count + 1;
        }
      }
    }
    assert panel[..|panel|] == panel;
    return Leading(winning, payload, most);
  }

  /** The outcome: without a single revealed vote the backers are refunded. */
  function Outcome(lead: Leading): Resolution {
    if lead.vote == NoRes then RefBackers else lead.vote
  }

  // ----- The leader wins

  /** No option has more votes than the leader. */
  lemma {:induction false} LeaderIsAhead(votes: seq<Ballot>)
    ensures Leader(votes).count == Count(votes, Leader(votes).vote)
    ensures forall v :: Count(votes, v) <= Leader(votes).count
    ensures votes == [] <==> Leader(votes).count == 0
    ensures votes == [] ==> Leader(votes).vote == NoRes
    decreases |votes|
  {
    if votes != [] {
      LeaderIsAhead(votes[..|votes| - 1]);
    }
  }

  ghost predicate Ahead(votes: seq<Ballot>, v: Resolution) {
    forall w: Resolution {:trigger Count(votes, w)} :: w != v ==> Count(votes, w) < Count(votes, v)
  }

  /** The leader and its payload come from the vote with which it reached its final count, and
      by then every other option had fewer: ties go to the option that got there first. */
  lemma {:induction false} LeaderWasFirst(votes: seq<Ballot>) returns (k: nat)
    requires votes != []
    ensures k < |votes| && votes[k].vote == Leader(votes).vote && votes[k].payload == Leader(votes).payload
    ensures Count(votes[..k + 1], Leader(votes).vote) == Leader(votes).count
    ensures Ahead(votes[..k + 1], Leader(votes).vote)
    decreases |votes|
  {
    var n := |votes| - 1;
    var front := votes[..n];
    LeaderIsAhead(front);
    if front == [] || Count(votes, votes[n].vote) > Leader(front).count {
      k := n;
      assert votes[..n + 1] == votes;
      forall w: Resolution | w != votes[n].vote
        ensures Count(votes, w) < Count(votes, votes[n].vote)
      {
        assert Count(votes, w) == Count(front, w) <= Leader(front).count;
      }
    } else {
      k := LeaderWasFirst(front);
      assert front[..k + 1] == votes[..k + 1];
    }
  }

  /** Only one option can be the first to reach the greatest count. */
  lemma FirstToTheTopIsUnique(votes: seq<Ballot>, k: nat, v: Resolution)
    requires k < |votes| && votes[k].vote == v
    requires forall w :: Count(votes, w) <= Count(votes[..k + 1], v)
    requires Ahead(votes[..k + 1], v)
    ensures v == Leader(votes).vote
  {
    LeaderIsAhead(votes);
    var j := LeaderWasFirst(votes);
    CountGrows(votes, k + 1, v);
    if j < k {
      CountGrows(votes[..k + 1], j + 1, Leader(votes).vote);
      assert votes[..k + 1][..j + 1] == votes[..j + 1];
    } else {
      CountGrows(votes[..j + 1], k + 1, v);
      assert votes[..j + 1][..k + 1] == votes[..k + 1];
    }
  }

  lemma {:induction false} CountGrows(votes: seq<Ballot>, n: nat, v: Resolution)
    requires n <= |votes|
    ensures Count(votes[..n], v) <= Count(votes, v)
    decreases |votes|
  {
    if n < |votes| {
      CountGrows(votes[..|votes| - 1], n, v);
      assert votes[..|votes| - 1][..n] == votes[..n];
    } else {
      assert votes[..n] == votes;
    }
  }

  // ----- Commitments

  /** The four bytes of a 32-bit payload, most significant first. */
  function BigEndian(payload: U32): (bytes: seq<Byte>)
    ensures |bytes| == 4
    ensures (bytes[0] as int) * 0x100_0000 + (bytes[1] as int) * 0x1_0000 + (bytes[2] as int) * 0x100
      + (bytes[3] as int) == payload
  {
    var high := payload / 256;
    var higher := high / 256;
    [higher / 256, higher % 256, high % 256, payload % 256]
  }

  /** What a juror hashes: the number of the option, for a partial release the payload, and a salt. */
  function Preimage(vote: Resolution, payload: U32, salt: seq<Byte>): seq<Byte>
    requires vote != NoRes
  {
    match vote
    case RelFunds => [0] + salt
    case RefBackers => [1] + salt
    case PartRel => [2] + BigEndian(payload) + salt
  }

  /** A commitment binds: two openings of the same hash give the same vote and, where it matters,
      the same payload, or else they are a collision of the hash function. */
  lemma OpeningsAgree(hash: seq<Byte> -> Hash, vote: Resolution, payload: U32, salt: seq<Byte>,
                      vote': Resolution, payload': U32, salt': seq<Byte>)
    requires vote != NoRes && vote' != NoRes
    requires hash(Preimage(vote, payload, salt)) == hash(Preimage(vote', payload', salt'))
    ensures (vote == vote' && salt == salt' && (vote == PartRel ==> payload == payload'))
      || Preimage(vote, payload, salt) != Preimage(vote', payload', salt')
  {
    var x, y := Preimage(vote, payload, salt), Preimage(vote', payload', salt');
    if x == y {
      assert x[0] == y[0];
      if vote == PartRel {
        assert x[1..5] == BigEndian(payload) && y[1..5] == BigEndian(payload');
        assert x[5..] == salt && y[5..] == salt';
      } else {
        assert x[1..] == salt && y[1..] == salt';
      }
    }
  }

  /** For the other two options the payload is not part of what is hashed. */
  lemma PayloadNotBound(vote: Resolution, payload: U32, payload': U32, salt: seq<Byte>)
    requires vote == RelFunds || vote == RefBackers
    ensures Preimage(vote, payload, salt) == Preimage(vote, payload', salt)
  {
  }
}
