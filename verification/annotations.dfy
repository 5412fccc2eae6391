/** What users attach to the shared network store: votes and comments on edges, and the
    recorded node overlap between two networks. */
module Annotations {
  import opened Wrappers
  import Filters

  type EdgeId = nat
  type UserId = nat
  type NetworkId = nat

  /** `EdgeVote`. `changed` is unset until the vote is changed. */
  datatype Vote = Vote(edge: EdgeId, user: UserId, agreed: Option<bool>, changed: Option<int>)

  /** `EdgeComment`; its edge column is nullable. */
  datatype Comment = Comment(edge: Option<EdgeId>, user: UserId, text: string)

  datatype EdgeDb = EdgeDb(edges: set<EdgeId>, users: set<UserId>, votes: seq<Vote>, comments: seq<Comment>)

  /** The (edge, user) unique constraint on votes. */
  ghost predicate UniqueVotes(votes: seq<Vote>) {
    forall i, j :: 0 <= i < j < |votes| ==> (votes[i].edge, votes[i].user) != (votes[j].edge, votes[j].user)
  }

  /** Every vote and comment refers to a stored edge and user, and votes are unique. */
  ghost predicate Valid(db: EdgeDb) {
    && UniqueVotes(db.votes)
    && (forall i :: 0 <= i < |db.votes| ==> db.votes[i].edge in db.edges && db.votes[i].user in db.users)
    && (forall i :: 0 <= i < |db.comments| ==>
          (db.comments[i].edge.Some? ==> db.comments[i].edge.value in db.edges) && db.comments[i].user in db.users)
  }

  /** The votes not on edge `e`, in their stored order. */
  function VotesOff(votes: seq<Vote>, e: EdgeId): (r: seq<Vote>)
    ensures forall i :: 0 <= i < |r| ==> r[i] in votes && r[i].edge != e
    ensures forall i :: 0 <= i < |votes| && votes[i].edge != e ==> votes[i] in r
  {
    if |votes| == 0 then []
    else
      var rest := VotesOff(votes[1..], e);
      assert forall i :: 1 <= i < |votes| ==> votes[i] == votes[1..][i - 1];
      if votes[0].edge == e then rest else [votes[0]] + rest
  }

  /** Dropping an edge's votes keeps the remaining votes unique. */
  lemma {:induction false} VotesOffKeepsUnique(votes: seq<Vote>, e: EdgeId)
    requires UniqueVotes(votes)
    ensures UniqueVotes(VotesOff(votes, e))
  {
    if |votes| > 0 {
      var rest := VotesOff(votes[1..], e);
      assert UniqueVotes(votes[1..]);
      VotesOffKeepsUnique(votes[1..], e);
      if votes[0].edge != e {
        forall k | 0 <= k < |rest| ensures (rest[k].edge, rest[k].user) != (votes[0].edge, votes[0].user) {
          var j :| 0 <= j < |votes[1..]| && votes[1..][j] == rest[k];
          assert votes[j + 1] == rest[k];
        }
        assert VotesOff(votes, e) == [votes[0]] + rest;
      }
    }
  }

  /** The comments not on edge `e`, in their stored order. */
  function CommentsOff(comments: seq<Comment>, e: EdgeId): (r: seq<Comment>)
    ensures forall i :: 0 <= i < |r| ==> r[i] in comments && r[i].edge != Some(e)
    ensures forall i :: 0 <= i < |comments| && comments[i].edge != Some(e) ==> comments[i] in r
  {
    if |comments| == 0 then []
    else
      var rest := CommentsOff(comments[1..], e);
      assert forall i :: 1 <= i < |comments| ==> comments[i] == comments[1..][i - 1];
      if comments[0].edge == Some(e) then rest else [comments[0]] + rest
  }

  /** The cascade keeps stored order: the votes kept from a concatenation are those kept from
      its parts. */
  lemma VotesOffConcat(a: seq<Vote>, b: seq<Vote>, e: EdgeId)
    ensures VotesOff(a + b, e) == VotesOff(a, e) + VotesOff(b, e)
  {
    VotesOffIsKeep(a + b, e);
    VotesOffIsKeep(a, e);
    VotesOffIsKeep(b, e);
    Filters.KeepConcat(a, b, VoteOff(e));
  }

  function VoteOff(e: EdgeId): Vote -> bool {
    (v: Vote) => v.edge != e
  }

  /** Dropping an edge's votes is the generic order-preserving filter. */
  lemma {:induction false} VotesOffIsKeep(votes: seq<Vote>, e: EdgeId)
    ensures VotesOff(votes, e) == Filters.Keep(votes, VoteOff(e))
  {
    if |votes| > 0 {
      VotesOffIsKeep(votes[1..], e);
    }
  }

  /** A single vote is kept exactly when it is on another edge. */
  lemma VotesOffSingleton(v: Vote, e: EdgeId)
    ensures VotesOff([v], e) == if v.edge == e then [] else [v]
  {
    assert [v][1..] == [];
  }

  /** Likewise for comments. */
  lemma CommentsOffConcat(a: seq<Comment>, b: seq<Comment>, e: EdgeId)
    ensures CommentsOff(a + b, e) == CommentsOff(a, e) + CommentsOff(b, e)
  {
    CommentsOffIsKeep(a + b, e);
    CommentsOffIsKeep(a, e);
    CommentsOffIsKeep(b, e);
    Filters.KeepConcat(a, b, CommentOff(e));
  }

  function CommentOff(e: EdgeId): Comment -> bool {
    (c: Comment) => c.edge != Some(e)
  }

  /** Dropping an edge's comments is the generic order-preserving filter. */
  lemma {:induction false} CommentsOffIsKeep(comments: seq<Comment>, e: EdgeId)
    ensures CommentsOff(comments, e) == Filters.Keep(comments, CommentOff(e))
  {
    if |comments| > 0 {
      CommentsOffIsKeep(comments[1..], e);
    }
  }

  /** A single comment is kept exactly when it is not on the edge. */
  lemma CommentsOffSingleton(c: Comment, e: EdgeId)
    ensures CommentsOff([c], e) == if c.edge == Some(e) then [] else [c]
  {
    assert [c][1..] == [];
  }

  /** Deleting an edge cascades to exactly its votes and comments; other edges' votes and
      comments and every user remain, and the store stays consistent. */
  function DeleteEdge(db: EdgeDb, e: EdgeId): (r: EdgeDb)
    ensures r.edges == db.edges - {e} && r.users == db.users
    ensures forall i :: 0 <= i < |r.votes| ==> r.votes[i].edge != e && r.votes[i] in db.votes
    ensures forall i :: 0 <= i < |db.votes| && db.votes[i].edge != e ==> db.votes[i] in r.votes
    ensures forall i :: 0 <= i < |r.comments| ==> r.comments[i].edge != Some(e) && r.comments[i] in db.comments
    ensures forall i :: 0 <= i < |db.comments| && db.comments[i].edge != Some(e) ==> db.comments[i] in r.comments
    ensures r.votes == VotesOff(db.votes, e) && r.comments == CommentsOff(db.comments, e)
    ensures Valid(db) ==> Valid(r)
  {
    assert UniqueVotes(db.votes) ==> UniqueVotes(VotesOff(db.votes, e)) by {
      if UniqueVotes(db.votes) {
        VotesOffKeepsUnique(db.votes, e);
      }
    }
    EdgeDb(db.edges - {e}, db.users, VotesOff(db.votes, e), CommentsOff(db.comments, e))
  }

  /** The store's tests: two edges, three votes (two on the first edge) and four comments
      (three on the first edge); deleting the first edge leaves one edge, both users, one vote
      and one comment. */
  lemma DeleteEdgeScenario()
    ensures var db := EdgeDb({1, 2}, {1, 2},
        [Vote(1, 1, None, None), Vote(1, 2, None, None), Vote(2, 1, None, None)],
        [Comment(Some(1), 1, "a"), Comment(Some(1), 2, "b"), Comment(Some(1), 1, "c"), Comment(Some(2), 1, "d")]);
      var r := DeleteEdge(db, 1);
      |r.edges| == 1 && |r.users| == 2 && |r.votes| == 1 && |r.comments| == 1
  {
    var votes := [Vote(1, 1, None, None), Vote(1, 2, None, None), Vote(2, 1, None, None)];
    assert votes[1..] == [Vote(1, 2, None, None), Vote(2, 1, None, None)];
    assert votes[1..][1..] == [Vote(2, 1, None, None)];
    var cs := [Comment(Some(1), 1, "a"), Comment(Some(1), 2, "b"), Comment(Some(1), 1, "c"), Comment(Some(2), 1, "d")];
    assert cs[1..] == [Comment(Some(1), 2, "b"), Comment(Some(1), 1, "c"), Comment(Some(2), 1, "d")];
    assert cs[1..][1..] == [Comment(Some(1), 1, "c"), Comment(Some(2), 1, "d")];
    assert cs[1..][1..][1..] == [Comment(Some(2), 1, "d")];
    assert {1, 2} - {1} == {2};
  }

  /** The position of the vote by `user` on `edge`, if there is one. */
  function FindVote(votes: seq<Vote>, edge: EdgeId, user: UserId): (r: Option<nat>)
    ensures r.Some? ==> r.value < |votes| && votes[r.value].edge == edge && votes[r.value].user == user
    ensures r.None? ==> forall i :: 0 <= i < |votes| ==> !(votes[i].edge == edge && votes[i].user == user)
  {
    if |votes| == 0 then None
    else if votes[0].edge == edge && votes[0].user == user then Some(0)
    else match FindVote(votes[1..], edge, user)
      case None => None
      case Some(i) => Some(i + 1)
  }

  /** Getting or creating the vote of `user` on `edge` at time `now`: an existing vote gets the
      new `agreed` flag and a change time; otherwise a new vote with no change time is added.
      Either way there is then exactly one vote for the pair. */
  function CastVote(votes: seq<Vote>, edge: EdgeId, user: UserId, agreed: bool, now: int): (r: seq<Vote>)
    requires UniqueVotes(votes)
    ensures UniqueVotes(r)
    ensures exists i :: 0 <= i < |r| && r[i].edge == edge && r[i].user == user && r[i].agreed == Some(agreed)
    ensures FindVote(votes, edge, user).Some? ==>
      var idx := FindVote(votes, edge, user).value;
      && |r| == |votes|
      && r[idx].edge == edge && r[idx].user == user
      && r[idx].agreed == Some(agreed) && r[idx].changed == Some(now)
      && forall j :: 0 <= j < |votes| && j != idx ==> r[j] == votes[j]
    ensures FindVote(votes, edge, user).None? ==>
      r == votes + [Vote(edge, user, Some(agreed), None)]
  {
    match FindVote(votes, edge, user)
    case Some(i) =>
      var r := votes[i := votes[i].(agreed := Some(agreed), changed := Some(now))];
      assert r[i].edge == edge && r[i].user == user && r[i].agreed == Some(agreed);
      r
    case None =>
      var r := votes + [Vote(edge, user, Some(agreed), None)];
      assert r[|votes|].edge == edge && r[|votes|].user == user;
      r
  }

  /** Casting twice for the same pair adds no second vote: the second cast updates the first
      vote's flag and sets its change time. */
  lemma {:induction false} CastVoteTwice(votes: seq<Vote>, edge: EdgeId, user: UserId, first: bool, second: bool, t1: int, t2: int)
    requires UniqueVotes(votes)
    requires FindVote(votes, edge, user).None?
    ensures var once := CastVote(votes, edge, user, first, t1);
      var twice := CastVote(once, edge, user, second, t2);
      && |twice| == |once| == |votes| + 1
      && once[|votes|].changed.None?
      && twice[|votes|] == Vote(edge, user, Some(second), Some(t2))
  {
    var once := CastVote(votes, edge, user, first, t1);
    var f := FindVote(once, edge, user);
    assert once[|votes|].edge == edge && once[|votes|].user == user;
    assert f.Some?;
  }

  /** `NetworkOverlap`: the overlap between two networks, stored with the larger id on the
      left. */
  datatype Overlap = Overlap(left: NetworkId, right: NetworkId, overlap: real)

  /** `NetworkOverlap.build`: swaps the pair when the left id is the smaller. */
  function BuildOverlap(left: NetworkId, right: NetworkId, overlap: real): (r: Overlap)
    ensures r.right <= r.left
    ensures {r.left, r.right} == {left, right}
    ensures r.overlap == overlap
  {
    if left < right then Overlap(right, left, overlap) else Overlap(left, right, overlap)
  }

  /** The stored row does not depend on the order in which the two networks are given. */
  lemma BuildOverlapSymmetric(a: NetworkId, b: NetworkId, overlap: real)
    ensures BuildOverlap(a, b, overlap) == BuildOverlap(b, a, overlap)
  {
  }
}
