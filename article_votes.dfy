/**
 * The like/dislike toggle of ArticleController::handleVote() over the votes
 * table. The table's unique key (user_id, entity_id, vote_entity) allows one
 * vote per user and entity, so it is modelled as a map from that key to the
 * vote's type.
 */
module ArticleVotes {
  import opened Wrappers

  /** VoteType: LIKE = 1, DISLIKE = 2. */
  datatype VoteType = Like | Dislike

  /** VoteEntity: what kind of thing was voted on. */
  datatype VoteEntity = ArticleEntity | ArticleCommentEntity | ForumEntity | ForumCommentEntity | GuestbookEntity | PhotoEntity

  /** The unique key of a vote row. */
  datatype VoteKey = VoteKey(userId: int, entityId: int, voteEntity: VoteEntity)

  type VoteTable = map<VoteKey, VoteType>

  /** The votes of one type on one entity. */
  function VotesOfType(votes: VoteTable, entityId: int, voteEntity: VoteEntity, voteType: VoteType): set<VoteKey> {
    set k | k in votes && k.entityId == entityId && k.voteEntity == voteEntity && votes[k] == voteType
  }

  /** getVoteCountsForEntity(): COUNT per vote type, 0 for a type nobody chose. */
  function Likes(votes: VoteTable, entityId: int, voteEntity: VoteEntity): nat {
    |VotesOfType(votes, entityId, voteEntity, Like)|
  }

  function Dislikes(votes: VoteTable, entityId: int, voteEntity: VoteEntity): nat {
    |VotesOfType(votes, entityId, voteEntity, Dislike)|
  }

  /**
   * The table after a vote of `voteType` under `key`: a vote of the same type
   * is removed, a vote of the other type is switched, and a new vote is added.
   * No other vote changes.
   */
  function AfterVote(votes: VoteTable, key: VoteKey, voteType: VoteType): (after: VoteTable)
    ensures key in after <==> !(key in votes && votes[key] == voteType)
    ensures key in after ==> after[key] == voteType
    ensures forall k :: k != key ==> (k in after <==> k in votes)
    ensures forall k :: k != key && k in after ==> after[k] == votes[k]
  {
    if key in votes && votes[key] == voteType then votes - {key} else votes[key := voteType]
  }

  /**
   * Casting the same vote twice is a toggle: it restores the table, except
   * that a vote of the other type that was there to begin with is gone.
   */
  lemma VoteTwiceToggles(votes: VoteTable, key: VoteKey, voteType: VoteType)
    ensures key !in votes || votes[key] == voteType ==> AfterVote(AfterVote(votes, key, voteType), key, voteType) == votes
    ensures key in votes && votes[key] != voteType ==> AfterVote(AfterVote(votes, key, voteType), key, voteType) == votes - {key}
  {
    var twice := AfterVote(AfterVote(votes, key, voteType), key, voteType);
    if key !in votes || votes[key] == voteType {
      assert twice.Keys == votes.Keys;
    } else {
      assert twice.Keys == votes.Keys - {key};
    }
  }

  /**
   * A vote moves each of the entity's counts by at most one: the count of the
   * type the user held loses the vote and the count of the type the user now
   * holds gains it.
   */
  lemma CountsAfterVote(votes: VoteTable, key: VoteKey, voteType: VoteType, counted: VoteType)
    ensures var before := VotesOfType(votes, key.entityId, key.voteEntity, counted);
            var after := AfterVote(votes, key, voteType);
            |VotesOfType(after, key.entityId, key.voteEntity, counted)|
              == |before| - (if key in votes && votes[key] == counted then 1 else 0)
                          + (if key in after && after[key] == counted then 1 else 0)
  {
    var after := AfterVote(votes, key, voteType);
    var before := VotesOfType(votes, key.entityId, key.voteEntity, counted);
    var now := VotesOfType(after, key.entityId, key.voteEntity, counted);
    SameAwayFromKey(votes, key, voteType, counted);
    CardinalityAround(before, key);
    CardinalityAround(now, key);
  }

  /** Only the voter's own row differs between the two tables. */
  lemma SameAwayFromKey(votes: VoteTable, key: VoteKey, voteType: VoteType, counted: VoteType)
    ensures VotesOfType(AfterVote(votes, key, voteType), key.entityId, key.voteEntity, counted) - {key}
         == VotesOfType(votes, key.entityId, key.voteEntity, counted) - {key}
  {
  }

  lemma CardinalityAround(s: set<VoteKey>, k: VoteKey)
    ensures |s| == |s - {k}| + (if k in s then 1 else 0)
  {
    if k in s {
      assert s == (s - {k}) + {k};
    } else {
      assert s - {k} == s;
    }
  }

  /** What handleVote() answers. */
  datatype VoteResponse = VoteResponse(message: string, likes: nat, dislikes: nat, userVote: Option<VoteType>)

  /** The votes table as VoteRepository reads and writes it. */
  class VoteStore {
    var votes: VoteTable

    constructor ()
      ensures votes == map[]
    {
      votes := map[];
    }

    /** findExistingVote(). */
    function FindExistingVote(userId: int, entityId: int, voteEntity: VoteEntity): (existing: Option<VoteType>)
      reads this
      ensures existing.Some? <==> VoteKey(userId, entityId, voteEntity) in votes
      ensures existing.Some? ==> existing.value == votes[VoteKey(userId, entityId, voteEntity)]
    {
      var key := VoteKey(userId, entityId, voteEntity);
      if key in votes then Some(votes[key]) else None
    }

    /** save(): inserts a vote or updates the type of the existing one. */
    method Save(key: VoteKey, voteType: VoteType)
      modifies this
      ensures votes == old(votes)[key := voteType]
    {
      votes := votes[key := voteType];
    }

    /** remove(). */
    method Remove(key: VoteKey)
      modifies this
      ensures votes == old(votes) - {key}
    {
      votes := votes - {key};
    }
  }

  /**
   * handleVote(): toggles the user's vote on the article and answers with the
   * counts after the change and the user's vote as it now stands.
   */
  method HandleVote(store: VoteStore, articleId: int, userId: int, voteType: VoteType) returns (response: VoteResponse)
    modifies store
    ensures var key := VoteKey(userId, articleId, ArticleEntity);
            store.votes == AfterVote(old(store.votes), key, voteType)
    ensures response.likes == Likes(store.votes, articleId, ArticleEntity)
    ensures response.dislikes == Dislikes(store.votes, articleId, ArticleEntity)
    ensures var key := VoteKey(userId, articleId, ArticleEntity);
            response.userVote == if key in store.votes then Some(store.votes[key]) else None
    ensures var key := VoteKey(userId, articleId, ArticleEntity);
            response.message == if key in old(store.votes) && old(store.votes)[key] == voteType then "Vote removed"
                                else if key in old(store.votes) then (if voteType == Like then "Changed to like" else "Changed to dislike")
                                else if voteType == Like then "Article liked" else "Article disliked"
  {
    var key := VoteKey(userId, articleId, ArticleEntity);
    var existing := store.FindExistingVote(userId, articleId, ArticleEntity);
    var message: string;
    var userVote: Option<VoteType>;
    if existing.Some? {
      if existing.value == voteType {
        store.Remove(key);
        message := "Vote removed";
        userVote := None;
      } else {
        store.Save(key, voteType);
        message := if voteType == Like then "Changed to like" else "Changed to dislike";
        userVote := Some(voteType);
      }
    } else {
      store.Save(key, voteType);
      message := if voteType == Like then "Article liked" else "Article disliked";
      userVote := Some(voteType);
    }
    response := VoteResponse(message, Likes(store.votes, articleId, ArticleEntity),
                             Dislikes(store.votes, articleId, ArticleEntity), userVote);
  }
}
