/**
 * Article and Tag: the article's status machine and publication time, its
 * tag collection, and the usage counter every tag keeps of the articles
 * that carry it.
 */
module Articles {
  import opened Wrappers
  import opened Text
  import opened Rows
  import opened Counters

  /** ArticleStatus. */
  datatype ArticleStatus = Draft | Scheduled | Published | Archived

  /** Tag: a trimmed name and a usage counter. */
  class Tag {
    var name: string
    var usageCount: int
    /** The inverse side of Article::$tags, as Doctrine last loaded it. */
    var articles: seq<Article>

    /** Tag::create(): the name goes through the trim() hook, the counter starts at 0. */
    constructor Create(name: string)
      ensures this.name == Trim(name) && usageCount == 0 && articles == []
    {
      this.name := Trim(name);
      usageCount := 0;
      articles := [];
    }

    /** updateName(): the new name goes through the trim() hook; the counter stays. */
    method UpdateName(newName: string)
      modifies this
      ensures name == Trim(newName)
      ensures usageCount == old(usageCount) && articles == old(articles)
    {
      name := Trim(newName);
    }

    /** incrementUsage(). */
    method IncrementUsage()
      modifies this
      ensures usageCount == old(usageCount) + 1
      ensures name == old(name) && articles == old(articles)
    {
      usageCount := usageCount + 1;
    }

    /** decrementUsage(): only a positive counter goes down. */
    method DecrementUsage()
      modifies this
      ensures usageCount == DecrementIfPositive(old(usageCount))
      ensures name == old(name) && articles == old(articles)
    {
      if usageCount > 0 {
        usageCount := usageCount - 1;
      }
    }

    /** recalculateUsage(): the counter becomes the number of loaded articles. */
    method RecalculateUsage()
      modifies this
      ensures usageCount == |articles|
      ensures name == old(name) && articles == old(articles)
    {
      usageCount := |articles|;
    }
  }

  /** The tag list after Collection::contains() / add(): unchanged when the tag is there already. */
  function WithTag(tags: seq<Tag>, tag: Tag): (r: seq<Tag>)
    ensures tag in r
    ensures forall t :: t in tags ==> t in r
    ensures forall t :: t in r ==> t in tags || t == tag
    ensures tag in tags ==> r == tags
    ensures tag !in tags ==> r == tags + [tag]
  {
    if tag in tags then tags else tags + [tag]
  }

  /** addTag() is idempotent and keeps the collection free of duplicates. */
  lemma WithTagIdempotent(tags: seq<Tag>, tag: Tag)
    requires NoDuplicates(tags)
    ensures WithTag(WithTag(tags, tag), tag) == WithTag(tags, tag)
    ensures NoDuplicates(WithTag(tags, tag))
  {
  }

  /** Adding and then removing a tag the article did not carry gives the old collection back. */
  lemma {:induction false} RemoveUndoesAdd(tags: seq<Tag>, tag: Tag)
    requires tag !in tags
    ensures RemoveFirst(WithTag(tags, tag), tag) == tags
  {
    if |tags| > 0 {
      assert WithTag(tags, tag) == [tags[0]] + (tags[1..] + [tag]);
      RemoveUndoesAdd(tags[1..], tag);
      assert tags == [tags[0]] + tags[1..];
    }
  }

  /** Article: status, publication time and tags. */
  class Article {
    var status: ArticleStatus
    /** publishedAt as a Unix timestamp, or null. */
    var publishedAt: Option<int>
    var tags: seq<Tag>

    /** Every tag is held once. */
    ghost predicate Valid()
      reads this
    {
      NoDuplicates(tags)
    }

    /** A new article: a draft, never published, without tags. */
    constructor ()
      ensures Valid()
      ensures status == Draft && publishedAt == None && tags == []
    {
      status := Draft;
      publishedAt := None;
      tags := [];
    }

    /** addTag(): a tag the article does not carry yet is added and counts one more use. */
    method AddTag(tag: Tag)
      requires Valid()
      modifies this, tag
      ensures Valid()
      ensures tags == WithTag(old(tags), tag)
      ensures tag.usageCount == if tag in old(tags) then old(tag.usageCount) else old(tag.usageCount) + 1
      ensures status == old(status) && publishedAt == old(publishedAt)
      ensures tag.name == old(tag.name) && tag.articles == old(tag.articles)
    {
      if tag !in tags {
        tags := tags + [tag];
        tag.IncrementUsage();
      }
    }

    /** removeTag(): a tag the article carries is removed and counts one use less. */
    method RemoveTag(tag: Tag)
      requires Valid()
      modifies this, tag
      ensures Valid()
      ensures tags == RemoveFirst(old(tags), tag)
      ensures tag.usageCount == if tag in old(tags) then DecrementIfPositive(old(tag.usageCount)) else old(tag.usageCount)
      ensures status == old(status) && publishedAt == old(publishedAt)
      ensures tag.name == old(tag.name) && tag.articles == old(tag.articles)
    {
      var found := tag in tags;
      var rest := RemoveFirst(tags, tag);
      assert NoDuplicates(rest) by {
        RemoveFirstOfDistinct(tags, tag);
      }
      tags := rest;
      if found {
        tag.DecrementUsage();
      }
    }

    /** clearTags(): every tag the article carried counts one use less, and the collection is emptied. */
    method ClearTags()
      requires Valid()
      modifies this, set t | t in tags
      ensures Valid()
      ensures tags == []
      ensures forall t :: t in old(tags) ==> t.usageCount == DecrementIfPositive(old(t.usageCount))
      ensures forall t :: t in old(tags) ==> t.name == old(t.name) && t.articles == old(t.articles)
      ensures status == old(status) && publishedAt == old(publishedAt)
    {
      var i := 0;
      while i < |tags|
        invariant 0 <= i <= |tags|
        invariant tags == old(tags) && status == old(status) && publishedAt == old(publishedAt)
        invariant forall k :: 0 <= k < i ==> tags[k].usageCount == DecrementIfPositive(old(tags[k].usageCount))
        invariant forall k :: i <= k < |tags| ==> tags[k].usageCount == old(tags[k].usageCount)
        invariant forall t :: t in tags ==> t.name == old(t.name) && t.articles == old(t.articles)
      {
        assert forall k :: 0 <= k < |tags| && k != i ==> tags[k] != tags[i];
        tags[i].DecrementUsage();
        i := i + 1;
      }
      tags := [];
    }

    /** publish(): published at the current time. */
    method Publish(now: int)
      modifies this
      ensures status == Published && publishedAt == Some(now)
      ensures tags == old(tags)
    {
      status := Published;
      publishedAt := Some(now);
    }

    /** schedule(): to be published at `publishAt`. */
    method Schedule(publishAt: int)
      modifies this
      ensures status == Scheduled && publishedAt == Some(publishAt)
      ensures tags == old(tags)
    {
      status := Scheduled;
      publishedAt := Some(publishAt);
    }

    /** archive(): only the status changes; the publication time is kept. */
    method Archive()
      modifies this
      ensures status == Archived
      ensures publishedAt == old(publishedAt) && tags == old(tags)
    {
      status := Archived;
    }

    /** toDraft(): back to draft, and the publication time is forgotten. */
    method ToDraft()
      modifies this
      ensures status == Draft && publishedAt == None
      ensures tags == old(tags)
    {
      status := Draft;
      publishedAt := None;
    }

    function IsPublished(): (published: bool)
      reads this
      ensures published <==> status == Published
    {
      status == Published
    }

    function IsScheduled(): (scheduled: bool)
      reads this
      ensures scheduled <==> status == Scheduled
    {
      status == Scheduled
    }

    /** shouldPublishNow(): scheduled, with a publication time that has come. */
    function ShouldPublishNow(now: int): (due: bool)
      reads this
      ensures due <==> IsScheduled() && publishedAt.Some? && publishedAt.value <= now
      ensures due ==> !IsPublished()
    {
      ShouldPublishAt(status, publishedAt, now)
    }
  }

  /** The condition shouldPublishNow() tests, on the two fields it reads. */
  function ShouldPublishAt(status: ArticleStatus, publishedAt: Option<int>, now: int): (due: bool)
    ensures due <==> status == Scheduled && publishedAt.Some? && publishedAt.value <= now
  {
    status == Scheduled && publishedAt.Some? && publishedAt.value <= now
  }

  /**
   * A scheduled article becomes due once its time comes and stays due as the
   * clock advances; publishing it (or any other transition) ends that.
   */
  lemma ScheduledBecomesDue(publishAt: int, now: int, later: int)
    requires now <= later
    ensures ShouldPublishAt(Scheduled, Some(publishAt), now) <==> publishAt <= now
    ensures ShouldPublishAt(Scheduled, Some(publishAt), now) ==> ShouldPublishAt(Scheduled, Some(publishAt), later)
    ensures !ShouldPublishAt(Published, Some(publishAt), now) && !ShouldPublishAt(Draft, None, now)
  {
  }

  // ---------------------------------------------------------------------------
  // Usage counting across articles

  /** The number of tag collections that hold `t`. */
  ghost function Holders(tagLists: seq<seq<Tag>>, t: Tag): (n: nat)
    ensures n <= |tagLists|
  {
    if |tagLists| == 0 then 0
    else (if t in tagLists[0] then 1 else 0) + Holders(tagLists[1..], t)
  }

  /** Replacing one article's collection changes each tag's holder count by what changed in it. */
  lemma {:induction false} HoldersAfterReplace(tagLists: seq<seq<Tag>>, i: nat, tags: seq<Tag>, t: Tag)
    requires i < |tagLists|
    ensures Holders(tagLists[i := tags], t)
         == Holders(tagLists, t) - (if t in tagLists[i] then 1 else 0) + (if t in tags then 1 else 0)
  {
    var replaced := tagLists[i := tags];
    if i > 0 {
      assert replaced[1..] == tagLists[1..][i - 1 := tags];
      HoldersAfterReplace(tagLists[1..], i - 1, tags, t);
    } else {
      assert replaced[1..] == tagLists[1..];
    }
  }

  /**
   * A counter that equals the number of articles holding the tag stays equal
   * to it through addTag(), removeTag() and clearTags() on any article: each
   * changes the counter exactly when it changes the holder count.
   */
  lemma AddTagKeepsUsageExact(tagLists: seq<seq<Tag>>, i: nat, tag: Tag, count: int)
    requires i < |tagLists| && count == Holders(tagLists, tag)
    ensures (if tag in tagLists[i] then count else count + 1)
         == Holders(tagLists[i := WithTag(tagLists[i], tag)], tag)
  {
    HoldersAfterReplace(tagLists, i, WithTag(tagLists[i], tag), tag);
  }

  lemma RemoveTagKeepsUsageExact(tagLists: seq<seq<Tag>>, i: nat, tag: Tag, count: int)
    requires i < |tagLists| && count == Holders(tagLists, tag)
    requires NoDuplicates(tagLists[i])
    ensures (if tag in tagLists[i] then DecrementIfPositive(count) else count)
         == Holders(tagLists[i := RemoveFirst(tagLists[i], tag)], tag)
  {
    RemoveFirstOfDistinct(tagLists[i], tag);
    HoldersAfterReplace(tagLists, i, RemoveFirst(tagLists[i], tag), tag);
    if tag in tagLists[i] {
      HeldMeansCounted(tagLists, i, tag);
    }
  }

  lemma ClearTagsKeepsUsageExact(tagLists: seq<seq<Tag>>, i: nat, t: Tag, count: int)
    requires i < |tagLists| && count == Holders(tagLists, t)
    ensures (if t in tagLists[i] then DecrementIfPositive(count) else count) == Holders(tagLists[i := []], t)
  {
    HoldersAfterReplace(tagLists, i, [], t);
    if t in tagLists[i] {
      HeldMeansCounted(tagLists, i, t);
    }
  }

  /** A tag some article holds has a positive holder count. */
  lemma {:induction false} HeldMeansCounted(tagLists: seq<seq<Tag>>, i: nat, t: Tag)
    requires i < |tagLists| && t in tagLists[i]
    ensures Holders(tagLists, t) > 0
  {
    if i > 0 {
      HeldMeansCounted(tagLists[1..], i - 1, t);
    }
  }
}
