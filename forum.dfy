/**
 * ForumThread and ForumCategory: status and flag transitions, the counters
 * that never go below zero, and the last-activity fields.
 */
module Forum {
  import opened Wrappers
  import opened Text
  import opened Counters

  /** ThreadStatus. */
  datatype ThreadStatus = Open | Closed | Locked

  /** ThreadStatus::canReply(): only an open thread takes replies. */
  predicate CanReplyIn(status: ThreadStatus) {
    status == Open
  }

  /** Closing or locking a thread stops replies; opening it lets them in again. */
  lemma OnlyOpenThreadsTakeReplies(status: ThreadStatus)
    ensures CanReplyIn(status) <==> status != Closed && status != Locked
  {
  }

  /** Every field of a ForumThread, as one value. */
  datatype ThreadFields = ThreadFields(
    categoryId: int,
    userId: int,
    title: string,
    content: string,
    status: ThreadStatus,
    isPinned: bool,
    isHot: bool,
    viewCount: int,
    replyCount: int,
    lastPostId: Option<int>,
    lastPostUserId: Option<int>,
    lastPostAt: Option<int>)

  /** ForumThread. */
  class ForumThread {
    var categoryId: int
    var userId: int
    var title: string
    var content: string
    var status: ThreadStatus
    var isPinned: bool
    var isHot: bool
    var viewCount: int
    var replyCount: int
    var lastPostId: Option<int>
    var lastPostUserId: Option<int>
    /** lastPostAt as a Unix timestamp, or null. */
    var lastPostAt: Option<int>

    /** The counters start at zero and no method below takes them negative. */
    ghost predicate Valid()
      reads this
    {
      viewCount >= 0 && replyCount >= 0
    }

    /** The whole state of the thread; each method states its new state against the old one. */
    function Fields(): (fields: ThreadFields)
      reads this
      ensures fields.status == status && fields.isPinned == isPinned && fields.isHot == isHot
      ensures fields.viewCount == viewCount && fields.replyCount == replyCount
    {
      ThreadFields(categoryId, userId, title, content, status, isPinned, isHot,
                   viewCount, replyCount, lastPostId, lastPostUserId, lastPostAt)
    }

    /**
     * ForumThread::create(): open, unpinned, not hot, no views or replies,
     * and the author as the last poster at the current time.
     */
    constructor Create(categoryId: int, userId: int, title: string, content: string, now: int)
      ensures Valid()
      ensures Fields() == ThreadFields(categoryId, userId, Trim(title), Trim(content), ThreadStatus.Open,
                                       false, false, 0, 0, None, Some(userId), Some(now))
    {
      this.categoryId := categoryId;
      this.userId := userId;
      this.title := Trim(title);
      this.content := Trim(content);
      status := ThreadStatus.Open;
      isPinned := false;
      isHot := false;
      viewCount := 0;
      replyCount := 0;
      lastPostId := None;
      lastPostUserId := Some(userId);
      lastPostAt := Some(now);
    }

    /** open(): the thread takes replies again; nothing else changes. */
    method Open()
      modifies this
      ensures CanReply()
      ensures Fields() == old(Fields()).(status := ThreadStatus.Open)
      ensures old(Valid()) ==> Valid()
    {
      status := ThreadStatus.Open;
    }

    /** close(): no more replies; nothing else changes. */
    method Close()
      modifies this
      ensures !CanReply()
      ensures Fields() == old(Fields()).(status := ThreadStatus.Closed)
      ensures old(Valid()) ==> Valid()
    {
      status := ThreadStatus.Closed;
    }

    /** lock(): no more replies; nothing else changes. */
    method Lock()
      modifies this
      ensures !CanReply()
      ensures Fields() == old(Fields()).(status := ThreadStatus.Locked)
      ensures old(Valid()) ==> Valid()
    {
      status := ThreadStatus.Locked;
    }

    /** pin(). */
    method Pin()
      modifies this
      ensures Fields() == old(Fields()).(isPinned := true)
      ensures old(Valid()) ==> Valid()
    {
      isPinned := true;
    }

    /** unpin(). */
    method Unpin()
      modifies this
      ensures Fields() == old(Fields()).(isPinned := false)
      ensures old(Valid()) ==> Valid()
    {
      isPinned := false;
    }

    /** markAsHot(). */
    method MarkAsHot()
      modifies this
      ensures Fields() == old(Fields()).(isHot := true)
      ensures old(Valid()) ==> Valid()
    {
      isHot := true;
    }

    /** unmarkAsHot(). */
    method UnmarkAsHot()
      modifies this
      ensures Fields() == old(Fields()).(isHot := false)
      ensures old(Valid()) ==> Valid()
    {
      isHot := false;
    }

    /** incrementViewCount(). */
    method IncrementViewCount()
      modifies this
      ensures Fields() == old(Fields()).(viewCount := old(viewCount) + 1)
      ensures old(Valid()) ==> Valid()
    {
      viewCount := viewCount + 1;
    }

    /** incrementReplyCount(). */
    method IncrementReplyCount()
      modifies this
      ensures Fields() == old(Fields()).(replyCount := old(replyCount) + 1)
      ensures old(Valid()) ==> Valid()
    {
      replyCount := replyCount + 1;
    }

    /** decrementReplyCount(): max(0, replyCount - 1), so the counter is never negative afterwards. */
    method DecrementReplyCount()
      modifies this
      ensures Fields() == old(Fields()).(replyCount := FloorDecrement(old(replyCount)))
      ensures replyCount >= 0
      ensures old(viewCount) >= 0 ==> Valid()
    {
      replyCount := FloorDecrement(replyCount);
    }

    /** updateLastPost(): the three last-post fields, each possibly null. */
    method UpdateLastPost(postId: Option<int>, postUserId: Option<int>, postAt: Option<int>)
      modifies this
      ensures Fields() == old(Fields()).(lastPostId := postId, lastPostUserId := postUserId, lastPostAt := postAt)
      ensures old(Valid()) ==> Valid()
    {
      lastPostId := postId;
      lastPostUserId := postUserId;
      lastPostAt := postAt;
    }

    /** canReply(): only an open thread takes replies. */
    function CanReply(): (canReply: bool)
      reads this
      ensures canReply <==> status != Closed && status != Locked
      ensures canReply <==> status == ThreadStatus.Open
    {
      CanReplyIn(status)
    }

    /** isOpen(): the same test as canReply(), under its own name. */
    function IsOpen(): (open: bool)
      reads this
      ensures open <==> status == ThreadStatus.Open
      ensures open <==> CanReply()
    {
      status == ThreadStatus.Open
    }

    /** updateTitle(): the title goes through the trim() hook; nothing else modelled changes. */
    method UpdateTitle(newTitle: string)
      modifies this
      ensures Fields() == old(Fields()).(title := Trim(newTitle))
      ensures old(Valid()) ==> Valid()
    {
      title := Trim(newTitle);
    }

    /** updateContent(): the content goes through the trim() hook; nothing else changes. */
    method UpdateContent(newContent: string)
      modifies this
      ensures Fields() == old(Fields()).(content := Trim(newContent))
      ensures old(Valid()) ==> Valid()
    {
      content := Trim(newContent);
    }

    /** moveToCategory(): the thread takes the category's id; nothing else changes. */
    method MoveToCategory(category: ForumCategory)
      modifies this
      ensures Fields() == old(Fields()).(categoryId := category.id)
      ensures old(Valid()) ==> Valid()
    {
      categoryId := category.id;
    }
  }

  /** Every field of a ForumCategory except its constant id, as one value. */
  datatype CategoryFields = CategoryFields(
    name: string,
    description: Option<string>,
    icon: Option<string>,
    parentId: Option<int>,
    parent: Option<ForumCategory>,
    position: int,
    isLocked: bool,
    threadCount: int,
    postCount: int,
    lastThreadId: Option<int>,
    lastPostAt: Option<int>)

  /** ForumCategory. */
  class ForumCategory {
    /** The primary key the database assigned. */
    const id: int
    var name: string
    var description: Option<string>
    var icon: Option<string>
    var parentId: Option<int>
    var parent: Option<ForumCategory>
    var position: int
    var isLocked: bool
    var threadCount: int
    var postCount: int
    var lastThreadId: Option<int>
    /** lastPostAt as a Unix timestamp, or null. */
    var lastPostAt: Option<int>

    /** The counters start at zero and no method below takes them negative. */
    ghost predicate Valid()
      reads this
    {
      threadCount >= 0 && postCount >= 0
    }

    /** The whole state of the category; each method states its new state against the old one. */
    function Fields(): (fields: CategoryFields)
      reads this
      ensures fields.parentId == parentId && fields.isLocked == isLocked
      ensures fields.threadCount == threadCount && fields.postCount == postCount
    {
      CategoryFields(name, description, icon, parentId, parent, position, isLocked,
                     threadCount, postCount, lastThreadId, lastPostAt)
    }

    /**
     * ForumCategory::create(): trimmed name and description, the given
     * parent, unlocked, with empty counters and no activity yet.
     */
    constructor Create(id: int, name: string, description: Option<string>, icon: Option<string>,
                       parent: Option<ForumCategory>, position: int)
      ensures Valid()
      ensures this.id == id
      ensures Fields() == CategoryFields(Trim(name), TrimmedDescription(description), icon,
                                         if parent.Some? then Some(parent.value.id) else None, parent,
                                         position, false, 0, 0, None, None)
    {
      this.id := id;
      this.name := Trim(name);
      this.description := TrimmedDescription(description);
      this.icon := icon;
      this.parent := parent;
      this.parentId := if parent.Some? then Some(parent.value.id) else None;
      this.position := position;
      isLocked := false;
      threadCount := 0;
      postCount := 0;
      lastThreadId := None;
      lastPostAt := None;
    }

    /** isRoot(): no parent id. */
    function IsRoot(): (root: bool)
      reads this
      ensures root <==> parentId.None?
    {
      parentId.None?
    }

    /** setParent(): the parent and its id, or null for both; nothing else changes. */
    method SetParent(newParent: Option<ForumCategory>)
      modifies this
      ensures Fields() == old(Fields()).(parent := newParent,
                                         parentId := if newParent.Some? then Some(newParent.value.id) else None)
      ensures IsRoot() <==> newParent.None?
      ensures old(Valid()) ==> Valid()
    {
      parent := newParent;
      parentId := if newParent.Some? then Some(newParent.value.id) else None;
    }

    /** updateName(): the name goes through the trim() hook; nothing else modelled changes. */
    method UpdateName(newName: string)
      modifies this
      ensures Fields() == old(Fields()).(name := Trim(newName))
      ensures old(Valid()) ==> Valid()
    {
      name := Trim(newName);
    }

    /** updateDescription(): the hook trims a description and keeps null as null. */
    method UpdateDescription(newDescription: Option<string>)
      modifies this
      ensures Fields() == old(Fields()).(description := TrimmedDescription(newDescription))
      ensures old(Valid()) ==> Valid()
    {
      description := TrimmedDescription(newDescription);
    }

    /** updateIcon(). */
    method UpdateIcon(newIcon: Option<string>)
      modifies this
      ensures Fields() == old(Fields()).(icon := newIcon)
      ensures old(Valid()) ==> Valid()
    {
      icon := newIcon;
    }

    /** setPosition(). */
    method SetPosition(newPosition: int)
      modifies this
      ensures Fields() == old(Fields()).(position := newPosition)
      ensures old(Valid()) ==> Valid()
    {
      position := newPosition;
    }

    /** lock(). */
    method Lock()
      modifies this
      ensures Fields() == old(Fields()).(isLocked := true)
      ensures old(Valid()) ==> Valid()
    {
      isLocked := true;
    }

    /** unlock(). */
    method Unlock()
      modifies this
      ensures Fields() == old(Fields()).(isLocked := false)
      ensures old(Valid()) ==> Valid()
    {
      isLocked := false;
    }

    /** incrementThreadCount(). */
    method IncrementThreadCount()
      modifies this
      ensures Fields() == old(Fields()).(threadCount := old(threadCount) + 1)
      ensures old(Valid()) ==> Valid()
    {
      threadCount := threadCount + 1;
    }

    /** decrementThreadCount(): max(0, threadCount - 1). */
    method DecrementThreadCount()
      modifies this
      ensures Fields() == old(Fields()).(threadCount := FloorDecrement(old(threadCount)))
      ensures threadCount >= 0
      ensures old(postCount) >= 0 ==> Valid()
    {
      threadCount := FloorDecrement(threadCount);
    }

    /** incrementPostCount(). */
    method IncrementPostCount()
      modifies this
      ensures Fields() == old(Fields()).(postCount := old(postCount) + 1)
      ensures old(Valid()) ==> Valid()
    {
      postCount := postCount + 1;
    }

    /** decrementPostCount(): max(0, postCount - 1). */
    method DecrementPostCount()
      modifies this
      ensures Fields() == old(Fields()).(postCount := FloorDecrement(old(postCount)))
      ensures postCount >= 0
      ensures old(threadCount) >= 0 ==> Valid()
    {
      postCount := FloorDecrement(postCount);
    }

    /** updateLastActivity(): only the last thread and the last post time. */
    method UpdateLastActivity(threadId: Option<int>, postAt: Option<int>)
      modifies this
      ensures Fields() == old(Fields()).(lastThreadId := threadId, lastPostAt := postAt)
      ensures old(Valid()) ==> Valid()
    {
      lastThreadId := threadId;
      lastPostAt := postAt;
    }
  }

  /** The set-hook on ForumCategory::$description: trimmed unless null. */
  function TrimmedDescription(description: Option<string>): (r: Option<string>)
    ensures r.None? <==> description.None?
    ensures r.Some? ==> r.value == Trim(description.value)
  {
    if description.Some? then Some(Trim(description.value)) else None
  }

  /** Storing a description twice stores the same text. */
  lemma TrimmedDescriptionIdempotent(description: Option<string>)
    ensures TrimmedDescription(TrimmedDescription(description)) == TrimmedDescription(description)
  {
    if description.Some? {
      TrimIdempotent(description.value);
    }
  }
}
