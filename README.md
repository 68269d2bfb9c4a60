# Role-based authorization and community entities, modelled in Dafny

This project models the core of a PHP (Symfony/Doctrine) community backend.

The centre is its role-based authorization engine:

- **Tables.** Permissions and roles, the role hierarchy (parent → child edges), the role ↔ rank links and the role ↔ permission links.
- **Hierarchy.** Its breadth-first closure and cycle check.
- **Permission resolver.** It answers "may a user of rank R do P?" and "which permissions does rank R hold?" from those tables, and caches the answers.
- **Permission voter.** It turns a `PERMISSION_<name>` security attribute into a resolver call for `<name>`.
- **Admin endpoints.** They create roles and permissions and link them to ranks, to each other and to parents.

Around that core it models the smaller entities whose fields the application updates in place:

- an article's status and its tag collection, with the usage counter on each tag;
- the article like/dislike toggle;
- forum threads and categories;
- guild members and their levels;
- bans;
- a user's currency balance;
- rooms;
- the refresh-token service, with rotation and a per-user session limit.

## How the model is built

- **Tables.** A database table is a `seq` of rows in insertion order. A repository query is a function over that sequence, and its contract relates the result to the rows.
- **MySQL name comparisons.** Name lookups use the `utf8mb4_unicode_ci` column collation. That collation is modelled by `Text.CollationKey`, which drops trailing spaces and lower-cases ASCII letters.
- **Loops.** The hierarchy traversal works step by step on its lists, so it is a `method` with a `while` loop. Its invariants prove that the result is exactly the set of roles reachable from the start roles (`RoleHierarchy.InClosure`). Revoking a list of sessions and clearing an article's tags are loops as well.
- **Classes.** Entities the source mutates are classes whose methods state their whole new state (in the forum and room classes, as the old `Fields()` snapshot with the changed fields replaced): `Permission`, `Role`, `Tag`, `Article`, `ForumThread`, `ForumCategory`, `GuildMember`, `UserCurrency` and `Room`. The resolver's cache and the refresh-token table are class fields.
- **Values.** `Ban` and the rows of the link tables are datatypes, because only their factory assigns their fields.
- **Controllers.** The admin controllers are methods over an `AuthorizationDb` object that holds the tables. Each outcome the controller can return has its own `ensures` clause: 201, 404 and 422.
- **Parameters.** The clock and the random token generator are parameters (`now`, `newToken`). So is the set of existing users, which `consumeRefreshToken` checks.
- **Names.** The lower-casing and upper-casing name hooks are PHP's ASCII-only `strtolower`/`strtoupper`. The trim hooks strip PHP's `trim` character set: space, tab, newline, carriage return, NUL and vertical tab.

### Where the specification and the code differ

- **Empty permission names.** The specification lets an "empty/blank" permission name through. The code tests PHP's `empty()`, which holds only for `""` and `"0"`, so a name of blanks is looked up like any other. The model follows the code (`Text.PhpEmpty`).
- **Permissions for a rank.** The specification describes them as a set. The code returns a list with one entry per matching active permission row. The model keeps the list.

## Model

| member | source | states |
|---|---|---|
| RoleHierarchy.ChildRoleIds | src/Domain/Authorization/Repository/RoleHierarchyRepository.php:66-76 | a role id is listed exactly when there is an edge from the parent to it |
| RoleHierarchy.EnqueueChildren | src/Domain/Authorization/Repository/RoleHierarchyRepository.php:48-55 | one loop step: every child joins the visited list, and exactly the children not seen before join the work queue |
| RoleHierarchy.AllRoleIdsWithHierarchy | src/Domain/Authorization/Repository/RoleHierarchyRepository.php:28-59 | no start roles gives no result; otherwise the result has no duplicates, contains every start role, and contains a role exactly when it is reachable from a start role through the hierarchy, even when the hierarchy has a cycle |
| RoleHierarchy.WouldCreateCycle | src/Domain/Authorization/Repository/RoleHierarchyRepository.php:81-92 | adding parent → child closes a loop exactly when the parent is reachable from the child; a self-edge always does |
| RoleHierarchy.HierarchyExists | src/Domain/Authorization/Repository/RoleHierarchyRepository.php:97-103 | true exactly when the edge is stored |
| RoleHierarchy.AcyclicHasNoCycle | src/Domain/Authorization/Repository/RoleHierarchyRepository.php:81-92 | in an acyclic hierarchy no path of two or more roles returns to where it started |
| RoleHierarchy.AddEdgeKeepsAcyclic | src/Presentation/Controller/Api/Authorization/RoleController.php:109-135 | an edge the cycle check lets through keeps an acyclic hierarchy acyclic |
| RoleHierarchy.RejectedEdgeClosesLoop | src/Presentation/Controller/Api/Authorization/RoleController.php:109-135 | an edge the cycle check rejects would indeed make the hierarchy cyclic |
| RoleHierarchy.ReachesWithEdge | src/Domain/Authorization/Repository/RoleHierarchyRepository.php:81-92 | a path in the hierarchy with one more edge either connects its ends in the old hierarchy, or reaches the new edge's parent and then continues from its child |
| RolePermissions.CountAssigned | src/Domain/Authorization/Repository/RolePermissionRepository.php:26-42 | the COUNT query is positive exactly when some row links the permission to one of the roles |
| RolePermissions.IsPermissionAssigned | src/Domain/Authorization/Repository/RolePermissionRepository.php:26-42 | false for an empty role list; otherwise true exactly when one of the roles holds the permission |
| RolePermissions.FindByRoleAndPermission | src/Domain/Authorization/Repository/RolePermissionRepository.php:47-53 | finds a row exactly when the link exists, and returns the index of that row |
| RolePermissions.PermissionIdsByRoles | src/Domain/Authorization/Repository/RolePermissionRepository.php:61-75 | empty for no roles; otherwise the distinct ids of exactly the permissions some listed role holds |
| RolePermissions.AssignedIffListed | src/Domain/Authorization/Repository/RolePermissionRepository.php:26-75 | the assignment test and the id list agree for every permission |
| RoleRanks.RoleIdsByRank | src/Domain/Authorization/Repository/RoleRankRepository.php:26-36 | a role is listed exactly when it is linked to the rank |
| RoleRanks.FindByRoleAndRank | src/Domain/Authorization/Repository/RoleRankRepository.php:41-47 | finds a row exactly when the link exists |
| RoleRanks.NoRolesNoPermissions | src/Domain/Authorization/Repository/RoleRankRepository.php:56-60 | a rank without roles is granted no permission |
| RoleRanks.ListedIdsAreGranted | src/Domain/Authorization/Repository/RoleRankRepository.php:54-76 | the ids collected over the hierarchy closure are exactly the ids granted to the rank through its roles and their descendants |
| RoleRanks.PermissionNamesByRank | src/Domain/Authorization/Repository/RoleRankRepository.php:54-76 | returns the names of the active permissions granted to the rank, and every name returned belongs to an active permission |
| AuthorizationEntities.NameHooksIdempotent | src/Domain/Authorization/Entity/Permission.php:32-35 | storing a stored permission or role name again leaves it unchanged |
| AuthorizationEntities.StoredNamesAreTrimmed | src/Domain/Authorization/Entity/Role.php:32-35 | a stored name never begins or ends with a trimmable character |
| AuthorizationEntities.Permission.Create | src/Domain/Authorization/Entity/Permission.php:95-102 | a new permission has the upper-cased trimmed name, the description and the active status |
| AuthorizationEntities.Permission.IsActive | src/Domain/Authorization/Entity/Permission.php:66-69 | true exactly when the status is active |
| AuthorizationEntities.Permission.Activate | src/Domain/Authorization/Entity/Permission.php:71-75 | the permission is active afterwards; its name and description are kept |
| AuthorizationEntities.Permission.Deactivate | src/Domain/Authorization/Entity/Permission.php:77-81 | the permission is inactive afterwards; its name and description are kept |
| AuthorizationEntities.Permission.UpdateName | src/Domain/Authorization/Entity/Permission.php:83-87 | the name goes through the upper(trim) hook; nothing else changes |
| AuthorizationEntities.Permission.UpdateDescription | src/Domain/Authorization/Entity/Permission.php:89-93 | only the description changes |
| AuthorizationEntities.Role.Create | src/Domain/Authorization/Entity/Role.php:103-110 | a new role has the lower-cased trimmed name, the description and the active status |
| AuthorizationEntities.Role.IsActive | src/Domain/Authorization/Entity/Role.php:74-77 | true exactly when the status is active |
| AuthorizationEntities.Role.Activate | src/Domain/Authorization/Entity/Role.php:79-83 | the role is active afterwards; its name and description are kept |
| AuthorizationEntities.Role.Deactivate | src/Domain/Authorization/Entity/Role.php:85-89 | the role is inactive afterwards; its name and description are kept |
| AuthorizationEntities.Role.UpdateName | src/Domain/Authorization/Entity/Role.php:91-95 | the name goes through the lower(trim) hook; nothing else changes |
| AuthorizationEntities.Role.UpdateDescription | src/Domain/Authorization/Entity/Role.php:97-101 | only the description changes |
| AuthorizationEntities.FindPermissionByName | src/Domain/Authorization/Repository/PermissionRepository.php:22-25 | finds a permission whose name equals the key under the column collation, and finds none exactly when no row matches |
| AuthorizationEntities.FindRoleByName | src/Domain/Authorization/Repository/RoleRepository.php:22-25 | finds a role whose name equals the key under the column collation, and finds none exactly when no row matches |
| AuthorizationEntities.FindRole | src/Presentation/Controller/Api/Authorization/RoleController.php:143-147 | find($id): the row with that primary key; none exactly when no row has it |
| AuthorizationEntities.FindPermission | src/Presentation/Controller/Api/Authorization/PermissionController.php:132-136 | find($id): the row with that primary key; none exactly when no row has it |
| AuthorizationEntities.FirstNamed | migrations/Version20250101000001.php:41 | returns the first row whose name matches under the collation, and nothing exactly when no row matches |
| AuthorizationEntities.ActivePermissionNames | src/Domain/Authorization/Repository/RoleRankRepository.php:73-75 | a name is listed exactly when an active permission with one of the ids carries it |
| AuthorizationEntities.NoIdsNoNames | src/Domain/Authorization/Repository/RoleRankRepository.php:69-71 | no ids give no names |
| PermissionResolution.DoCheckPermission | src/Infrastructure/Security/Service/PermissionResolver.php:77-104 | allows an unknown or inactive permission; otherwise allows exactly when a role of the rank, or a descendant of one, holds the permission |
| PermissionResolution.GrantedIffAssigned | src/Infrastructure/Security/Service/PermissionResolver.php:96-103 | the assignment query over the hierarchy closure answers exactly the question "is the permission granted to the rank" |
| PermissionResolution.DoGetPermissions | src/Infrastructure/Security/Service/PermissionResolver.php:106-132 | no names for a rank without roles; otherwise the active permission names granted through the closure |
| PermissionResolution.ListedIffGrantedByRoles | src/Infrastructure/Security/Service/PermissionResolver.php:106-132 | an active, uniquely named permission is listed for a rank exactly when the rank is granted it |
| PermissionResolution.ClearedCache | src/Infrastructure/Security/Service/PermissionResolver.php:68-75 | with a rank, only that rank's permission-list entry is removed; without one, the cache is unchanged |
| PermissionResolution.ClearKeepsVerdicts | src/Infrastructure/Security/Service/PermissionResolver.php:68-75 | clearing never drops a cached permission check |
| PermissionResolution.PermissionResolver.constructor | src/Infrastructure/Security/Service/PermissionResolver.php:22-28 | the cache starts empty |
| PermissionResolution.PermissionResolver.HasPermission | src/Infrastructure/Security/Service/PermissionResolver.php:33-47 | an empty name is allowed without touching the cache; a cached verdict is returned as is; a miss computes the verdict and caches it; a cache that was coherent with the tables stays coherent, and the answer is then the verdict of the tables |
| PermissionResolution.PermissionResolver.GetPermissionsForRank | src/Infrastructure/Security/Service/PermissionResolver.php:54-63 | a cached list is returned as is; a miss computes and caches the list; with a coherent cache the answer is the rank's current permission names |
| PermissionResolution.PermissionResolver.ClearCache | src/Infrastructure/Security/Service/PermissionResolver.php:68-75 | the new cache is the old one with the rank's list entry removed |
| PermissionVoting.Supports | src/Infrastructure/Security/Voter/PermissionVoter.php:27-36 | true exactly when the attribute begins with `PERMISSION_` |
| PermissionVoting.PermissionNameOf | src/Infrastructure/Security/Voter/PermissionVoter.php:48 | a supported attribute is the prefix followed by the extracted name |
| PermissionVoting.AttributeRoundTrip | src/Infrastructure/Security/Voter/PermissionVoter.php:33-48 | prefixing a name gives a supported attribute whose extracted name is that name |
| PermissionVoting.BarePrefixNamesNothing | src/Infrastructure/Security/Voter/PermissionVoter.php:48 | the bare prefix `PERMISSION_` is supported and names the empty permission, and `PERMISSION_0` names `"0"`; both names are PHP-empty, which the resolver's HasPermission allows outright |
| PermissionVoting.VoteOnAttribute | src/Infrastructure/Security/Voter/PermissionVoter.php:38-57 | an anonymous token is denied with its own reason; a user is granted exactly what the resolver grants to the user's rank; a denial carries the rank and the permission name |
| AuthorizationAdmin.AuthorizationDb.constructor | migrations/Version20250101000001.php:32-94 | the permission, role, role-permission, role-rank and hierarchy tables start empty, as the migration creates them |
| AuthorizationAdmin.AuthorizationDb.SaveRole | src/Domain/Authorization/Repository/RoleRepository.php:51-60 | appends the role's row under the next id; keeps role names unique under the collation; nothing else changes |
| AuthorizationAdmin.AuthorizationDb.SavePermission | src/Domain/Authorization/Repository/PermissionRepository.php:51-60 | appends the permission's row under the next id; keeps permission names unique under the collation; nothing else changes |
| AuthorizationAdmin.AuthorizationDb.SaveHierarchy | src/Domain/Authorization/Repository/RoleHierarchyRepository.php:105-114 | appends the edge and keeps the hierarchy acyclic; nothing else changes |
| AuthorizationAdmin.AuthorizationDb.SaveRoleRank | src/Domain/Authorization/Repository/RoleRankRepository.php:78-87 | appends the link; nothing else changes |
| AuthorizationAdmin.AuthorizationDb.SaveRolePermission | src/Domain/Authorization/Repository/RolePermissionRepository.php:77-86 | appends the link; nothing else changes |
| AuthorizationAdmin.RoleCreateGuardAsWritten | src/Presentation/Controller/Api/Authorization/RoleController.php:62-66 | the guard as written admits a name exactly when no stored name matches the raw, untrimmed name |
| AuthorizationAdmin.RoleCreateGuardAsWrittenAdmitsDuplicate | src/Presentation/Controller/Api/Authorization/RoleController.php:62-66 | with "admin" stored, " admin" passes that guard although it would be stored as "admin" |
| AuthorizationAdmin.RoleCreateGuard | src/Presentation/Controller/Api/Authorization/RoleController.php:62-66 | the corrected guard admits a name exactly when no stored name matches the name the role would store |
| AuthorizationAdmin.CreateRole | src/Presentation/Controller/Api/Authorization/RoleController.php:59-74 | 422 and no change when the stored form of the name is taken; otherwise 201 and exactly one new active row with the stored name; other tables untouched |
| AuthorizationAdmin.PermissionCreateGuardAsWritten | src/Presentation/Controller/Api/Authorization/PermissionController.php:77-81 | the guard as written admits a name exactly when no stored name matches the raw name |
| AuthorizationAdmin.PermissionCreateGuardAsWrittenAdmitsDuplicate | src/Application/Authorization/DTO/CreatePermissionDTO.php:12-18 | "ABC\n" passes the request validation and the guard as written while "ABC" is stored, and would itself be stored as "ABC" |
| AuthorizationAdmin.TrailingNewlinePassesPattern | src/Application/Authorization/DTO/CreatePermissionDTO.php:12-18 | the name pattern, whose `$` also matches before a final newline, accepts "ABC\n" |
| AuthorizationAdmin.PermissionCreateGuard | src/Presentation/Controller/Api/Authorization/PermissionController.php:77-81 | the corrected guard admits a name exactly when no stored name matches the name the permission would store |
| AuthorizationAdmin.CreatePermission | src/Presentation/Controller/Api/Authorization/PermissionController.php:74-89 | 422 and no change when the stored form of the name is taken; otherwise 201 and exactly one new active row with the upper-cased trimmed name |
| AuthorizationAdmin.AssignToRank | src/Presentation/Controller/Api/Authorization/RoleController.php:80-103 | 404 for an unknown role; 422 for an existing link; otherwise 201, the link is appended and the rank's cached permission list is dropped |
| AuthorizationAdmin.CreateHierarchy | src/Presentation/Controller/Api/Authorization/RoleController.php:109-135 | 404 unless both roles exist; 422 when the edge would close a loop or already exists; otherwise 201 and the edge is appended, so the hierarchy stays acyclic |
| AuthorizationAdmin.AssignToRole | src/Presentation/Controller/Api/Authorization/PermissionController.php:96-123 | 404 for an unknown role, then for an unknown permission; 422 for an existing link; otherwise 201 and the link is appended |
| Articles.Tag.Create | src/Domain/Article/Entity/Tag.php:91-98 | a new tag has the trimmed name and a zero counter |
| Articles.Tag.UpdateName | src/Domain/Article/Entity/Tag.php:64-69 | the name goes through the trim hook; the counter is kept |
| Articles.Tag.IncrementUsage | src/Domain/Article/Entity/Tag.php:71-75 | the counter goes up by one |
| Articles.Tag.DecrementUsage | src/Domain/Article/Entity/Tag.php:77-83 | only a positive counter goes down by one |
| Articles.Tag.RecalculateUsage | src/Domain/Article/Entity/Tag.php:85-89 | the counter becomes the number of articles loaded on the tag |
| Articles.WithTag | src/Domain/Article/Entity/Article.php:290-297 | the tag list after adding holds the tag and the old tags; it is unchanged when the tag was there, otherwise the tag is appended |
| Articles.WithTagIdempotent | src/Domain/Article/Entity/Article.php:290-297 | adding a tag twice is the same as adding it once, and the list stays free of duplicates |
| Articles.RemoveUndoesAdd | src/Domain/Article/Entity/Article.php:290-305 | removing a tag just added gives the old list back |
| Articles.Article.constructor | src/Domain/Article/Entity/Article.php:160-164 | a new article is an unpublished draft without tags |
| Articles.Article.AddTag | src/Domain/Article/Entity/Article.php:290-297 | the tag is added once, and its counter goes up exactly when it was not there yet |
| Articles.Article.RemoveTag | src/Domain/Article/Entity/Article.php:299-305 | the tag is removed, and its counter goes down exactly when it was there |
| Articles.Article.ClearTags | src/Domain/Article/Entity/Article.php:307-314 | every tag the article carried counts one use less, and the collection is empty afterwards |
| Articles.Article.Publish | src/Domain/Article/Entity/Article.php:317-322 | published, at the current time |
| Articles.Article.Schedule | src/Domain/Article/Entity/Article.php:324-329 | scheduled, for the given time |
| Articles.Article.Archive | src/Domain/Article/Entity/Article.php:331-335 | archived; the publication time is kept |
| Articles.Article.ToDraft | src/Domain/Article/Entity/Article.php:337-342 | a draft again, with no publication time |
| Articles.Article.IsPublished | src/Domain/Article/Entity/Article.php:344-347 | true exactly when the status is published |
| Articles.Article.IsScheduled | src/Domain/Article/Entity/Article.php:349-352 | true exactly when the status is scheduled |
| Articles.Article.ShouldPublishNow | src/Domain/Article/Entity/Article.php:354-359 | due exactly when scheduled with a publication time that has come; a due article is not yet published |
| Articles.ShouldPublishAt | src/Domain/Article/Entity/Article.php:354-359 | due exactly when the article is scheduled with a publication time that has come |
| Articles.ScheduledBecomesDue | src/Domain/Article/Entity/Article.php:324-359 | a scheduled article becomes due at its time and stays due as the clock advances; published and draft articles are never due |
| Articles.HoldersAfterReplace | src/Domain/Article/Entity/Tag.php:71-89 | replacing one article's tag list changes each tag's holder count by what changed in that list |
| Articles.AddTagKeepsUsageExact | src/Domain/Article/Entity/Article.php:290-297 | a counter equal to the number of articles holding the tag stays equal to it through addTag |
| Articles.RemoveTagKeepsUsageExact | src/Domain/Article/Entity/Article.php:299-305 | a counter equal to the number of articles holding the tag stays equal to it through removeTag |
| Articles.ClearTagsKeepsUsageExact | src/Domain/Article/Entity/Article.php:307-314 | a counter equal to the number of articles holding the tag stays equal to it through clearTags |
| Articles.HeldMeansCounted | src/Domain/Article/Entity/Tag.php:77-83 | a tag some article holds has a positive holder count, so the decrement guard never hides a removal |
| ArticleVotes.AfterVote | src/Presentation/Controller/Api/Article/ArticleController.php:485-518 | a vote of the type the user already cast removes it; any other vote replaces or creates the user's vote; every other user's vote is kept |
| ArticleVotes.VoteTwiceToggles | src/Presentation/Controller/Api/Article/ArticleController.php:485-518 | voting twice with the same type gives back the table, except that a changed vote is gone |
| ArticleVotes.CountsAfterVote | src/Domain/Vote/Repository/VoteRepository.php:70-104 | after a vote, each count loses the user's old vote of that type and gains the new one, and nothing else |
| ArticleVotes.VoteStore.FindExistingVote | src/Domain/Vote/Repository/VoteRepository.php:26-40 | finds the user's vote on the entity exactly when there is one |
| ArticleVotes.VoteStore.Save | src/Domain/Vote/Repository/VoteRepository.php:186-195 | stores the vote under its key |
| ArticleVotes.VoteStore.Remove | src/Domain/Vote/Repository/VoteRepository.php:197-204 | deletes the vote under its key |
| ArticleVotes.HandleVote | src/Presentation/Controller/Api/Article/ArticleController.php:485-518 | the votes become the toggled table; the response carries the new like and dislike counts, the user's vote and the message for the case taken |
| Forum.OnlyOpenThreadsTakeReplies | src/Domain/Forum/Enum/ThreadStatus.php:27-30 | a thread takes replies exactly when it is neither closed nor locked |
| Forum.ForumThread.Create | src/Domain/Forum/Entity/ForumThread.php:315-332 | a new thread is open, unpinned and not hot, with zero counters, trimmed title and content, and its author as the last poster |
| Forum.ForumThread.Open | src/Domain/Forum/Entity/ForumThread.php:230-234 | open and able to take replies; nothing else changes |
| Forum.ForumThread.Close | src/Domain/Forum/Entity/ForumThread.php:236-240 | closed, so no more replies; nothing else changes |
| Forum.ForumThread.Lock | src/Domain/Forum/Entity/ForumThread.php:242-246 | locked, so no more replies; nothing else changes |
| Forum.ForumThread.Pin | src/Domain/Forum/Entity/ForumThread.php:248-252 | pinned; nothing else changes |
| Forum.ForumThread.Unpin | src/Domain/Forum/Entity/ForumThread.php:254-258 | unpinned; nothing else changes |
| Forum.ForumThread.MarkAsHot | src/Domain/Forum/Entity/ForumThread.php:260-264 | hot; nothing else changes |
| Forum.ForumThread.UnmarkAsHot | src/Domain/Forum/Entity/ForumThread.php:266-270 | not hot; nothing else changes |
| Forum.ForumThread.IncrementViewCount | src/Domain/Forum/Entity/ForumThread.php:272-276 | one more view; nothing else changes |
| Forum.ForumThread.IncrementReplyCount | src/Domain/Forum/Entity/ForumThread.php:278-282 | one more reply; nothing else changes |
| Forum.ForumThread.DecrementReplyCount | src/Domain/Forum/Entity/ForumThread.php:284-288 | one reply less, never below zero, whatever the count was before; nothing else changes |
| Forum.ForumThread.UpdateLastPost | src/Domain/Forum/Entity/ForumThread.php:290-296 | the last-post id, author and time are replaced; nothing else changes |
| Forum.ForumThread.CanReply | src/Domain/Forum/Entity/ForumThread.php:298-301 | true exactly when the status is neither closed nor locked, which is exactly when it is open |
| Forum.ForumThread.IsOpen | src/Domain/Forum/Entity/ForumThread.php:303-306 | true exactly when the status is open, which is exactly when the thread takes replies |
| Forum.ForumThread.UpdateTitle | src/Domain/Forum/Entity/ForumThread.php:217-222 | the title goes through the trim hook; every other modelled field is kept |
| Forum.ForumThread.UpdateContent | src/Domain/Forum/Entity/ForumThread.php:224-228 | the content goes through the trim hook; nothing else changes |
| Forum.ForumThread.MoveToCategory | src/Domain/Forum/Entity/ForumThread.php:308-313 | the thread takes the category's id; nothing else changes |
| Forum.ForumCategory.Create | src/Domain/Forum/Entity/ForumCategory.php:244-260 | a new category is unlocked with zero counters, the trimmed name and description, and the parent's id |
| Forum.ForumCategory.IsRoot | src/Domain/Forum/Entity/ForumCategory.php:164-167 | true exactly when there is no parent id |
| Forum.ForumCategory.SetParent | src/Domain/Forum/Entity/ForumCategory.php:188-193 | the parent and its id are replaced, nothing else changes, and the category is a root exactly when there is no parent |
| Forum.ForumCategory.UpdateName | src/Domain/Forum/Entity/ForumCategory.php:169-174 | the name goes through the trim hook; every other modelled field is kept |
| Forum.ForumCategory.UpdateDescription | src/Domain/Forum/Entity/ForumCategory.php:176-180 | the description goes through the null-keeping trim hook; nothing else changes |
| Forum.ForumCategory.UpdateIcon | src/Domain/Forum/Entity/ForumCategory.php:182-186 | the icon is replaced; nothing else changes |
| Forum.ForumCategory.SetPosition | src/Domain/Forum/Entity/ForumCategory.php:195-199 | the position is replaced; nothing else changes |
| Forum.ForumCategory.Lock | src/Domain/Forum/Entity/ForumCategory.php:201-205 | locked; nothing else changes |
| Forum.ForumCategory.Unlock | src/Domain/Forum/Entity/ForumCategory.php:207-211 | unlocked; nothing else changes |
| Forum.ForumCategory.IncrementThreadCount | src/Domain/Forum/Entity/ForumCategory.php:213-217 | one more thread; nothing else changes |
| Forum.ForumCategory.DecrementThreadCount | src/Domain/Forum/Entity/ForumCategory.php:219-223 | one thread less, never below zero; nothing else changes |
| Forum.ForumCategory.IncrementPostCount | src/Domain/Forum/Entity/ForumCategory.php:225-229 | one more post; nothing else changes |
| Forum.ForumCategory.DecrementPostCount | src/Domain/Forum/Entity/ForumCategory.php:231-235 | one post less, never below zero; nothing else changes |
| Forum.ForumCategory.UpdateLastActivity | src/Domain/Forum/Entity/ForumCategory.php:237-242 | the last thread and time are replaced; nothing else changes |
| Forum.TrimmedDescription | src/Domain/Forum/Entity/ForumCategory.php:52 | null stays null; a string is trimmed |
| Forum.TrimmedDescriptionIdempotent | src/Domain/Forum/Entity/ForumCategory.php:52 | storing a stored description again leaves it unchanged |
| Counters.DecrementIfPositive | src/Domain/Article/Entity/Tag.php:77-83 | a positive counter goes down by one; any other is kept |
| Counters.FloorDecrement | src/Domain/Forum/Entity/ForumThread.php:284-288 | the result is one less, but never negative |
| Counters.FloorSubtract | src/Domain/User/Entity/UserCurrency.php:65-69 | the difference, but never negative |
| Counters.DecrementsAgree | src/Domain/Forum/Entity/ForumCategory.php:219-223 | on counters that are never negative, the guarded and the floored decrement agree |
| Counters.DecrementIsExactWhenPositive | src/Domain/Article/Entity/Tag.php:77-83 | both decrements subtract exactly one exactly when the counter is positive |
| Counters.DecrementsDifferBelowZero | src/Domain/Forum/Entity/ForumThread.php:284-288 | on a negative counter the guarded decrement keeps it while the floored one resets it to zero |
| Counters.FloorSubtractBounds | src/Domain/User/Entity/UserCurrency.php:65-69 | subtracting from a balance that is not negative stays between zero and the old balance |
| GuildMembers.RankName | src/Domain/Guild/Entity/GuildMember.php:117-125 | "owner" exactly at level 0, "admin" exactly at 1, "rights" exactly at 2, "member" for every other level |
| GuildMembers.RanksNest | src/Domain/Guild/Entity/GuildMember.php:95-114 | an owner is an admin and an admin has rights |
| GuildMembers.Promoted | src/Domain/Guild/Entity/GuildMember.php:127-133 | one level up, never past admin |
| GuildMembers.Demoted | src/Domain/Guild/Entity/GuildMember.php:135-141 | one level down, never past plain member |
| GuildMembers.LevelsStayInRange | src/Domain/Guild/Entity/GuildMember.php:127-141 | promotion and demotion keep a non-owner between admin and plain member and undo each other away from the ends |
| GuildMembers.OwnershipIsNotReachedByPromotion | src/Domain/Guild/Entity/GuildMember.php:127-141 | promotion never makes or unmakes an owner; demoting an owner makes an admin |
| GuildMembers.GuildMember.Create | src/Domain/Guild/Entity/GuildMember.php:143-150 | the member has the guild, user and level given (level 3 when none is given), and joined now |
| GuildMembers.GuildMember.IsOwner | src/Domain/Guild/Entity/GuildMember.php:95-98 | true exactly at level 0, the one level whose rank is "owner" |
| GuildMembers.GuildMember.IsAdmin | src/Domain/Guild/Entity/GuildMember.php:103-106 | true exactly at level 1 or lower, so an owner is an admin and an admin has rights |
| GuildMembers.GuildMember.HasRights | src/Domain/Guild/Entity/GuildMember.php:111-114 | true exactly at level 2 or lower; at a non-negative level, exactly when the rank is not "member" |
| GuildMembers.GuildMember.GetRank | src/Domain/Guild/Entity/GuildMember.php:117-125 | one of owner, admin, rights, member; "member" exactly above level 2 or below 0 |
| GuildMembers.DefaultLevelIsPlainMember | src/Domain/Guild/Entity/GuildMember.php:54-56 | the default level 3 has rank "member", no rights, and promotes to level 2 |
| GuildMembers.GuildMember.Promote | src/Domain/Guild/Entity/GuildMember.php:127-133 | the level becomes the promoted level; nothing else changes |
| GuildMembers.GuildMember.Demote | src/Domain/Guild/Entity/GuildMember.php:135-141 | the level becomes the demoted level; nothing else changes |
| Bans.ParseBanType | src/Domain/Ban/Entity/Ban.php:146-149 | a stored type string reads back as its type; an unknown string reads as a user ban |
| Bans.BanTypeRoundTrip | src/Domain/Ban/Enum/BanType.php:9-12 | every type's string reads back as that type |
| Bans.CreateBan | src/Domain/Ban/Entity/Ban.php:151-170 | the ban carries the ids and expiry given, trimmed reason, ip and machine id, its type, the creation time and no topic |
| Bans.IsPermanent | src/Domain/Ban/Entity/Ban.php:130-133 | true exactly when the expiry is the sentinel 0 |
| Bans.IsActive | src/Domain/Ban/Entity/Ban.php:120-128 | a permanent ban is always active; any other one exactly while its expiry lies in the future |
| Bans.GetBanType | src/Domain/Ban/Entity/Ban.php:146-149 | the type whose string is stored, or a user ban when the stored string names no type |
| Bans.DefaultBanIsPermanent | src/Domain/Ban/Entity/Ban.php:151-170 | a ban created without an expiry, ip or machine id is permanent, active at any time, without remaining time, empty ip and machine id, and reads back its type |
| Bans.RemainingTime | src/Domain/Ban/Entity/Ban.php:135-144 | none exactly for a permanent ban; otherwise the seconds left, never negative |
| Bans.ActiveIffTimeLeft | src/Domain/Ban/Entity/Ban.php:120-144 | a ban is active exactly when it is permanent or has time left |
| Bans.ExpiryIsFinal | src/Domain/Ban/Entity/Ban.php:120-144 | an expired ban stays expired as the clock goes on, with zero time left |
| UserCurrencies.UserCurrency.constructor | src/Domain/User/Entity/UserCurrency.php:32 | a new balance is zero |
| UserCurrencies.UserCurrency.SetAmount | src/Domain/User/Entity/UserCurrency.php:53-57 | the balance becomes the amount |
| UserCurrencies.UserCurrency.AddAmount | src/Domain/User/Entity/UserCurrency.php:59-63 | the balance grows by the amount |
| UserCurrencies.UserCurrency.SubtractAmount | src/Domain/User/Entity/UserCurrency.php:65-69 | the balance shrinks by the amount, but never below zero |
| UserCurrencies.AddThenSubtract | src/Domain/User/Entity/UserCurrency.php:59-69 | adding and then subtracting the same amount gives the balance back; subtracting more than the balance leaves zero |
| Rooms.ClampUsersMax | src/Domain/Room/Entity/Room.php:184-188 | the limit lies between 1 and 100; a request inside that range is kept, one outside it is clamped to the nearer bound |
| Rooms.ClampIsMonotoneProjection | src/Domain/Room/Entity/Room.php:184-188 | clamping twice is clamping once, and a larger request never gets a smaller limit |
| Rooms.Room.constructor | src/Domain/Room/Entity/Room.php:29-107 | a new room has the column defaults: open, empty, limited to 25 users, no guild, no password, score 0, model "model_a", category 0, and the trimmed name |
| Rooms.Room.IsOwner | src/Domain/Room/Entity/Room.php:131-134 | true exactly for the owner's id |
| Rooms.Room.HasGuild | src/Domain/Room/Entity/Room.php:136-139 | true exactly when the guild id is positive and the guild is loaded |
| Rooms.Room.IsFull | src/Domain/Room/Entity/Room.php:147-150 | full exactly when the users reach the limit, so exactly when no place is left |
| Rooms.Room.UpdateName | src/Domain/Room/Entity/Room.php:160-164 | the name goes through the trim hook; nothing else changes |
| Rooms.Room.UpdateDescription | src/Domain/Room/Entity/Room.php:166-170 | the description is replaced; nothing else changes |
| Rooms.Room.UpdateState | src/Domain/Room/Entity/Room.php:172-176 | the state is replaced; nothing else changes |
| Rooms.Room.UpdatePassword | src/Domain/Room/Entity/Room.php:178-182 | the password (or null) is replaced; nothing else changes |
| Rooms.Room.UpdateMaxUsers | src/Domain/Room/Entity/Room.php:184-188 | from any prior state, the limit becomes the clamped request, so it lies in 1..100; nothing else changes |
| Rooms.EmptyRoomNotFull | src/Domain/Room/Entity/Room.php:147-150 | a room with no users is full exactly when its limit is below 1, so never under the 1..100 limit |
| RefreshTokens.StoredUserAgent | src/Domain/Auth/Entity/RefreshToken.php:88 | no user agent is stored exactly when none, "" or "0" is given; otherwise at most 255 characters, a prefix of the given one, and all of it when it fits |
| RefreshTokens.SameTokenSameRow | src/Domain/Auth/Repository/RefreshTokenRepository.php:26-35 | with unique token strings, two rows with the same token are the same row |
| RefreshTokens.ActiveOf | src/Domain/Auth/Repository/RefreshTokenRepository.php:42-67 | the user's unexpired tokens, in table order |
| RefreshTokens.Reverse | src/Domain/Auth/Repository/RefreshTokenRepository.php:49 | the same rows in the opposite order |
| RefreshTokens.NewestFirst | src/Domain/Auth/Repository/RefreshTokenRepository.php:42-52 | the active sessions come newest first |
| RefreshTokens.ArraySlice | src/Domain/Auth/Service/RefreshTokenService.php:145 | PHP's array_slice without a length: a non-negative offset drops that many rows from the front, and a negative one keeps that many rows from the end |
| RefreshTokens.Keep | src/Domain/Auth/Repository/RefreshTokenRepository.php:72-76 | the rows left after deleting a set of rows, in order |
| RefreshTokens.FindValidToken | src/Domain/Auth/Repository/RefreshTokenRepository.php:26-35 | finds an unexpired row with that token string, and finds none exactly when there is none |
| RefreshTokens.FindActiveByUser | src/Domain/Auth/Repository/RefreshTokenRepository.php:42-52 | lists exactly the user's unexpired, unrevoked rows, as many as countActiveByUser counts |
| RefreshTokens.CountActiveByUser | src/Domain/Auth/Repository/RefreshTokenRepository.php:57-67 | at most the number of rows, and zero exactly when the user has no active row |
| RefreshTokens.SessionsToRevoke | src/Domain/Auth/Service/RefreshTokenService.php:139-150 | only the user's active sessions; none below the limit; at or above a positive limit, count − limit + 1 of them |
| RefreshTokens.KeepTwice | src/Domain/Auth/Repository/RefreshTokenRepository.php:72-76 | deleting rows one after another is deleting them together |
| RefreshTokens.KeepKeepsValid | src/Domain/Auth/Repository/RefreshTokenRepository.php:72-76 | deleting rows keeps the token strings unique and the rows in creation order |
| RefreshTokens.AppendKeepsValid | src/Domain/Auth/Service/RefreshTokenService.php:22-38 | appending a fresh, newest token keeps the table unique and in creation order |
| RefreshTokens.ActiveOfKeep | src/Domain/Auth/Repository/RefreshTokenRepository.php:42-67 | filtering active rows and deleting rows can be done in either order |
| RefreshTokens.KeepCount | src/Domain/Auth/Repository/RefreshTokenRepository.php:81-102 | deleting a set of distinct rows that are present shortens the table by its size |
| RefreshTokens.SessionLimitLeavesRoom | src/Domain/Auth/Service/RefreshTokenService.php:137-151 | with a limit of at least one, the user has at most limit − 1 active sessions after the oldest are revoked |
| RefreshTokens.ZeroLimitRevokesOldest | src/Domain/Auth/Service/RefreshTokenService.php:137-151 | with a limit of zero, the slice keeps only the oldest active session, so only that one is revoked |
| RefreshTokens.RevokedTokenIsGone | src/Domain/Auth/Repository/RefreshTokenRepository.php:72-76 | a revoked token can no longer be found as valid |
| RefreshTokens.ActiveOfAppend | src/Domain/Auth/Service/RefreshTokenService.php:22-38 | appending a token adds one to the user's active count exactly when it belongs to the user and is active |
| RefreshTokens.RotatedTokenIsGone | src/Domain/Auth/Service/RefreshTokenService.php:55-82 | after rotation the consumed token stays unknown |
| RefreshTokens.RefreshTokenService.constructor | src/Domain/Auth/Service/RefreshTokenService.php:13-17 | the service keeps the configured lifetime, session limit and table |
| RefreshTokens.RefreshTokenService.Revoke | src/Domain/Auth/Repository/RefreshTokenRepository.php:72-76 | the row is deleted; the table stays unique and in order |
| RefreshTokens.RefreshTokenService.RevokeEach | src/Domain/Auth/Service/RefreshTokenService.php:147-149 | after the loop exactly the listed rows are gone |
| RefreshTokens.RefreshTokenService.EnforceSessionLimit | src/Domain/Auth/Service/RefreshTokenService.php:137-151 | exactly the sessions past the limit, oldest first, are revoked |
| RefreshTokens.RefreshTokenService.CreateRefreshToken | src/Domain/Auth/Service/RefreshTokenService.php:22-38 | the oldest sessions past the limit are revoked and the new token, expiring after the lifetime, is appended; with a limit of at least one the user then holds at most the limit of active sessions |
| RefreshTokens.RefreshTokenService.ValidateRefreshToken | src/Domain/Auth/Service/RefreshTokenService.php:44-47 | yields a user exactly when an unexpired row carries the token, and then that row's user |
| RefreshTokens.RefreshTokenService.ConsumeRefreshToken | src/Domain/Auth/Service/RefreshTokenService.php:55-82 | an unknown or expired token, or one whose user is gone, changes nothing; otherwise the token is revoked, a new one is created for the same user, and the old token can no longer be found |
| RefreshTokens.RefreshTokenService.RevokeToken | src/Domain/Auth/Service/RefreshTokenService.php:87-98 | reports success exactly when the token was valid, deletes only that row, and the token is not valid afterwards |
| RefreshTokens.RefreshTokenService.RevokeAllTokens | src/Domain/Auth/Service/RefreshTokenService.php:103-106 | every row of the user is deleted and the count says how many |
| RefreshTokens.RefreshTokenService.CleanupExpiredTokens | src/Domain/Auth/Service/RefreshTokenService.php:129-132 | every row that expired before now is deleted, the count says how many, and every active token survives |
| RefreshTokens.RefreshTokenService.DeleteWhere | src/Domain/Auth/Repository/RefreshTokenRepository.php:81-102 | the rows are deleted and their number returned |
| Text.TrimIdempotent | src/Domain/Authorization/Entity/Role.php:32-35 | trimming a trimmed string changes nothing |
| Text.TrimIsInnerSlice | src/Domain/Article/Entity/Tag.php:29-32 | trim() cuts only trimmable characters from each end and keeps the middle as it is |
| Text.TrimEmptyIffBlank | src/Domain/Article/Entity/Tag.php:29-32 | trim() leaves the empty string exactly when every character is trimmable |
| Text.LowerFoldsAsciiOnly | src/Domain/Authorization/Entity/Role.php:32-35 | strtolower leaves no ASCII capital and changes no other character |
| Text.UpperFoldsAsciiOnly | src/Domain/Authorization/Entity/Permission.php:32-35 | strtoupper leaves no ASCII small letter and changes no other character |
| Text.PhpEmpty | src/Infrastructure/Security/Service/PermissionResolver.php:36 | empty() holds for at most one-character strings, and for a one-character string exactly when it is "0" |
| Text.TrimmedEnds | src/Domain/Article/Entity/Tag.php:29-32 | a trimmed string neither starts nor ends with a trimmable character |
| Text.CaseFoldKeepsTrim | src/Domain/Authorization/Entity/Permission.php:32-35 | case folding a trimmed string leaves it trimmed |
| Text.CollationIgnoresCase | migrations/Version20250101000001.php:41 | names that differ only in ASCII case compare equal under the collation |
| Text.LowerOfUpper | migrations/Version20250101000001.php:41 | lower-casing an upper-cased name gives the lower-cased name, the step by which an upper-cased permission name compares equal to its input under the collation |
| Rows.Unique | src/Domain/Authorization/Repository/RoleHierarchyRepository.php:58 | array_unique: the same elements, each once |
| Rows.RemoveFirst | src/Domain/Article/Entity/Article.php:299-305 | Collection::removeElement: one occurrence fewer, all other elements kept |
| Rows.RemoveFirstOfDistinct | src/Domain/Article/Entity/Article.php:299-305 | on a list without duplicates, removal keeps it so and removes exactly that element |

## Left out

- Time-based expiry of cache entries: the resolver's 30-minute lifetime is not modelled. The cache is a map whose entries stay until `clearCache` removes them. `PermissionResolution.Coherent` states when the cached answers still match the tables.
- The cache key uses `md5` of the permission name. The model keys by the name itself, which treats `md5` as injective.
- The full cache clear relies on the cache lifetime, so a clear without a rank changes nothing (`PermissionResolution.ClearedCache`).
- Slugs: the AsciiSlugger calls in the thread, category, article and tag updates are left out, because slug generation is foreign code. `Forum.ForumThread.UpdateTitle` states the title but not the slug.
- `Room.getOccupancyPercent`: it uses floating-point division and rounding.
- Database row hydration, auto-increment ids beyond a counter, flushing and transactions are left out. Doctrine's identity map is not modelled, and rows are compared by value.
- The Symfony voter mechanism (abstaining, the `Vote` reason object) is reduced to a granted flag plus an optional reason.
- The order of refresh tokens created in the same second is taken to be creation order. The table is kept in creation order as an invariant, and "newest first" is its reverse.
- The collation is modelled as ASCII case folding plus ignoring trailing spaces. Accent folding and the other Unicode equivalences of `utf8mb4_unicode_ci` are left out.
- PHP integer overflow, where counters and `addAmount` would turn into floats past 2^63, is not modelled. Integers are unbounded.
- AuthorizationAdmin.CreatePermission: the Symfony validation of the request (not blank, length 2–255, the upper-case name pattern) runs before the controller. It is therefore a precondition of the method, not a response the method returns.
- AuthorizationAdmin.CreateRole: the request validation of the role name is left out, because it only bounds the length.
- The random token (`random_bytes`) and the clock are parameters (`newToken`, `now`). A fresh token is required to differ from every stored one.
- `getActiveSessions` and `getTtl` only forward to the repository or a field. They are `RefreshTokens.FindActiveByUser` and the `refreshTokenTtl` constant.
- Ban entities are values (`Bans.Ban`), because only `create` assigns their fields. The trim hooks on reason, ip and machine id are applied in `Bans.CreateBan`.
- Forum.ForumThread.MoveToCategory: the object reference to the category is not kept, only its id.
- Forum.ForumThread: the `likes`/`dislikes` counters and the `user` and `lastPostUser` object relations (with `setLastPostUser`) are left out; the thread keeps the ids. The slug is left out with the other slugs.
- Rooms.Room: the `owner` relation is left out and the `guild` relation is reduced to the id of the loaded guild.
- The user lookup in `consumeRefreshToken` is a set of existing user ids passed in.

## Findings

| source | as written | input that shows it | evidently intended | confidence | as-written member | corrected member |
|---|---|---|---|---|---|---|
| src/Presentation/Controller/Api/Authorization/RoleController.php:62-66 | the duplicate check looks up the raw request name, but the role stores the lower-cased, trimmed name | role "admin" exists; create " admin": the lookup misses, and the insert of "admin" then hits the unique index instead of answering 422 | check the name the role will store | not executed | AuthorizationAdmin.RoleCreateGuardAsWritten, AuthorizationAdmin.RoleCreateGuardAsWrittenAdmitsDuplicate | AuthorizationAdmin.RoleCreateGuard, AuthorizationAdmin.CreateRole |
| src/Presentation/Controller/Api/Authorization/PermissionController.php:77-81 | the duplicate check looks up the raw request name, and the name pattern's `$` also accepts a final newline that the trim hook later removes | permission "ABC" exists; create "ABC\n": the pattern accepts it, the lookup misses, and the insert of "ABC" hits the unique index instead of answering 422 | check the name the permission will store | not executed | AuthorizationAdmin.PermissionCreateGuardAsWritten, AuthorizationAdmin.PermissionCreateGuardAsWrittenAdmitsDuplicate | AuthorizationAdmin.PermissionCreateGuard, AuthorizationAdmin.CreatePermission |
