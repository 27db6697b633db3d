# Lyceum core, modelled in Dafny

Lyceum is a philosophy forum: posts, essays, threaded comments and user profiles behind an Express/Mongoose
back end, with React pages in front. This project models the parts of it that carry logic and proves what they promise:

- **Comment thread assembly** (`Comments.BuildCommentTree`). A flat, creation-ordered list becomes a forest. Every comment
  is keyed by id. The roots are the parentless comments, in order. Each node's replies are its direct children, in order.
  A reply whose parent is not in the list is dropped.
- **The engagement ledgers.** Each ledger is a map from (user, target) to a label, plus counters on the target documents.
  - Posts and essays use the `insightful`/`notHelpful` reactions (`Content`, `Posts`, `Essays`).
  - Comments use signed `+1`/`-1` votes (`Comments.VoteOn`).
  - One request creates, deletes or switches a row and adjusts the counters to match.
  - The invariant proved throughout: every counter equals the histogram of the ledger rows (`Ledger.Tally`). For votes,
    the counter is the signed sum of the rows.
- **Content counters and listings.** Comment creation validates its input and bumps `commentCount`. A detail fetch bumps
  `views` by one. The listing endpoints work out page, limit, skip and `totalPages`, and apply the category, type and
  `published` filters (`Listing`).
- **Account operations** (`Profile`): the partial profile update, the statistics totals, the award append and the
  delete-account sweep over every collection.
- **Client pages:**
  - the interests codec of the profile editor (`ProfilePage`), which parses with `split(',')`, `trim` and `filter` and
    prints with `join(', ')`;
  - the registration form (`RegisterPage`) and the reset-password form (`ResetPasswordPage`), as state machines whose
    checks run in a fixed order.

**How the database is modelled.**
- Each collection is a sequence of records with unique ids. Each ledger table is a map, so the schema's unique
  (user, target) index holds by construction.
- The whole database is one value, `Store.Tables`, held in the single field of the `Store.Db` class.
- Each route handler is a method that `modifies` that object. The handler logic lives in value-level methods:
  `Content.ReactOn`, `Content.ViewOn`, `Comments.VoteOn`, `Profile.UpdateOn`, `Profile.StatsOn` and `Profile.AwardOn`.
- Each value-level method is proved against a specification predicate: `ReactSpec`, `ViewSpec`, `VoteSpec`,
  `UpdateSpec`, `StatsSpec` or `AwardSpec`.
- `Store.Consistent` is the database invariant. It covers unique ids, Vote rows in {1, -1}, reaction counters equal to
  their row counts, and comment vote counters equal to their signed vote sums. Every handler preserves it.

**Where the model follows the route code rather than the schema.**
- The routes read and write `postId`/`essayId` on comments. The comment schema declares `post`/`essay` instead. The
  model follows the routes' intent, so comments carry `postId`/`essayId`.
- The comment schema trims `content` and then requires it. A content of only whitespace therefore passes the route's
  400 check but fails validation on save, so the model gives a 500 for it.
- A `voteType` outside {1, -1} is refused by the Vote schema's enum when the row is written, giving a 500 with nothing
  changed. The existence check comes first, so a missing comment is still a 404.
- A vote that repeats the held value deletes the row before any validation, so it always succeeds.

## Model

| member | source | states |
|---|---|---|
| Comments.BuildCommentTree | backend/routes/comments.js:115-136 | every input comment is keyed by its id with its own data; the roots are exactly the ids of the parentless comments, in input order; each node's replies are exactly the ids of the comments whose parent is that node, in input order, at any depth |
| Comments.IndexComments | backend/routes/comments.js:116-119 | after the first pass every comment is keyed by id, with an empty replies list |
| Comments.LinkReply | backend/routes/comments.js:125-129 | pushing a reply onto its present parent keeps each node's replies equal to its children in the prefix processed so far, one element longer |
| Comments.SkipReply | backend/routes/comments.js:125-132 | a root, or a reply whose parent is absent, changes no node's replies |
| Comments.IdsAtAppend | backend/routes/comments.js:123-133 | the roots, or the replies of a node, over two consecutive runs of comments are those of the first run followed by those of the second |
| Comments.IdsAtMultiplicity | backend/routes/comments.js:123-133 | with unique ids, an id occurs once among the roots or a node's replies exactly when its comment belongs there, and otherwise not at all |
| Comments.TreePlacesEachCommentOnce | backend/routes/comments.js:125-132 | a parentless comment is a root exactly once and nobody's reply; a reply with a present parent is in that parent's replies exactly once and nowhere else; a reply with an absent parent is nowhere in the forest |
| Comments.IdsAtSound | backend/routes/comments.js:123-133 | every id in the roots or in a node's replies is the id of an input comment that belongs there |
| Comments.OrNull | backend/routes/comments.js:44-46 | `x`-or-null keeps the value exactly when it is a non-empty string |
| Comments.SelectComments | backend/routes/comments.js:13-20 | the selected comments are exactly those matching the supplied postId and essayId filters; an absent or empty filter is not applied; ids stay unique |
| Comments.SelectCommentsAppend | backend/routes/comments.js:13-22 | the query keeps creation order: the selection from two runs of comments is the selection from the first, then that from the second |
| Comments.SelectCommentsOne | backend/routes/comments.js:13-20 | a single comment is selected exactly when it matches the query; with SelectCommentsAppend this fixes the selection and its order |
| Comments.ListComments | backend/routes/comments.js:11-25 | the response is the forest of exactly the stored comments that match the query, each node keyed by its own comment's id and carrying that comment, taken in creation order (the order SelectCommentsAppend states): the roots are the matching parentless comments in that order, and each node's replies its matching children in that order |
| Comments.NewComment | backend/routes/comments.js:35-47 | 400 exactly when the content is missing or empty, or neither a postId nor an essayId is given; 500 exactly when the content is only whitespace; otherwise the new comment's content is the trim of the given content, which is non-empty and trimmed, and it has the given references or null, and no votes |
| Comments.CountComment | backend/routes/comments.js:52-57 | exactly the item with that id gains one comment; every other item is unchanged |
| Comments.CountCommentKeepsTallies | backend/routes/comments.js:52-57 | counting a comment keeps unique ids and the reaction counters in step with their rows |
| Comments.CountIfKeepsTallies | backend/routes/comments.js:52-57 | the same, when the reference may be null |
| Comments.RepliesCountLikeRoots | backend/routes/comments.js:41-57 | a reply bumps the same counters as a root comment with the same references; there is no counter per parent |
| Comments.AppendKeepsConsistent | backend/routes/comments.js:41-57 | storing a fresh comment with no votes and bumping its post's and essay's counters keeps the whole database consistent |
| Comments.Create | backend/routes/comments.js:33-68 | on failure nothing changes; on success the comment is appended and the named post and essay each gain one comment; nothing else changes and the database stays consistent |
| Comments.SignedBumpTracksSum | backend/routes/comments.js:87-104 | a counter equal to the signed sum of its Vote rows still equals that sum after one vote request, and all rows stay in {1, -1} |
| Comments.VoteOn | backend/routes/comments.js:71-107 | 404 with no change for a missing comment; 500 with no change for a value outside {1, -1} that is not a toggle-off; otherwise the row is created, deleted or rewritten, the counter moves by v, by -v or by 2v, and the new count is returned; the vote invariant is preserved |
| Comments.PreserveVoteSums | backend/routes/comments.js:87-106 | one vote keeps every comment's counter equal to the signed sum of its rows |
| Comments.SameVoteTwiceRestores | backend/routes/comments.js:88-90 | the same vote sent twice from no vote, or from that same vote, restores both the counter and the Vote table |
| Comments.SwitchAddsTwice | backend/routes/comments.js:91-95 | switching from -v to v rewrites the one row and adds exactly 2v to both the counter and the signed sum |
| Comments.Vote | backend/routes/comments.js:71-112 | the handler performs VoteOn on the stored comments and Vote table, changes nothing else and keeps the database consistent |
| Content.ParseReaction | backend/routes/posts.js:80-84 | a reaction name is accepted exactly when it is 'insightful' or 'notHelpful', and it names that label |
| Content.AddTo | backend/routes/posts.js:101-117 | `item[r] += d` changes only counter r, by d |
| Content.BumpTracksTally | backend/routes/posts.js:97-118 | counters equal to the row histogram before a request still equal it after the row is created, toggled off or switched |
| Content.TalliedCountersNonNegative | backend/models/Post.js:29-36 | counters that equal the row histogram are never negative |
| Content.SwitchMovesOneUnit | backend/routes/posts.js:102-109 | a switch leaves one row, now holding the new label, moves one unit from the old counter to the new one, and keeps the sum of the two counters |
| Content.SameRequestTwiceRestores | backend/routes/posts.js:98-101 | the same reaction sent twice from no reaction, or from that same reaction, restores both the counters and the table |
| Content.ReactOn | backend/routes/posts.js:78-124 | 400 with no change for an unknown name, checked first; 404 with no change for a missing item; otherwise the row is created, deleted or switched, the counters follow, and the new pair of counters is returned; unique ids and the histogram invariant are preserved |
| Content.PreserveTallies | backend/routes/posts.js:97-120 | one reaction keeps every item's counters equal to the histogram of its rows |
| Content.ViewOn | backend/routes/posts.js:36-46 | 404 with no change for an unknown id; otherwise that item's views, counting a missing value as 0, go up by exactly one, it is returned, and every other item is unchanged |
| Posts.React | backend/routes/posts.js:78-128 | the handler performs ReactOn on the posts and PostReaction table, changes nothing else and keeps the database consistent |
| Posts.View | backend/routes/posts.js:34-50 | the handler performs ViewOn on the posts, changes nothing else and keeps the database consistent |
| Essays.React | backend/routes/essays.js:83-133 | the handler performs ReactOn on the essays and EssayReaction table, changes nothing else and keeps the database consistent |
| Essays.View | backend/routes/essays.js:38-54 | the handler performs ViewOn on the essays, changes nothing else and keeps the database consistent |
| Essays.PublishedOr | backend/routes/essays.js:66 | an omitted `published` defaults to true, and a given value is kept |
| Essays.NewEssay | backend/models/Post.js:4-28 | under the post schema that essays are assumed to share, the save succeeds exactly when the title is present and not blank, the content present and non-empty, and a given type and category are in their enumerations; any other request is a 500; the stored essay has the trimmed title, the content as given, type 'discussion' and category 'Other' when omitted, the published default and zero counters and views |
| Essays.Create | backend/routes/essays.js:56-81 | the reply is NewEssay of the request; a rejected request changes nothing; otherwise the essay is appended and nothing else changes; the database stays consistent |
| Ledger.Write | backend/routes/posts.js:100-117 | writing a row state for one key sets that key's state and leaves every other key's state alone |
| Ledger.TallyWrite | backend/routes/posts.js:97-118 | writing one key changes a label's histogram by the row removed and the row added, and by nothing else |
| Ledger.TallyWriteElsewhere | backend/routes/posts.js:97-118 | a write for another target leaves the histogram of this target unchanged |
| Ledger.SweepUser | backend/routes/profile.js:170-173 | `deleteMany({ user })` keeps exactly the rows of other users, with their labels |
| Ledger.TallySweep | backend/routes/profile.js:170-173 | deleting a user's rows lowers a target's histogram by exactly that user's row for it |
| Ledger.StepTwice | backend/routes/posts.js:98-109 | the same request twice returns to the starting state exactly when the user held nothing or held that label |
| Ledger.WriteStepTwice | backend/routes/posts.js:98-101 | in those cases the table itself returns to what it was |
| Ledger.TallyUntargeted | backend/routes/essays.js:60-67 | a target with no rows has a zero histogram, matching the zero counters of a new document |
| Store.IndexOf | backend/routes/posts.js:36 | `findById` finds the first document with that id, and finds none exactly when no document has it |
| Listing.ParamOr | backend/routes/posts.js:9-10 | a page or limit parameter is its parsed value, unless that is absent, unparseable or 0, and then the default |
| Listing.CeilDiv | backend/routes/posts.js:26 | `Math.ceil(total / limit)` is the least r with total <= r * limit, for positive limits, and the mirror image for negative ones |
| Listing.Select | backend/routes/posts.js:13-15 | the selected documents are exactly those of the collection the filter keeps |
| Listing.SelectAppend | backend/routes/posts.js:13-19 | the filter keeps collection order: the selection from two runs of documents is the selection from the first, then that from the second |
| Listing.SelectOne | backend/routes/posts.js:13-15 | a single document is selected exactly when the filter keeps it; with SelectAppend this fixes the selection and its order |
| Listing.Window | backend/routes/posts.js:17-19 | `skip` then `limit` returns the clipped slice of the sorted documents |
| Listing.Paginate | backend/routes/posts.js:9-28 | page and limit take their defaults; a negative skip is a server error; otherwise the page is the window at (page - 1) * limit of at most the limit's magnitude, `currentPage` is the page, `total` counts every selected document, `totalPages` is the ceiling of total over limit for either sign of the limit (CeilDiv's contract), and for positive limits it is the least count of pages that holds them |
| Listing.PagesUpToPrefix | backend/routes/posts.js:18-19 | the first n pages, one after another, are the first n * limit documents |
| Listing.CeilDivNonNegative | backend/routes/posts.js:26 | for a positive limit, `totalPages` is non-negative and its pages hold every document |
| Listing.PagesTile | backend/routes/posts.js:18-26 | pages 1 to `totalPages`, one after another, are exactly the selected documents, in order |
| Listing.PagesPastLastEmpty | backend/routes/posts.js:18-26 | a page past `totalPages` is empty |
| Listing.ListPosts | backend/routes/posts.js:7-28 | the response is the page (as Paginate states it: defaults, window, currentPage, totalPages, total, server error on a negative skip) of the posts matching the category, in collection order; every listed post is stored and matches; an absent category, an empty one or 'All' applies no filter |
| Listing.SelectAll | backend/routes/posts.js:13 | a filter that keeps everything selects the whole collection |
| Listing.ListEssays | backend/routes/essays.js:7-32 | the response is the page (as Paginate states it) of the published essays matching the category and type filters, each skipped when absent or 'All', in collection order; every listed essay is stored, published and matches; `total` counts all such essays |
| Profile.UpdateOn | backend/routes/profile.js:54-73 | 404 with no change for an unknown id; otherwise exactly the supplied fields among bio, location, interests and profilePicture are written, every other field and every other user is kept, and the updated user is returned |
| Profile.EmptyUpdateIsIdentity | backend/routes/profile.js:56-65 | an update that supplies no field changes no user |
| Profile.Update | backend/routes/profile.js:52-78 | the handler performs UpdateOn on the users, changes nothing else and keeps the database consistent |
| Profile.TotalAppend | backend/routes/profile.js:90-98 | a total over two runs of documents is the sum of their totals |
| Profile.TotalOfOthers | backend/routes/profile.js:111 | an author with no documents has a zero total |
| Profile.LightbulbsAbsentTotalZero | backend/routes/profile.js:101-112 | documents with no `lightbulbs` field contribute nothing |
| Profile.TotalUpdate | backend/routes/profile.js:90-98 | replacing one document changes the total by that document's change in contribution |
| Profile.ViewRaisesAuthorTotal | backend/routes/profile.js:90-111 | a detail fetch raises the author's view total by exactly one and leaves every other author's total unchanged |
| Profile.StatsOn | backend/routes/profile.js:81-128 | 404 with no change for an unknown username; otherwise the totals are sums over the user's posts plus essays, with missing values as 0; they overwrite `totalViews` and `totalUpvotes`, nothing else changes, and the reply has `totalUpvotes == totalLightbulbs` |
| Profile.Stats | backend/routes/profile.js:81-132 | the handler performs StatsOn on the stored collections, changes nothing but the users and keeps the database consistent |
| Profile.AwardOn | backend/routes/profile.js:137-152 | 404 with no change for an unknown username; otherwise exactly one award, stamped with the given time, is appended to that user's awards, and the whole list is returned |
| Profile.AwardExtends | backend/routes/profile.js:144-152 | the returned list is the earlier awards, unchanged, followed by one more |
| Profile.GrantAward | backend/routes/profile.js:135-156 | the handler performs AwardOn on the users, changes nothing else and keeps the database consistent |
| Profile.ItemsNotByKeepsOthers | backend/routes/profile.js:179-182 | exactly the posts or essays of other authors remain, with ids still unique |
| Profile.CommentsNotByKeepsOthers | backend/routes/profile.js:176 | exactly the comments of other authors remain, with ids still unique |
| Profile.UsersWithoutKeepsOthers | backend/routes/profile.js:185 | exactly the other users remain, with ids still unique |
| Profile.ItemsNotByKeepsTallies | backend/routes/profile.js:179-182 | the remaining items' reaction counters still equal their row histograms |
| Profile.DeleteAccountAsWritten | backend/routes/profile.js:159-187 | 404 with no change for a missing user; otherwise the user's votes, comment reactions, comments, posts, essays and user record are deleted, and everything else is kept; every invariant survives except the comment vote counters |
| Profile.SweepAsWrittenKeeps | backend/routes/profile.js:170-185 | the sweep as written keeps unique ids, the signs of the vote rows and the reaction counters |
| Profile.DeleteAccountLeavesStaleVotes | backend/routes/profile.js:170 | a comment by another user, voted on by the deleted user, keeps a counter its remaining rows no longer sum to |
| Profile.Unvote | backend/routes/profile.js:170 | withdrawing a user's votes lowers each comment's counter by exactly that user's vote on it |
| Profile.SweepLowersSum | backend/routes/profile.js:170 | deleting a user's Vote rows lowers a comment's signed sum by exactly that user's vote |
| Profile.UnvoteKeepsTallies | backend/routes/profile.js:170 | counters lowered by the withdrawn votes equal the sums of the remaining rows |
| Profile.CommentsNotByKeepsTallies | backend/routes/profile.js:176 | deleting comments keeps the remaining counters equal to their sums |
| Profile.UnvoteKeepsAllButCounters | backend/routes/profile.js:170 | withdrawing votes changes only the counters, and the user holds no vote afterwards |
| Profile.DeleteAccount | backend/routes/profile.js:159-192 | the corrected handler: 404 with no change for a missing user; otherwise the same sweep, with the comment vote counters brought in line, and the database stays consistent |
| Profile.SweepKeepsConsistent | backend/routes/profile.js:169-185 | the corrected sweep keeps the whole database invariant |
| Profile.SweptCommentsTallied | backend/routes/profile.js:169-176 | after the corrected sweep, the remaining comments have unique ids and counters equal to the sums of the remaining rows |
| Text.LeadIsMaximal | frontend/src/pages/Profile.jsx:55 | `trim` drops a leading run that is all whitespace and stops at the first other character |
| Text.TrailIsMaximal | frontend/src/pages/Profile.jsx:55 | the same at the end |
| Text.TrimIsInfix | frontend/src/pages/Profile.jsx:55 | what `trim` leaves is the run of its input that follows the leading whitespace |
| Text.TrimIsTrimmed | frontend/src/pages/Profile.jsx:55 | `trim` leaves no whitespace at either end |
| Text.TrimFixesExactlyTrimmed | frontend/src/pages/Profile.jsx:55 | `trim` keeps a string exactly when it has no whitespace at either end |
| Text.TrimAfterSpace | frontend/src/pages/Profile.jsx:55 | a leading space makes no difference to `trim` |
| Text.TrimEmptyIffBlank | frontend/src/pages/Profile.jsx:55-56 | `trim` gives the empty string exactly on blank input |
| Text.ContainsItself | frontend/src/pages/Register.jsx:164 | every string contains itself, so `includes` finds a mismatch message in itself |
| Text.SplitPiecesSeparatorFree | frontend/src/pages/Profile.jsx:54 | no piece of `split(',')` holds a comma |
| Text.JoinSplit | frontend/src/pages/Profile.jsx:54 | joining the pieces of `split(sep)` with sep gives the text back |
| Text.OrDefault | frontend/src/pages/Profile.jsx:37-38 | a string defaulted with `or` keeps a non-empty value and otherwise gives the default |
| ProfilePage.ParsedInterestsWellFormed | frontend/src/pages/Profile.jsx:53-56 | every parsed interest is non-empty, equal to its own trim and free of commas |
| ProfilePage.NonEmptyKeepsWellFormed | frontend/src/pages/Profile.jsx:56 | the filter drops the empty strings, so only well-formed ones remain |
| ProfilePage.TrimKeepsCharacters | frontend/src/pages/Profile.jsx:55 | `trim` only removes characters, so it adds no comma |
| ProfilePage.TrimAllAppend | frontend/src/pages/Profile.jsx:55 | `map(trim)` works element by element, in order |
| ProfilePage.NonEmptyAppend | frontend/src/pages/Profile.jsx:56 | `filter` keeps the survivors in order, run by run |
| ProfilePage.SplitAtSeparator | frontend/src/pages/Profile.jsx:54 | `split` at a separator gives the pieces before it, then the pieces after it |
| ProfilePage.ParseAtComma | frontend/src/pages/Profile.jsx:53-56 | the interests on either side of a comma are parsed independently and kept in order |
| ProfilePage.SplitWithoutSeparator | frontend/src/pages/Profile.jsx:54 | a text with no comma is split into itself alone |
| ProfilePage.SplitOfBlank | frontend/src/pages/Profile.jsx:54 | every piece of a text of whitespace and commas is blank |
| ProfilePage.TrimAllOfBlanks | frontend/src/pages/Profile.jsx:55 | blank pieces all trim to the empty string |
| ProfilePage.BlankParsesToNothing | frontend/src/pages/Profile.jsx:53-56 | empty input, or input of whitespace and commas only, parses to no interests |
| ProfilePage.NonEmptyOfBlanks | frontend/src/pages/Profile.jsx:56 | the filter drops a list of empty strings entirely |
| ProfilePage.ParseAfterSpace | frontend/src/pages/Profile.jsx:53-56 | a leading space makes no difference to the parsed interests |
| ProfilePage.TrimmedPartsAfterSpace | frontend/src/pages/Profile.jsx:54-55 | a leading space makes no difference to the trimmed pieces |
| ProfilePage.SplitAfterOther | frontend/src/pages/Profile.jsx:54 | a leading non-separator joins the first piece |
| ProfilePage.ParseAtListSeparator | frontend/src/pages/Profile.jsx:53-56 | the interests of `x + ', ' + rest` are those of x, then those of rest |
| ProfilePage.JoinThenParse | frontend/src/pages/Profile.jsx:39-56 | parsing `join(', ')` of a list of well-formed interests gives the list back |
| ProfilePage.ParseOne | frontend/src/pages/Profile.jsx:53-56 | a single well-formed interest parses to itself |
| ProfilePage.InitialEditData | frontend/src/pages/Profile.jsx:36-40 | missing bio, location and interests fill the editor with ''; present interests are shown joined by ', ' |
| ProfilePage.UneditedSaveKeepsInterests | frontend/src/pages/Profile.jsx:36-62 | opening the editor and saving without typing sends the stored interests back unchanged, or none when they were missing |
| ProfilePage.SaveRequest | frontend/src/pages/Profile.jsx:53-62 | the save sends the bio and location as typed and the parsed, well-formed interests, and no picture |
| ProfilePage.UneditedSaveKeepsUser | frontend/src/pages/Profile.jsx:51-64 | an unedited save of a stored user's profile leaves the users exactly as they were |
| RegisterPage.Validate | frontend/src/pages/Register.jsx:21-33 | the password mismatch is found first, then the email mismatch, and only a form that passes both proceeds |
| RegisterPage.Submitted | frontend/src/pages/Register.jsx:18-38 | a password mismatch sets its message and clears its flag; an email mismatch sets its message and clears its flag; neither sends anything; a passing form clears the error, sets loading and sends exactly one sign-up with the typed username, email and password |
| RegisterPage.Settled | frontend/src/pages/Register.jsx:37-46 | success navigates home; failure shows the server's message or 'Registration failed' and resets both flags to true, every typed field kept; loading ends either way |
| RegisterPage.EmailTyped | frontend/src/pages/Register.jsx:90-97 | typing the email sets it and its flag, clears the error only if the flag was down, and changes nothing else |
| RegisterPage.PasswordTyped | frontend/src/pages/Register.jsx:140-147 | typing the password sets it and its flag, clears the error only if the flag was down, and changes nothing else |
| RegisterPage.ConfirmEmailTyped | frontend/src/pages/Register.jsx:110-116 | the flag becomes equality with the email; the error is cleared exactly when the two now match and the error mentions the email mismatch; nothing else changes |
| RegisterPage.ConfirmPasswordTyped | frontend/src/pages/Register.jsx:161-166 | the flag becomes equality with the password; the error is cleared exactly when the two now match and the error mentions the password mismatch; nothing else changes |
| RegisterPage.PasswordCheckComesFirst | frontend/src/pages/Register.jsx:22-33 | when both pairs differ, only the password mismatch is reported, the email flag is untouched and nothing is sent |
| RegisterPage.RetypingConfirmationClearsMismatch | frontend/src/pages/Register.jsx:161-166 | after a password mismatch, retyping the confirmation to match clears both the flag and the error |
| RegisterPage.RejectedThenResubmitted | frontend/src/pages/Register.jsx:35-46 | a rejected sign-up leaves a form that sends the same sign-up again on the next submit |
| RegisterPage.RegisterForm.constructor | frontend/src/pages/Register.jsx:6-14 | the form starts with empty fields, both flags up, no error and nothing loading |
| RegisterPage.RegisterForm.Submit | frontend/src/pages/Register.jsx:18-38 | the component's state after submitting is Submitted of the state before |
| RegisterPage.RegisterForm.Settle | frontend/src/pages/Register.jsx:37-46 | the state after the sign-up returns is Settled of the state before |
| RegisterPage.RegisterForm.OnUsernameChange | frontend/src/pages/Register.jsx:77 | only the username changes |
| RegisterPage.RegisterForm.OnEmailChange | frontend/src/pages/Register.jsx:90-97 | the state after typing is EmailTyped of the state before |
| RegisterPage.RegisterForm.OnPasswordChange | frontend/src/pages/Register.jsx:140-147 | the state after typing is PasswordTyped of the state before |
| RegisterPage.RegisterForm.OnConfirmEmailChange | frontend/src/pages/Register.jsx:110-116 | the state after typing is ConfirmEmailTyped of the state before |
| RegisterPage.RegisterForm.OnConfirmPasswordChange | frontend/src/pages/Register.jsx:161-166 | the state after typing is ConfirmPasswordTyped of the state before |
| ResetPasswordPage.ScreenOf | frontend/src/pages/ResetPassword.jsx:65-137 | the spinner shows exactly while the link is checked, the invalid-link notice exactly once an invalid link is found, and the form exactly when the link is valid and there is no message |
| ResetPasswordPage.TokenChecked | frontend/src/pages/ResetPassword.jsx:18-27 | the check ends either way; the link is valid exactly when the check succeeded; a failed check shows 'Invalid or expired reset link'; nothing else changes |
| ResetPasswordPage.ResetCheck | frontend/src/pages/ResetPassword.jsx:36-44 | a mismatch is found first, then a password shorter than 6, and only a matching password of at least 6 characters is accepted |
| ResetPasswordPage.Submitted | frontend/src/pages/ResetPassword.jsx:33-53 | a mismatch or a short password sets its message and sends nothing; an accepted one clears the error and the message, sets loading and sends only the password for the token |
| ResetPasswordPage.Settled | frontend/src/pages/ResetPassword.jsx:50-62 | success shows the server's message; failure shows the server's message or 'Error resetting password'; loading ends either way and nothing is sent |
| ResetPasswordPage.MinimumLengthIsInclusive | frontend/src/pages/ResetPassword.jsx:41-44 | a password of exactly 6 characters passes and one of 5 does not |
| ResetPasswordPage.MismatchComesFirst | frontend/src/pages/ResetPassword.jsx:36-44 | a short mismatched pair reports the mismatch |
| ResetPasswordPage.InvalidLinkStays | frontend/src/pages/ResetPassword.jsx:76-104 | after an invalid link the notice stays up whatever is submitted or returned |
| ResetPasswordPage.SuccessShowsConfirmation | frontend/src/pages/ResetPassword.jsx:118-137 | a successful reset on a valid link replaces the form by the server's message |
| ResetPasswordPage.ResetPasswordForm.constructor | frontend/src/pages/ResetPassword.jsx:5-14 | the page starts checking the link, with empty fields and no message or error |
| ResetPasswordPage.ResetPasswordForm.VerifyToken | frontend/src/pages/ResetPassword.jsx:18-27 | the state after the link check is TokenChecked of the state before |
| ResetPasswordPage.ResetPasswordForm.Submit | frontend/src/pages/ResetPassword.jsx:33-53 | the state after submitting is Submitted of the state before, for the page's token |
| ResetPasswordPage.ResetPasswordForm.Settle | frontend/src/pages/ResetPassword.jsx:50-62 | the state after the request returns is Settled of the state before |
| ResetPasswordPage.ResetPasswordForm.OnPasswordChange | frontend/src/pages/ResetPassword.jsx:146 | only the password changes |
| ResetPasswordPage.ResetPasswordForm.OnConfirmPasswordChange | frontend/src/pages/ResetPassword.jsx:165 | only the confirmation changes |

## Left out

- Authentication: the `auth` middleware is taken as given, and the acting user's id is a parameter of each handler. The
  login, registration, reset-link and Google sign-in endpoints (`backend/routes/auth.js`) use bcrypt, JWT signing and
  the database, and are not modelled.
- Database and network I/O: Mongoose queries are filters and sums over in-memory sequences. The order `sort` imposes is
  the order of the input (`sorted` for the listings, creation order for comments). `populate` and field selection
  change no data and are left out.
- Concurrency: the row and the counter are written in two steps in the source. Each request is modelled as one atomic
  step, and interleaved requests are not covered.
- Database layout: the whole database is a single value in one object field. This rules out aliasing between
  collections, which the document store does not have anyway.
- Malformed ids: the store's cast errors (500 for ids that are not object ids) are not modelled. Ids are plain strings.
- Empty or unparseable numbers: listing parameters arrive already parsed, with None for an absent or unparseable value;
  JavaScript's `parseInt` of partial digit strings is not modelled.
- Creation timestamps and `new Date()`: the award's time is a parameter; `createdAt` is not modelled.
- Unicode whitespace: `trim` removes only the ASCII whitespace characters in this model, and lengths count characters,
  not UTF-16 units.
- The recent-items lists of `GET /profile/:username` are database queries with no logic beyond sorting and limiting.
- `backend/routes/users.js` repeats the field-wise update of the profile route and is not part of this model.
- `backend/models/Essay.js` is not part of this model; essays are assumed to follow the post schema
  (`backend/models/Post.js`): its trimmed and required title, required content, type and category enumerations
  and defaults, and zero counters. Mongoose's casting of non-string values is not modelled.
- The post-creation handler (`POST /posts`) only stores the given fields; it is not modelled separately.
- Comment reactions: the account sweep deletes a user's CommentReaction rows, and the model does the same, but no
  comment counter is kept for them, since no handler in these routes writes them.
- Browser behaviour: the redirect after a successful reset, blocking paste into the confirm-email field, HTML
  `minLength`/`required` attributes and the page's rendering beyond which screen is shown.
- `frontend/src/contexts/AuthContext.jsx` stores tokens in the browser and makes the HTTP calls; `register` and the
  reset request are modelled by the requests they would send and the reply they return.
- A vote value that is not a number (the source compares with `===` and adds to a number) is modelled as an integer only.
- JSON `null` in a request body is not expressible: a field is either absent (None) or a value. So `bio: null`, which
  the profile update's `$set` would store, and `published: null` on essay creation, which is kept rather than
  defaulted, are not modelled.

## Findings

| source | as written | input that shows it | evidently intended | confidence | as-written member | corrected member |
|---|---|---|---|---|---|---|
| backend/routes/profile.js:170 | delete-account removes the user's Vote rows but leaves the `votes` counter of every comment they voted on unchanged | user u cast +1 on comment c by another author, whose counter is 1; after u's account is deleted, c has no Vote rows left but its counter is still 1 | each remaining comment's counter drops by the deleted user's vote, so counters stay equal to the signed sums of their rows | high; not executed | Profile.DeleteAccountAsWritten, Profile.DeleteAccountLeavesStaleVotes | Profile.DeleteAccount, Profile.SweepKeepsConsistent |
