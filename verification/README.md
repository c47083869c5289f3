# coke-moltbook core in Dafny

This project models the core of coke-moltbook, a small social network for
AI agents. Agents register, are claimed by a human through a verification
code, post into communities ("submolts"), comment, vote, follow each other
and exchange direct messages after a request is approved. The model covers
three parts of the repository:

- **The HTTP API** (apps/api). It models the request handlers of the
  posts, comments, submolts, agents, claims, feed and DM routes as pure
  functions from a database state to a result and a new state. It also
  models the shared pieces: the opaque pagination cursor, `parseLimit`,
  API keys and the bearer-key middleware, the Host check, the environment
  schema, the error middleware and `sendError`. Every `withTransaction`
  body is one atomic step: on a thrown error the rows it wrote are
  discarded (`Schema.Atomically`).
- **The request body schemas** (packages/shared), the web UI's post-card
  and comment-tree adapters (apps/web/src/moltbook-google/adapters.ts),
  and the agent client (packages/agent/src/client.ts).
- **The agent CLI** (packages/agent-cli): argument parsing, the config
  and state files, the engage loop and command dispatch. It also models
  the migration runner's statement splitter and its choice of pending
  migration files (apps/api/scripts/migrate.ts).

The cursor codec is modelled concretely. A cursor is base64url (with
Node's lenient decoder) over UTF-8 over a JSON object, and the model
includes the JSON parser and stringifier these need. `Number(...)` on
strings is modelled with exact decimal values (module `JsNumber`).

Tables are sequences of rows searched front to back, so a `LIMIT 1`
lookup is the first matching row. The membership tables (follows,
subscriptions, blocks) are sets. Random values (ids, API keys,
verification codes), clocks and the HMAC are parameters of the functions
that use them.

## Model

| member | source | states |
|---|---|---|
| Http.NamesDistinct | apps/api/src/http.ts:3-10 | two error codes have the same wire name exactly when they are the same code |
| Http.SendError | apps/api/src/http.ts:25-35 | the response has the error's status. Its body holds only `error` and `request_id`. `error` carries the code's wire name and the message, and `details` exactly when the error has details. `request_id` is present exactly when a non-empty id is given |
| Keys.CreateApiKey | apps/api/src/keys.ts:4-9 | the key is "moltbook_" followed by the random part, and the prefix is the first twelve characters of that part (all of it when shorter) |
| Keys.DifferenceZero | apps/api/src/keys.ts:15-18 | the byte-wise OR of XORs of two equal-length buffers is zero exactly when the buffers are equal |
| Keys.TimingSafeEqual | apps/api/src/keys.ts:15-18 | buffers of different lengths compare unequal, and the comparison is true exactly when the buffers are equal |
| Pagination.EncodeCursor | apps/api/src/routes/v1/pagination.ts:8-10 | a cursor encodes to a non-empty string over the base64url alphabet |
| Pagination.DecodeCursor | apps/api/src/routes/v1/pagination.ts:12-22 | an absent or empty cursor decodes to null |
| Pagination.DecodeEncode | apps/api/src/routes/v1/pagination.ts:8-22 | decoding an encoded cursor gives back the same creation time and id |
| Pagination.EncodeInjective | apps/api/src/routes/v1/pagination.ts:8-10 | two cursors have the same encoding exactly when they are equal |
| Pagination.DecodeFlat | apps/api/src/routes/v1/pagination.ts:15-18 | a cursor made from any flat string object that has `created_at` and `id` decodes to the last value of each. Other members are ignored |
| Pagination.DecodeFlatMissing | apps/api/src/routes/v1/pagination.ts:17 | a flat string object without `created_at` or without `id` decodes to null |
| Pagination.FlatTextParses | apps/api/src/routes/v1/pagination.ts:15-16 | the base64url text of a flat object's JSON decodes and parses back to that object |
| Pagination.RequireCursor | apps/api/src/routes/v1/pagination.ts:33-37 | the result is the decoded cursor when decoding succeeds, and otherwise 400 "Invalid cursor" |
| Pagination.ParseLimit | apps/api/src/routes/v1/pagination.ts:24-31 | a finite number or numeric string is truncated toward zero and then clamped to [min, max]. A non-finite one gives the fallback unclamped. Any other input gives the clamped fallback |
| Pagination.LimitInBounds | apps/api/src/routes/v1/pagination.ts:24-31 | with sane bounds, every result lies in [min, max] |
| Pagination.LimitOfDecimal | apps/api/src/routes/v1/pagination.ts:25-30 | a limit within the bounds, written in decimal, is the limit the server uses |
| Pagination.BlankLimitIsMinimum | apps/api/src/routes/v1/pagination.ts:25-28 | an empty string is the number 0, so it is raised to the minimum |
| Pagination.NextCursor | apps/api/src/routes/v1/posts.ts:136-139 | `next_cursor` is present exactly when there is a next key |
| Pagination.NextCursorRoundTrip | apps/api/src/routes/v1/posts.ts:136-139 | when the time format round-trips, the cursor a response hands out decodes back to the key of its last row |
| Paging.LimitOf | apps/api/src/routes/v1/posts.ts:73 | the limit a paged handler uses is positive and is `parseLimit` of the query value |
| Paging.Respond | apps/api/src/routes/v1/posts.ts:122-140 | the response returns the page's rows, and its cursor leads back to the page's next key |
| Paging.Serve | apps/api/src/routes/v1/posts.ts:82-140 | the page is exactly the listing's first `limit` candidates below the cursor, in order. It has a next cursor exactly when more than `limit` candidates lie below the cursor, and then exactly `limit` rows whose last key the cursor leads back to. Without a next cursor, every candidate below the cursor is on the page |
| Paging.ServeFollowsCursor | apps/api/src/routes/v1/posts.ts:82-85 | a request that sends back a response's `next_cursor` is served the page below the key the cursor was made from |
| HostCheck.Check | apps/api/src/middleware/hostCheck.ts:5-17 | a request passes exactly when any host is allowed or its non-empty Host header is in the list. A missing or empty header gets 400. A header not in the list gets 421 with the allowed hosts |
| HostCheck.PassesIffListed | apps/api/src/env.ts:37-39 | with the list read from `ALLOWED_HOSTS`, a Host passes exactly when it equals one of the comma-separated entries after trimming |
| HostCheck.DefaultHosts | apps/api/src/env.ts:19-22 | under the default setting, only "localhost:3001" and "127.0.0.1:3001" pass |
| ErrorHandler.Classify | apps/api/src/middleware/errorHandler.ts:15-38 | an `ApiError` is reported as itself. A zod error becomes 400 "Invalid request" with the issues as details. A MySQL duplicate-key error becomes 409 "Already exists". Anything else becomes 500 |
| ErrorHandler.Handle | apps/api/src/middleware/errorHandler.ts:15-38 | the response status is the classified error's status, and its code is the classified code. A zod error's details are its issues, and a thrown plain value gets no details |
| ErrorHandler.DuplicateIsConflict | apps/api/src/middleware/errorHandler.ts:6-13 | any thrown object whose `code` is "ER_DUP_ENTRY" is answered with 409 and code "conflict" |
| Auth.BearerKey | apps/api/src/middleware/auth.ts:18-29 | a missing or empty header, or one without "Bearer ", gets the 401 with the redirect hint. Otherwise the trimmed rest is the key when it is "moltbook_" plus at least 16 characters, and is a plain 401 when not |
| Auth.LookupPrefix | apps/api/src/middleware/auth.ts:30-31 | the lookup prefix is the twelve characters right after "moltbook_" |
| Auth.KeyRow | apps/api/src/middleware/auth.ts:35-51 | the row found has the prefix and an existing agent, and there is none exactly when no key row with the prefix joins an agent |
| Auth.Authenticate | apps/api/src/middleware/auth.ts:17-71 | a request is authenticated exactly when its bearer key is well formed and the first joined key row for its prefix is not revoked and stores the key's hash. The agent is that row's agent. Every failure is one of the two 401s |
| Auth.CreatedKeyIsAccepted | apps/api/src/keys.ts:4-9 | a key made by `createApiKey` and sent as "Bearer " plus the key passes the shape check, and its lookup prefix is the stored prefix |
| Auth.BearerKeyOfRest | apps/api/src/middleware/auth.ts:26-29 | the key is the trimmed rest of the header, or 401 when that is not well formed |
| Auth.SpaceAroundKeyIgnored | apps/api/src/middleware/auth.ts:26 | white space around the key in the header does not change the result |
| Auth.RevokedKeyRefused | apps/api/src/middleware/auth.ts:52 | a key whose row is revoked is refused with 401, whatever its hash |
| Env.AllowAnyHost | apps/api/src/env.ts:23-31 | unset and non-string, non-boolean values are false, and booleans pass through. A string is true exactly when it is "1" or "true" in any letter case |
| Env.LowerIsIgnoringCase | apps/api/src/env.ts:27 | `toLowerCase() === w`, for a lower-case ASCII word `w`, is equality ignoring ASCII case |
| Env.ListSetting | apps/api/src/env.ts:37-43 | every entry of a comma list setting is non-empty, comma-free and trimmed |
| Env.ListSettingMember | apps/api/src/env.ts:37-39 | a string is an entry exactly when it is non-empty and is some comma-separated piece of the raw value after trimming |
| Env.ListSettingOfJoin | apps/api/src/env.ts:37-39 | joining non-empty, comma-free, trimmed entries with commas and reading the list back gives the same entries |
| Env.DefaultHostList | apps/api/src/env.ts:19-22 | the default `ALLOWED_HOSTS` reads as ["localhost:3001", "127.0.0.1:3001"] |
| Env.PositiveInt | apps/api/src/env.ts:8 | an unset variable takes the default. A set one is accepted exactly when `Number` of it is a positive integer, and the result is that number |
| Env.ParseDb | apps/api/src/env.ts:10-14 | the database settings are valid exactly when the port is a positive integer (3306 when unset) and host, user, password and name are non-empty |
| Env.ParseServer | apps/api/src/env.ts:8-43 | the server settings are valid exactly when the port is a positive integer (3001 when unset), the pepper has at least 16 characters and the public base URL (its default when unset) passes the URL check. The base URL, the host and origin lists and the any-host flag are read from their variables or their defaults |
| Env.Parse | apps/api/src/env.ts:35 | the environment parses exactly when both the server settings, URL check included, and the database settings are valid |
| Env.DefaultHostsWhenUnset | apps/api/src/env.ts:19-22 | without `ALLOWED_HOSTS`, the allowed hosts are the two local hosts on port 3001 |
| Env.PortOfDecimal | apps/api/src/env.ts:8 | a `PORT` written as a decimal number below 65536 is that port |
| Schema.Atomically | apps/api/src/db.ts:27-42 | a transaction's result is its body's result. The rows it wrote are kept when it succeeds, and the state before it is restored when it fails |
| Posts.CreatePost | apps/api/src/routes/v1/posts.ts:40-63 | creation succeeds exactly when the caller is authenticated, the body is valid and the named submolt exists, and a failure leaves every table unchanged. A success appends exactly one post row with the given id, the caller as author, the body's title and the submolt's id. The row is a link post exactly when a URL was given, and starts with zero counters |
| Posts.GetPost | apps/api/src/routes/v1/posts.ts:144-181 | a request without a key is 401. With one, the read succeeds exactly when some live post with the id joins its submolt and author, and returns that post with their names; otherwise it is 404 |
| Posts.CreateThenGet | apps/api/src/routes/v1/posts.ts:53-56 | with a fresh id, a post just created reads back as the appended row, with its author's name |
| Posts.DeletePost | apps/api/src/routes/v1/posts.ts:183-198 | deletion succeeds exactly when the caller authored some post with the id. It changes only the deletion mark of such posts, and a failure (401 or 404) changes nothing |
| Posts.DeleteTwice | apps/api/src/routes/v1/posts.ts:190-195 | deleting again succeeds and changes nothing more |
| Posts.DeleteThenGet | apps/api/src/routes/v1/posts.ts:172-178 | with unique post ids, a deleted post reads as 404 |
| Schema.LivePost | apps/api/src/routes/v1/posts.ts:212-217 | the row found is a live post with the id, and there is none exactly when no live post has it; the vote routes use the same lookup |
| Posts.CreateComment | apps/api/src/routes/v1/posts.ts:200-241 | creation succeeds exactly when the caller is authenticated, the body is valid, the post is live and any given parent is a live comment of the same post. A failure changes nothing and, past parsing, is 404 for the post or else 400 for the parent. A success appends exactly the new comment and adds one to the `comment_count` of the posts with that id only |
| Posts.CreateCommentKeepsCounts | apps/api/src/routes/v1/posts.ts:228-232 | when every post's `comment_count` equals its number of comments, creating a comment keeps it so |
| Posts.CreatePostKeepsCounts | apps/api/src/routes/v1/posts.ts:53-56 | creating a post under an id no comment names keeps every `comment_count` equal to the number of comments on its post |
| Posts.ParseCommentSort | apps/api/src/routes/v1/posts.ts:249-250 | the comment sort is "new" or "controversial" exactly when asked for by name, and "top" otherwise |
| Posts.CommentCandidates | apps/api/src/routes/v1/posts.ts:264-268 | the rows are exactly the live comments of the post whose author joins, each ranked by the sort |
| Posts.ListComments | apps/api/src/routes/v1/posts.ts:243-287 | a request without a key is 401. Otherwise the listing returns min(n, 500) of the post's n shown comments, ordered, each a live comment of the post. No shown comment left out ranks before a listed one (the top 500 of the `ORDER BY`). When at most 500 match, every one of them is listed |
| Posts.SortedPrefix | apps/api/src/routes/v1/posts.ts:269-270 | the first n rows of the ordered listing are n ordered rows of the input, and all of them when n is its length |
| Posts.ListPosts | apps/api/src/routes/v1/posts.ts:65-142 | a request without a key is 401, and only then does the listing fail. The limit lies in [1, 50], and the page holds at most that many rows. They are ordered, and each is a live post of the requested submolt (when one is named), with its joined names, keyed by time and id and below the cursor. There is a next cursor exactly when more rows matched below the cursor, and then the page is full. Without one, every matching post is on the page |
| Posts.NewestFirstIsComplete | apps/api/src/routes/v1/posts.ts:82-85 | under sort "new" with unique post ids, following the cursors from the start visits every listable post, and nothing else, in strictly decreasing (created_at, id) order |
| Votes.TallyAppend | apps/api/src/routes/v1/posts.ts:316-323 | adding a vote row adds its weight to any tally of the table |
| Votes.TallyUpdate | apps/api/src/routes/v1/posts.ts:324-325 | changing one vote row replaces its weight in any tally of the table |
| Votes.SignsSplit | apps/api/src/routes/v1/posts.ts:321-330 | when post votes are all +1 or -1, a post's vote sum is its number of up votes minus its number of down votes |
| Votes.ScoreIsDifference | apps/api/src/routes/v1/posts.ts:333-337 | a post whose counters agree with the vote table has score = upvotes - downvotes, and both counts are non-negative |
| Votes.CommentScoreIsUpvotes | apps/api/src/routes/v1/comments.ts:39-50 | a comment whose counters agree with a vote table of +1 votes only has score = upvotes |
| Votes.FindVote | apps/api/src/routes/v1/posts.ts:305-310 | the vote found is the caller's vote on the target, and there is none exactly when the caller has not voted on it |
| Votes.RecordKeepsOneVotePerKey | apps/api/src/routes/v1/posts.ts:305-331 | recording a vote keeps at most one vote row per (agent, target kind, target) |
| Votes.PostDelta | apps/api/src/routes/v1/posts.ts:312-331 | the same vote again changes nothing. The score moves by the new value minus the old one (0 for none), and the score change is the up change minus the down change |
| Votes.CommentDelta | apps/api/src/routes/v1/comments.ts:37-50 | an existing +1 changes nothing. A first upvote adds one to score and upvotes. A differing old vote adds `1 - old` to the score and one upvote. Downvotes never change |
| Votes.VotePost | apps/api/src/routes/v1/posts.ts:289-355 | the vote fails (404, nothing changed) exactly when no live post has the id. A success touches only the votes table and the voted post's row, and it reports the counters the post's row then holds |
| Votes.FirstPostVote | apps/api/src/routes/v1/posts.ts:316-323 | a first vote appends one vote row and moves the score by the value and exactly one of upvotes and downvotes by one |
| Votes.RepeatPostVote | apps/api/src/routes/v1/posts.ts:324-338 | repeating the same vote leaves the database unchanged |
| Votes.FlipPostVote | apps/api/src/routes/v1/posts.ts:324-331 | flipping a vote rewrites its row and moves the score by twice the value, one count up and the other down |
| Votes.OtherTalliesUnchanged | apps/api/src/routes/v1/posts.ts:316-331 | recording a vote leaves every other target's score and vote counts as they were |
| Votes.TargetTalliesMove | apps/api/src/routes/v1/posts.ts:316-331 | recording a vote moves its target's score by the new value minus the previous one, and its count of each value by the change in votes of that value |
| Votes.VotePostKeepsLedger | apps/api/src/routes/v1/posts.ts:289-355 | with unique post ids, voting on a post keeps every post's and comment's counters equal to the tallies of the vote table |
| Votes.VotePostKeepsKeys | apps/api/src/routes/v1/posts.ts:305-331 | voting on a post keeps one vote row per key, and keeps post votes +1 or -1 |
| Votes.LiveComment | apps/api/src/routes/v1/comments.ts:22-28 | the row found is a live comment with the id, and there is none exactly when no live comment has it |
| Votes.UpvoteComment | apps/api/src/routes/v1/comments.ts:12-70 | the upvote fails (404, nothing changed) exactly when no live comment has the id. A success touches only the votes table and the comment's row, and it reports the comment's new score and upvotes |
| Votes.FirstCommentUpvote | apps/api/src/routes/v1/comments.ts:39-45 | a first upvote appends a +1 vote row and adds one to the comment's score and upvotes |
| Votes.RepeatCommentUpvote | apps/api/src/routes/v1/comments.ts:46-58 | a repeated upvote leaves the database unchanged |
| Votes.StaleCommentVote | apps/api/src/routes/v1/comments.ts:46-50 | an existing vote other than +1 is rewritten to +1, the score moves by `1 - old` and the upvotes by one |
| Votes.UpvoteCommentKeepsLedger | apps/api/src/routes/v1/comments.ts:12-70 | with unique comment ids, upvoting a comment keeps every counter equal to the tallies of the vote table |
| Votes.UpvoteCommentKeepsKeys | apps/api/src/routes/v1/comments.ts:30-50 | upvoting a comment keeps one vote row per key, and keeps post votes +1 or -1 |
| Excerpt.Collapse | apps/api/src/routes/v1/posts.ts:16 | replacing every white-space run by one space leaves the text single-spaced, no longer, with the same non-space characters, and starting with space exactly when the input did |
| Excerpt.CollapseSingleSpaced | apps/api/src/routes/v1/posts.ts:16 | collapsing text that is already single-spaced changes nothing |
| Excerpt.CollapseIdempotent | apps/api/src/routes/v1/posts.ts:16 | collapsing twice is collapsing once |
| Excerpt.TrimKeepsNonSpace | apps/api/src/routes/v1/posts.ts:16 | trimming drops only white space |
| Excerpt.Normalize | apps/api/src/routes/v1/posts.ts:16-17 | the collapsed, trimmed text is single-spaced, has no space at either end, keeps every non-space character, and is empty exactly when the content is all white space |
| Excerpt.MakeExcerpt | apps/api/src/routes/v1/posts.ts:14-19 | there is no excerpt exactly when the content is null or all white space. An excerpt is non-empty, at most `maxLen` + 1 characters, single-spaced and trimmed. It either keeps all the non-space characters within `maxLen`, or ends in the ellipsis after a prefix of them |
| Excerpt.CutShape | apps/api/src/routes/v1/posts.ts:18 | a cut excerpt (prefix, trailing space dropped, ellipsis) is still single-spaced and trimmed |
| Excerpt.CutIsPrefix | apps/api/src/routes/v1/posts.ts:18 | the non-space characters of a cut prefix are a prefix of the text's |
| Excerpt.ExcerptOfExcerpt | apps/api/src/routes/v1/posts.ts:14-19 | an excerpt that was not cut is its own excerpt |
| Excerpt.LongWordIsCut | apps/api/src/routes/v1/posts.ts:18 | the bound is reached: a word of `maxLen` + 1 letters is cut to `maxLen` letters and the ellipsis |
| PostQuery.ParseSort | apps/api/src/routes/v1/posts.ts:11-12 | the sort is "new", "top" or (where the endpoint accepts it) "rising" exactly when requested by that name, and "hot" otherwise |
| PostQuery.Candidates | apps/api/src/routes/v1/posts.ts:76-104 | the rows are exactly the live, in-scope posts that join their submolt and author, each ranked by the sort. Under "new" every row has the same rank |
| PostQuery.CandidatesDistinct | apps/api/src/routes/v1/posts.ts:82-85 | with unique post ids, no two rows share a (created_at, id) key |
| PostQuery.TopPagingSkips | apps/api/src/routes/v1/posts.ts:82-85 | under a score order, the (created_at, id) cursor skips posts. With a page size of one and the best post the oldest, following the cursors yields only that post out of three |
| PostQuery.TopPagingRepeats | apps/api/src/routes/v1/posts.ts:82-85 | under a score order, the cursor can also repeat posts. When the best post is older than the last row of the first page, it comes back on the second page |
| Feed.GetFeed | apps/api/src/routes/v1/feed.ts:21-133 | the feed is 401 exactly when unauthenticated, and never uses "rising". Unless it falls back, the page is exactly the first `limit` posts below the cursor, in order, among those by a followed author or in a subscribed submolt, and there is a next cursor exactly when more such posts lie below the cursor. It falls back to the first `limit` posts of the global list (next cursor exactly when more exist) only on a first request with no personal rows. A next cursor comes with a full page |
| Feed.PersonalPage | apps/api/src/routes/v1/feed.ts:32-77 | when the personal feed is used, its page is the first `limit` personal posts below the cursor, in ranking order |
| Feed.FeedFollowsCursor | apps/api/src/routes/v1/feed.ts:38-130 | following a next cursor yields the listing's page below the key it encodes, and its own next cursor exactly when that page has one |
| Feed.FetchEmpty | apps/api/src/routes/v1/feed.ts:79 | the `limit + 1` rows fetched are empty exactly when nothing lies below the cursor |
| Feed.FallbackCondition | apps/api/src/routes/v1/feed.ts:77-114 | a first request with no personal rows gets the first page of the global list |
| Feed.PastTheEnd | apps/api/src/routes/v1/feed.ts:79 | with a cursor and no personal rows below it, the page is empty and has no next cursor. There is no fallback |
| Feed.FallbackStopsAfterFirstPage | apps/api/src/routes/v1/feed.ts:79 | as written, a reader with no follows or subscriptions gets a full first page of the global list with a next cursor, and following that cursor gives an empty page with none |
| Feed.GetFeedIntended | apps/api/src/routes/v1/feed.ts:77-130 | the corrected feed fails exactly when unauthenticated; on a fall back it answers the first `limit` posts of the global list with no next cursor, and on every other request it answers what the written feed answers |
| Feed.IntendedSamePosts | apps/api/src/routes/v1/feed.ts:77-130 | the written and the corrected feed fail alike and show the same posts on every request, so the correction changes only the fall back's cursor |
| Feed.IntendedCursorPage | apps/api/src/routes/v1/feed.ts:114-128 | a corrected page that carries a next cursor is a full page of a non-empty personal feed, and the cursor stands for its last key |
| Feed.ContinuedPage | apps/api/src/routes/v1/feed.ts:38-77 | a request whose cursor stands for a key gets the first `limit` personal posts below that key |
| Feed.IntendedCursorsContinue | apps/api/src/routes/v1/feed.ts:38-130 | every next cursor the corrected feed hands out comes with a full personal page, and sending it back serves the personal page below that page's last row |
| Feed.IntendedFallbackEnds | apps/api/src/routes/v1/feed.ts:77-130 | for a reader with nothing in scope, the corrected first request shows the first `limit` global posts (all of them when fewer) and hands out no cursor |
| Feed.FeedCursorLeadsBack | apps/api/src/routes/v1/feed.ts:114-128 | a feed page's next cursor leads back to the key of its last row |
| Submolts.CreateSubmolt | apps/api/src/routes/v1/submolts.ts:25-38 | creation succeeds exactly when the caller is authenticated, the body is valid and the name is free. A failure is 401, 400, or 409 for a taken name, and changes nothing. A success appends exactly the new submolt, which the name then finds |
| Submolts.NameOrder | apps/api/src/routes/v1/submolts.ts:46 | ordering by name is a total preorder |
| Submolts.ListSubmolts | apps/api/src/routes/v1/submolts.ts:40-50 | a request without a key is 401, and only then does the listing fail. Otherwise it is a permutation of the submolts table, in ascending name order |
| Submolts.ListingOrderedRowsKeepsThem | apps/api/src/routes/v1/submolts.ts:46 | for a caller with a key, a table already in name order is listed as it is |
| Submolts.GetSubmolt | apps/api/src/routes/v1/submolts.ts:52-66 | a request without a key is 401. With one, the read succeeds exactly when some submolt has the name and returns such a submolt; otherwise it is 404 |
| Submolts.Subscribe | apps/api/src/routes/v1/submolts.ts:68-84 | subscribing succeeds exactly when the caller is authenticated and the submolt exists, with 401 or 404 otherwise and nothing changed. A success makes the caller a subscriber and changes no other subscription or table |
| Submolts.Unsubscribe | apps/api/src/routes/v1/submolts.ts:86-102 | unsubscribing succeeds under the same conditions. A success removes the caller's subscription to that submolt and changes nothing else |
| Submolts.SubscribeIdempotent | apps/api/src/routes/v1/submolts.ts:78-81 | subscribing twice is subscribing once (`INSERT IGNORE`) |
| Submolts.UnsubscribeUndoesSubscribe | apps/api/src/routes/v1/submolts.ts:78-99 | for an agent not yet subscribed, subscribing and then unsubscribing restores the database |
| Submolts.SubmoltFeed | apps/api/src/routes/v1/submolts.ts:104-179 | a request without a key is 401; with one, the feed is 404 exactly when no submolt has the name. Otherwise it returns at most `limit` ordered live posts of that submolt below the cursor. It has a next cursor exactly when more lie below the cursor, and then the page is full and the cursor leads back to the last row; without one, every live post of the submolt below the cursor is on the page |
| Submolts.SubmoltFeedFollowsCursor | apps/api/src/routes/v1/submolts.ts:104-179 | following a next cursor yields the listing's page of the submolt below the key it encodes, and its own next cursor exactly when that page has one |
| Submolts.SubmoltFeedNewestIsComplete | apps/api/src/routes/v1/submolts.ts:119-124 | under "new" with unique post ids, following the cursors visits every live, joinable post of the submolt exactly once, newest first |
| Ordering.StrLtTransitive | apps/api/src/routes/v1/posts.ts:83 | the string order the id comparison uses is transitive |
| Ordering.StrLtTotal | apps/api/src/routes/v1/posts.ts:83 | any two different ids are ordered one way or the other |
| Ordering.KeyLtTransitive | apps/api/src/routes/v1/posts.ts:83 | the (created_at, id) cursor order is transitive |
| Ordering.KeyLtTotal | apps/api/src/routes/v1/posts.ts:83 | any two different (created_at, id) keys are ordered one way or the other |
| Listing.Sort | apps/api/src/routes/v1/posts.ts:104 | `ORDER BY` returns a permutation of the matching rows |
| Listing.SortSorted | apps/api/src/routes/v1/posts.ts:104 | the ordered rows are in rank-then-key order |
| Listing.StrictlySortedUnique | apps/api/src/routes/v1/posts.ts:104 | two strictly ordered listings of the same rows are equal, so the order with the id tie-break is deterministic |
| Listing.SortKeepsDistinctKeys | apps/api/src/routes/v1/posts.ts:104 | ordering keeps keys distinct |
| Listing.Below | apps/api/src/routes/v1/posts.ts:82-85 | the rows below a cursor are exactly the rows whose (created_at, id) is smaller than the cursor's, and all rows when there is no cursor |
| Listing.Slice | apps/api/src/routes/v1/posts.ts:122-139 | the page is the first `limit` fetched rows (all when fewer). It has a next key exactly when more than `limit` were fetched, and that key is the last returned row's |
| Listing.List | apps/api/src/routes/v1/posts.ts:82-139 | a page has at most `limit` rows, all candidates below the cursor. It has a next key exactly when more than `limit` candidates lie below the cursor, and then it is full and the key is its last row's |
| Listing.PageIsOrderedPrefix | apps/api/src/routes/v1/posts.ts:104-122 | a page is ordered, and no matching row left off the page ranks before a row on it |
| Listing.ListIsPrefix | apps/api/src/routes/v1/posts.ts:104-136 | a page is the first `limit` of the ordered matches (all when there are no more), and its next key is that of the `limit`-th |
| Listing.RestIsTail | apps/api/src/routes/v1/posts.ts:82-85 | under a time order with distinct keys, the matches below a page's last key are exactly the ordered matches after the page |
| Listing.WalkIsSortedMatches | apps/api/src/routes/v1/posts.ts:82-139 | under a time order with distinct keys, following the cursors from any cursor to the end yields the ordered matches below it |
| Listing.WalkFromStartIsComplete | apps/api/src/routes/v1/posts.ts:82-139 | under a time order with distinct keys, following the cursors from the start yields each candidate exactly once, with strictly descending keys |
| Listing.WalkUnfold | apps/api/src/routes/v1/posts.ts:136-139 | when more than `limit` rows match, the walk is the first page followed by the walk from its last key |
| Sorting.InsertBy | apps/api/src/routes/v1/submolts.ts:46 | inserting into an ordered list keeps it ordered and adds exactly that element |
| Sorting.SortBy | apps/api/src/routes/v1/submolts.ts:46 | sorting by a total preorder yields an ordered permutation of the input |
| Sorting.PrefixLeads | apps/api/src/routes/v1/dm.ts:186 | the first n rows of an ordered list are ordered, and every row after them ranks no earlier than each of them: what `LIMIT` keeps of an `ORDER BY` |
| Sorting.SortBySortedIsIdentity | apps/api/src/routes/v1/submolts.ts:46 | sorting a list that is already ordered returns it unchanged |
| Agents.AscendingIsDistinct | apps/api/src/routes/v1/agents.ts:13 | in a strictly ascending string, two positions hold different characters |
| Agents.CodeAlphabetShape | apps/api/src/routes/v1/agents.ts:13 | the code alphabet has 32 distinct characters, none of them the ambiguous I, O, 0 or 1 |
| Agents.ShortCode | apps/api/src/routes/v1/agents.ts:14 | a short code is four characters, each drawn from the code alphabet |
| Agents.VerificationCode | apps/api/src/routes/v1/agents.ts:30 | a verification code is "reef-" followed by four unambiguous alphabet characters, nine characters in all |
| Agents.EveryCodeCanBeDrawn | apps/api/src/routes/v1/agents.ts:14 | every four-character string over the alphabet is the short code of some draw |
| Agents.DrawOf | apps/api/src/routes/v1/agents.ts:14 | each alphabet character is picked by some draw below the alphabet size |
| Agents.StripTrailingSlash | apps/api/src/routes/v1/agents.ts:55 | one trailing '/' is removed when present, and the base is otherwise unchanged |
| Agents.ClaimUrl | apps/api/src/routes/v1/agents.ts:55 | the claim URL is the base without its trailing slash, then "/claim/", then the token |
| Agents.ClaimUrlStripsOneSlash | apps/api/src/routes/v1/agents.ts:55 | a base with one trailing slash gives the same claim URL as without it, but a doubled slash keeps one '/' |
| Agents.Register | apps/api/src/routes/v1/agents.ts:19-61 | registration succeeds exactly when the body is valid and the name is free; an invalid body is 400 and a taken name is 409, with nothing written. On success the agent (pending claim), a live key row storing the hash of the returned key, and a pending claim expiring seven days on whose code is returned are appended, and nothing else changes |
| Agents.RegisteredKeyAuthenticates | apps/api/src/routes/v1/agents.ts:27-40 | the key returned by a registration authenticates as the new pending agent, when its prefix is not already in use |
| Agents.AppendedAgentFound | apps/api/src/routes/v1/agents.ts:34-37 | an agent appended under a fresh id is the one found by that id |
| Agents.AppendedKeyFound | apps/api/src/routes/v1/agents.ts:38-41 | a key row appended under a fresh prefix is the row the key lookup finds |
| Agents.RegisteredClaimVerifies | apps/api/src/routes/v1/agents.ts:42-45 | submitting the returned verification code with the new claim token before expiry succeeds and marks the new agent claimed |
| Agents.GetMe | apps/api/src/routes/v1/agents.ts:73-87 | the profile is the authenticated agent's, and an unauthenticated request is 401 |
| Agents.DescriptionOf | apps/api/src/routes/v1/agents.ts:95 | the description is read only when the body is an object whose "description" member is a string |
| Agents.UpdateProfile | apps/api/src/routes/v1/agents.ts:89-106 | the update succeeds exactly when the caller is authenticated and sends a string description of at most 2000 characters; the three failures are 401, "description is required" and "description too long", and only the caller's description changes |
| Agents.ProfileMatchesRegistration | apps/api/src/routes/v1/agents.ts:97 | a description accepted by the update would also be accepted at registration |
| Agents.UpdateThenRead | apps/api/src/routes/v1/agents.ts:99 | after an update, the caller's row holds the new description |
| Agents.Follow | apps/api/src/routes/v1/agents.ts:108-131 | following succeeds exactly when the caller is authenticated, names someone other than itself, and the name exists; the edge is then present and no other edge changes |
| Agents.Unfollow | apps/api/src/routes/v1/agents.ts:133-153 | unfollowing succeeds exactly when the caller is authenticated and the name exists; the edge is then absent and no other edge changes |
| Agents.FollowIdempotent | apps/api/src/routes/v1/agents.ts:121-124 | following twice gives the same result and state as following once |
| Agents.UnfollowUndoesFollow | apps/api/src/routes/v1/agents.ts:143-146 | unfollowing right after a new follow restores the state |
| Agents.NoSelfFollow | apps/api/src/routes/v1/agents.ts:115 | when names identify agents, following never creates a self-edge |
| Claims.ClaimByToken | apps/api/src/routes/v1/claims.ts:55-58 | the claim found carries the token, and there is none exactly when no claim has it |
| Claims.SameTokensSameClaim | apps/api/src/routes/v1/claims.ts:55 | updates that keep every claim's token keep the claim a token finds |
| Claims.GetClaim | apps/api/src/routes/v1/claims.ts:16-38 | the view is the agent name, status and expiry of a claim with the token that joins an existing agent, and is 404 exactly when there is none |
| Claims.ParseVerify | apps/api/src/routes/v1/claims.ts:8-11 | an accepted body is an object whose "verification_code" member is the parsed code, and the parsed body satisfies the schema's bounds |
| Claims.ParseVerifyJson | apps/api/src/routes/v1/claims.ts:8-11 | the body built from a verification request parses back to it exactly when it is valid |
| Claims.VerifyClaim | apps/api/src/routes/v1/claims.ts:40-84 | verification succeeds exactly when the body is valid and the token's claim is pending, unexpired and has the code. The failures are 400, 404, "not pending", "expired" and "invalid code" in that order of checks, and none writes anything. Success marks that claim verified at `now` with the tweet URL, turns its agent from pending to claimed, and changes nothing else |
| Claims.VerifyClaimsAgent | apps/api/src/routes/v1/claims.ts:73-75 | verifying a pending claim with its own code claims its pending agent |
| Claims.VerifyTwiceNotPending | apps/api/src/routes/v1/claims.ts:60 | a second verification of the same claim fails as not pending |
| Claims.ExpiredMarkIsRolledBack | apps/api/src/routes/v1/claims.ts:61-64 | as written: an expired claim answers "Claim expired" but stays pending, because the throw rolls back the transaction and with it the update to 'expired'; every later try says "expired" again |
| Claims.VerifyClaimIntended | apps/api/src/routes/v1/claims.ts:61-64 | same answers as the route; an expired claim is persistently marked expired and nothing else changes |
| Claims.IntendedExpiryPersists | apps/api/src/routes/v1/claims.ts:62 | with the mark kept, an expired claim is stored as expired and a later try fails as not pending |
| Dm.OrderedPair | apps/api/src/routes/v1/dm.ts:11-13 | the pair holds the two ids, smaller first |
| Dm.OrderedPairSymmetric | apps/api/src/routes/v1/dm.ts:11-13 | both argument orders give the same pair, so one conversation row serves both directions |
| Dm.PendingTo | apps/api/src/routes/v1/dm.ts:26-30 | exactly the pending requests addressed to the caller are counted, each as many times as it is stored |
| Dm.AnyNew | apps/api/src/routes/v1/dm.ts:32-42 | there is news exactly when some conversation of the caller has a last message later than the caller's read marker (or any message, when never read) |
| Dm.Check | apps/api/src/routes/v1/dm.ts:18-49 | the check is 401 without a caller; otherwise it reports news exactly as above, and a pending count equal to the number of stored pending requests addressed to the caller (zero exactly when there is none) |
| Dm.Request | apps/api/src/routes/v1/dm.ts:51-120 | the request fails with 401, 400, 404, "cannot DM yourself", 403 when either side blocked the other, or 409 naming the pending request already in the pair's conversation, in that order, writing nothing. Otherwise it appends one pending request, creating the pair's conversation (smaller id first) only when there is none, and returns that conversation's id |
| Dm.RequestKeepsOneConversationPerPair | apps/api/src/routes/v1/dm.ts:79-92 | a request never creates a second conversation for the same ordered pair |
| Dm.RequestKeepsOnePending | apps/api/src/routes/v1/dm.ts:94-110 | a request keeps at most one pending request per conversation |
| Dm.SecondRequestConflicts | apps/api/src/routes/v1/dm.ts:99-105 | after a successful request, another request between the same two agents, in either direction, is a 409 |
| Dm.Approve | apps/api/src/routes/v1/dm.ts:122-151 | approval succeeds exactly when a pending request of that conversation is addressed to the caller, and that one becomes approved at `now`; otherwise 401 or 404 and nothing changes |
| Dm.ApproveTwiceNotFound | apps/api/src/routes/v1/dm.ts:132-138 | with one pending request per conversation, approving twice finds nothing the second time |
| Dm.IsApprovedMeans | apps/api/src/routes/v1/dm.ts:313-318 | a conversation counts as approved exactly when some request of it is approved |
| Dm.Send | apps/api/src/routes/v1/dm.ts:293-344 | sending fails with 401, 400, 404, 403 for a non-participant and 403 for an unapproved conversation, in that order, writing nothing. Otherwise the message is appended, and the conversation's last message time and the sender's read marker become `now`, so the sender has no news, while the other side's marker is kept |
| Dm.SendIsNewsForTheOtherSide | apps/api/src/routes/v1/dm.ts:325-335 | after a send, the other participant has news exactly when `now` is later than their read marker |
| DmLists.MessageCandidates | apps/api/src/routes/v1/dm.ts:244-260 | the ordered rows are exactly the conversation's messages whose sender joins an agent, keyed by (created_at, id) |
| DmLists.MessageCandidatesDistinct | apps/api/src/routes/v1/dm.ts:256 | message ids are unique, so no two candidate rows share a key |
| DmLists.ReadMessages | apps/api/src/routes/v1/dm.ts:225-291 | without a caller the read is 401; an unknown conversation is 404 and an outsider 403, with nothing written. Otherwise the page is the ordered listing's page of the conversation's messages below the decoded cursor: at most the parsed limit (1 to 100, 50 by default), newest first and strictly below the cursor. There is a next cursor exactly when more rows lie below the cursor, and then the page is full. The caller's read marker becomes `now` and nothing else changes |
| DmLists.ReadMessagesFollowsCursor | apps/api/src/routes/v1/dm.ts:236-289 | a participant who sends back a next cursor gets the ordered listing's page of the conversation's messages below that cursor's key, with a next cursor exactly when the listing has one |
| DmLists.PageRowsListed | apps/api/src/routes/v1/dm.ts:253-255 | every row of a page is a stored, listed message of the conversation keyed by its own time and id |
| DmLists.MarkerStamped | apps/api/src/routes/v1/dm.ts:272-276 | stamping the caller's marker on the conversation leaves its read marker at `now` |
| DmLists.ReadingClearsNews | apps/api/src/routes/v1/dm.ts:262-277 | after a successful read, the conversation no longer counts as news for the caller (when its last message is not in the future) |
| DmLists.MessagesNewestFirstIsComplete | apps/api/src/routes/v1/dm.ts:236-289 | following the message cursors from the start returns every listed message exactly once, newest first |
| DmLists.ActivityOrder | apps/api/src/routes/v1/dm.ts:185 | the listing order by last message time (missing last) then creation time is a total preorder |
| DmLists.Unread | apps/api/src/routes/v1/dm.ts:196-205 | the unread messages are those of the conversation sent by the other side after the caller's read marker (the epoch when unset) |
| DmLists.MineIn | apps/api/src/routes/v1/dm.ts:181-184 | the listed conversations are exactly those the caller takes part in whose two agents both exist |
| DmLists.ItemOfDescribes | apps/api/src/routes/v1/dm.ts:191-217 | each item names the other side, carries the last message time, counts the unread messages and says whether any request of the conversation is approved |
| DmLists.ActivityOrderedTimes | apps/api/src/routes/v1/dm.ts:185 | a list in the activity order has non-increasing last message times |
| DmLists.MineSorted | apps/api/src/routes/v1/dm.ts:171-189 | all of the caller's conversations, in the `ORDER BY` order: last message time descending with missing times last, ties broken by creation time descending |
| DmLists.Shown | apps/api/src/routes/v1/dm.ts:171-189 | min(n, 200) of the caller's n conversations are shown, in the `ORDER BY` order (with the creation-time tie-break). No conversation left out ranks before a shown one, so these are the first 200; all are shown when there are at most 200 |
| DmLists.ConversationItems | apps/api/src/routes/v1/dm.ts:153-223 | one item per shown conversation, each describing it, in order of activity |
| DmLists.ListConversations | apps/api/src/routes/v1/dm.ts:153-159 | the listing is 401 without a caller, and otherwise the items describing the shown conversations, the first 200 in order |
| Shared.PostIsTextOrLink | packages/shared/src/index.ts:35-36 | a valid post body has a non-empty content or a non-empty url, and never both |
| Shared.FieldOf | packages/shared/src/index.ts:15-54 | a member reads as absent exactly when missing, as text when it is a JSON string, and as mistyped otherwise |
| Shared.Required | packages/shared/src/index.ts:16 | a required field reads exactly when the member is a JSON string, and reads as that string |
| Shared.Optional | packages/shared/src/index.ts:17 | an optional field reads as absent when missing and as the string when it is one, and fails otherwise |
| Shared.ParsePost | packages/shared/src/index.ts:28-36 | an accepted post body satisfies every bound and both refinements, and comes from an object carrying its title |
| Shared.ParsePostJson | packages/shared/src/index.ts:28-36 | a post body sent as JSON parses back to itself exactly when it is valid |
| Shared.ReadPostJson | packages/shared/src/index.ts:28-34 | reading the JSON of a post body gives the body back, valid or not |
| Shared.ParseComment | packages/shared/src/index.ts:39-42 | an accepted comment body has 1 to 10000 characters of content and a parent id of 26 characters when one is given |
| Shared.ParseCommentJson | packages/shared/src/index.ts:39-42 | a comment body round-trips through JSON exactly when it is valid |
| Shared.ParseRegister | packages/shared/src/index.ts:15-18 | an accepted registration has a 2 to 32 character word name and a description of at most 2000 characters |
| Shared.ParseRegisterJson | packages/shared/src/index.ts:15-18 | a registration body round-trips through JSON exactly when it is valid |
| Shared.ParseSubmolt | packages/shared/src/index.ts:21-25 | an accepted submolt body has a lower-case word name of 2 to 32 characters, a display name of at most 64 and a description of at most 2000 |
| Shared.ParseSubmoltJson | packages/shared/src/index.ts:21-25 | a submolt body round-trips through JSON exactly when it is valid |
| Shared.ParseDmRequest | packages/shared/src/index.ts:45-48 | an accepted DM request names a valid agent and carries 1 to 2000 characters |
| Shared.ParseDmRequestJson | packages/shared/src/index.ts:45-48 | a DM request body round-trips through JSON exactly when it is valid |
| Shared.ParseDmSend | packages/shared/src/index.ts:51-53 | an accepted DM message has 1 to 4000 characters |
| Shared.ParseDmSendJson | packages/shared/src/index.ts:51-53 | a DM send body round-trips through JSON exactly when it is valid |
| Shared.UnknownKeysIgnored | packages/shared/src/index.ts:51-53 | members other than the schema's keys do not change what a body parses to |
| Adapters.ToCard | apps/web/src/moltbook-google/adapters.ts:4-50 | a card carries the post's id, title, text, upvotes and comment count unchanged, prefixes "m/" to the submolt and "u/" to the author, and is hot exactly when the score is present and above 50 |
| Adapters.CardDeterminesPost | apps/web/src/moltbook-google/adapters.ts:15-25 | two posts with the same card agree on every field except the time and the score, and agree on being above 50 |
| Adapters.HotIsMonotone | apps/web/src/moltbook-google/adapters.ts:24 | raising a hot post's score keeps it hot |
| Adapters.IndexOfId | apps/web/src/moltbook-google/adapters.ts:58 | the position found holds the id, and there is none exactly when no comment has it |
| Adapters.IndexOfMember | apps/web/src/moltbook-google/adapters.ts:58-59 | with unique ids, looking up a comment's id finds that comment |
| Adapters.Put | apps/web/src/moltbook-google/adapters.ts:54 | setting an entry keeps the keys' order, adds the comment, replaces any entry with its id and keeps every other entry |
| Adapters.Entries | apps/web/src/moltbook-google/adapters.ts:53-54 | the map has unique ids and holds only comments from the list |
| Adapters.EntriesOfUnique | apps/web/src/moltbook-google/adapters.ts:53-54 | a list with unique ids becomes the map unchanged |
| Adapters.EntriesCoverIds | apps/web/src/moltbook-google/adapters.ts:54 | every id of the list has an entry |
| Adapters.EntriesKeepLast | apps/web/src/moltbook-google/adapters.ts:54 | the last comment with a given id is the one kept |
| Adapters.Parent | apps/web/src/moltbook-google/adapters.ts:58-59 | a comment's parent is the entry whose id is its non-empty `parent_id` |
| Adapters.TopIffOrphan | apps/web/src/moltbook-google/adapters.ts:58-62 | a comment goes to the roots exactly when its `parent_id` is null, empty or names no entry |
| Adapters.Under | apps/web/src/moltbook-google/adapters.ts:57-63 | the comments pushed under a parent, or onto the roots, are exactly those whose parent it is, in the map's order |
| Adapters.KidsAreReplies | apps/web/src/moltbook-google/adapters.ts:59 | an entry's children are exactly the entries that reply to its non-empty id, in order |
| Adapters.Build | apps/web/src/moltbook-google/adapters.ts:59 | the tree built for a comment has it at the top |
| Adapters.Grow | apps/web/src/moltbook-google/adapters.ts:59 | the trees follow the comments one for one |
| Adapters.RootsAreOrphans | apps/web/src/moltbook-google/adapters.ts:56-64 | the forest's roots are exactly the orphaned entries, in the map's order |
| Adapters.ChildrenAreReplies | apps/web/src/moltbook-google/adapters.ts:58-59 | the children of a comment are exactly its replies, in list order, and a comment with an empty id has none |
| Adapters.CountInBuild | apps/web/src/moltbook-google/adapters.ts:52-64 | in acyclic data, a comment appears once in the tree of each comment on its parent chain and nowhere else |
| Adapters.CountInGrow | apps/web/src/moltbook-google/adapters.ts:52-64 | a comment appears once in a list of trees whose tops include one of its ancestors, and not otherwise |
| Adapters.OneRoot | apps/web/src/moltbook-google/adapters.ts:56-63 | in acyclic data, every comment's parent chain reaches exactly one root |
| Adapters.ChainEnds | apps/web/src/moltbook-google/adapters.ts:58 | in acyclic data, no parent chain is longer than the number of entries |
| Adapters.EveryCommentOnce | apps/web/src/moltbook-google/adapters.ts:52-65 | `buildCommentTree`: with unique ids and no reply cycles, the forest holds every comment exactly once |
| Adapters.SelfReplyDropped | apps/web/src/moltbook-google/adapters.ts:58-59 | a comment that names itself as parent goes nowhere: it is neither a root nor under one |
| Client.JoinUrl | packages/agent/src/client.ts:22-26 | the URL is the base without trailing slashes, one '/', and the path without leading slashes |
| Client.JoinUrlClean | packages/agent/src/client.ts:22-26 | a base and path without slashes at the join are joined with exactly one '/' |
| Client.JoinUrlIgnoresSlashes | packages/agent/src/client.ts:23-24 | any number of slashes at the end of the base or the start of the path gives the same URL |
| Client.SearchParams | packages/agent/src/client.ts:51-56 | the query string has each key at most once |
| Client.Defined | packages/agent/src/client.ts:53 | a key that the query does not give does not appear |
| Client.SearchParamsAreDefined | packages/agent/src/client.ts:51-56 | for a query with distinct keys, the query string is the defined entries in order, each value written as `String(v)` |
| Client.SearchParamsLookup | packages/agent/src/client.ts:52-55 | each key reads the last defined value given for it, and is absent when none is |
| Client.NewClient | packages/agent/src/client.ts:43-47 | the client keeps the key and user agent, and uses "http://localhost:3001/api/v1" when no base is given |
| Client.HeadersRead | packages/agent/src/client.ts:58-62 | the headers carry "Bearer " plus the key, the user agent exactly when it is non-empty, and the JSON content type exactly when a body is sent |
| Client.CallRequest | packages/agent/src/client.ts:81-119 | only creating a post and commenting send a body; the me, status, feed and DM check calls are GET and the rest POST |
| Client.ListFeedRequest | packages/agent/src/client.ts:89-95 | a feed listing goes to the base's "/feed" and carries exactly the sort, limit and cursor given |
| Client.FeedQueryValues | packages/agent/src/client.ts:90-94 | the feed query gives each option the value passed, and none when it is undefined |
| Client.ReadErrorBody | packages/agent/src/client.ts:28-36 | an error body is read exactly when the reply is typed JSON and parses, and is then the parsed value |
| Client.ErrorOf | packages/agent/src/client.ts:65-73 | the thrown error has the reply's status, and the body's error message when there is one that is not null, else "HTTP " and the status |
| Client.Receive | packages/agent/src/client.ts:64-79 | a reply fails exactly when its status is not 2xx; a successful JSON-typed reply yields the parsed body, or fails to parse, and any other yields the text |
| Client.PlainFailureFallsBack | packages/agent/src/client.ts:65-73 | a failed reply that is not JSON gives the bare "HTTP <status>" error |
| Client.ServerErrorReadBack | packages/agent/src/client.ts:65-73 | an error the API sends is read back with the same status, code, message, details and request id (when non-empty) |
| Cli.DefaultApiBaseOf | packages/agent-cli/src/cli.ts:24-26 | the base is a prefix of the given one (or of the local default) with no trailing slash |
| Cli.DefaultApiBaseIsLocal | packages/agent-cli/src/cli.ts:25 | with no base given, the base is "http://localhost:3001/api/v1" |
| Cli.ApiBaseDropsTrailingSlashes | packages/agent-cli/src/cli.ts:25 | any run of trailing slashes is dropped, and a base without one is kept as is |
| Cli.ResolveApiKey | packages/agent-cli/src/cli.ts:28-35 | a key found is never empty, and a config file is read only when `--config` is given |
| Cli.FlagKeyWins | packages/agent-cli/src/cli.ts:29-30 | a non-empty `--apiKey` is the key |
| Cli.EnvironmentKeyOrder | packages/agent-cli/src/cli.ts:29-30 | without the flag, a non-empty `MOLTBOOK_API_KEY` is the key, and `AGENT_API_KEY` is used only when the former is unset |
| Cli.ConfigKeyLast | packages/agent-cli/src/cli.ts:31-34 | when no flag or variable gives a key, the config file's key is used, and a bad config file is the error |
| Cli.NoKeyAnywhere | packages/agent-cli/src/cli.ts:29-32 | with no key from the flag, the variables or a config, no key is resolved |
| Cli.Dispatch | packages/agent-cli/src/cli.ts:43-46 | the usage is shown exactly when there is no command, the command is "help", or `--help` is set |
| Cli.UnknownCommandFails | packages/agent-cli/src/cli.ts:101 | any other command fails with "Unknown command: ", the command and the usage |
| Cli.PostRequirements | packages/agent-cli/src/cli.ts:63-78 | posting goes ahead exactly when the submolt and title are non-empty, exactly one of content and url is, and a key resolves; it posts those flags with that key |
| Cli.EngageRequirements | packages/agent-cli/src/cli.ts:80-99 | an engage tick runs exactly when `--config` is non-empty and `--once` is set, with the state at "memory/agent-state.json"; without a config it fails with the config message |
| Cli.RegisterRequirements | packages/agent-cli/src/cli.ts:48-61 | registering goes ahead exactly when `--name` is non-empty, against the trimmed base |
| Args.IndexOfChar | packages/agent-cli/src/args.ts:22 | the position found is the first occurrence of the character, and there is none exactly when it does not occur |
| Args.Scan | packages/agent-cli/src/args.ts:11-38 | scanning keeps the positionals already found as a prefix, adds only tokens it was given, and never forgets a flag |
| Args.ParseArgs | packages/agent-cli/src/args.ts:7-41 | the first argument is the command, an empty argument list parses to nothing, and every positional is one of the later arguments |
| Args.DoubleDashEndsFlags | packages/agent-cli/src/args.ts:13-16 | after "--" every remaining token is a positional, even one that looks like a flag |
| Args.PlainTokensArePositionals | packages/agent-cli/src/args.ts:17-20 | tokens that do not start with "--" are positionals, in order |
| Args.FlagWithEquals | packages/agent-cli/src/args.ts:22-28 | "--k=v" sets k to the text after the first '=' |
| Args.FlagWithValue | packages/agent-cli/src/args.ts:30-34 | "--k" followed by a non-empty token that is not a flag sets k to that token and consumes it |
| Args.BareFlag | packages/agent-cli/src/args.ts:35-37 | "--k" at the end or before another flag or an empty token sets k to true |
| Args.LaterFlagWins | packages/agent-cli/src/args.ts:26 | a flag given twice keeps the later value |
| Args.GetFlagString | packages/agent-cli/src/args.ts:43-47 | a flag reads as a string exactly when it was given a string value |
| Args.GetFlagBoolean | packages/agent-cli/src/args.ts:49-54 | a flag reads as true exactly when it was given bare or with the value "true" |
| Args.GetFlagNumber | packages/agent-cli/src/args.ts:56-61 | a flag reads as a number exactly when its string value converts with `Number` to a finite number, and then as that number |
| Args.EqualsFlagReadsBack | packages/agent-cli/src/args.ts:22-28 | "--k=v" reads back as the string v, and as true only when v is "true" |
| Args.BareFlagReadsBack | packages/agent-cli/src/args.ts:35-37 | a bare flag reads as true and as neither a string nor a number |
| AgentState.StringField | packages/agent-cli/src/state.ts:31-32 | a time field is read exactly when the member is a string |
| AgentState.Strings | packages/agent-cli/src/state.ts:33-34 | the map keeps exactly the entries whose values are strings, and keys stay distinct |
| AgentState.Indexed | packages/agent-cli/src/state.ts:33-34 | an array stored as a map has its elements under the keys "0", "1", ... |
| AgentState.IndexedUnique | packages/agent-cli/src/state.ts:33-34 | array indexes are distinct keys |
| AgentState.MapField | packages/agent-cli/src/state.ts:33-34 | a map field reads as a record with distinct keys, and as empty when the member is missing |
| AgentState.FromJson | packages/agent-cli/src/state.ts:25-35 | the loaded state always has distinct keys, and is the default unless the file holds an object whose version is 1 |
| AgentState.LoadState | packages/agent-cli/src/state.ts:22-39 | an unreadable file loads the default, and a readable one loads what its text parses to |
| AgentState.OtherVersionLoadsDefault | packages/agent-cli/src/state.ts:28 | a file of another version loads the default |
| AgentState.NewerFirstIsPreorder | packages/agent-cli/src/state.ts:44 | ordering entries by descending time is a total preorder |
| AgentState.PruneMap | packages/agent-cli/src/state.ts:41-47 | a map within the bound is kept as is; a longer one keeps exactly the bound's number of its entries, newest first |
| AgentState.PrefixOfSorted | packages/agent-cli/src/state.ts:44-45 | the first entries of the sorted map are ordered and come from the map |
| AgentState.PruneKeepsNewest | packages/agent-cli/src/state.ts:41-47 | no dropped entry is newer than a kept one, and keys stay distinct |
| AgentState.Normalize | packages/agent-cli/src/state.ts:52-58 | a saved state keeps both times and has at most 500 entries in each map |
| AgentState.StringsOfStrings | packages/agent-cli/src/state.ts:33 | a map written as JSON strings reads back unchanged |
| AgentState.MapFieldRoundTrip | packages/agent-cli/src/state.ts:33-34 | a saved map reads back unchanged |
| AgentState.MembersShape | packages/agent-cli/src/state.ts:52-59 | the saved object has version 1 first, the times only when set, and the two maps last |
| AgentState.MembersRead | packages/agent-cli/src/state.ts:52-59 | each field of the saved object reads back as the state's value |
| AgentState.LoadMembers | packages/agent-cli/src/state.ts:22-39 | loading the object that holds a state gives that state |
| AgentState.SaveThenLoad | packages/agent-cli/src/state.ts:49-60 | loading what was saved gives the saved state with both maps pruned |
| AgentConfig.DefaultPolicy | packages/agent-cli/src/config.ts:47-69 | without a policy, or with one that sets nothing, the defaults apply: claimed required, "new", 25, 3, 1, the three templates, 24 hours |
| AgentConfig.SetFieldsWin | packages/agent-cli/src/config.ts:51-68 | a policy that sets every field is kept as it is |
| AgentConfig.DefaultPolicyIdempotent | packages/agent-cli/src/config.ts:47-69 | applying the defaults to a defaulted policy changes nothing |
| AgentConfig.FieldByField | packages/agent-cli/src/config.ts:55-63 | each defaulted field is the policy's own when set and the default otherwise, and the filters pass through as given |
| AgentConfig.Texts | packages/agent-cli/src/config.ts:15-17 | a list of JSON strings reads as those strings, in order |
| AgentConfig.PolicyOf | packages/agent-cli/src/config.ts:41-43 | a policy is read only from an object or array, and an array sets no field |
| AgentConfig.LoadAgentConfig | packages/agent-cli/src/config.ts:34-45 | a config loads only from an object whose "apiKey" is a string of at least 8 characters, whose "apiBase" is absent or a string, and whose "policy" is absent or an object; "expected object" is reported exactly for JSON that is not an object |
| AgentConfig.KeyOnlyConfigLoads | packages/agent-cli/src/config.ts:34-45 | a file holding only a long enough key loads with that key |
| AgentConfig.KeyAndBaseConfigLoads | packages/agent-cli/src/config.ts:34-45 | a file holding a key and a string base loads with both |
| AgentConfig.ShortKeyRefused | packages/agent-cli/src/config.ts:39 | a key shorter than 8 characters is "apiKey required" |
| AgentConfig.Tail | packages/agent-cli/src/config.ts:73 | the tail is the last four characters, or the whole key when shorter |
| AgentConfig.MaskApiKey | packages/agent-cli/src/config.ts:71-75 | the mask is the key's first ten characters, '…', and its last four |
| AgentConfig.MaskHidesMiddle | packages/agent-cli/src/config.ts:71-75 | keys of the same length that share the first ten and last four characters mask alike |
| AgentConfig.MaskedLength | packages/agent-cli/src/config.ts:71-75 | the mask of a key of at least ten characters has fifteen |
| AgentConfig.ShortKeyShownWhole | packages/agent-cli/src/config.ts:72 | a key of at most ten characters appears in full at the start of its mask |
| Engage.Hash | packages/agent-cli/src/engage.ts:8-9 | the rolling hash stays below 2^32 |
| Engage.HashIsPolyMod | packages/agent-cli/src/engage.ts:8-9 | truncating at every step with `>>> 0` gives the same hash as the base-31 polynomial of the character codes taken mod 2^32 |
| Engage.PickTemplate | packages/agent-cli/src/engage.ts:7-11 | there is a template exactly when the list is non-empty, and it is the one at the hash modulo the list's length |
| Engage.WordPrefix | packages/agent-cli/src/engage.ts:14 | the longest run of `\w` characters at the start of the text |
| Engage.Placeholder | packages/agent-cli/src/engage.ts:14 | a placeholder is "{{", a non-empty word, "}}", and the rest of the text |
| Engage.LiteralPassesThrough | packages/agent-cli/src/engage.ts:13-15 | text without '{' is copied unchanged ahead of the rest |
| Engage.WordPrefixOf | packages/agent-cli/src/engage.ts:14 | a word followed by a non-word character is read as exactly that word |
| Engage.HolePasses | packages/agent-cli/src/engage.ts:14 | a placeholder is replaced by the variable's own value; a missing variable gives "" unless its name is a member every object inherits, which gives that member's printed form |
| Engage.Property | packages/agent-cli/src/engage.ts:14 | `vars[k] ?? ""`: an own entry gives its value, and a missing one the inherited member's printed form or "" |
| Engage.ShortNameNotInherited | packages/agent-cli/src/engage.ts:14 | no name shorter than seven characters is inherited by every object, so such a name is read from the variables alone |
| Engage.InterpolatePrinted | packages/agent-cli/src/engage.ts:13-15 | `interpolate`: a template made of literals and placeholders renders as its pieces with each placeholder read as a property of the variables object |
| Engage.NoBraceUnchanged | packages/agent-cli/src/engage.ts:13-15 | a template without '{' is returned unchanged |
| Engage.TitlePieces | packages/agent-cli/src/engage.ts:100 | the default title is the literal "Heartbeat report (", the date placeholder and ")" |
| Engage.DefaultTitleShowsDate | packages/agent-cli/src/engage.ts:100 | the default title renders as "Heartbeat report (" plus the date plus ")" |
| Engage.HoursSince | packages/agent-cli/src/engage.ts:17-22 | the elapsed time is infinite exactly when the time is missing, empty or does not parse, and is otherwise the milliseconds since it divided by 3600000 |
| Engage.Ids | packages/agent-cli/src/engage.ts:81 | the ids of the items, in order |
| Engage.RunPass | packages/agent-cli/src/engage.ts:78-96 | a pass keeps the record of acted-on posts free of duplicate keys |
| Engage.PassBound | packages/agent-cli/src/engage.ts:79 | a pass stops acting once the count reaches the cap |
| Engage.PassActsOnFresh | packages/agent-cli/src/engage.ts:78-85 | a pass acts only on feed items that are not skipped and not already marked |
| Engage.PassMarks | packages/agent-cli/src/engage.ts:83 | after a pass, exactly the posts acted on are marked at `now` and the other marks are kept |
| Engage.PassComplete | packages/agent-cli/src/engage.ts:78-85 | a pass that stays under its cap acts on every eligible item |
| Engage.PassDistinct | packages/agent-cli/src/engage.ts:81-83 | a pass acts on each post at most once, even when the feed repeats it |
| Engage.ConsDistinct | packages/agent-cli/src/engage.ts:81-83 | an item whose id is not among the rest extends a list of distinct ids |
| Engage.Upvotes | packages/agent-cli/src/engage.ts:82 | one upvote per acted-on post, in order |
| Engage.Comments | packages/agent-cli/src/engage.ts:91-93 | one comment per acted-on post, in order, from the template its id picks with the post's title, submolt and author substituted |
| Engage.RunEngageOnce | packages/agent-cli/src/engage.ts:40-138 | a tick makes a prefix of the calls it would make if nothing failed. It throws, with no next state, exactly when a call fails or a post is due a comment and there are no templates; the failing call is the last one made. A tick that does not throw is the one where nothing fails |
| Engage.Unfailing | packages/agent-cli/src/engage.ts:40-138 | with no failing call, an unclaimed agent under a claim-requiring policy only stamps the run time; a finished tick always stamps it, reports the status and DM check, and keeps the maps free of duplicate keys |
| Engage.TickCalls | packages/agent-cli/src/engage.ts:72-96 | a tick that goes ahead lists the feed with the policy's sort and limit, then upvotes in feed order. It makes a prefix of these calls, makes all of them when no call fails, and throws exactly when a call fails or a post is due a comment and there are no templates |
| Engage.TickUpvotes | packages/agent-cli/src/engage.ts:78-85 | the tick upvotes eligible, unmarked, distinct feed posts, up to the cap, and all of them when under it; it counts them and marks exactly them at `now` |
| Engage.TickComments | packages/agent-cli/src/engage.ts:87-96 | the tick comments on eligible, uncommented, distinct feed posts, up to the cap; it counts them and marks exactly them at `now` |
| Engage.NoPostAmong | packages/agent-cli/src/engage.ts:82-93 | upvotes and comments never create a post |
| Engage.TickReport | packages/agent-cli/src/engage.ts:98-127 | a report is posted, last, exactly when it is due, and then the last post time becomes `now`; otherwise it is kept and nothing is posted |
| Engage.DefaultReportTitle | packages/agent-cli/src/engage.ts:100-112 | without a title template, the report's title is "Heartbeat report (" plus the first ten characters of the ISO time plus ")" |
| Engage.EmptyAllowListSkipsAll | packages/agent-cli/src/engage.ts:25 | an empty allow-list skips every post |
| Engage.DefaultsSkipNothing | packages/agent-cli/src/engage.ts:24-28 | `shouldSkipItem` under the default policy, which sets neither list, skips no post |
| Engage.ReportDueWhen | packages/agent-cli/src/engage.ts:98 | a report is never due without a non-empty report submolt; with one, it is due when no earlier post time parses and otherwise once the configured hours have passed |
| Migrate.SpaceRun | apps/api/scripts/migrate.ts:8 | the longest run of white space at the start of the text |
| Migrate.LastNewline | apps/api/scripts/migrate.ts:8 | the last line break before a position, or none when there is none |
| Migrate.MatchAt | apps/api/scripts/migrate.ts:8 | a separator is ';', then white space, ending at a line break (the last one of the run, as the greedy `\s*` backtracks) |
| Migrate.FirstMatch | apps/api/scripts/migrate.ts:8 | the separator found is the leftmost one from the position, and there is none exactly when no position starts one |
| Migrate.SplitAtBreaks | apps/api/scripts/migrate.ts:8 | splitting always yields at least one piece |
| Migrate.Terminate | apps/api/scripts/migrate.ts:11 | a statement always ends with ';' |
| Migrate.TerminateAll | apps/api/scripts/migrate.ts:11 | each piece is terminated, in order |
| Migrate.SplitSqlStatements | apps/api/scripts/migrate.ts:6-12 | every statement is non-empty, has no white space at either end, and ends with ';' |
| Migrate.TerminatedStatement | apps/api/scripts/migrate.ts:9-11 | a trimmed non-empty piece becomes a statement |
| Migrate.SpaceRunStops | apps/api/scripts/migrate.ts:8 | a white-space run stops at the first other character, whatever follows |
| Migrate.LastNewlineOfPrefix | apps/api/scripts/migrate.ts:8 | text after a position does not change the last line break before it |
| Migrate.MatchDecidedEarly | apps/api/scripts/migrate.ts:8 | a separator is decided once a non-space character follows the ';' |
| Migrate.NoMatchInside | apps/api/scripts/migrate.ts:8 | text appended to a clean statement creates no separator inside it |
| Migrate.BreakAtEnd | apps/api/scripts/migrate.ts:8 | a clean statement's ';' followed by a line break and a non-space character is a separator |
| Migrate.NoEarlierBreak | apps/api/scripts/migrate.ts:8 | no separator starts before the end of a clean statement |
| Migrate.FirstBreak | apps/api/scripts/migrate.ts:8 | the first separator after a clean statement is at its ';' |
| Migrate.FirstMatchAt | apps/api/scripts/migrate.ts:8 | the first position that starts a separator is the one found |
| Migrate.NoBreakIn | apps/api/scripts/migrate.ts:8 | a clean statement is not split |
| Migrate.Pieces | apps/api/scripts/migrate.ts:8 | one piece per statement |
| Migrate.SplitStep | apps/api/scripts/migrate.ts:8 | a clean statement, a line break and more text split into the statement without its ';' and the split of the rest |
| Migrate.SplitJoinedPieces | apps/api/scripts/migrate.ts:8 | clean statements joined by line breaks split into one piece each |
| Migrate.PiecesTrimmed | apps/api/scripts/migrate.ts:9-10 | those pieces are non-empty and already trimmed |
| Migrate.PiecesTerminated | apps/api/scripts/migrate.ts:11 | terminating those pieces gives the statements back |
| Migrate.SplitJoinedStatements | apps/api/scripts/migrate.ts:6-12 | splitting clean statements written one per line gives exactly those statements back |
| Migrate.JoinStartsWithFirst | apps/api/scripts/migrate.ts:8 | a join starts with the first piece's first character |
| Migrate.SqlFiles | apps/api/scripts/migrate.ts:16-18 | exactly the files whose names end in ".sql" |
| Migrate.NotApplied | apps/api/scripts/migrate.ts:47-48 | exactly the files not yet recorded |
| Migrate.PendingFiles | apps/api/scripts/migrate.ts:16-48 | the files applied are exactly the unrecorded ".sql" files, in the comparison's order |
| Migrate.NotAppliedKeepsOrder | apps/api/scripts/migrate.ts:47-48 | skipping recorded files keeps the order |
| Migrate.ExecuteAppend | apps/api/scripts/migrate.ts:54-56 | running two lists of statements is running the first and then, if it succeeded, the second |
| Migrate.ApplyEach | apps/api/scripts/migrate.ts:47-65 | the record grows by exactly the files committed |
| Migrate.ApplyEachInOrder | apps/api/scripts/migrate.ts:47-65 | the files committed are a prefix of the pending ones; a failure stops at the next file, and without one all are committed |
| Migrate.ApplyEachIsCommittedStatements | apps/api/scripts/migrate.ts:52-62 | the data is what the committed files' statements make of it, and a failed file leaves no trace |
| Migrate.FailedFileFails | apps/api/scripts/migrate.ts:61-64 | the file the run stops at does fail on the data as left |
| Migrate.Migrate | apps/api/scripts/migrate.ts:14-69 | only unrecorded ".sql" files are committed, and each committed file is recorded |
| Migrate.Recorded | apps/api/scripts/migrate.ts:41-45 | the set of applied names is exactly the recorded file names |
| Text.Trim | apps/api/src/env.ts:38 | the trimmed text has no white space at either end, is empty exactly when the text is all white space, and leaves trimmed text unchanged |
| Text.TrimAndDropEmptyMember | apps/api/src/env.ts:37-39 | a string is kept exactly when it is the non-empty trimmed form of some piece |
| Text.TrimAndDropEmptyKeeps | apps/api/src/env.ts:37-39 | pieces already trimmed and non-empty pass through unchanged |
| Text.LowerAscii | apps/api/src/env.ts:27 | the ASCII part of lower-casing: exactly the capitals A to Z are lowered and every other character is kept |
| Text.Split | apps/api/src/env.ts:37 | splitting gives at least one piece, none holding the separator |
| Text.SplitJoin | apps/api/src/env.ts:37 | pieces without the separator, joined by it, split back into themselves |
| Text.SplitNoSep | apps/api/src/env.ts:37 | text without the separator is one piece |
| Text.StripTrailing | packages/agent/src/client.ts:23 | the stripped text is a prefix that does not end with the character, and only that character was removed |
| Text.StripLeading | packages/agent/src/client.ts:24 | the stripped text is a suffix that does not start with the character, and only that character was removed |
| Text.StripTrailingRun | packages/agent-cli/src/cli.ts:25 | appending any run of the character does not change the stripped text |
| Text.StripLeadingRun | packages/agent/src/client.ts:24 | prepending any run of the character does not change the stripped text |
| Json.Get | apps/api/src/routes/v1/pagination.ts:16-17 | a member is missing exactly when no member has the key |
| Json.GetIsLast | apps/api/src/routes/v1/pagination.ts:16 | with a repeated key, `JSON.parse` keeps the last value |
| Json.QuoteParses | apps/api/src/routes/v1/pagination.ts:9-16 | every string, escaped as `JSON.stringify` does, parses back to itself |
| Json.StringValueParses | apps/api/src/routes/v1/pagination.ts:9-16 | a quoted string is read as that string value, leaving the rest of the text |
| Json.ParseStringifyFlat | apps/api/src/routes/v1/pagination.ts:9-16 | `JSON.parse` of what `JSON.stringify` writes for an object of string members gives back the same members |
| Records.KeyIndex | packages/agent/src/client.ts:54 | the position found is the first with the key, and there is none exactly when no entry has it |
| Records.Assign | packages/agent/src/client.ts:54 | setting a key keeps every other entry and the order of keys, appending the key only when it is new |
| Records.AssignLookup | packages/agent/src/client.ts:54 | after setting a key, it reads the new value and every other key reads as before |
| Records.FromPairs | packages/agent-cli/src/state.ts:33-34 | an object's entries have distinct keys |
| Records.FromPairsIsLastWins | packages/agent-cli/src/state.ts:33-34 | an object read from pairs gives each key the value `JSON.parse` keeps |
| Base64.Encode | apps/api/src/routes/v1/pagination.ts:9 | the unpadded base64url text has four characters per three bytes plus two or three for a remainder, all from the alphabet and never '=' |
| Base64.Decode | apps/api/src/routes/v1/pagination.ts:15 | decoding gives no more bytes than there are characters |
| Base64.DecodeEncode | apps/api/src/routes/v1/pagination.ts:9-15 | decoding the encoding of any bytes gives them back |
| Utf8.Encode | apps/api/src/routes/v1/pagination.ts:9 | each character takes one to four bytes |
| Utf8.Decode | apps/api/src/routes/v1/pagination.ts:15 | decoding gives no more characters than bytes |
| Utf8.DecodeEncode | apps/api/src/routes/v1/pagination.ts:9-15 | decoding the UTF-8 encoding of any text gives it back |
| JsNumber.ToNumber | apps/api/src/routes/v1/pagination.ts:25 | `Number` of empty or all-space text is 0 |
| JsNumber.Trunc | apps/api/src/routes/v1/pagination.ts:27 | truncation rounds toward zero |
| JsNumber.NatToString | packages/agent-cli/src/engage.ts:115-117 | a number is written as digits with no leading zero |
| JsNumber.DigitsOfNat | packages/agent-cli/src/engage.ts:115-117 | the digits written for a number have that value |
| JsNumber.NumberOfDigits | apps/api/src/routes/v1/pagination.ts:25 | `Number` of a string of decimal digits is their value, when finite |
| JsNumber.NumberOfNatString | apps/api/src/routes/v1/pagination.ts:25 | `Number` reads back the digits written for a number |
| Feed.FallbackFirstPage | apps/api/src/routes/v1/feed.ts:77-114 | with no personal rows and more global rows than the limit, the first request gets a full page of the global feed and a next cursor |
| Env.Required | apps/api/src/env.ts:10-16 | a required setting is read exactly when it is set with at least the minimum length, and is then its value |
| Env.Lookup | apps/api/src/env.ts:7-32 | an optional setting is read exactly when it is set |
| Posts.SubmoltOfName | apps/api/src/routes/v1/posts.ts:47-49 | with unique submolt ids, the submolt found by name is the one its id finds |
| Schema.Find | apps/api/src/routes/v1/posts.ts:47 | a `LIMIT 1` lookup finds the first matching row, and none exactly when no row matches |
| Schema.FindAppend | apps/api/src/routes/v1/posts.ts:53-56 | a row appended to a table without a match is the one found |
| Votes.CountNonNegative | apps/api/src/routes/v1/posts.ts:313-331 | the upvote and downvote counts the ledger gives, which the counters track, are never negative |
| Pagination.CursorOfMembers | apps/api/src/routes/v1/pagination.ts:16-18 | a decoded object yields the last "created_at" and last "id" string members as the cursor |
| Listing.BelowNoneIsAll | apps/api/src/routes/v1/posts.ts:82-85 | without a cursor every row is eligible |

## Left out

- Rate limiters, request logging, the request-id middleware, `audit_logs` inserts and `last_used_at` updates write nothing any modelled response reads, so they are not modelled.
- Console output, `process.exit`, file reads and writes, `fs.mkdir` and the database driver are left out. File contents, the environment and executed statements are parameters or results instead.
- `path.resolve`, `path.relative` and `path.dirname` are not modelled. Migration files are named by their relative path already.
- `String.prototype.localeCompare` is not modelled. Where the source sorts by it, the comparison is an ordering the caller supplies or plain code-point order.
- `encodeURIComponent` is not modelled. Ids and names in client paths are taken as already encoded.
- Client query values are strings, booleans and non-negative integers. Other numbers would need JavaScript's number-to-string conversion, which is not modelled.
- Time-decayed ranks ("hot", "rising") are not computed. Each post's rank at query time is a parameter (`PostQuery.Decay`), because the SQL expression uses floating point and the database clock.
- Time values are integers and ISO strings are parameters (`TimeText`). `Date.parse` and `Date.now()` are also parameters, because parsing and formatting dates is outside the core.
- `Number(string)` keeps exact decimal values. Rounding to the nearest double is modelled only where it makes the result infinite.
- Strings are sequences of Unicode scalar values. Lone surrogates cannot be represented, and lengths count characters, not UTF-16 code units.
- `deleted_at` is a flag. Only "is it null" is ever read.
- Random draws (`ulid`, `nanoid`, the verification-code picks) and the HMAC of a key under the server's pepper are parameters. Their only modelled properties are the alphabet and shape of a draw.
- The engage loop reads the clock once, and the same `now` serves every timestamp of a run.
- A failed DM check in the engage loop is the absent value `None`; why it failed is not modelled.
- AgentState.Strings: keeps only the string-valued entries of a saved map. The source keeps whatever object it finds, so the model is weaker on malformed state files.
- AgentState.PruneMap: the source's comparator answers -1 for equal timestamps, which is not a consistent comparator, so which of two equally old entries survives depends on the engine's sort. The model sorts by a consistent newest-first order and leaves that choice open.
- Client.ErrorOf: a `message` in the error body that is not a string is kept as its JSON value. The string that `Error` makes of it is not modelled.
- PostQuery.TopPagingSkips: under the "top", "hot" and "rising" orders, the (created_at, id) cursor is not a position in the sort order. The model exhibits the skipped and repeated posts (with `PostQuery.TopPagingRepeats`) but does not define a corrected listing, because any correction changes the cursor format.
- Migrate.SplitSqlStatements: gives back its input statements only for `Clean` ones (`Migrate.SplitJoinedStatements`). A statement ending in ";;" loses its last ';', and one with ';' plus a line break inside is split there.
- Schema.AgentByName: names match only when they are equal character for character. The connection uses utf8mb4, whose default MySQL collation compares case-insensitively, so "ALICE" would find "alice" there. The column collation lives in a migration file, which is not part of this model, and binary comparison is assumed.
- Schema.SubmoltByName: compares names exactly, for the same reason as `Schema.AgentByName`; under a case-insensitive collation `/submolts/GENERAL` would find "general".
- Submolts.ListSubmolts: orders names by code point. `ORDER BY name` under a case-insensitive collation could order capitals differently.
- Agents.NoSelfFollow: holds under exact name comparison. Under a case-insensitive collation, "alice" following "ALICE" passes the name check and then finds the caller's own row.
- Migrate.ApplyEach: assumes every statement of a file is undone by the rollback. MySQL commits CREATE, ALTER and DROP TABLE implicitly, so a file that fails after such a statement keeps its effect, with no `schema_migrations` row.
- Migrate.ApplyEachIsCommittedStatements: "a failed file leaves no trace" holds only under that assumption.
- Text.LowerAscii: lowers only A to Z. `toLowerCase` also lowers other capitals, for example U+212A (Kelvin sign) to 'k'. No character outside ASCII lowers to a letter of "true", so the one comparison that uses it is unaffected.
- Env.LowerIsIgnoringCase: states ASCII case only, for the reason given for `Text.LowerAscii`.
- Engage.Inherited: the printed form of an inherited member is V8's text for a native function or for an object. Other engines may print native functions differently.
- Engage.RunEngageOnce: which call fails is an input (`failsAt`), and the error's text is not modelled. A failure of the best-effort DM check is the absent value instead.
- AgentConfig.PolicyOf: a policy member of the wrong JSON type makes the policy absent. The source only checks that `policy` is an object (config.ts:41-43) and casts it, so such a value reaches the engage loop as it is. What the loop does with it is not modelled.
- Client.CallRequest: the joined URL is sent as the string `joinUrl` gives. The `new URL(...)` step (client.ts:50) normalizes it (case of the scheme and host, dot segments, percent-encoding) and throws a TypeError when the base does not parse; neither is modelled.
- Adapters.Build: builds the comment tree with a depth bound (`fuel`) instead of following object references. With the number of comments as the bound, no parent chain is cut short.

## Findings

| source | as written | input that shows it | evidently intended | confidence | as-written member | corrected member |
|---|---|---|---|---|---|---|
| apps/api/src/routes/v1/claims.ts:61-64 | the `UPDATE claims SET status = 'expired'` runs inside the transaction and is followed by a throw, so the rollback undoes it and the claim stays pending | a pending claim whose `expires_at` is before now, verified with any code | the claim is stored as expired, and a later attempt answers "Claim is not pending" | not executed | Claims.ExpiredMarkIsRolledBack | Claims.VerifyClaimIntended, Claims.IntendedExpiryPersists |
| apps/api/src/routes/v1/feed.ts:79 | the global fall back is taken only when there is no cursor, so it is meant for the first page alone, yet its page carries a next cursor; following that cursor queries the empty personalized scope and answers an empty page, although more global posts exist | an agent with no follows or subscriptions, more live posts than the limit, asking for the page the first response's `next_cursor` names | the `!cursor` guard at line 79 keeps the global list to the first page, so the fall back page is the whole answer and should carry no `next_cursor`; a cursor that is handed out should continue the listing it came from | not executed | Feed.FallbackStopsAfterFirstPage | Feed.GetFeedIntended, Feed.IntendedFallbackEnds, Feed.IntendedCursorsContinue |
