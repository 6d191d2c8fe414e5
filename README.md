# ReadEasy in Dafny

ReadEasy is a reading application. Its server keeps a catalogue of public-domain books and users' private uploads, and a vocabulary of words each user has looked up. It also keeps a per-user reading list and the accounts, with refresh-token rotation. Its browser client shows the catalogue, paginates it, and highlights known words in the text being read. This project models the logic at the core of both halves and proves what that logic promises.

What is modelled:

- **Accounts.** A `UserCollection` class holds the users, the next token and the next id. Registration, login, refresh and logout each run against it (`AuthController`). They are proved against pure specification functions. Every operation keeps the store invariant: usernames and e-mails are unique, and each refresh token belongs to at most one user. The request schemas of the accounts are `AuthSchema` and `UserSchema`. The user model's unique indexes, its username trimming and its default projection are `UserModel`.
- **Errors.** The error handler's ordered chain of tests is `Errors`. The bearer-token middleware is `AuthMiddleware`. The rate limiter's key, its retry wording and its response body are `RateLimit`. The upload filter and the upload error handler are `Uploads`.
- **Storage.** Path containment is `Paths` and `StorageService`: a relative path is resolved against the storage root and accepted exactly when it resolves to the root or below it and its first segment below the root does not begin with "..". Every accepted path stays inside; the only inside paths refused are those under a directory whose name begins with "..", such as "..cache/a.txt". Word counting over a stream of chunks is a `WordCounter` class. It is proved to count the words of the whole text however the text is chunked.
- **Repositories.** The catalogue search is `BookRepository`: the escaped, cut search term, the filter, the sort and the content lookup. Paging, shared by the catalogue and the vocabulary, is `Paging`. Vocabulary entries, their filters, their deletion by owner and the statistics tallies are `VocabularyRepository`. The reading list is `UserRepository`: a book is moved to the end, repeats are dropped and the list is capped at 10. The JSON shapes the server returns are `Mappers`.
- **Validation.** The zod schemas of books, of the Gutendex record and of vocabulary requests are `BookSchema` and `VocabularySchema`. Each schema is a function returning either the parsed value or the issues, with checks run in declaration order.
- **Import script.** The Gutenberg import is `ImportBooks`. It reads the id file, cleans the text between the START and END markers, counts words, picks the `text/plain` format and normalises the author. It imports in batches, keeping the success and failure log.
- **Client.** The word highlighter is `Highlight`; the pagination links are `PageLinks`. The subject list of the book dialog is `BookDialog`, and the title and author of the book card are `BookCard`. The catalogue and vocabulary search forms are `ClientBookSearch` and `ClientVocabularyForms`. The shared sign-in state is `ClientAuth`.

`Text` holds the string operations JavaScript provides: `trim` with JavaScript's white-space set, ASCII `toLowerCase`, `split` and `join`, and `\s+` collapsing. Its lemmas are used throughout. `Wrappers` holds `Option` and `Result`.

Everything outside the program's own logic is a parameter: the database, the file system, fetch, bcrypt, JWT signing and checking, random UUIDs, clocks, zod's e-mail check and the regular-expression engine of the highlighter. Each enters as a function value or an explicit outcome. Where the source catches an error from such a call, both outcomes are modelled: a failed save during refresh (`saveFails`), a failed lookup or save while revoking a replayed token (`revokeFails`), and a failed `fs.writeFile` in the import (`writeError`). Errors the source does not catch, which reach the error handler as a 500, are listed under "## Left out".

## Model

| member | source | states |
|---|---|---|
| Errors.ZodMessage | server/src/middlewares/error.middleware.ts:23 | a validation failure's message is never empty; it is the first issue's message whenever that one is non-empty |
| Errors.ErrorHandler | server/src/middlewares/error.middleware.ts:12-47 | an application error is answered with its own status, code and message. Every other answer carries a defined code with the status that code goes with. Zod errors get VAL_001 and the first message. Exactly the JWT errors get AUTH_002. Exactly the Mongo duplicate-key errors get RES_002. Every other error gets 500 and "Internal server error" |
| Errors.ClassesAgreeWithCodes | server/src/errors/bad.request.error.ts:4-11 | the error classes with a defined default code answer with the status their code goes with; `BadRequestError`'s default code is not defined, so it is sent without one |
| Errors.WireInjective | server/src/utils/error.codes.ts:1-16 | different error codes are sent as different strings |
| AuthSchema.Messages | server/src/validation/auth.schema.ts:3-33 | one message per issue, in order |
| AuthSchema.UsernameIssues | server/src/validation/auth.schema.ts:3-13 | no issue exactly when a username is given and, once trimmed, has 3 to 20 letters, digits or `_`; one too long is refused |
| AuthSchema.PasswordIssues | server/src/validation/auth.schema.ts:15-27 | no issue exactly when the password has 8 to 32 characters, a lower-case letter, an upper-case letter, a digit and another character; too short reports that first |
| AuthSchema.EmailIssues | server/src/validation/auth.schema.ts:29-33 | no issue exactly when an e-mail is given and passes the e-mail check |
| AuthSchema.ParseRegister | server/src/validation/auth.schema.ts:35-39 | accepted exactly when no field has an issue; the username is returned trimmed; a refusal carries an issue |
| AuthSchema.ParseLogin | server/src/validation/auth.schema.ts:41-44 | accepted exactly when e-mail and password have no issue; a refusal carries an issue |
| AuthSchema.RegisterAcceptsExactly | server/src/validation/auth.schema.ts:3-39 | registration is accepted exactly when all three fields are present and well formed |
| AuthSchema.LoginAcceptsExactly | server/src/validation/auth.schema.ts:15-44 | login is accepted exactly when both fields are present and well formed |
| AuthSchema.LoginRefusesWhatRegisterRefuses | server/src/validation/auth.schema.ts:35-44 | with a good username and e-mail, registration and login refuse the same passwords |
| UserSchema.TrimField | server/src/validation/user.schema.ts:9-15 | a field is present after trimming exactly when it was sent |
| UserSchema.ParseUpdateUser | server/src/validation/user.schema.ts:3-21 | a refusal carries at least one issue |
| UserSchema.ParseUpdateUserAcceptsExactly | server/src/validation/user.schema.ts:3-21 | an update is accepted exactly when a sent username has 3 to 25 characters, a sent e-mail is a lower-case e-mail, and at least one of them is non-blank; the result is the trimmed fields |
| UserSchema.BlankUsernameAloneRefused | server/src/validation/user.schema.ts:5-21 | a username of blanks alone is refused as "nothing to update" |
| UserModel.Select | server/src/models/user.model.ts:28-37 | a read carries id, username and e-mail, and the password and tokens only when selected |
| UserModel.StoredEmail | server/src/models/user.model.ts:22-27 | the stored e-mail is never longer than the one given |
| UserModel.NewUser | server/src/models/user.model.ts:15-21 | a user is created exactly when the trimmed username has 3 to 25 characters; it is stored trimmed, without tokens |
| UserModel.FindFirstFrom | server/src/controllers/auth.controller.ts:66-67 | the first user from a position on that satisfies a query, or none |
| UserModel.FindFirst | server/src/controllers/auth.controller.ts:66-67 | the first user that satisfies a query, or none when no user does |
| UserModel.Conflict | server/src/models/user.model.ts:42-51 | no conflict exactly when no stored user has the same username (ignoring case) or the same e-mail |
| UserModel.InsertKeepsUnique | server/src/models/user.model.ts:42-51 | inserting a user that conflicts with no one keeps every key unique |
| AuthController.Without | server/src/controllers/auth.controller.ts:143-145 | removing a token keeps exactly the other tokens |
| AuthController.WithTokens | server/src/controllers/auth.controller.ts:94 | replacing one user's tokens changes no other user |
| AuthController.ReplaceTokensKeepsValid | server/src/controllers/auth.controller.ts:81-94 | giving a user its own tokens plus fresh ones keeps the store invariant |
| AuthController.LoginSpec | server/src/controllers/auth.controller.ts:62-106 | `login` as a function of the store; it has no contract of its own, and what it answers and leaves behind is stated by LoginOutcome, LoginWhitelist and LoginKeepsValid |
| AuthController.LoginOutcome | server/src/controllers/auth.controller.ts:62-106 | login succeeds exactly for a valid body whose e-mail is known and whose password matches; it answers 400 otherwise, changing nothing; success signs the next token and appends it to the kept tokens |
| AuthController.LoginWhitelist | server/src/controllers/auth.controller.ts:81-94 | without a cookie all tokens are kept. A cookie token is never kept. A cookie owned by someone drops only itself. A cookie owned by no one drops all tokens |
| AuthController.LoginKeepsValid | server/src/controllers/auth.controller.ts:62-106 | login keeps the store invariant |
| AuthController.RevokeNamed | server/src/controllers/auth.controller.ts:124-139 | a replayed token that still verifies and names a stored user empties exactly that user's whitelist and changes no one else; when the check fails, or the lookup or save throws and the `catch` only logs, nothing changes |
| AuthController.RefreshSpec | server/src/controllers/auth.controller.ts:108-174 | without a cookie the answer is "no refresh token" and nothing changes; every other refusal is "invalid refresh token", whether or not the save or the revocation fails |
| AuthController.RefreshKeepsValid | server/src/controllers/auth.controller.ts:108-174 | refresh keeps the store invariant, whatever the token check and the save do |
| AuthController.RemovedEverywhere | server/src/controllers/auth.controller.ts:143-145 | once removed from its owner, a token belongs to no one |
| AuthController.FindByIdOfValid | server/src/controllers/auth.controller.ts:129 | with unique ids, looking a user up by id finds that user |
| AuthController.RotatedTokenGone | server/src/controllers/auth.controller.ts:142-162 | a successful refresh replaces the presented token by the next one in its owner's whitelist, keeps the invariant, and leaves the old token in no whitelist |
| AuthController.ReplayAfterRotation | server/src/controllers/auth.controller.ts:108-174 | replaying a token that was just rotated is refused and wipes all of that user's tokens, so the rotated token is refused too |
| AuthController.ReplayWithFailedRevocation | server/src/controllers/auth.controller.ts:124-139 | when revoking a replayed token fails, the replay is still refused, but the rotated token stays in the whitelist |
| AuthController.LogoutSpec | server/src/controllers/auth.controller.ts:176-199 | logout answers 204 without a cookie and 200 with one; only a known cookie changes the store, by dropping that token from its owner |
| AuthController.LogoutRemovesOnlyThatToken | server/src/controllers/auth.controller.ts:186-196 | after logout no user holds the token and every other token stays where it was |
| AuthController.ConflictMessage | server/src/controllers/auth.controller.ts:47-56 | a duplicate e-mail gets "User with this email already exists", a duplicate username "User with this username already exists", and any other field the generic message |
| AuthController.Admit | server/src/controllers/auth.controller.ts:33-58 | a new user is stored exactly when it conflicts with no one; a conflict answers 409 and changes nothing |
| AuthController.RegisterSpec | server/src/controllers/auth.controller.ts:27-60 | a refused registration changes nothing |
| AuthController.ParsedBodyIsCreated | server/src/controllers/auth.controller.ts:28-37 | an accepted body always makes a valid user record |
| AuthController.CreatedRecord | server/src/controllers/auth.controller.ts:28-37 | the record stores the trimmed username, the stored e-mail and the hashed password, without tokens |
| AuthController.CreatedFromValid | server/src/controllers/auth.controller.ts:33-37 | a well-formed username gives a record holding the input's fields |
| AuthController.RegisterIsAdmit | server/src/controllers/auth.controller.ts:27-60 | an accepted body registers exactly as storing the created record does |
| AuthController.RegisterBodyFitsModel | server/src/controllers/auth.controller.ts:27-60 | once the body is accepted, the only possible refusal is a 409 conflict |
| AuthController.RegisterOutcome | server/src/controllers/auth.controller.ts:27-60 | a successful registration had a valid body, conflicts with no one and appends exactly the new user |
| AuthController.AdmitAppends | server/src/controllers/auth.controller.ts:33-37 | storing a user appends it and advances the id |
| AuthController.RegisterKeepsValid | server/src/controllers/auth.controller.ts:27-60 | registration keeps the store invariant |
| AuthController.AdmitKeepsValid | server/src/controllers/auth.controller.ts:33-37 | storing a fresh user without tokens keeps the store invariant |
| AuthController.UserCollection.constructor | server/src/models/user.model.ts:42-51 | an empty collection satisfies the invariant |
| AuthController.UserCollection.Sign | server/src/controllers/auth.controller.ts:78-79 | signing hands out the next serial token and advances the counter, changing no user; in a valid store every whitelisted token is below the counter, so the token is fresh |
| AuthController.UserCollection.Login | server/src/controllers/auth.controller.ts:62-106 | the new collection and the answer are those of the login specification; the invariant is kept |
| AuthController.UserCollection.RotateOnLogin | server/src/controllers/auth.controller.ts:79-94 | after a successful login the user's whitelist is the kept tokens (all of them without a cookie, all but the cookie when it is in some whitelist, none otherwise) followed by exactly one new token, the next one; no other user changes |
| AuthController.UserCollection.Refresh | server/src/controllers/auth.controller.ts:108-174 | the new collection and the answer are those of the refresh specification; the invariant is kept |
| AuthController.UserCollection.Logout | server/src/controllers/auth.controller.ts:176-199 | the new collection and the status are those of the logout specification; the invariant is kept |
| AuthController.UserCollection.Create | server/src/controllers/auth.controller.ts:33-37 | the new collection and the answer are those of storing the user; the invariant is kept |
| AuthController.UserCollection.Register | server/src/controllers/auth.controller.ts:27-60 | the new collection and the answer are those of the registration specification; the invariant is kept |
| AuthMiddleware.Authenticate | server/src/middlewares/auth.middleware.ts:4-22 | every refusal is 401. A missing or empty header is reported as missing. The request proceeds exactly with a "Bearer" scheme and a non-empty token the check accepts, and then carries that token's user |
| AuthMiddleware.BearerTokenIsRead | server/src/middlewares/auth.middleware.ts:9-17 | "Bearer <token>" with anything after a space is decided by the token alone |
| AuthMiddleware.DoubleSpaceRefused | server/src/middlewares/auth.middleware.ts:9-12 | two spaces after "Bearer" is refused as a bad format |
| AuthMiddleware.Exchange.constructor | server/src/middlewares/auth.middleware.ts:4 | a request starts with no user, no response and no call onward |
| AuthMiddleware.Exchange.IsAuthenticated | server/src/middlewares/auth.middleware.ts:4-22 | an accepted request gets its user and is passed on once; a refused one gets the 401 response and is not passed on |
| RateLimit.CeilDivInt | server/src/middlewares/rate-limit.middleware.ts:6 | the quotient rounded up |
| RateLimit.RetryMinutes | server/src/middlewares/rate-limit.middleware.ts:5-8 | the wait is always at least one minute |
| RateLimit.FormatRetryAfter | server/src/middlewares/rate-limit.middleware.ts:5-8 | `formatRetryAfter`; it has no contract of its own: RetryMinutesRoundsUp states the minutes it reports and RetryUnit its wording |
| RateLimit.RetryMinutesRoundsUp | server/src/middlewares/rate-limit.middleware.ts:5-8 | an unreadable or zero wait reads "1 minute"; up to 60 seconds is one minute; beyond that, the least number of whole minutes covering the seconds |
| RateLimit.RetryUnit | server/src/middlewares/rate-limit.middleware.ts:7 | one minute is singular; any other count is the number followed by "minutes" |
| RateLimit.RateLimitKey | server/src/middlewares/rate-limit.middleware.ts:22-30 | a signed-in user is limited by user id; otherwise by the normalised address, or by the raw remote address when there is none |
| RateLimit.KeysSeparateUsersFromAddresses | server/src/middlewares/rate-limit.middleware.ts:22-30 | a user never shares a key with an anonymous client or with another user |
| RateLimit.LimitResponse | server/src/middlewares/rate-limit.middleware.ts:32-45 | the body names the limit; its wait is present exactly when the header held a number, and equals it |
| RateLimit.LimitMessage | server/src/middlewares/rate-limit.middleware.ts:33-44 | a non-zero wait is worded into the message; otherwise the message has no wait |
| RateLimit.SkippedNeverCounted | server/src/middlewares/rate-limit.middleware.ts:15-20 | with limiting disabled every request passes and none is counted |
| RateLimit.AtMostMaxPass | server/src/middlewares/rate-limit.middleware.ts:15-20 | with limiting enabled, of n requests in one window only as many pass as the `max` has room for after the earlier hits, and every request is counted |
| Paths.Normalize | server/src/services/storage.service.ts:13 | normalising leaves a path with no "." and no ".." after a real segment |
| Paths.Segments | server/src/services/storage.service.ts:13 | the segments of a path hold no separator |
| Paths.Resolve | server/src/services/storage.service.ts:13 | resolving against the root gives a normal path |
| Paths.CommonPrefix | server/src/services/storage.service.ts:14 | the length of the longest shared leading run of segments |
| Paths.Ups | server/src/services/storage.service.ts:14 | n steps up |
| Paths.Accepts | server/src/services/storage.service.ts:13-17 | the traversal test on the relative path; it has no contract of its own, and AcceptsIffInside states what it accepts |
| Paths.AcceptsIffInside | server/src/services/storage.service.ts:13-17 | the containment test accepts exactly the paths that resolve to the root, or below it with a first segment below the root that does not begin with ".."; so every accepted path is inside, and "..cache/a.txt" is refused although it is inside |
| StorageService.GetAbsolutePath | server/src/services/storage.service.ts:12-21 | the path is resolved exactly when the containment test accepts it, and then to its resolved location; otherwise it is "Access denied" |
| StorageService.GetAbsolutePathStaysInside | server/src/services/storage.service.ts:12-21 | every resolved path lies under the root |
| StorageService.DeleteFile | server/src/services/storage.service.ts:46-60 | a file is deleted exactly when its path is inside and unlinking succeeds. A path outside, or a failure other than "missing file", is reported; a missing file is silently ignored |
| StorageService.DeleteFileOnlyInside | server/src/services/storage.service.ts:46-60 | nothing outside the root is ever deleted |
| StorageService.Step | server/src/services/storage.service.ts:82-96 | after a character the counter is inside a word exactly when the character is not white space; a word is counted when one starts |
| StorageService.WhitespaceCodes | server/src/services/storage.service.ts:82-89 | white space is exactly the codes 9 to 13 and 32 |
| StorageService.WordsCountStep | server/src/services/storage.service.ts:91-96 | a text starting with a word character has one word more than its tail, unless the tail continues that word |
| StorageService.Run | server/src/services/storage.service.ts:79-97 | the counter's loop body run over each character in turn; it has no contract of its own: RunCountsWords and RunAppend state its meaning |
| StorageService.RunCountsWords | server/src/services/storage.service.ts:79-97 | running the counter over a text adds its word count, less one when the text continues a word already started |
| StorageService.RunAppend | server/src/services/storage.service.ts:79-97 | running over two texts in turn is running over their concatenation |
| StorageService.ChunkingIsInvisible | server/src/services/storage.service.ts:69-98 | feeding chunks gives the same state as feeding their concatenation |
| StorageService.StreamCountIsWordCount | server/src/services/storage.service.ts:65-103 | a stream's count is the number of words of its whole text |
| StorageService.WordCounter.constructor | server/src/services/storage.service.ts:69-70 | a counter starts outside a word with count 0 |
| StorageService.WordCounter.OnData | server/src/services/storage.service.ts:77-98 | a chunk advances the counter as running over it does |
| StorageService.CountWordsStream | server/src/services/storage.service.ts:65-103 | the count returned is the number of words of the stream's text |
| Paging.NumberOr | server/src/repositories/book.repository.ts:26-27 | a non-zero number is used as it is; a missing or zero one falls back to the default |
| Paging.PageNumber | server/src/repositories/book.repository.ts:26 | the page is at least 1; a usable page is kept and anything else is 1 |
| Paging.Limit | server/src/repositories/book.repository.ts:27 | the page size is clamped to 1..100, with 20 when missing |
| Paging.CeilDiv | server/src/repositories/book.repository.ts:47 | the number of pages is the total divided by the page size, rounded up |
| Paging.EffectivePage | server/src/repositories/book.repository.ts:49 | a page in range is served as asked; one past the end is the last page; with no pages it is page 1 |
| Paging.Paginate | server/src/repositories/book.repository.ts:46-66 | the paging steps shared by both listings; it has no contract of its own: PaginateServesExistingPage, PaginateHonoursPageInRange and PaginateClampsPastEnd state them |
| Paging.PaginateServesExistingPage | server/src/repositories/book.repository.ts:46-66 | the skip is the served page's offset, and with any items it falls inside them; no items means page 1 with no skip |
| Paging.PaginateHonoursPageInRange | server/src/repositories/book.repository.ts:47-54 | a page that exists is served with its own offset |
| Paging.PaginateClampsPastEnd | server/src/repositories/book.repository.ts:49 | a page past the end serves the last page |
| BookRepository.EscapeRegex | server/src/repositories/book.repository.ts:35 | escaping never shortens the text |
| BookRepository.EscapedSearchIsLiteral | server/src/repositories/book.repository.ts:32-39 | the escaped term, read as a regular expression, matches exactly the literal term |
| BookRepository.EscapeKeepsPlainText | server/src/repositories/book.repository.ts:35 | a term without special characters is left unchanged |
| BookRepository.BookFilter | server/src/repositories/book.repository.ts:29-40 | only public books; a language filter, lowercased, exactly when a language is given; a title-or-author filter on the literal first 100 characters exactly when a search is given |
| BookRepository.SearchIsCutToHundred | server/src/repositories/book.repository.ts:33-34 | the searched term is a prefix of the search of at most 100 characters, and the whole search when it is short enough |
| BookRepository.BookSort | server/src/repositories/book.repository.ts:42-44 | ascending exactly when "asc" is asked; by the requested field, else by word count |
| BookRepository.FindPublicBooks | server/src/repositories/book.repository.ts:23-68 | the query uses the filter, the sort and the pagination of the request |
| BookRepository.FindPublicBooksPaging | server/src/repositories/book.repository.ts:26-66 | the page size is the clamped limit (20 by default), the skip is the served page's offset and lies inside the results, and an existing requested page is served |
| BookRepository.FindPublicBookContent | server/src/repositories/book.repository.ts:81-112 | a stored path escaping the root answers 400, exactly; content is served only for a book with a path, from its resolved location, with the file's size; every other refusal is 404 |
| BookRepository.ContentStaysInside | server/src/repositories/book.repository.ts:93-98 | served content always lies under the storage root; an escaping path is "invalid filepath" |
| BookRepository.MissingBookOrContent | server/src/repositories/book.repository.ts:84-91 | a missing book is "book not found" and a book without a path is "content not found" |
| BookRepository.CountWordsInFile | server/src/repositories/book.repository.ts:130-135 | the count is the number of white-space separated words; zero exactly for a blank file |
| BookSchema.LookaheadsImplied | server/src/validation/book.schema.ts:17-31 | a path matching the shape pattern already has no ".." and does not start with a separator, so the look-aheads never refuse one |
| BookSchema.ParseBook | server/src/validation/book.schema.ts:5-44 | an accepted book is public domain or has a valid owner id; a refusal carries an issue |
| BookSchema.ParseBookAcceptsExactly | server/src/validation/book.schema.ts:5-44 | a book is accepted exactly when the draft is well formed. Title, author and path are then trimmed, and the language is a lowercased two-letter code. The cover is valid when present, public domain is the default, and the word count is not negative |
| BookSchema.BlankTitlePasses | server/src/validation/book.schema.ts:7 | a title of blanks is accepted and stored empty |
| BookSchema.ParseGutendexAsWritten | server/src/validation/book.schema.ts:46-52 | the catalogue record as the schema keeps it: summaries and subjects are dropped, every declared field is kept |
| BookSchema.ParseGutendex | server/src/validation/book.schema.ts:46-52 | the record with summaries and subjects declared: every field passes through, as the import reads it |
| ImportBooks.TrimmedNonEmpty | server/src/scripts/import-books.ts:44-45 | the lines kept are trimmed and non-empty |
| ImportBooks.TrimmedNonEmptyMembers | server/src/scripts/import-books.ts:44-45 | a value is kept exactly when it is a non-empty trimmed piece |
| ImportBooks.ReadIds | server/src/scripts/import-books.ts:40-46 | every id is non-empty and trimmed |
| ImportBooks.ReadIdsInFileOrder | server/src/scripts/import-books.ts:40-46 | the ids of two parts of the file are those of the first followed by those of the second |
| ImportBooks.ReadIdsAreTrimmedLines | server/src/scripts/import-books.ts:40-46 | the ids are exactly the non-empty trimmed lines |
| ImportBooks.LineEnd | server/src/scripts/import-books.ts:53-54 | the end of the current line: the first line terminator, or the end of the text |
| ImportBooks.LastStars | server/src/scripts/import-books.ts:53-54 | the last "***" within a range, or none |
| ImportBooks.MatchEnd | server/src/scripts/import-books.ts:53-54 | a marker match ends after the marker and a closing "***" |
| ImportBooks.FirstMatch | server/src/scripts/import-books.ts:53-54 | the leftmost position where the marker pattern matches, and its end |
| ImportBooks.BodyStart | server/src/scripts/import-books.ts:56 | the body starts within the text |
| ImportBooks.BodyEnd | server/src/scripts/import-books.ts:57 | the body ends within the text |
| ImportBooks.CleanGutenbergText | server/src/scripts/import-books.ts:52-60 | the cleaned text is trimmed and no longer than the download |
| ImportBooks.CleanWithoutMarkers | server/src/scripts/import-books.ts:52-60 | a text without markers is only trimmed |
| ImportBooks.CleanKeepsTextBetweenMarkers | server/src/scripts/import-books.ts:52-60 | with both markers, the cleaned text is the trimmed text between the end of the first START line and the first END |
| ImportBooks.FirstMatchIsLeftmost | server/src/scripts/import-books.ts:53-54 | the search finds the leftmost match |
| ImportBooks.CountWords | server/src/scripts/import-books.ts:62-66 | `countWords`; it has no contract of its own, and CountWordsIsWordCount states that it counts the words |
| ImportBooks.CountWordsIsWordCount | server/src/scripts/import-books.ts:62-66 | the count is the number of white-space separated words |
| ImportBooks.TxtIndex | server/src/scripts/import-books.ts:69-74 | the first `text/plain` format from a position on |
| ImportBooks.TxtUrl | server/src/scripts/import-books.ts:69-74 | none exactly when no format is `text/plain`; otherwise the address of the first that is |
| ImportBooks.GetTxtUrl | server/src/scripts/import-books.ts:69-74 | the loop returns the address of the first `text/plain` format |
| ImportBooks.FormatAuthor | server/src/scripts/import-books.ts:90-108 | `formatAuthor`; it has no contract of its own: FormatAuthorUnknown, FormatAuthorSwapsNames, FormatAuthorCollapses and FormatAuthorIsNamed state it |
| ImportBooks.FormatAuthorUnknown | server/src/scripts/import-books.ts:91-93 | a missing or blank author is "Unknown" |
| ImportBooks.SwappedName | server/src/scripts/import-books.ts:103 | joining the first names and the last name and collapsing gives their words separated by single spaces |
| ImportBooks.FormatAuthorSwapsNames | server/src/scripts/import-books.ts:95-104 | "Last, First" becomes the words of the first names followed by those of the last name |
| ImportBooks.FormatAuthorCollapses | server/src/scripts/import-books.ts:107 | any other name is its words separated by single spaces |
| ImportBooks.FormatAuthorIsNamed | server/src/scripts/import-books.ts:90-108 | the author is never empty and always trimmed |
| ImportBooks.Description | server/src/scripts/import-books.ts:145-147 | a description exactly when the first summary is non-empty; it is that summary's first 2000 characters |
| ImportBooks.Language | server/src/scripts/import-books.ts:152 | the first language, or "en" when there is none or it is empty |
| ImportBooks.ImportOf | server/src/scripts/import-books.ts:114-175 | `importBook` under either record schema: the result carries the id; it succeeds exactly when it carries a book, and then the metadata arrived and a file was written; a failure always carries a reason |
| ImportBooks.ImportRecord | server/src/scripts/import-books.ts:125-134 | after the record is parsed: a success carries a book and a written file, a failure a reason |
| ImportBooks.ImportText | server/src/scripts/import-books.ts:135-175 | after the download: a success carries a book and a written file, a failure a reason; a failed write writes nothing |
| ImportBooks.ImportBook | server/src/scripts/import-books.ts:114-175 | the result and the file written are those of the import specification, for either record schema |
| ImportBooks.ImportSucceedsExactly | server/src/scripts/import-books.ts:114-175 | an import succeeds exactly when the metadata arrives, has a `text/plain` format, that text downloads, the file is written, and the book built from it is valid; success carries the book, failure a reason |
| ImportBooks.ImportedBookFields | server/src/scripts/import-books.ts:138-158 | an imported book is public, has no owner or cover, and points at the written file. Its word count is that file's; its author, language and title come from the record. With the schema as declared it has no description; with summaries declared the description is the first summary cut to 2000 characters |
| ImportBooks.DraftBookFields | server/src/scripts/import-books.ts:143-158 | the book `bookSchema` makes of an import's draft: public, ownerless, in the written file, with the text's word count and the record's description, author, language and title |
| ImportBooks.WriteFailureIsReason | server/src/scripts/import-books.ts:141 | a file that cannot be written fails the import with the write's error message and produces no book |
| ImportBooks.NoTxtFormatWritesNothing | server/src/scripts/import-books.ts:125-128 | without a `text/plain` format the import fails with "No TXT format" and writes nothing |
| ImportBooks.RejectedBookLeavesFile | server/src/scripts/import-books.ts:138-158 | a book refused after its text was downloaded and written still leaves the text file behind |
| ImportBooks.SummaryDroppedAsWritten | server/src/scripts/import-books.ts:123-157 | as written the import never sets a description; with summaries kept it does |
| ImportBooks.BatchSize | server/src/scripts/import-books.ts:16 | the configured batch size, or 5 when unset or zero |
| ImportBooks.SetEntryLookup | server/src/scripts/import-books.ts:220 | after recording a failure its reason is found under its id and nothing else changes |
| ImportBooks.DedupMembers | server/src/scripts/import-books.ts:187 | the success set holds exactly the ids logged or added |
| ImportBooks.NoteAllAppend | server/src/scripts/import-books.ts:218-221 | noting two runs of results is noting them in turn |
| ImportBooks.NoteAllSuccess | server/src/scripts/import-books.ts:218-221 | successes are never lost; an id is a success exactly when it was or some result succeeded for it |
| ImportBooks.NoteAllFailed | server/src/scripts/import-books.ts:218-221 | a failed id's reason is that of its last failure, and an id without a new failure keeps its old entry |
| ImportBooks.RemainingMembers | server/src/scripts/import-books.ts:193 | the ids to import are those not already imported |
| ImportBooks.BatchSizes | server/src/scripts/import-books.ts:197-198 | every batch has 1 to BATCH_SIZE ids and all but the last are full |
| ImportBooks.BatchesCover | server/src/scripts/import-books.ts:197-198 | the batches put together are the remaining ids, in order |
| ImportBooks.Results | server/src/scripts/import-books.ts:203 | one result per id |
| ImportBooks.SuccessfulBooksAppend | server/src/scripts/import-books.ts:205-207 | the books of two runs of results are those of each, in turn |
| ImportBooks.ImportBatch | server/src/scripts/import-books.ts:203 | a batch's results are the import results of its ids, in order |
| ImportBooks.BatchStep | server/src/scripts/import-books.ts:197-198 | the batches from a position are the next batch followed by the batches after it |
| ImportBooks.NoteResults | server/src/scripts/import-books.ts:218-221 | the loop notes the results into the log |
| ImportBooks.RunFrom | server/src/scripts/import-books.ts:197-232 | the main loop from a position; it has no contract of its own: RunFromStep, RunFromBatches, RunFromLog and RunFromInserted state it |
| ImportBooks.RunFromStep | server/src/scripts/import-books.ts:197-232 | the run from a position is one batch followed by the run after it |
| ImportBooks.RunFromBatches | server/src/scripts/import-books.ts:197-198 | the run processes exactly the batches of the remaining ids |
| ImportBooks.RunFromLog | server/src/scripts/import-books.ts:218-229 | the log after the run notes every result, and is saved when there was any batch |
| ImportBooks.RunFromInserted | server/src/scripts/import-books.ts:205-215 | the run inserts exactly the successful books, in order |
| ImportBooks.ImportAll | server/src/scripts/import-books.ts:181-237 | the script runs the batches of the ids not yet imported. The saved log notes every result, and is unchanged when nothing remained. The books inserted are the successful ones |
| ImportBooks.NothingImportedTwice | server/src/scripts/import-books.ts:187-198 | the batches cover exactly the ids in the file not yet imported, each occurrence once |
| VocabularyRepository.CreateEntry | server/src/repositories/vocabulary.repository.ts:23-37 | the entry holds the request's fields under the given owner, with a book exactly when a book id was sent |
| VocabularyRepository.CreatedEntryKeepsBook | server/src/repositories/vocabulary.repository.ts:27-36 | an accepted request creates an entry with its book, lowercased trimmed word and language, and status "new" by default |
| VocabularyRepository.Truthy | server/src/repositories/vocabulary.repository.ts:48-50 | a filter value is used exactly when it is non-empty |
| VocabularyRepository.EntriesFilter | server/src/repositories/vocabulary.repository.ts:46-54 | the listing's filter; it has no contract of its own, and EntriesFilterSelects states what it selects |
| VocabularyRepository.EntriesFilterSelects | server/src/repositories/vocabulary.repository.ts:46-54 | only the user's entries are selected, and every entry of the user matching the given book, status and language is; an empty language filters nothing |
| VocabularyRepository.FindEntries | server/src/repositories/vocabulary.repository.ts:39-76 | the query uses the entries filter and the pagination of the request |
| VocabularyRepository.FindEntriesPaging | server/src/repositories/vocabulary.repository.ts:43-62 | the page size is the requested limit, an existing page is served, and the skip is the served page's offset inside the results |
| VocabularyRepository.FindOwned | server/src/repositories/vocabulary.repository.ts:100 | the first entry with that id owned by that user, or none |
| VocabularyRepository.DeleteEntry | server/src/repositories/vocabulary.repository.ts:99-102 | `deleteEntry`; it has no contract of its own, and DeleteEntryOutcome states it |
| VocabularyRepository.DeleteEntryOutcome | server/src/repositories/vocabulary.repository.ts:99-102 | deletion succeeds exactly when the user owns such an entry, removes that one entry, and never touches other users' entries |
| VocabularyRepository.Tallied | server/src/repositories/vocabulary.repository.ts:117-119 | the `forEach` that fills a tally; it has no contract of its own, and TalliedMeaning states it |
| VocabularyRepository.TalliedMeaning | server/src/repositories/vocabulary.repository.ts:117-119 | the tally has the initial keys and the groups' keys; an untouched key keeps its value; a group's key counts its last group |
| VocabularyRepository.Tally | server/src/repositories/vocabulary.repository.ts:117-119 | the loop builds the tally |
| VocabularyRepository.GetVocabularyStats | server/src/repositories/vocabulary.repository.ts:104-148 | the statistics are the tallies by status (from zero for every status), by language and by day |
| VocabularyRepository.StatsMeaning | server/src/repositories/vocabulary.repository.ts:112-146 | every status is reported, zero when absent; languages and days are exactly the grouped keys, each with its group's count |
| VocabularySchema.ParseStatus | server/src/validation/vocabulary.schema.ts:36 | a status is read exactly from "new", "learning" or "mastered" |
| VocabularySchema.ParsePosition | server/src/validation/vocabulary.schema.ts:5-12 | a position is accepted exactly when both offsets are whole, not negative and in order |
| VocabularySchema.ParseCreate | server/src/validation/vocabulary.schema.ts:14-37 | a refusal carries an issue |
| VocabularySchema.ParseCreateAcceptsExactly | server/src/validation/vocabulary.schema.ts:14-37 | accepted exactly when the draft is well formed; the word, meaning and language are trimmed and lowercased, the book id is an object id, an absent status is "new" |
| VocabularySchema.BlankWordPasses | server/src/validation/vocabulary.schema.ts:15-19 | a word of blanks is accepted and stored empty |
| VocabularySchema.ParseUpdate | server/src/validation/vocabulary.schema.ts:39-56 | a refusal carries an issue |
| VocabularySchema.ParseUpdateAcceptsExactly | server/src/validation/vocabulary.schema.ts:39-56 | accepted exactly when each sent field is well formed; meaning and language come back trimmed and lowercased |
| VocabularySchema.UpdateRulesAreCreateRules | server/src/validation/vocabulary.schema.ts:39-56 | anything accepted on creation is accepted as an update |
| VocabularySchema.ParseQuery | server/src/validation/vocabulary.schema.ts:58-80 | a refusal carries an issue |
| VocabularySchema.ParseQueryBounds | server/src/validation/vocabulary.schema.ts:58-80 | an accepted query has a page of at least 1 and a limit of 1 to 100 (1 and 20 by default), a trimmed search of at most 200 characters and a valid book id; non-numbers and out-of-range pages and limits are refused |
| UserRepository.Pull | server/src/repositories/user.repository.ts:45 | removing a book leaves no entry with its id |
| UserRepository.Last | server/src/repositories/user.repository.ts:52 | the last n entries, or all when there are fewer |
| UserRepository.PullMembers | server/src/repositories/user.repository.ts:45 | removal keeps exactly the entries with other ids |
| UserRepository.PullAppend | server/src/repositories/user.repository.ts:45 | removal works on each part of a list separately |
| UserRepository.PullAbsent | server/src/repositories/user.repository.ts:45 | removing a book that is not there changes nothing |
| UserRepository.Added | server/src/repositories/user.repository.ts:42-53 | the list after adding a book; it has no contract of its own: AddedPlacesBookLast, ReAddMovesToEnd and AddedIsWellFormed state it |
| UserRepository.AddedPlacesBookLast | server/src/repositories/user.repository.ts:42-53 | after adding, the book is last and only once, and the list holds at most 10 books: the other books in order, the oldest dropped first |
| UserRepository.ReAddMovesToEnd | server/src/repositories/user.repository.ts:42-53 | adding a book already in the list moves it to the end |
| UserRepository.UserCollection.constructor | server/src/repositories/user.repository.ts:33-36 | the collection starts with the given reading lists |
| UserRepository.UserCollection.GetReadingList | server/src/repositories/user.repository.ts:33-36 | the user's list, empty for an unknown user |
| UserRepository.UserCollection.AddBookToReadingList | server/src/repositories/user.repository.ts:38-60 | only the user's own list changes, to the list with the book added; an unknown user changes nothing |
| UserRepository.UserCollection.RemoveBookFromReadingList | server/src/repositories/user.repository.ts:62-75 | only the user's own list changes, to the list without the book; an unknown user changes nothing |
| UserRepository.AddedIsWellFormed | server/src/repositories/user.repository.ts:49-53 | adding keeps a list capped and free of repeated ids |
| UserRepository.PullDistinct | server/src/repositories/user.repository.ts:62-75 | removal keeps ids distinct |
| UserRepository.RemovedIsWellFormed | server/src/repositories/user.repository.ts:62-75 | removal keeps a list well formed and keeps exactly the other books |
| Uploads.LastDot | server/src/middlewares/multer.middleware.ts:35 | the last '.' of a name, or none when it has none |
| Uploads.BaseName | server/src/middlewares/multer.middleware.ts:35 | the base name holds no separator |
| Uploads.LastSegment | server/src/middlewares/multer.middleware.ts:35 | the last segment holds no separator |
| Uploads.Extname | server/src/middlewares/multer.middleware.ts:35 | an extension is empty or a '.' followed by no other '.' |
| Uploads.TxtExtension | server/src/middlewares/multer.middleware.ts:35-39 | a plain name has the ".txt" extension exactly when it ends in ".txt" in any case and has something before it |
| Uploads.FileFilter | server/src/middlewares/multer.middleware.ts:30-45 | a file is accepted exactly when it is `text/plain` with a ".txt" extension; otherwise the refusal is INVALID_FILE_TYPE |
| Uploads.StoredName | server/src/middlewares/multer.middleware.ts:22-27 | the stored file name; it has no contract of its own, and StoredNameIsTxt states it |
| Uploads.StoredNameIsTxt | server/src/middlewares/multer.middleware.ts:22-27 | a stored name always has the ".txt" extension, and different identifiers give different names |
| Uploads.HandleUploadErrorAsWritten | server/src/middlewares/multer.middleware.ts:55-79 | as written: an error is passed on exactly when it is not from the upload library, not INVALID_FILE_TYPE and not named like a property the message table inherits; everything else is 400, and a text message is one of the table's three, never sent for an inherited name |
| Uploads.InheritedNameCaught | server/src/middlewares/multer.middleware.ts:70-78 | as written, an error named "toString" is answered 400 with no message, and one named "__proto__" 400 with the message `{}` |
| Uploads.HandleUploadError | server/src/middlewares/multer.middleware.ts:55-79 | an upload-library error is 400, "too large" for the size limit; INVALID_FILE_TYPE is "only .txt files"; every other error is passed on |
| Uploads.HandlersAgreeOtherwise | server/src/middlewares/multer.middleware.ts:55-79 | apart from inherited property names, the corrected handler answers as the code does |
| Uploads.RefusedFileAnswered | server/src/middlewares/multer.middleware.ts:39-75 | a file the filter refuses is answered with "only .txt files" |
| Mappers.ToBookList | server/src/mappers/book.mapper.ts:19-26 | the list item carries the book's id, title, author, language, cover and word count |
| Mappers.ToBookDetail | server/src/mappers/book.mapper.ts:28-32 | the detail adds the description and the subjects, empty when absent |
| Mappers.DetailExtendsList | server/src/mappers/book.mapper.ts:28-32 | the detail is the list item plus more, so equal details have equal list items |
| Mappers.ToEntryList | server/src/mappers/vocabulary.mapper.ts:19-26 | the list item carries the entry's id, word, language, status, book snapshot and meaning |
| Mappers.ToEntryDetail | server/src/mappers/vocabulary.mapper.ts:28-40 | the detail carries every stored field, with the dates formatted |
| Mappers.ListIsDetailWithoutBook | server/src/mappers/vocabulary.mapper.ts:19-40 | the list item is the detail without book, context, position and dates, and does not depend on them |
| Highlight.ColorsOf | client/src/lib/highlight.ts:20-24 | the colour map; it has no contract of its own: ColorKeys and LastWriteWins state it |
| Highlight.BuildColorMap | client/src/lib/highlight.ts:20-24 | the loop builds the colour map of the words |
| Highlight.ColorKeys | client/src/lib/highlight.ts:21-24 | the map's keys are exactly the lowercased words |
| Highlight.LastWriteWins | client/src/lib/highlight.ts:20-24 | a word's colour is that of its last occurrence |
| Highlight.EscapedWords | client/src/lib/highlight.ts:31-33 | one escaped word per word |
| Highlight.Alternatives | client/src/lib/highlight.ts:34 | an alternation has at least one alternative |
| Highlight.EscapedWordReadWhole | client/src/lib/highlight.ts:31-34 | an escaped word is read as part of one alternative, whatever it holds |
| Highlight.Alternation | client/src/lib/highlight.ts:31-34 | the joined pattern; it has no contract of its own: AlternationSplitsIntoWords and AlternativesAreTheWords state it |
| Highlight.AlternationSplitsIntoWords | client/src/lib/highlight.ts:31-34 | the alternatives of the joined pattern are exactly the escaped words |
| Highlight.AlternativesAreTheWords | client/src/lib/highlight.ts:31-38 | there is one alternative per word, and each matches exactly its word's literal text |
| Highlight.NextMatch | client/src/lib/highlight.ts:56 | a match lies at or after the search position, is non-empty, and is inside the text |
| Highlight.StepCovers | client/src/lib/highlight.ts:56-74 | a step's pieces spell the text up to the end of the match |
| Highlight.FragmentCoversText | client/src/lib/highlight.ts:52-79 | the fragment's pieces spell the rest of the text, each mark coloured from the map or yellow |
| Highlight.CutText | client/src/lib/highlight.ts:52-79 | the loop builds the fragment |
| Highlight.HighlightTexts | client/src/lib/highlight.ts:14-83 | with no words no text changes; otherwise each text gets its replacement |
| Highlight.ReplacementKeepsText | client/src/lib/highlight.ts:47-82 | a text is replaced exactly when the pattern matches it, and the replacement spells the same text with well-coloured marks |
| PageLinks.PreviousTarget | client/src/components/ui/pagination.tsx:25-28 | the previous page, never below 1 |
| PageLinks.NextTarget | client/src/components/ui/pagination.tsx:64-68 | the next page, never past the last |
| PageLinks.Links | client/src/components/ui/pagination.tsx:42-54 | one link per page of the window, active exactly on the current page |
| PageLinks.EllipsisMarksUnlinkedPages | client/src/components/ui/pagination.tsx:56-60 | the ellipsis shows exactly when some page up to the last is neither page 1 nor one of the numbered links, i.e. a page is skipped after the window |
| PageLinks.WindowFromExactly | client/src/components/ui/pagination.tsx:42-43 | the window holds exactly the pages other than 1 within two of the current page, ascending |
| PageLinks.NumberedLinks | client/src/components/ui/pagination.tsx:32-54 | the numbered links; it has no contract of its own: NumberedLinksShape and WindowIsSmall state them |
| PageLinks.NumberedLinksShape | client/src/components/ui/pagination.tsx:32-54 | the first link goes to page 1. The others are every page from 2 to the last within two of the current page, each once, ascending. A link is active exactly on the current page |
| PageLinks.AscendingWithinBounds | client/src/components/ui/pagination.tsx:42 | a strictly ascending run within bounds is no longer than the range |
| PageLinks.WindowIsSmall | client/src/components/ui/pagination.tsx:42-43 | at most five numbered links follow page 1 |
| BookDialog.TrimAll | client/src/components/book-dialog.tsx:46 | each part trimmed, in place |
| BookDialog.NonEmpty | client/src/components/book-dialog.tsx:47 | exactly the non-empty parts are kept |
| BookDialog.DedupAppend | client/src/components/book-dialog.tsx:50 | removing repeats from two lists in turn is removing them from their concatenation |
| BookDialog.DedupIsFirstOccurrences | client/src/components/book-dialog.tsx:50 | removing repeats keeps each value at its first occurrence |
| BookDialog.DedupMembers | client/src/components/book-dialog.tsx:50 | the values kept are those met and not yet seen, each once |
| BookDialog.PlainSubjectKept | client/src/components/book-dialog.tsx:48 | a subject without "--" is kept whole |
| BookDialog.SplitPartsClean | client/src/components/book-dialog.tsx:42-47 | the parts of a split subject are non-empty, trimmed and hold no "--" |
| BookDialog.SplitPartsArePieces | client/src/components/book-dialog.tsx:43-47 | each part is a trimmed piece between "--" |
| BookDialog.PiecesArePartsUnlessBlank | client/src/components/book-dialog.tsx:43-47 | every non-blank piece gives a part |
| BookDialog.ExpandedMembers | client/src/components/book-dialog.tsx:42-49 | the flattened list holds exactly the parts of the subjects |
| BookDialog.DialogSubjects | client/src/components/book-dialog.tsx:42-50 | the dialog's subject list; it has no contract of its own, and DialogSubjectsMeaning states it |
| BookDialog.DialogSubjectsMeaning | client/src/components/book-dialog.tsx:42-50 | the dialog lists each part of each subject exactly once, nothing else, in order of first appearance |
| BookCard.CutFrom | client/src/components/ui/book-card.tsx:9 | the subtitle starts at the first ':' or ';' after which the rest of the title is one line |
| BookCard.CleanTitle | client/src/components/ui/book-card.tsx:9 | the shown title is a prefix of the title |
| BookCard.CleanSingleLineTitle | client/src/components/ui/book-card.tsx:9 | a one-line title is cut at its first ':' or ';', and shown whole without one |
| BookCard.ColonBeforeLineBreakKept | client/src/components/ui/book-card.tsx:9 | a ':' followed later by a line break is not cut |
| BookCard.ShownAuthor | client/src/components/ui/book-card.tsx:27 | the author is hidden exactly when it is "unknown" in any case (or empty), and otherwise shown as it is |
| ClientBookSearch.PageOrFirst | client/src/schemas/book.ts:4 | a usable page is kept, anything else is 1 |
| ClientBookSearch.LimitOrDefault | client/src/schemas/book.ts:5 | a size from 1 to 100 is kept, anything else is 20 |
| ClientBookSearch.ParseBookSearch | client/src/schemas/book.ts:3-15 | `bookSearchSchema`; it has no contract of its own: ParseBookSearchAcceptsExactly, ParsedBookSearch and PagingNeverRefuses state it |
| ClientBookSearch.ParseBookSearchAcceptsExactly | client/src/schemas/book.ts:3-15 | the parameters are accepted exactly when the present optional ones are well formed |
| ClientBookSearch.ParsedBookSearch | client/src/schemas/book.ts:3-15 | an accepted address gives a page and size in range, the trimmed search, the trimmed lowercased language and the sort unchanged |
| ClientBookSearch.PagingNeverRefuses | client/src/schemas/book.ts:4-5 | page and size never decide a refusal, and unusable ones read as 1 and 20 |
| ClientVocabularyForms.ParseAddVocabulary | client/src/schemas/vocabulary.ts:3-18 | `addVocabularyFormSchema`; it has no contract of its own, and AddVocabularyAcceptsExactly states it |
| ClientVocabularyForms.AddVocabularyAcceptsExactly | client/src/schemas/vocabulary.ts:3-18 | the form is accepted exactly when both fields are; an accepted field is dropped when blank and kept trimmed otherwise; a refusal has one issue per refused field, the translation's first |
| ClientVocabularyForms.OptionalTextMeaning | client/src/schemas/vocabulary.ts:4-17 | a field is accepted exactly when absent, or at most 500 characters that trim to nothing or to at least 2. Blank means absent, the rest is kept trimmed. Over 500 is "too long", else "too short" |
| ClientVocabularyForms.TrimAllBlank | client/src/schemas/vocabulary.ts:8 | trimming leaves nothing exactly when the text is blank |
| ClientVocabularyForms.SingleCharacterRefused | client/src/schemas/vocabulary.ts:4-11 | a single character surrounded by blanks is "too short" |
| ClientVocabularyForms.ParseVocabularySearch | client/src/schemas/vocabulary.ts:20-36 | `vocabularySearchSchema`; it has no contract of its own: VocabularySearchAcceptsExactly and EmptyLanguageRefused state it |
| ClientVocabularyForms.VocabularySearchAcceptsExactly | client/src/schemas/vocabulary.ts:20-36 | accepted exactly when a page is a positive integer, a limit an integer from 1 to 100, the search at most 200 characters trimmed and the language two letters; missing page and limit are 1 and 24. An accepted search comes back trimmed, and the language trimmed and lowercased |
| ClientVocabularyForms.EmptyLanguageRefused | client/src/schemas/vocabulary.ts:28-35 | an empty language is always refused |
| ClientAuth.AuthState.constructor | client/src/context/auth.tsx:16-18 | nobody is signed in at first, and the two fields agree |
| ClientAuth.AuthState.SetUser | client/src/context/auth.tsx:19-22 | the user is recorded and the flag is set from it, so the fields agree after any sequence of calls |
| Text.CollapseTrimIsJoinedWords | server/src/scripts/import-books.ts:63 | collapsing white space and trimming gives the words separated by single spaces |
| Text.NoWordsIffAllBlank | server/src/scripts/import-books.ts:64 | a text has no words exactly when it is blank |
| Text.SplitJoinsBack | server/src/scripts/import-books.ts:43 | joining the pieces of a split with its separator gives the text back |
| Text.TrimIdempotent | server/src/scripts/import-books.ts:44 | trimming twice is trimming once |

## Left out

- Databases, files and the network are not modelled as such. Each is a parameter or an explicit outcome: the mongoose store, `fs` reads and writes, `fetch`, cookies and HTTP responses.
- Checking JWTs, bcrypt hashing and comparison, `crypto.randomUUID`, `Date` and `toISOString` are function parameters whose results are taken as given. Signing is not a parameter: it is the `nextToken` counter (see the next line).
- AuthController.UserCollection.Sign: a signed refresh token is modelled as always fresh, a token no whitelist holds. The source's `signRefreshToken` (`server/src/utils/jwt.ts:23-29`) signs only `{ userId }`, and the issue time in a JWT has one-second resolution, so two signings for one user within the same second give the same string. A refresh in the same second as the presented token's issue then puts that token back into the whitelist (`server/src/controllers/auth.controller.ts:143-161`). AuthController.RotatedTokenGone (the old token is in no whitelist) and AuthController.ReplayAfterRotation (replaying the old token is detected) hold only under this freshness assumption.
- Concurrency is not modelled. This covers two refresh requests racing on one token, `Promise.all` inside an import batch, and the client's request retry in its API client.
- `Text.Lower`: lowercases ASCII letters only; the source's `toLowerCase` is Unicode-aware, and Unicode case mapping is not available in the model.
- Fractional numbers are not modelled: page, limit, offsets and waits are whole numbers, `NaN`, or absent. A fractional page or limit is left out.
- zod's type errors (a number sent where a string is expected) are not modelled; each field arrives with its declared type. Issue lists name each failing check, not zod's full issue objects.
- zod's `.email()` check is a parameter (`isEmail`), and the `ipKeyGenerator` of the rate limiter is a parameter (`ipKey`).
- Highlight.NextMatch: the highlighter's regular-expression engine (Unicode look-behind and look-ahead, case-insensitive) is a parameter. The model assumes it returns non-empty matches within the text. The alternation the pattern is built from is modelled and proved to hold exactly the escaped words.
- Highlight.HighlightTexts: an empty vocabulary word gives an empty match, on which the source loops forever; the model requires the matcher to return non-empty matches. Replacing DOM nodes is modelled as returning, for each text node, its replacement pieces or none.
- `getFileStream` of the storage service only opens a file stream and is not modelled.
- `insertManyBooks`, `findPublicBookById`, `findPrivateBooks`, `createPrivateBook` and `deleteFile` of the book repository are single store calls and are not modelled. The same holds for `findEntryById` and `updateEntry` of the vocabulary repository, and for `findById`, `findByEmail`, `findByUsername` and `update` of the user repository.
- The vocabulary `$text` search is a store feature and is not evaluated: the filter records the term and the selection lemma does not use it.
- ImportBooks.ImportAll: requires a batch size of at least 1. A zero or unset `BATCH_SIZE` becomes 5, but a negative one would loop forever.
- UserModel.FindFirst: lookups by e-mail compare with the stored (trimmed, lowercased) form. This assumes mongoose applies the schema's setters to query filters.
- `readingBooks` is not declared in `server/src/models/user.model.ts`. The reading list is modelled from the repository's own updates, as a map from user id to list.
- The validators of `server/src/models/vocabulary.model.ts` are not part of this model; the request schemas are.
- UserSchema.ParseUpdateUserAcceptsExactly: the e-mail's `.lowercase()` is a zod check that refuses upper-case letters, not a transform. The model follows the code: an e-mail with upper-case letters is refused, not lowercased.
- AuthController.RefreshSpec: its own contract states only the two refusal messages. The new state is stated by `RefreshKeepsValid`, `ReplayAfterRotation` and `ReplayWithFailedRevocation`, and in full by the class method `UserCollection.Refresh`, which equals it. The catch at lines 168-173 also turns a failed save, and the error at line 154, into "invalid refresh token". This is modelled with the `saveFails` parameter. A failure of the lookup or save while revoking (lines 126-138) is caught and only logged. This is modelled with the `revokeFails` parameter.
- Saves the source does not catch are assumed to succeed: the save of a login (`server/src/controllers/auth.controller.ts:95`), the save in refresh's own `catch` (line 171), the save of a logout (line 195), and a `User.create` failure other than a duplicate key (line 58). Each would reach the error handler as a 500 with the store unchanged; the model has no such outcome for them.
- AuthController.RegisterSpec: its own contract states only that a refusal changes nothing; its meaning is `RegisterOutcome`, `RegisterIsAdmit` and `RegisterBodyFitsModel`.
- AuthController.LoginOutcome: a failed login answers 400 "Invalid email or password" (a `BadRequestError`), as the code does, not 401.
- VocabularySchema.ParseCreate: its own contract states only that a refusal carries an issue; acceptance and results are `ParseCreateAcceptsExactly`. The same holds for `VocabularySchema.ParseUpdate` (`ParseUpdateAcceptsExactly`) and `VocabularySchema.ParseQuery` (`ParseQueryBounds`).
- UserSchema.ParseUpdateUser: its own contract states only that a refusal carries an issue; its meaning is `ParseUpdateUserAcceptsExactly`.
- BookSchema.ParseBook: its meaning is `ParseBookAcceptsExactly`.
- ImportBooks.CleanGutenbergText: its own contract gives bounds only; which text is kept is `CleanKeepsTextBetweenMarkers` and `CleanWithoutMarkers`. A START match whose END comes before it would give an empty slice; that case is covered only by the bound.
- ImportBooks.BodyStart and ImportBooks.BodyEnd state bounds only; their meaning is `CleanKeepsTextBetweenMarkers`.
- BookDialog.PlainSubjectKept follows from the definition directly.
- Lengths count characters, where JavaScript counts UTF-16 code units; the two differ for characters outside the Basic Multilingual Plane, such as emoji, which take two units. The affected bounds and cuts are: the title, author and description maxima of `server/src/validation/book.schema.ts:7-8` and 16; the zod `min`/`max` of `server/src/validation/auth.schema.ts:12-20`, `server/src/validation/user.schema.ts:7-8` and `server/src/validation/vocabulary.schema.ts:17-69`; those of `client/src/schemas/book.ts:6` and `client/src/schemas/vocabulary.ts:6-27`; the description cut `slice(0, 2000)` of `server/src/scripts/import-books.ts:146`; and the search cut `slice(0, 100)` of `server/src/repositories/book.repository.ts:34`. A title of 200 emoji is 400 code units and refused by the source's `max(255)`, but the model accepts it as 200 characters; a cut can likewise split a surrogate pair in the source but never in the model.
- The subjects of an imported book are dropped by `bookSchema`, which does not declare them, so the stored book gets the model's default empty list (`server/src/models/book.model.ts:33`) under either record schema. The model's `BookInput` has no subjects field.
- The React components are modelled only for the values they compute: links, labels and the subject list. Rendering, routing and query caching are out of scope.

## Findings

| source | as written | input that shows it | evidently intended | confidence | as-written member | corrected member |
|---|---|---|---|---|---|---|
| server/src/validation/book.schema.ts:46-52 | `gutendexBookSchema` declares no `summaries`, so zod strips them, and `importBook` never sets a description (import-books.ts:145-147) | a Gutendex record whose `summaries` is `["A novel about…"]` | the first summary, cut to 2000 characters, becomes the description | not executed | BookSchema.ParseGutendexAsWritten, ImportBooks.SummaryDroppedAsWritten | BookSchema.ParseGutendex, ImportBooks.ImportedBookFields |
| server/src/middlewares/multer.middleware.ts:74 | `err.message in errorMessages` also holds for names inherited from `Object.prototype`, so the error is answered 400 with `errorMessages[err.message]`: a method, which JSON omits, or for `__proto__` the prototype object, which JSON writes as `{}` | `new Error("toString")` or `new Error("__proto__")` reaching `handleUploadError` | only INVALID_FILE_TYPE is answered here; every other error is passed on | not executed | Uploads.HandleUploadErrorAsWritten, Uploads.InheritedNameCaught | Uploads.HandleUploadError |
