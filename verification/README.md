# Sentinel8: a verified model of its stateful and parsing logic

This project models the Sentinel8 server and browser logic under `sage-halpin/` and the
platform's token bucket in `src/lib/rate-limit.ts`, and proves what that code keeps over whole
runs and over all inputs. `dafny verify dfyconfig.toml` checks everything.

| part | files |
|---|---|
| Offline-first account sync: fingerprints, three-way merge, baselines, save, activate, sign out | `Bits`, `Numerals`, `Fingerprint`, `AccountSync`, `AccountPage` |
| The board-question state machine on one row store, with uploads in chunks | `Store`, `Records`, `Files`, `Responses`, `Board`, `BoardInvariants`, `BoardProperties`, `BoardLaws`, `BoardActs`, `OddIds`, `BoardServer` |
| Sessions, accounts and the sign-in throttle, on the same row store | `Sessions`, `Passwords`, `SignInThrottle`, `AuthServer` |
| Parsers: ZIP directory, tags, script blocks, XML elements, brace scanner, IPv4 and IPv6 | `Zip`, `Markup`, `Letters`, `Elements`, `Blocks`, `ObjectScan`, `Net`, `Ipv6` |
| Bounded state and arithmetic: horizon scans, token bucket, record fitting, weighted tally | `HorizonScan`, `RateLimit`, `FileRecord`, `Tally` |

Code that works by updating things is imperative here too: classes with the same fields, loops over
the same variables, rows put and removed one at a time. Each such method is proved equal to a function
of the old state, and the properties are proved about that function. The account handlers of
`AuthServer.Server` read, put and remove rows of the store too, each proved to do its `Sessions.Step`. For the board questions,
`BoardServer.Server.Handle` runs the handlers over the store of nested maps and is proved to do exactly
what `Board.Step` says from every state that keeps the invariant. Removal in `Board.Step` is stated by
ownership (`Records.Forget`: everything an owner owns, nothing else), while the server removes files,
links and rows in the code's own loops.

## How the outside world appears

- A request is one atomic step. Clocks, random ids, random tokens, model replies, uploads, and whether
  a save lands and is acknowledged are arguments. New ids and tokens are assumed fresh.
- SHA-256 of tokens is injective (`Store.Digest`), password hashes are injective, session cookies are
  unforgeable.
- A request body that the field checks refuse has no effect beyond loading the question, so it is the
  request `Read` (lead), `FollowLink` (respondent), or a false `valid` flag (accounts).
- The plain object in which the answers to a question are collected has its own entries and a prototype,
  and answers to the names of `Object.prototype` (`Responses.Answers`); other records are maps.
- Strings in the browser are sequences of UTF-16 units; 32-bit operators are written out on integers.
- Real numbers are exact.

## Where the code differs from what it says

- `net.ts:65` is meant to refuse the discard prefix 100::/64, but the test asks for a first group that
  is both 0x0100 and zero, so it never holds: `Ipv6.DiscardPrefixIsPublic` shows that every spelling of
  every address there is judged public. `Ipv6.PublicSpellings` therefore does not list that block.
- `account.ts:96-100` and `account.ts:175-180` say that only changes made here win over the account's
  copy. When the account is empty the code keeps this browser's entries whole instead. A name removed on
  the account can come back (`AccountSync.RemovedNameReturns`). If the save of such an opening does not land,
  the stale entries then count as changes made here, and a later opening puts them over newer work although
  the account is no longer empty: over another browser's (`AccountSync.OthersWorkIsReplaced`), and even over
  the saved value of the only browser that ever edited the name (`AccountSync.SavedValueIsReplaced`).
  `AccountSync.OpeningLeavesAloneExactlyWhen`, `AccountSync.OthersWorkSurvivesExactlyWhen` and
  `AccountSync.LastEditReachesAccountExactlyWhen` say exactly when none of this happens, and
  `AccountSync.LoadingIsMergingExactlyWhen` when loading is the three-way merge.
- `auth.ts:161-164` says ten failures within fifteen minutes lock an address. The window is fixed rather than
  sliding, so failures at the end of one and the start of the next are not added up: in
  `SignInThrottle.SeventeenSlipBy` seventeen fall within about a minute and nothing locks.
  From a clean record seventeen is the most any
  fifteen minutes can hold (`SignInThrottle.SeventeenAtMost`); just after a lock it is eighteen
  (`SignInThrottle.FailuresWithoutLock`, `SignInThrottle.EighteenAfterALock`).
- `extract.ts:93` says blocks are removed in linear time. Positions found in the lower-case copy are used
  on the text itself, and the two differ in length when a letter's lower case is longer (U+0130). One text
  then keeps an opening script tag (`Blocks.LongerLowerCaseKeepsATag`), and on another the loop never
  ends (`Blocks.LongerLowerCaseNeverEnds`). For every text, `Blocks.LoopEndsExactlyWhen` and
  `Blocks.NoBlockIsLeftExactlyWhen` say exactly when the loop ends and when no tag is left.
- `consultations.ts:227-234` collects answers in a plain object, and `consultations.ts:141` accepts the id
  `__proto__`, which sets that object's prototype instead of an entry. A permanent member under that id who has
  answered is still named in the decision as missing (`OddIds.AnsweredIsNamedMissing`;
  `Responses.ListedAreMissingExactlyWhen` says exactly when this happens), and if no one else has answered, the
  challenge and the synthesis say that no one has (`Responses.SeemsUnansweredExactlyWhen`).
- The same object answers to inherited names, such as `toString`. Looking up someone under such an id who has not
  answered finds something that is no answer, and the handler throws: no challenge or synthesis can be had, and a
  decision closes the question without the record its workspace should get (`OddIds.DecidedWithoutRecord`,
  `OddIds.RecordIsKeptExactlyWhen`). `OddIds.PlainRunsAreRight`: with no such id in any draft, all of this is as
  intended in every run.
- Two behaviours a reader might not expect are modelled as they are: `/decision` can be posted again on a
  closed question (`BoardProperties.DecisionStaysTrue` says what that cannot change), and it writes the
  record into a linked workspace's partition even when that workspace has been deleted.

## Model

| member | source | states |
|---|---|---|
| Fingerprints.Fingerprint | sage-halpin/src/lib/account.ts:71-75 | The loop computes the specified hash of the value: length, colon, base-36 text of the final 32-bit word |
| Fingerprints.MultiplyIsInjective | sage-halpin/src/lib/account.ts:73 | Multiplying a 32-bit word by the odd constant 0x01000193 modulo 2^32 loses nothing |
| Fingerprints.StepSeparates | sage-halpin/src/lib/account.ts:73 | After one xor-multiply step two states agree only in the right way: equal units exactly when the states before were equal |
| Fingerprints.DifferentLengthsDiffer | sage-halpin/src/lib/account.ts:71-75 | Values of different length never share a fingerprint |
| Fingerprints.OneUnitChangeIsSeen | sage-halpin/src/lib/account.ts:71-75 | Values of equal length that differ in exactly one UTF-16 unit, anywhere, never share a fingerprint |
| Fingerprints.KnownFingerprints | sage-halpin/src/lib/account.ts:71-75 | The fingerprints of the empty text and of one letter are those of the published 32-bit FNV-1a values |
| AccountSync.Merge | sage-halpin/src/lib/account.ts:101-109 | The copy-then-assign-and-delete loops, over names in any order, compute the pointwise three-way merge |
| AccountSync.MergedIsPointwise | sage-halpin/src/lib/account.ts:96-109 | Each name: the value here if it changed since the baseline, gone if removed here and unchanged there, otherwise the account's |
| AccountSync.NothingChangedHere | sage-halpin/src/lib/account.ts:101-109 | With the baseline of what is here, merging gives the account's copy |
| AccountSync.NothingChangedThere | sage-halpin/src/lib/account.ts:101-109 | With the baseline of the account's copy and no fingerprint collision, merging gives this browser's copy |
| AccountSync.MergeTwiceIsMergeOnce | sage-halpin/src/lib/account.ts:101-109 | Merging the result again with the same local copy and baseline changes nothing, collisions or not |
| AccountSync.LoadingIsMergingExactlyWhen | sage-halpin/src/lib/account.ts:186-195 | Loading shows the three-way merge if and only if the account is not empty or every entry held here has changed since the baseline |
| AccountSync.OpeningLeavesAloneExactlyWhen | sage-halpin/src/lib/account.ts:181-200 | In any state whatever, a landing opening leaves the account's value under a name as it was if and only if this browser neither puts another value there (its own unsaved one, or any on an empty account) nor removes it |
| AccountSync.LastEditReachesAccount | sage-halpin/src/lib/account.ts:129-200 | In every run of browsers taking turns, saves landing or not, a name edited in one browser only holds its last value there (or is gone) on the account after that browser's next open and landing save, as long as no other browser's opening or save has overridden it since its last edit |
| AccountSync.LastEditReachesAccountExactlyWhen | sage-halpin/src/lib/account.ts:129-200 | After a run in which nothing has overridden the name since its last edit, one more visit by another browser lets that edit through if and only if the visit does not override the name: the next opening of the editor never makes an override good |
| AccountSync.NothingOverriddenWithoutRevival | sage-halpin/src/lib/account.ts:186-195 | Overriding starts only with an opening that finds the account empty while the browser still holds the name |
| AccountSync.FirstRevivalUndoesOnlyRemovals | sage-halpin/src/lib/account.ts:186-195 | The first such opening undoes the last edit if and only if its save lands and that edit is a removal |
| AccountSync.OthersWorkSurvivesExactlyWhen | sage-halpin/src/lib/account.ts:129-200 | In any run, a name this browser never edited is left on the account as the others saved it if and only if this browser does not hold another value of it that is unsaved here or meets an empty account |
| AccountSync.RemovedNameReturns | sage-halpin/src/lib/account.ts:187-199 | A concrete run in which an emptied account lets a stale browser put a removed name back |
| AccountSync.OthersWorkIsReplaced | sage-halpin/src/lib/account.ts:181-200 | A concrete run in which a browser that never edited the name replaces a newer value on an account that is not empty |
| AccountSync.SavedValueIsReplaced | sage-halpin/src/lib/account.ts:181-200 | The same run goes on: the only editor opens, and its own saved value stays replaced by the stale one |
| AccountPage.Page.LocalEntries | sage-halpin/src/lib/account.ts:48-59 | The scan over storage keys gives exactly this user's well-named entries |
| AccountPage.Page.ClearLocal | sage-halpin/src/lib/account.ts:111-119 | Exactly the keys under the user's prefix go |
| AccountPage.Page.WriteLocal | sage-halpin/src/lib/account.ts:61-63 | Each well-named entry is stored under its prefixed key and nothing else changes |
| AccountPage.NamesAre | sage-halpin/src/lib/account.ts:14 | Names have one to eighty lower-case letters, digits and underscores |
| AccountPage.EntriesAreUnderTheirKeys | sage-halpin/src/lib/account.ts:9-63 | An entry is kept under `sagehalpin_`, its user, an underscore and its name, and clearing that user takes that key |
| AccountPage.WrittenIsReadBack | sage-halpin/src/lib/account.ts:48-63 | Clearing and writing a copy, then reading the entries, gives that copy back |
| AccountPage.OthersAreKept | sage-halpin/src/lib/account.ts:48-63 | Clearing or writing one user leaves the entries of every user whose key prefix is apart from it |
| AccountPage.SameLengthIdsAreApart | sage-halpin/src/lib/account.ts:50 | Two different user ids of equal length, as account ids are, never share a key |
| AccountPage.Page.SaveNow | sage-halpin/src/lib/account.ts:129-151 | On the stored keys and page variables a save is the protocol's save: the account, baseline and last-saved snapshot move together or not at all |
| AccountPage.Page.Activate | sage-halpin/src/lib/account.ts:181-200 | Activation is the protocol's load followed by a save, with signed-out work adopted only by an empty account and an empty browser; other users' entries stay |
| AccountPage.Page.SignOut | sage-halpin/src/lib/account.ts:230-242 | Signing out saves if it can; then, unless signing out everywhere was asked for and refused, nothing of the account is left in the browser even when the save failed; when it was refused every entry, the baseline and the user stay; other users' entries stay either way |
| Store.NamesDetermineAddress | sage-halpin/server/routes/consultations.ts:129-137 | The partition and row names of questions, workspaces, tokens, files and chunks never collide: two names determine the document |
| Store.MemoryStore.Get | sage-halpin/server/store.ts:29-32 | Reads the row of that partition, or nothing |
| Store.MemoryStore.Put | sage-halpin/server/store.ts:34-38 | Exactly that row changes, and no empty partition is kept |
| Store.MemoryStore.Remove | sage-halpin/server/store.ts:53-57 | Exactly that row goes, and its partition with its last row |
| Store.MemoryStore.ListByRow | sage-halpin/server/store.ts:44-51 | The documents of every partition that has the row name, whatever its kind |
| Store.SameTables | sage-halpin/server/store.ts:53-57 | Because empty partitions are dropped, stores with the same rows are the same store |
| Files.ChunksReassemble | sage-halpin/server/files.ts:99-113 | Reading an upload's byte and text chunks in order gives back exactly what was uploaded, for every length |
| Files.FileStepKeeps | sage-halpin/server/files.ts:252-330 | Upload, ask, update and delete keep every file listed as uploaded, its chunks whole, no chunk of an unlisted file, and both quotas |
| Files.ListedFileIsWhole | sage-halpin/server/files.ts:99-113 | A listed file's stored counts and chunks read back as its bytes and text; no part is missing |
| Files.UploadIsListedExactlyWhen | sage-halpin/server/files.ts:252-299 | An upload is listed with its size, its numbers of chunks and its settings if and only if it has 1 byte to 20 MB, the owner has under 100 files and stays within 250 MB; nothing else changes |
| Files.ReviewIsStored | sage-halpin/server/files.ts:301-307 | Asking stores the new review of that file and changes nothing else |
| Files.SettingsAreSet | sage-halpin/server/files.ts:309-323 | A change sets each setting it names to the value given, and leaves the other, the rest of the file and every other file |
| Files.DiscardedIsGone | sage-halpin/server/files.ts:325-330 | Deleting takes the file and its chunks and nothing else |
| Files.TotalIsOfSizes | sage-halpin/server/files.ts:263 | The total held against the quota is the sum of the sizes listed |
| BoardInvariants.SeatedOnce | sage-halpin/server/routes/consultations.ts:531-532 | The seats are the listed agents without repeats, the chair always among them and last |
| BoardInvariants.FirstRoundIsSeated | sage-halpin/server/routes/consultations.ts:680-709 | A convened shadow board has each seated agent once, in seat order, the chair last |
| BoardInvariants.IssueToKeeps | sage-halpin/server/routes/consultations.ts:600-606 | Replacing one person's link keeps the token index and the invitees' hashes inverse to each other and no other question's row changes |
| BoardInvariants.IssueKeeps | sage-halpin/server/routes/consultations.ts:600-621 | So does a whole round of invitations, for any choice of people and fresh tokens |
| BoardInvariants.RowsAfterKeeps | sage-halpin/server/routes/consultations.ts:630-942 | Every lead request keeps a question's rows in order: decisions only on closed questions with the right missing members, boards only where the mode allows and of the seated agents, feedback for seated agents, answers of invited people |
| BoardInvariants.CreateKeeps | sage-halpin/server/routes/consultations.ts:449-545 | Creating a question from any draft keeps the invariant: people distinct, none when the agents decide, weight fixed by the mode |
| BoardInvariants.ForgetKeeps | sage-halpin/server/routes/consultations.ts:176-192 | Removing any set of questions and workspaces with all they own keeps the invariant for those that remain |
| BoardInvariants.StepKeeps | sage-halpin/server/routes/consultations.ts:449-1100 | Every request, by anyone, at any time, keeps the whole invariant |
| BoardInvariants.RunKeeps | sage-halpin/server/routes/consultations.ts:449-1100 | So the invariant holds in every state of every run |
| BoardLaws.LoadRemovesExactlyExpired | sage-halpin/server/routes/consultations.ts:194-203 | Looking a question up removes it, with exactly what it owns, if and only if its retention date has passed |
| BoardLaws.LeadActsExactlyWhen | sage-halpin/server/routes/consultations.ts:206-225 | A request acts as the lead's if and only if the question is there and the token, not empty, has the hash on its card; otherwise it does no more than look the question up |
| BoardLaws.OnlyItsLeadActs | sage-halpin/server/routes/consultations.ts:206-225 | In every run a token with which no draft asked for the question never acts on it as its lead |
| BoardLaws.WorkspaceActsExactlyWhen | sage-halpin/server/workspace.ts:107-124 | A workspace's files and deletion obey the token whose hash its own row has and no other |
| BoardLaws.OpenedWorkspaceObeys | sage-halpin/server/routes/workspaces.ts:172-178 | A workspace that has been opened obeys the token it was opened with and no other |
| BoardLaws.CreatesExactlyWhen | sage-halpin/server/routes/consultations.ts:449-545 | A question is created, open and without links, if and only if its draft names known agents, a weight from 0 to 100, a workspace it has the token of, and 1 to 20 different people unless the agents decide |
| BoardLaws.CardIsItsDrafts | sage-halpin/server/routes/consultations.ts:509-541 | In every run a question's card is to the end what its draft asked for: people, agents, mode, weight, retention date, token hash and workspace |
| BoardActs.ActTouches | sage-halpin/server/routes/consultations.ts:547-946 | Whatever a lead asks for, other questions stand, and workspaces, links and files stand but for decisions, invitations and file requests |
| BoardActs.DeletionTakesExactly | sage-halpin/server/routes/consultations.ts:641-648 | Deleting takes exactly the rows, links, files and chunks that belong to the question |
| BoardActs.CloseCloses | sage-halpin/server/routes/consultations.ts:630-639 | Closing closes the question and changes no other row |
| BoardActs.RatingIsStoredExactlyWhen | sage-halpin/server/routes/consultations.ts:918-931 | A rating is stored as given if and only if the agent is seated |
| Responses.MissingIsExact | sage-halpin/server/routes/consultations.ts:863-872 | The missing names are those of the permanent invitees with no stored answer and no others |
| Responses.CollectedAre | sage-halpin/server/routes/consultations.ts:227-234 | The object collected has the stored answer of each person asked under that person's id, and no other entry; only the answer under `__proto__` becomes its prototype instead |
| Responses.ListedAreMissingExactlyWhen | sage-halpin/server/routes/consultations.ts:863-872 | The names the decision lists are the missing ones if and only if no permanent member under the id `__proto__` has answered |
| Responses.CountedExactlyWhen | sage-halpin/server/routes/consultations.ts:734-735 | The number of answers reported is the number stored if and only if none of them is under that id |
| Responses.SeemsUnansweredExactlyWhen | sage-halpin/server/routes/consultations.ts:805-813 | No one seems to have answered if and only if no one has but someone under that id |
| Responses.ReadableExactlyWhen | sage-halpin/server/routes/consultations.ts:366-376 | Going through everyone's answers throws if and only if someone without a stored answer goes by an inherited name, or by a field of an answer that became the prototype |
| OddIds.PlainRunsAreRight | sage-halpin/server/routes/consultations.ts:449-1100 | In every run whose drafts name no one by such an id, decisions name exactly the missing, counts are those of the stored answers, and reading them never throws |
| OddIds.RecordIsKeptExactlyWhen | sage-halpin/server/routes/consultations.ts:883-909 | An accepted decision is stored and closes the question, and the linked workspace gets its record if and only if no one without an answer goes by such a name |
| OddIds.AnsweredIsNamedMissing | sage-halpin/server/routes/consultations.ts:862-873 | A concrete possible run in which a permanent member's answer is stored and the decision still names that member as missing |
| OddIds.DecidedWithoutRecord | sage-halpin/server/routes/consultations.ts:883-909 | A concrete possible run in which a decision is stored without the record its workspace should get |
| BoardProperties.DecisionsNameTheMissing | sage-halpin/server/routes/consultations.ts:859-885 | In every reachable state a stored decision is on a closed question, and its `withoutPermanent` is exactly the permanent invitees with no stored response, if and only if no permanent member under the id `__proto__` has answered |
| BoardProperties.ClosedForGood | sage-halpin/server/routes/consultations.ts:583-590 | From the moment a question is closed, in every run, its card, links and answers stand and a decision stays until the question goes |
| BoardProperties.DecisionStaysTrue | sage-halpin/server/routes/consultations.ts:883-885 | However often the decision is posted again, the members named as missing stay the same for the rest of the run |
| BoardActs.DecisionIsStoredExactlyWhen | sage-halpin/server/routes/consultations.ts:846-885 | A decision is stored as taken, with the names listed, and closes the question, if and only if no one is listed or the chair proceeds without them |
| BoardActs.RecordIsStored | sage-halpin/server/routes/consultations.ts:887-912 | Its record goes into the linked workspace and changes no other row there |
| BoardActs.RecordSays | sage-halpin/server/routes/consultations.ts:887-901 | The record has the decision and position taken, each person's stored position in order, and positions of exactly the seated agents when there is a shadow board |
| BoardActs.RecordRecommends | sage-halpin/server/routes/consultations.ts:905-906 | Its recommendation is the beginning of the chair's final opinion, 3,000 units at most |
| BoardActs.AnswerIsStored | sage-halpin/server/routes/consultations.ts:1065-1096 | An answer through a link that the card of an open, unexpired question gives to a person is stored as sent under that person, and nothing else changes |
| BoardActs.LinkLooksUpItsQuestion | sage-halpin/server/routes/consultations.ts:950-958 | Following a link looks up the question whose card has it, which removes an expired one |
| BoardActs.UnknownLinkDoesNothing | sage-halpin/server/routes/consultations.ts:950-954 | A link that no card has does nothing |
| BoardActs.OtherAnswersAreRefused | sage-halpin/server/routes/consultations.ts:1065-1076 | Any other answer does no more than look the question up |
| BoardActs.StoredAnswerIsLastTaken | sage-halpin/server/routes/consultations.ts:1065-1096 | In every run the answer stored for a person is, as sent, the last one taken from that person |
| BoardActs.RecordGivesLastPositions | sage-halpin/server/routes/consultations.ts:899 | So in every run a decision's record has the positions of the last answers taken |
| BoardProperties.GoneForGood | sage-halpin/server/routes/consultations.ts:194-203 | A removed question never comes back |
| BoardProperties.OpensExactlyForItsHolder | sage-halpin/server/routes/consultations.ts:950-958 | A link opens a question for a person if and only if that question's card says that person holds it |
| BoardProperties.OneLinkEach | sage-halpin/server/routes/consultations.ts:950-958 | At most one link opens for each person |
| BoardProperties.NewLinksOpen | sage-halpin/server/routes/consultations.ts:600-623 | After invitations each person asked opens the question with the link just sent |
| BoardProperties.OnlyEarlierLinksEnd | sage-halpin/server/routes/consultations.ts:600-623 | Invitations end exactly the earlier links of the people asked; every other link opens as before and every answer is kept |
| BoardProperties.NoOrphans | sage-halpin/server/routes/consultations.ts:176-180 | Every stored row belongs to someone, and no row, link, file or chunk of a question outlives it |
| BoardProperties.DeletedIsGone | sage-halpin/server/routes/consultations.ts:641-648 | After deletion no row anywhere belongs to the question, then or after any further requests |
| BoardProperties.SweepTakesExactlyExpired | sage-halpin/server/routes/consultations.ts:182-192 | A sweep removes a row if and only if it belongs to an expired question; no workspace row goes, though both kinds use the row name meta |
| BoardProperties.FilesStayWhole | sage-halpin/server/files.ts:252-299 | In every run each listed file reads back as the bytes and text uploaded, and no owner exceeds 100 files or 250 MB |
| BoardProperties.OneOpinionPerSeat | sage-halpin/server/routes/consultations.ts:661-664 | The opinions that count are one per seated agent, the chair's last, all of them the challenge round's when there is one, which needs a collaborative question with a shadow board |
| BoardProperties.ConveningStartsAfresh | sage-halpin/server/routes/consultations.ts:666-719 | After convening, the opinions that count are the new first round, whatever challenge there was before; a failed call changes nothing |
| BoardActs.ConveningStoresExactlyWhen | sage-halpin/server/routes/consultations.ts:666-719 | Each seated agent's opinion is that agent's own reply; the round is stored, and any challenge dropped, if and only if people do not decide alone and every call succeeds |
| BoardActs.ChallengeIsStoredExactlyWhen | sage-halpin/server/routes/consultations.ts:793-842 | The challenge stores each agent's own reply if and only if the question is collaborative, has a first round and an answer that is seen, nothing throws and every call succeeds |
| BoardActs.SynthesisIsStoredExactlyWhen | sage-halpin/server/routes/consultations.ts:723-789 | A synthesis is the model's text with the number of answers, stored if and only if its view is allowed, an answer is seen, nothing throws and the call succeeds |
| BoardProperties.RoundsFollowAnswers | sage-halpin/server/routes/consultations.ts:733-813 | In every state that keeps the invariant a challenge or a synthesis is stored only where someone has answered |
| BoardProperties.LaterRoundWins | sage-halpin/server/routes/consultations.ts:661-664 | Looking up each agent in the later round by id gives that round itself |
| BoardProperties.RecordGivesFinalPositions | sage-halpin/server/routes/consultations.ts:887-909 | The record a linked workspace keeps gives every seated agent's final position |
| BoardServer.OwnLinksRemoved | sage-halpin/server/routes/consultations.ts:178 | Removing the hashes on a question's card removes exactly the index rows that open it |
| BoardServer.PurgedIsForgotten | sage-halpin/server/routes/consultations.ts:176-180 | Files, then links, then rows: what purge removes is exactly what the question owns |
| BoardServer.Server.DeleteAllFiles | sage-halpin/server/files.ts:115-123 | The loops over files and their chunk rows leave none of the owner's files or chunks and touch nothing else |
| BoardServer.Server.Purge | sage-halpin/server/routes/consultations.ts:176-180 | The row-by-row removal does what forgetting the question says |
| BoardServer.Server.SweepExpired | sage-halpin/server/routes/consultations.ts:183-192 | Purging expired questions one by one, in any order, removes exactly those and returns their number |
| BoardServer.Server.LoadConsultation | sage-halpin/server/routes/consultations.ts:194-203 | The question, with an expired one removed on the way |
| BoardServer.Server.ResponsesOf | sage-halpin/server/routes/consultations.ts:227-234 | The loop over the people asked, with its reads of rows and assignments to one plain object, gives the specified object |
| BoardServer.Server.ReadAnswers | sage-halpin/server/routes/consultations.ts:751 | The lookups in that object give everyone's position, or throw exactly where one of them finds something that is no answer |
| BoardServer.Server.MissingPermanent | sage-halpin/server/routes/consultations.ts:862-873 | The loop lists the permanent members whose ids are not keys of the object, in invitee order |
| BoardServer.Server.Invitations | sage-halpin/server/routes/consultations.ts:579-628 | The loop over invitees with its removals and puts is the invitation step |
| BoardServer.Server.ShadowBoard | sage-halpin/server/routes/consultations.ts:666-719 | Convening replaces the first round and drops any challenge, or changes nothing when a call fails or the people decide |
| BoardServer.Server.ChallengeRound | sage-halpin/server/routes/consultations.ts:793-842 | A challenge is stored only for a collaborative question with a shadow board and an answer, when the answers can be read and every call succeeds |
| BoardServer.Server.PutSynthesis | sage-halpin/server/routes/consultations.ts:723-789 | A synthesis is stored only where its view is allowed, someone has answered and the answers can be read |
| BoardServer.Server.DecideQuestion | sage-halpin/server/routes/consultations.ts:846-915 | The gate, the decision, the closing and the workspace's record, left out where reading the answers throws, are the decision step |
| BoardServer.Server.HandleUpload | sage-halpin/server/files.ts:252-299 | Within the limits, the chunk loops and the record store the upload; otherwise nothing changes |
| BoardServer.Server.OpenFile | sage-halpin/server/files.ts:99-113 | Opening a listed file returns the bytes and text uploaded, from every state that keeps the invariant |
| BoardServer.Server.ResolveInvite | sage-halpin/server/routes/consultations.ts:950-958 | The question and person a link opens for, with an expired question removed on the way |
| BoardServer.Server.Respond | sage-halpin/server/routes/consultations.ts:1065-1100 | An answer is stored only through an open link of an open question, in that person's row |
| BoardServer.Server.DeleteWorkspace | sage-halpin/server/workspace.ts:312-315 | Everything the workspace owns goes and nothing else |
| BoardServer.Server.Handle | sage-halpin/server/routes/consultations.ts:449-1100 | The handlers run over the store do exactly the specified step for every request, and keep the invariant |
| Sessions.RunKeeps | sage-halpin/server/routes/auth.ts:123-276 | In every run the session records are those the history of starts and ends leaves open |
| Sessions.AdmittedExactlyWhileOpen | sage-halpin/server/routes/auth.ts:98-115 | A request is admitted as an account if and only if its cookie was issued and is unexpired and that very account started the session and nothing has ended it since |
| Passwords.OnlyGoodCookiesAdmit | sage-halpin/server/routes/auth.ts:98-115 | Only a cookie the server signed, unexpired, admits, and only as the account it names |
| Passwords.SignInStartsExactlyWhen | sage-halpin/server/routes/auth.ts:161-182 | A sign-in starts a session, for fourteen days, if and only if the address is given, not locked, has an account, and the password is that account's; otherwise it starts none, and unless locked out it counts exactly one failure |
| Passwords.LastPasswordSignsIn | sage-halpin/server/routes/auth.ts:123-233 | In every run the password that signs in to an account whose address is not locked is exactly the one last given by its sign-up or by a change made with the password of the time |
| Passwords.SignUpCreatesExactlyWhen | sage-halpin/server/routes/auth.ts:123-157 | A sign-up creates an account with the password given and starts its session if and only if the input is valid and the address free |
| Passwords.PasswordChangesExactlyWhen | sage-halpin/server/routes/auth.ts:209-233 | The password becomes the one chosen if and only if someone signed in gives the current one and the new one is acceptable; a wrong current one counts one failure |
| Passwords.SignOutEndsExactly | sage-halpin/server/routes/auth.ts:184-195 | Signing out makes that cookie refused from then on and leaves every other cookie as it was |
| Passwords.SignOutEverywhereEndsExactly | sage-halpin/server/routes/auth.ts:198-206 | Signing out everywhere makes exactly the cookies admitted as that account refused |
| Passwords.SavedIsWhatWasSent | sage-halpin/server/routes/auth.ts:247-264 | What is saved is what was sent, for the account signed in and no other |
| Passwords.SavedIsLastSaved | sage-halpin/server/routes/auth.ts:247-264 | In every run an account's saved workspace is what someone signed in to it last saved |
| Passwords.DeletesExactlyWhen | sage-halpin/server/routes/auth.ts:266-276 | An account is deleted if and only if someone signed in to it gives its password |
| Sessions.OneSessionAfterPasswordChange | sage-halpin/server/routes/auth.ts:209-233 | After a password change exactly one session record of the account is left and only its cookie is admitted |
| Sessions.DeadCookiesStayDead | sage-halpin/server/auth.ts:138-157 | A cookie whose session record is gone is never admitted again, whatever is requested |
| Sessions.DeletionKillsCookies | sage-halpin/server/routes/auth.ts:266-276 | Deleting the account kills every cookie admitted as it, also for a later account with the same email |
| Sessions.DeletionLeavesNothing | sage-halpin/server/auth.ts:221-242 | A deletion in any run leaves no row of the account: not the account's, not the saved workspace, no session |
| Sessions.NothingOutlivesAccounts | sage-halpin/server/auth.ts:221-242 | In every run a saved workspace or a session record exists only for an account that exists |
| Sessions.NewAccountStartsEmpty | sage-halpin/server/routes/auth.ts:123-157 | A new account finds no saved workspace, whoever had the email before |
| AuthServer.Server.RequireAccount | sage-halpin/server/routes/auth.ts:98-115 | The three lookups admit exactly the specified account |
| AuthServer.Server.EndAllSessions | sage-halpin/server/auth.ts:148-157 | The loop removes every session record of the account, no other, and counts them |
| AuthServer.Server.RecordFailedSignIn | sage-halpin/server/auth.ts:182-189 | The read, reset, count, lock and put of the throttle row are the step the throttle theorems are about |
| SignInThrottle.LocksExactlyWhen | sage-halpin/server/auth.ts:182-189 | A failure locks the address if and only if nine are already counted in a window that is not over; otherwise it adds one to them |
| SignInThrottle.TenLock | sage-halpin/server/auth.ts:161-189 | From a clean record ten failures within a window's length lock, and the lock comes with the tenth and no earlier |
| SignInThrottle.FailuresWithoutLock | sage-halpin/server/auth.ts:161-189 | Whatever came before, a stretch as long as the window holds at most eighteen failures less those already counted without a lock, and at most nine from a clean record |
| SignInThrottle.SeventeenAtMost | sage-halpin/server/auth.ts:161-189 | In a run from a clean record that never locks, no fifteen minutes hold more than seventeen failures |
| SignInThrottle.SeventeenSlipBy | sage-halpin/server/auth.ts:161-189 | Seventeen is reached: a concrete run with seventeen failures within about a minute and no lock |
| SignInThrottle.EighteenAfterALock | sage-halpin/server/auth.ts:182-189 | The bound of eighteen is reached too: right after any lock eighteen failures within two milliseconds lock nothing |
| SignInThrottle.LockRefusesSignIn | sage-halpin/server/routes/auth.ts:161-182 | After a locking failure and any further requests, a sign-in with the address changes nothing whatever the password, for the whole time of the lock |
| SignInThrottle.LockEndsExactlyWhen | sage-halpin/server/routes/auth.ts:161-182 | With nothing in between, a sign-in is ignored if and only if the lock's fifteen minutes are not over |
| AuthServer.Server.SignUp | sage-halpin/server/routes/auth.ts:123-157 | Sign-up as its step |
| AuthServer.Server.SignIn | sage-halpin/server/routes/auth.ts:161-182 | Sign-in as its step, with the lock checked first |
| AuthServer.Server.SignOut | sage-halpin/server/routes/auth.ts:184-195 | Sign-out ends the cookie's own session |
| AuthServer.Server.SignOutEverywhere | sage-halpin/server/routes/auth.ts:198-206 | Signing out everywhere ends every session of the account |
| AuthServer.Server.ChangePassword | sage-halpin/server/routes/auth.ts:209-233 | Password change as its step |
| AuthServer.Server.SaveData | sage-halpin/server/routes/auth.ts:247-264 | The saved workspace is written into the admitted account's own row, and nowhere when nobody is admitted |
| AuthServer.Server.DeleteAccount | sage-halpin/server/routes/auth.ts:266-276 | The removals of the session rows, the saved workspace's row and the account's row are the deletion step |
| Zip.ZipEntries | sage-halpin/server/extract.ts:158-184 | On any bytes both loops end, every read is in range, and the entries are the specified ones |
| Zip.WrittenDirectoryIsRead | sage-halpin/server/extract.ts:158-184 | Reading undoes a writer of central directory headers and end record (sections 4.3.12 and 4.3.16 of the ZIP APPNOTE) when no end-record signature occurs after the true one |
| Zip.StoredFileIsRead | sage-halpin/server/extract.ts:186-193 | A stored entry's bytes are found past its local header (section 4.3.7 of the ZIP APPNOTE), whatever its name and extra field |
| Zip.EveryMethodIsRead | sage-halpin/server/extract.ts:186-193 | What lies behind a local header is taken as it is by method 0 and handed to the inflater by method 8; by any other method, or over 50 MB, nothing is read |
| Zip.BadOffsetReadsNothing | sage-halpin/server/extract.ts:187 | An entry that points outside the file or at no local header reads as nothing |
| Zip.WithoutEndNothingIsListed | sage-halpin/server/extract.ts:160-168 | Without an end record in the last 65,557 bytes nothing is listed |
| Zip.ArchiveRoundTrip | sage-halpin/server/extract.ts:158-193 | Every file of a written archive is listed in order under its name and read back byte for byte |
| Markup.StripTags | sage-halpin/server/extract.ts:113-120 | The repeated replacement ends, and its result is what one left-to-right reading with a stack of open brackets gives |
| Markup.PassProgresses | sage-halpin/server/extract.ts:115-118 | Each pass that changes anything lowers the number of opening brackets |
| Markup.FixedExactlyWhenUnpaired | sage-halpin/server/extract.ts:115-118 | A pass changes nothing if and only if no opening bracket precedes a closing one |
| Markup.PassKeepsVisible | sage-halpin/server/extract.ts:117 | No pass changes what the stack reading sees, so the number of passes does not matter |
| Markup.StrippedText | sage-halpin/server/extract.ts:119 | The result has no angle bracket, and it is the input if and only if the input has none |
| Blocks.DropBlocks | sage-halpin/server/extract.ts:94-110 | On every text on which it ends the loop over positions returns the specified text |
| Blocks.OpensExactlyWhere | sage-halpin/server/extract.ts:99 | A block opens exactly where `<script`, `<style` or `<noscript` stands and does not go on as a word |
| Blocks.LoopEndsExactlyWhen | sage-halpin/server/extract.ts:94-110 | For any text and any folded copy: the loop ends if and only if not both readings of the copy, from its start and from the text's own length, come to a block whose end tag is cut short |
| Blocks.NoLongerCopyEnds | sage-halpin/server/extract.ts:94-110 | So it ends whenever the folded copy is not longer than the text |
| Blocks.NoBlockIsLeftExactlyWhen | sage-halpin/server/extract.ts:94-110 | For any text, any folded copy and any folding that keeps a space: when the loop ends, no script, style or noscript opening tag is left if and only if none stands in any slice it copied, the ends of the slices being read off the folded copy |
| Blocks.NoBlockIsLeftOneToOne | sage-halpin/server/extract.ts:94-110 | If the letters before the end of the last block fold to one letter each, whatever comes after it, no such tag is left |
| Blocks.LongerLowerCaseKeepsATag | sage-halpin/server/extract.ts:94-110 | A text with eight letters whose lower case is longer: the loop keeps an opening script tag |
| Blocks.LongerLowerCaseNeverEnds | sage-halpin/server/extract.ts:94-110 | A text with sixteen of them on which the loop never ends |
| Blocks.NothingToDrop | sage-halpin/server/extract.ts:94-110 | Text in which none of them opens is unchanged |
| Elements.ListElements | sage-halpin/server/extract.ts:199-224 | The loop lists the specified elements |
| Elements.ElementsThatCanBeRead | sage-halpin/server/extract.ts:199-224 | Elements are read back when their attributes are set off by a space or slash and have no closing bracket, and their content does not hold the end tag |
| Elements.ElementsAreWritten | sage-halpin/server/extract.ts:199-224 | An element whose attributes end in a slash is written alone, any other with its content and end tag |
| Elements.ElementsAreReadBack | sage-halpin/server/extract.ts:199-224 | Elements written one after another, self-closing or with content, among text without an opening bracket are read back exactly |
| ObjectScan.ObjectsIn | sage-halpin/server/horizon.ts:137-156 | The scanner's loop gives the specified slices |
| ObjectScan.ObjectsAreFixedPoints | sage-halpin/server/horizon.ts:137-156 | On any input, each object found is found again alone: objectsIn(o) = [o] |
| ObjectScan.ObjectsAreDisjointSlices | sage-halpin/server/horizon.ts:137-156 | On any input the objects are disjoint slices of the text, in order |
| ObjectScan.SampleIsFound | sage-halpin/server/horizon.ts:137-156 | A concrete text: a nested object and a string with a brace and an escaped quote are one object |
| ObjectScan.JoinedObjectsAreFound | sage-halpin/server/horizon.ts:137-156 | Brace-balanced objects, strings and escapes respected, joined by text with no quote or opening brace are found exactly |
| Net.Ipv4IsRead | sage-halpin/server/net.ts:19-21 | The shift-and-add over the dotted parts is the address as a 32-bit number |
| Net.MaskTestIsInterval | sage-halpin/server/net.ts:43-46 | Agreeing with a block's base under its mask is lying in the block as an integer interval |
| Net.PublicIPv4IsOutsideBlocks | sage-halpin/server/net.ts:23-47 | The address of any four numbers is public if and only if its number lies outside all fourteen listed blocks |
| Net.EveryIPv4IsAQuad | sage-halpin/server/net.ts:19-21 | Every text accepted as IPv4 is the one spelling of the four numbers read from it |
| Net.PublicIPv4Exactly | sage-halpin/server/net.ts:23-47 | So every accepted address text is public if and only if the number the code computes from it lies outside the blocks |
| Ipv6.EverySpellingIsRead | sage-halpin/server/net.ts:72-87 | Every full, `::`-compressed or dotted spelling (section 2.2 of RFC 4291), in either case and with any zone, is read as the eight groups it denotes |
| Ipv6.PublicGroupsAre | sage-halpin/server/net.ts:48-67 | The shift-and-mask tests on the groups say exactly: the carried IPv4 address is outside the blocks, or the first groups are in none of the refused ranges |
| Ipv6.PublicSpellings | sage-halpin/server/net.ts:48-67 | The same for every spelling of an address |
| Ipv6.CarriedAddressesDecide | sage-halpin/server/net.ts:53-57 | An IPv4-mapped or 6to4 address is public if and only if its IPv4 address is |
| Ipv6.DiscardPrefixIsPublic | sage-halpin/server/net.ts:65 | Every address of 100::/64 is judged public, because the test meant to refuse it cannot hold |
| FileRecord.StoredFile.FitRecord | sage-halpin/server/files.ts:85-93 | The loop and the cut leave the specified answers in place |
| FileRecord.LongestSuffixIsKept | sage-halpin/server/files.ts:86 | The answers kept are the longest suffix that fits, or the last one alone |
| FileRecord.FitsExactlyWhen | sage-halpin/server/files.ts:85-93 | The result fits if and only if that suffix fits or there is an answer and the record with the last response emptied fits with four to spare, under JSON's real escaping costs and split surrogate pairs |
| FileRecord.OnlyTheLastResponseChanges | sage-halpin/server/files.ts:87-91 | Every kept answer is as it was, but for the last one's response when even it alone did not fit |
| FileRecord.ShortenedKeepsItsStart | sage-halpin/server/files.ts:87-91 | When not even the last answer fits, its response keeps its beginning, cut by twenty more than it is too long, and ` […]` |
| FileRecord.LengthIsOfTheText | sage-halpin/server/files.ts:86-87 | The lengths are those of the answers written out as JSON.stringify does, escapes and lone surrogates included |
| HorizonScan.OfferedAreNew | sage-halpin/server/horizon.ts:385-392 | What is offered for triage is new, without repeats, and as many as there are up to forty |
| HorizonScan.OfferedAreNewest | sage-halpin/server/horizon.ts:391-392 | Nothing newer is left out of what is offered |
| HorizonScan.UnseenAreFirsts | sage-halpin/server/horizon.ts:388-390 | Of several items read under one id the first counts, unless it is a signal or was seen |
| HorizonScan.OfferedAreUnseen | sage-halpin/server/horizon.ts:388-392 | What is offered is unseen and comes newest first |
| HorizonScan.SameDatesKeepTheirOrder | sage-halpin/server/horizon.ts:391 | The sort is stable: items of one date keep the order in which they were read |
| HorizonScan.KeptExactly | sage-halpin/server/horizon.ts:275-277 | What is kept is what triage picked among the offered items, and what the web search found that is no signal yet, and nothing else |
| HorizonScan.SignalsAfterScan | sage-halpin/server/horizon.ts:394-423 | After a scan the earlier signals and all that was kept are there, each with its own date or else the scan's time; one is gone only when 300 others, none older, are there |
| HorizonScan.MarkersAfterScan | sage-halpin/server/horizon.ts:400-427 | After a scan exactly the items offered and those marked within sixty days are marked as seen |
| HorizonScan.KeptAreNewAndBounded | sage-halpin/server/horizon.ts:394-423 | A scan stores no id twice and leaves min(300, before + kept) signals |
| HorizonScan.OfferedAgainOnlyLater | sage-halpin/server/horizon.ts:385-427 | Over every run of scans with a non-decreasing clock an item is offered a second time only by a scan that starts more than sixty days after it was first marked |
| HorizonScan.Workspace.ListSignals | sage-halpin/server/workspace.ts:260-263 | The signals in order of date, newest first, each once |
| HorizonScan.Workspace.TrimSignals | sage-halpin/server/horizon.ts:421-423 | The signals left are the newest by date |
| HorizonScan.Workspace.ScanWorkspace | sage-halpin/server/horizon.ts:385-427 | The scan's puts and removals are the specified step |
| RateLimit.Limiter.RateLimit | src/lib/rate-limit.ts:24-47 | The bucket map and the answer after a call |
| RateLimit.WindowBound | src/lib/rate-limit.ts:24-47 | Between any two times at most capacity + refillPerMinute x elapsed minutes requests of a key are allowed, however calls of other keys, under any options of their own, interleave |
| RateLimit.LazyIsContinuous | src/lib/rate-limit.ts:30-43 | However often denied calls poll, the bucket's level and answer are those of continuous refill |
| RateLimit.RemainingIsExact | src/lib/rate-limit.ts:45-46 | `remaining` is exact: of any number of further calls at that time that many are allowed and no more |
| RateLimit.AllowsExactlyWhen | src/lib/rate-limit.ts:33-47 | A call is allowed if and only if a whole token is there; then nothing is to be waited for |
| RateLimit.RetryAfterIsExact | src/lib/rate-limit.ts:35-42 | With no other call, waiting a whole number of seconds is enough if and only if it is at least `retryAfterSeconds` |
| Tally.ScoresSumTo100 | sage-halpin/shared/board.ts:209-221 | The unrounded scores sum to 100 whenever anyone has stated a position, and to 0 otherwise |
| Tally.ScoreInRange | sage-halpin/shared/board.ts:209-221 | Each unrounded score lies between 0 and 100 |
| Tally.WeightIsThePeoples | sage-halpin/shared/board.ts:214-221 | With both sides heard a score is the people's share times the weight plus the agents' share times the rest of the hundred |
| Tally.FullWeightIsOneSide | sage-halpin/shared/board.ts:214-221 | A weight of 100 or more gives the people's percentages alone, of 0 or less the agents' |
| Tally.PeopleAloneDecide | sage-halpin/shared/board.ts:217-219 | While the agents are silent the scores are the people's percentages |
| Tally.AgentsAloneDecide | sage-halpin/shared/board.ts:217-219 | While the people are silent they are the agents' |
| Tally.ShownIsNearest | sage-halpin/shared/board.ts:220 | Each number shown is the whole number nearest to its position's score, the upper of two as near |
| Tally.RoundedScores | sage-halpin/shared/board.ts:220 | Each rounded score is a whole number from 0 to 100 and together they make 99 to 102 |
| Tally.RoundedSumsReachBothEnds | sage-halpin/shared/board.ts:220 | Both ends are reached: concrete votes whose rounded scores sum to 99 and to 102 |
| Tally.OrderNeverMatters | sage-halpin/shared/board.ts:209-221 | The tally depends on how often each position was stated, never on the order of votes |
| Tally.SilentSideIgnoresWeight | sage-halpin/shared/board.ts:214-219 | When one side has stated nothing the weight is irrelevant |

## Left out

- Overlapping requests, overlapping saves and several replicas: the code has no locking there, so only atomic steps are claimed.
- AccountSync.LastEditReachesAccount: assumes no fingerprint collision among the run's values and that a save which is not acknowledged was not stored; runs in which browsers have the page open at the same time are not modelled.
- AccountPage.Page.Activate: the baseline is kept as values rather than JSON text, and a full browser storage is not modelled.
- Board.Step: email sending and its status, questionnaire text and per-question answer checks, agent lessons written by feedback, briefs and documents in prompts.
- Board.Issue: a token is drawn for each person by a function rather than one after another from a random source.
- Files.FileStepKeeps: the upload stream, file names and types, text extraction and Sentinel's prompt; a review is any value, and fitting it into the row is proved separately in FileRecord.
- Zip.StoredFileIsRead: compressed entries go to the inflater unread, and bytes are not decoded as UTF-8.
- Blocks.NoBlockIsLeftExactlyWhen: a letter's lower case does not depend on its neighbours (final sigma).
- Ipv6.PublicSpellings: Node's own `isIPv6` is taken to accept these spellings; strings it refuses are not modelled.
- RateLimit.WindowBound: exact arithmetic, a non-decreasing clock, and one pair of options for the key counted, whatever the others use.
- HorizonScan.Workspace.ScanWorkspace: feed fetching and parsing, the landscape text and the scan's own status; which of several signals of one date is trimmed is left open.
- AccountSync.Merge: the entry names `__proto__` and `constructor`, which the name pattern accepts but the app never uses (its entry names are constants), are names like any other here.
- Sessions: HMAC, scrypt, AES-GCM and the cookie's encoding; timing of refused sign-ins; the limits per client address in front of the handlers. The saved workspace is any text.
- Azure and PostgreSQL stores, Express plumbing, React pages, the contact form, connectors, DNS and https fetching: I/O and interface.
- `PATCH /lessons`, track records, checkpoints and knowledge blocks: filters and counters that would only add easy members.
