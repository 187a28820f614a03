# Oath: the stake ledger, check-in workflow and LeetCode automation, in Dafny

Oath is a web app for commitments ("oaths") between friends. Each participant stakes gems
or credits, where credits are cents of real money. Participants then prove every check-in
day. An AI or the LeetCode webhook verifies each check-in, and a rival participant
arbitrates disputes. This project models the application's core and proves properties of
that model:

- **Server actions** on the relational store:
  - oath creation, invitation answers and the oath listing (`Oaths`);
  - check-ins and disputes (`CheckIns`);
  - the friendship graph and its listings (`Friends`);
  - the account sync, crediting and friendship queries (`DbHelpers`);
  - the LeetCode username setting (`Users`).

  Each action is a function from one `Db` snapshot to the next snapshot and the reply
  (`Schema.Step`). Next to each action are the lemmas about it:
  - the store invariant `Schema.Valid` (ids below their counters, intact foreign keys,
    the oath life cycle);
  - money conservation (`Ledger.Conserved`: balances plus the stakes of ACCEPTED
    participants);
  - guarded status moves (`StatusGuarded`, `ParticipantsGuarded`);
  - one-shot verdicts;
  - what a listing contains.
- **`Store`**: the same actions as methods of `class Database`, which holds one mutable
  field per table. The methods perform the source's reads and writes one after another,
  including the friendship loop and the nested create of `createOath` and the nested loops
  of the LeetCode webhook. Each method is proved to leave the tables exactly as the
  action's function says. The properties proved about the functions therefore hold of the
  imperative code.
- **`LeetCodeSolved`**: `POST /api/leetcode-solved`. The lemmas cover:
  - timestamp normalisation and the UTC day bucket;
  - the pairs the loops visit, each exactly once;
  - success counted only for a day not yet complete;
  - idempotence under replay.
- **`OathUtils`**: the deadline and format helpers, and `calculateStreak` as a loop proved
  against a recursive specification.
- **`Poller`** (the LeetCode service's poller) and **`Server`** (its HTTP routes): the
  last-seen-id dedup state machine, extraction of the latest submission, and the payload
  checks.
- **Support modules**:
  - `Text`: JavaScript `trim`, `toLowerCase` (on the ASCII letters only), `parseInt` and
    number-to-text;
  - `Json`: parsed JSON values with JavaScript truthiness, `??` and `||`;
  - `Ledger`: sums over maps.

Modelling conventions:

- **Row ids** are natural numbers handed out by counters (`nextUser`, `nextOath`,
  `nextFriendship`).
  - A `findFirst` or a `findMany` without ordering visits rows in ascending id.
  - `orderBy: createdAt desc` gives descending id.
  - Participant rows are keyed by (oath, user).
  - Check-ins are keyed by (oath, user, due date).
  - A dispute is keyed by the key of its check-in, since disputes are unique per check-in.
- **Errors**:
  - An error the action reports becomes `Err(kind)`, with one `Schema.Error` kind per
    message.
  - An exception the action catches becomes `Err(Failed)`. Examples: a unique-constraint
    violation, an update of a missing row, a dereference of a missing included row.
- **Prisma semantics**:
  - An `undefined` update field leaves the column as it was (`CheckIns.Override`).
  - Writes that happen before a throw stay written. Examples: the decline without an oath
    row, and the resolution without a check-in row.
- **Clock readings** (`now`, in integer milliseconds) and the default balances of a new
  user row are parameters. `calculateStreak`'s local day numbers are integers.
- **Renamed enum constructors** (Dafny needs unique constructor names across the
  module):
  - the friendship statuses `PENDING`/`ACCEPTED` are `REQUESTED`/`FRIENDS`;
  - the dispute status `PENDING` is `OPEN`.

## Model

| member | source | states |
|---|---|---|
| Oaths.CreateSoloOath | src/actions/oaths.ts:42-168 | Fails, writing nothing, unless title and description are non-empty, stake is at least 0, start is before end, the user exists and the balance in the chosen currency covers the stake. On success: a new ACTIVE oath carrying the given title, description, type, dates, stake and currency and the solo verification prompt, one ACCEPTED participant with stakePaid and the stake as given, and only that currency's balance lowered by the stake; every other table and counter is as before |
| Oaths.CreateSoloOathPreserves | src/actions/oaths.ts:82-155 | Keeps the store invariant. Keeps every balance non-negative. No oath or participant status moves except as the life cycle allows |
| Oaths.CreateSoloOathConserves | src/actions/oaths.ts:103-155 | The debit moves the stake into the oath. Balances plus held stakes stay the same in each currency |
| Oaths.WithCreator | src/actions/oaths.ts:187-191 | The invitee list with the creator added: it holds the creator and exactly the given ids |
| Oaths.AddRows | src/actions/oaths.ts:272-290 | The nested create: a row for each listed user of the new oath (the creator ACCEPTED, the others INVITED, all at the stake, none paid), and all other rows unchanged |
| Oaths.CreateOath | src/actions/oaths.ts:173-350 | Succeeds exactly when the inputs are valid and the invitees, with the creator, number at least 2. Every non-creator must be an ACCEPTED friend of the creator in either direction, the creator's balance must cover the stake, and the ids must be distinct. On success: a PENDING oath carrying the given title, description, type, dates, stake, currency and verification prompt, the AddRows table, and only the creator debited; every other table and counter is as before. Otherwise nothing is written |
| Oaths.CreateOathPreserves | src/actions/oaths.ts:272-321 | Keeps the invariant and solvency; statuses move only as allowed |
| Oaths.CreateOathConserves | src/actions/oaths.ts:272-321 | The creator's debit equals the stake the creator's ACCEPTED row now holds; nothing is created or destroyed |
| Oaths.EscrowAddRows | src/actions/oaths.ts:279-290 | The new rows hold exactly one stake: the creator's, who is the one ACCEPTED invitee |
| Oaths.AcceptOathInvitation | src/actions/oaths.ts:355-474 | The errors, with nothing written: no row, already ACCEPTED, not INVITED, or a balance below the row's stake. On success: the row becomes ACCEPTED and paid, exactly its stake is debited in the oath's currency, and the reply is whether every row of the oath is ACCEPTED. The oath becomes ACTIVE exactly when all have accepted and the start date has come, and is unchanged otherwise. Nothing else is written |
| Oaths.AcceptPreserves | src/actions/oaths.ts:411-465 | Keeps the invariant and solvency. An oath starts only with every participant ACCEPTED |
| Oaths.AcceptConserves | src/actions/oaths.ts:411-443 | The debit equals the stake the now-ACCEPTED row holds |
| Oaths.DeclineOathInvitation | src/actions/oaths.ts:479-536 | Allowed only from INVITED. The row becomes DECLINED and the oath CANCELLED unconditionally; no balance moves |
| Oaths.DeclinePreserves | src/actions/oaths.ts:500-524 | Keeps the invariant (a cancelled oath has a decliner), touches no balance, and makes no refund |
| Oaths.DeclineConserves | src/actions/oaths.ts:500-524 | Declining moves no money: an INVITED row held nothing |
| Oaths.CreateSoloOathCountersGrow | src/actions/oaths.ts:110-118 | Creating a solo oath lowers no participant counter |
| Oaths.CreateOathCountersGrow | src/actions/oaths.ts:272-321 | Creating a versus oath lowers no participant counter |
| Oaths.AcceptCountersGrow | src/actions/oaths.ts:411-420 | Accepting lowers no participant counter |
| Oaths.DeclineCountersGrow | src/actions/oaths.ts:508-517 | Declining lowers no participant counter |
| Oaths.GetUserOaths | src/actions/oaths.ts:541-591 | Exactly the oaths the user has ACCEPTED, of the requested status if one is given, newest first |
| CheckIns.Gate | src/actions/checkins.ts:49-62 | Passes exactly for an ACCEPTED participant of an ACTIVE oath |
| CheckIns.CreateCheckIn | src/actions/checkins.ts:34-114 | Behind the gate, a new PENDING_VERIFICATION row due now, and successCount raised by exactly 1 before any verification. A row already due at that instant is a constraint failure. Errors write nothing |
| CheckIns.Submitted | src/actions/checkins.ts:158-183 | The upserted row is PENDING_VERIFICATION at the new time. Given proof fields overwrite, absent ones are kept, and the earlier AI verdict is kept |
| CheckIns.SubmitCheckIn | src/actions/checkins.ts:119-199 | Behind the gate and with at least one non-empty proof field: one row for the (oath, user, due date) key, and no counter moves |
| CheckIns.VerifyCheckIn | src/actions/checkins.ts:204-273 | Only from PENDING_VERIFICATION, else AlreadyVerified. Sets the verdict status and raises exactly one of successCount and failureCount |
| CheckIns.VerifyCountsOnce | src/actions/checkins.ts:253-259 | A verification raises one counter of the owner's row by 1 and changes no other participant row |
| CheckIns.VerifyIsOneShot | src/actions/checkins.ts:225-231 | A second verification of the same row is refused and writes nothing |
| CheckIns.Rival | src/actions/checkins.ts:339-350 | The judge: the lowest-id participant of the oath other than the owner; nothing when there is none |
| CheckIns.CreateDispute | src/actions/checkins.ts:278-388 | Allowed only for the owner of a VERIFIED_INCOMPLETE check-in with no dispute and a rival. The dispute starts OPEN with the rival as judge, and the check-in becomes DISPUTED |
| CheckIns.Resolved | src/actions/checkins.ts:466-484 | COMPLETE moves success +1, failure −1, won +1. INCOMPLETE moves lost +1 only |
| CheckIns.ResolveDispute | src/actions/checkins.ts:393-510 | Only the assigned judge, only while OPEN (else AlreadyResolved). Sets RESOLVED with the outcome, given notes overwriting, the check-in RESOLVED_COMPLETE or RESOLVED_INCOMPLETE, and the Resolved counter moves |
| CheckIns.ResolveIsOneShot | src/actions/checkins.ts:421-436 | A second resolution is refused and writes nothing |
| CheckIns.CreateCheckInCountersGrow | src/actions/checkins.ts:88-101 | Creating a check-in lowers no participant counter |
| CheckIns.SubmitCheckInCountersGrow | src/actions/checkins.ts:158-183 | Submitting proof leaves every participant row as it was |
| CheckIns.VerifyCheckInCountersGrow | src/actions/checkins.ts:239-259 | A verdict lowers no participant counter |
| CheckIns.CreateDisputeCountersGrow | src/actions/checkins.ts:338-363 | Opening a dispute leaves every participant row as it was |
| CheckIns.ResolveCounters | src/actions/checkins.ts:438-484 | Resolution is the only step that lowers a counter: a won dispute takes exactly one failure off the owner's row, and every other counter of every row only grows |
| CheckIns.Appeal | src/actions/checkins.ts:204-510 | Verify INCOMPLETE, then dispute, then resolve: a won appeal nets success +1 and failure 0; a lost one nets failure +1 |
| CheckIns.ResubmitCountsAgain | src/actions/checkins.ts:119-273 | A verified-complete day can be resubmitted and verified again, counting two successes for one due date |
| CheckIns.CreateCheckInPreserves | src/actions/checkins.ts:65-101 | Keeps the invariant and dispute well-formedness; moves no money, balance or oath |
| CheckIns.SubmitCheckInPreserves | src/actions/checkins.ts:158-183 | Keeps the invariant, moves no money and no counter |
| CheckIns.VerifyCheckInPreserves | src/actions/checkins.ts:234-259 | Keeps the invariant, moves no money or oath |
| CheckIns.CreateDisputePreserves | src/actions/checkins.ts:352-363 | Keeps the invariant. Every dispute is raised by its check-in's owner and judged by another participant |
| CheckIns.ResolveDisputePreserves | src/actions/checkins.ts:438-484 | Keeps the invariant and moves no money; refusals write nothing |
| CheckIns.RivalOfSameRows | src/actions/checkins.ts:339-350 | The judge depends only on which participant rows exist |
| LeetCodeSolved.ToStartOfDay | src/app/api/leetcode-solved/route.ts:5-11 | The UTC midnight at or before the timestamp, less than a day before it (not for UTC years 0–99; see "## Left out") |
| LeetCodeSolved.ToStartOfDayIdempotent | src/app/api/leetcode-solved/route.ts:5-11 | Bucketing a day start again gives the same day start |
| LeetCodeSolved.ToStartOfDayMonotone | src/app/api/leetcode-solved/route.ts:5-11 | A later time never falls in an earlier day; within a day the bucket is the same |
| LeetCodeSolved.ToMillisStable | src/app/api/leetcode-solved/route.ts:16 | A seconds timestamp from 2001 on becomes milliseconds past the cutoff, which a second conversion keeps |
| LeetCodeSolved.NormalizeTimestampOfString | src/app/api/leetcode-solved/route.ts:13-25 | A decimal string timestamp means what the number means |
| LeetCodeSolved.NormalizeTimestampFallback | src/app/api/leetcode-solved/route.ts:13-25 | A non-numeric value gives the fallback |
| LeetCodeSolved.ReadPayload | src/app/api/leetcode-solved/route.ts:29-43 | Accepted exactly when id, title, titleSlug and username are non-empty strings of the body, or of `{}` for a null body |
| LeetCodeSolved.Solvers | src/app/api/leetcode-solved/route.ts:56-60 | Exactly the users linked to the LeetCode username, ascending |
| LeetCodeSolved.DailyOaths | src/app/api/leetcode-solved/route.ts:71-82 | Exactly the ACTIVE DAILY oaths with the user as an ACCEPTED participant |
| LeetCodeSolved.PairsOf | src/app/api/leetcode-solved/route.ts:68-84 | The visited (oath, user) pairs: exactly the eligible pairs of the linked users |
| LeetCodeSolved.PairsOfNoRepeats | src/app/api/leetcode-solved/route.ts:68-84 | No pair is visited twice |
| LeetCodeSolved.RecordFrame | src/app/api/leetcode-solved/route.ts:86-141 | One iteration upserts the one day row, VERIFIED_COMPLETE and stamped with the proof, and changes only success counts |
| LeetCodeSolved.RecordAllFrame | src/app/api/leetcode-solved/route.ts:68-145 | The loops rewrite exactly the visited day rows, leave every other row, and move no stake, status, balance or oath |
| LeetCodeSolved.RecordAllCounts | src/app/api/leetcode-solved/route.ts:87-141 | Each participant gains one success exactly when visited and the day was not already complete. Nothing else in the row moves, failureCount included |
| LeetCodeSolved.RecordAllNoCount | src/app/api/leetcode-solved/route.ts:96-141 | When every day is already complete, no counter moves |
| LeetCodeSolved.RecordAllFixpoint | src/app/api/leetcode-solved/route.ts:97-126 | Rows already stamped with the same proof are not changed again |
| LeetCodeSolved.LeetCodeSolved | src/app/api/leetcode-solved/route.ts:27-152 | BadRequest exactly for a bad payload. Processed(0) with nothing written when no user is linked. ServerError, writing nothing, when there is a pair to write but the day is no valid date. Otherwise the reply counts the pairs. Only Processed writes |
| LeetCodeSolved.LeetCodeSolvedPreserves | src/app/api/leetcode-solved/route.ts:68-147 | Keeps the invariant, moves no money, touches nothing but check-ins and success counts, and leaves every target day VERIFIED_COMPLETE |
| LeetCodeSolved.LeetCodeSolvedCounts | src/app/api/leetcode-solved/route.ts:87-141 | The success count rises by exactly one for each target whose day was not complete; failure counts never move |
| LeetCodeSolved.LeetCodeSolvedCountersGrow | src/app/api/leetcode-solved/route.ts:87-141 | The webhook lowers no participant counter |
| LeetCodeSolved.LeetCodeSolvedReplay | src/app/api/leetcode-solved/route.ts:27-152 | A replayed event gets the same reply and counts nothing; with the same clock reading it changes nothing at all |
| LeetCodeSolved.TargetsUnmoved | src/app/api/leetcode-solved/route.ts:56-84 | The visited pairs depend only on what the webhook never writes |
| Friends.Between | src/actions/friends.ts:68-75 | The first friendship row between the two users in either direction, or none |
| Friends.AddFriendByEmail | src/actions/friends.ts:20-138 | The email is lower-cased and trimmed, and adding oneself is refused. An ACCEPTED, PENDING or BLOCKED row in either direction refuses; a REJECTED one does not. Otherwise a new PENDING row is made with the caller as initiator |
| Friends.AddFriendNeverSelf | src/actions/friends.ts:49-54 | The self check catches one's own email in any letter case |
| Friends.MixedCaseEmailUnreachable | src/actions/friends.ts:34-66 | A user whose stored email has an upper-case letter can never be sent a request |
| Friends.AcceptFriendRequest | src/actions/friends.ts:143-235 | Only the receiver, only PENDING to ACCEPTED; ACCEPTED or any other status is refused unchanged |
| Friends.AcceptFriendPreserves | src/actions/friends.ts:165-191 | Keeps the invariant; after acceptance the two users are friends |
| Friends.RejectFriendRequest | src/actions/friends.ts:240-281 | Only the receiver; sets REJECTED from any status |
| Friends.RemoveFriend | src/actions/friends.ts:286-326 | Deletes the row exactly when the caller is its initiator or receiver |
| Friends.AddFriendPreserves | src/actions/friends.ts:68-102 | Keeps the invariant, touches only the friendship table, and never creates a self-friendship |
| Friends.RejectFriendPreserves | src/actions/friends.ts:258-269 | Keeps the invariant; touches only the friendship table |
| Friends.RemoveFriendPreserves | src/actions/friends.ts:304-314 | Keeps the invariant; touches only the friendship table |
| Friends.GetFriends | src/actions/friends.ts:331-388 | One entry per ACCEPTED friendship of the user, with the other party, newest first |
| Friends.GetFriendsMatchesUserFriends | src/actions/friends.ts:366-375 | The listing's users are the helper's friend list in reverse order |
| Friends.GetPendingFriendRequests | src/actions/friends.ts:393-433 | The PENDING rows the user received, each with its initiator, newest first |
| Friends.GetSentFriendRequests | src/actions/friends.ts:438-478 | The PENDING rows the user sent, each with its receiver, newest first |
| Friends.SentMatchesPending | src/actions/friends.ts:393-478 | A request is in the sender's sent list exactly when it is in the receiver's pending list |
| Friends.StatusLabel | src/actions/friends.ts:531-534 | The lower-cased status name, never "none" |
| Friends.SearchUserByEmail | src/actions/friends.ts:484-553 | Finds the other user by normalised email, never oneself. Reports "none" exactly when no row joins the two, and otherwise the lower-cased status |
| Friends.SearchPredictsAdd | src/actions/friends.ts:484-553 | A request can be sent exactly when the search reports "none" or "rejected" |
| DbHelpers.UserByUid | src/lib/db-helpers.ts:55-59 | The row with that account id, or none when no row has it |
| DbHelpers.UserByEmail | src/lib/db-helpers.ts:64-68 | The row with exactly that email, or none |
| DbHelpers.Synced | src/lib/db-helpers.ts:31-47 | Only a truthy, different displayName or photoURL is copied. The row is unchanged exactly when nothing differs |
| DbHelpers.GetOrCreateUser | src/lib/db-helpers.ts:11-50 | A missing account fails. A known uid gets its row back with only the changed profile fields written, and nothing written when none changed. An unknown uid gets a new row, and fails without an email or when the email is taken |
| DbHelpers.GetOrCreateIdempotent | src/lib/db-helpers.ts:11-50 | Syncing the same account twice returns the same row and writes nothing the second time |
| DbHelpers.GetOrCreateUserMoves | src/lib/db-helpers.ts:11-50 | Syncing changes the money totals only when it creates a row, and then by exactly the new row's default balances; the invariant is kept, and solvency too when the defaults are non-negative |
| DbHelpers.UpdateUserCredits | src/lib/db-helpers.ts:82-91 | Adds exactly the amount to credits and changes nothing else; a missing row fails |
| DbHelpers.UpdateUserCreditsMoves | src/lib/db-helpers.ts:82-91 | Crediting an existing user changes the credit total by exactly the amount and the gem total not at all; the invariant is kept, and solvency while the new balance is non-negative |
| DbHelpers.AreFriendsSymmetric | src/lib/db-helpers.ts:96-107 | Friendship is symmetric |
| DbHelpers.AcceptedOf | src/lib/db-helpers.ts:112-125 | Exactly the ACCEPTED friendships involving the user |
| DbHelpers.UserFriends | src/lib/db-helpers.ts:112-130 | The other party of each of those friendships |
| DbHelpers.UserFriendsAreFriends | src/lib/db-helpers.ts:96-130 | A user is listed exactly when the two are friends |
| Users.NormalizeUsernameMeaning | src/actions/users.ts:16-21 | Null exactly when only whitespace was typed; otherwise the input without outer whitespace |
| Users.NormalizeUsernameIdempotent | src/actions/users.ts:16-21 | A stored name normalises to itself |
| Users.UpdateLeetCodeUsername | src/actions/users.ts:11-42 | Writes only leetcodeUsername, as normalised, and replies with the stored row; a missing row fails |
| Users.UpdateLeetCodeUsernameIdempotent | src/actions/users.ts:16-22 | Setting the same name twice stores what setting it once does |
| Text.ParseIntOfIntToString | leetcode-service/src/server.ts:43-44 | `parseInt` reads a number's decimal text back as the number |
| Text.TrimIdempotent | src/actions/users.ts:16 | Trimming twice is trimming once |
| Text.TrimmedHasNoOuterWhitespace | src/actions/users.ts:16 | A trimmed name has no whitespace at either end |
| Text.ToLowerIdempotent | src/actions/friends.ts:34 | Lower-casing an email twice is lower-casing it once |
| Text.ParseIntOfLeadingNat | src/app/api/leetcode-solved/route.ts:19 | `parseInt` reads a number's digits back when the text after them starts with no digit |
| Text.NormalizedEmailIsLower | src/actions/friends.ts:34 | A lower-cased, trimmed email has no upper-case letter |
| OathUtils.DeadlineStatus | src/lib/oath-utils.ts:18-45 | Safe exactly above 6 h left, moderate in (2 h, 6 h], at risk at 2 h or less, with the status's colours and label |
| OathUtils.DeadlineStatusMonotone | src/lib/oath-utils.ts:18-45 | A later deadline never has a worse status |
| OathUtils.DeadlineColorByType | src/lib/oath-utils.ts:140-202 | DAILY is always at risk. WEEKLY is safe above 4 days and at risk at 2 days or less. CUSTOM has the 6 h / 2 h classification. The colours match |
| OathUtils.DeadlineColorMonotone | src/lib/oath-utils.ts:140-202 | For each type, a later deadline never has a worse status |
| OathUtils.Breakdown | src/lib/oath-utils.ts:50-70 | Overdue exactly for a negative difference. Days and hours exactly from 25 h up. Each unit below its bound, and the units reconstruct the difference to within the last unit shown |
| OathUtils.FormatTimeRemainingReadsBack | src/lib/oath-utils.ts:50-70 | "Overdue" exactly when the deadline has passed; otherwise `parseInt` of the text is the leading unit |
| OathUtils.CompleteDays | src/lib/oath-utils.ts:100-102 | Exactly the days of VERIFIED_COMPLETE or RESOLVED_COMPLETE check-ins |
| OathUtils.SortDesc | src/lib/oath-utils.ts:103 | A descending permutation |
| OathUtils.CalculateStreak | src/lib/oath-utils.ts:100-122 | The loop computes the as-written streak of the sorted complete days, at most their number |
| OathUtils.StreakIsRun | src/lib/oath-utils.ts:109-119 | The streak is the longest prefix counting down from today one day per element |
| OathUtils.StreakNeedsToday | src/lib/oath-utils.ts:106-114 | With no complete check-in today, the streak is 0 |
| OathUtils.StreakStopsAtRepeatedDay | src/lib/oath-utils.ts:109-119 | Two complete check-ins today and one yesterday give streak 1, where the day run is 2 |
| OathUtils.StreakStopsAtFutureDay | src/lib/oath-utils.ts:109-119 | Complete check-ins due tomorrow and today give streak 0, where the day run is 1 |
| OathUtils.DayRun | src/lib/oath-utils.ts:100-122 | The number of consecutive days ending today that each have a complete check-in |
| OathUtils.DayRunIsRun | src/lib/oath-utils.ts:100-122 | The day run is the one n with every day from today back n − 1 days covered and the day before not |
| OathUtils.CalculateDayStreak | src/lib/oath-utils.ts:100-122 | The corrected loop computes the day run: a repeated day or a day after today is passed over instead of ending the count |
| OathUtils.DayRunOfSorted | src/lib/oath-utils.ts:100-122 | The day run of the sorted days is the run of the days |
| OathUtils.FormatOathType | src/lib/oath-utils.ts:207-218 | Any input other than the three type names is returned unchanged |
| OathUtils.FormatOathTypeLabels | src/lib/oath-utils.ts:207-218 | The three labels are distinct, none is a type name, and labelling a label changes nothing |
| Poller.ExtractLatest | leetcode-service/src/leetcodePoller.ts:8-12 | The first element of `data` when it is an array, a present-but-empty `data` shadowing `submissions`. Nothing when `data` is truthy but not an array. When `data` is falsy, the first of `submissions`. Nothing for a missing or empty list |
| Poller.MapSubmission | leetcode-service/src/leetcodePoller.ts:14-38 | Null exactly when the item, the derived id, the title or the slug is falsy. Otherwise the fields copied through with the solvedAt rule |
| Poller.SubmissionIdFallback | leetcode-service/src/leetcodePoller.ts:17-29 | With no id fields, a numeric timestamp yields an id that `parseInt` reads back as solvedAt |
| Poller.PollStep | leetcode-service/src/leetcodePoller.ts:40-92 | Only the last-seen key may change; no solution means no change; a notified solution is the latest one |
| Poller.FirstPollIsBaseline | leetcode-service/src/leetcodePoller.ts:68-77 | The first run records the id as the baseline and notifies nothing |
| Poller.SameIdIsNoOp | leetcode-service/src/leetcodePoller.ts:79-82 | The same id changes nothing and notifies nothing |
| Poller.NewIdNotifies | leetcode-service/src/leetcodePoller.ts:84-88 | A new id is stored and notified exactly once |
| Poller.FailedFetchIsNoOp | leetcode-service/src/leetcodePoller.ts:46-53 | A non-2xx response or a thrown fetch leaves the state alone |
| Poller.PollReplayIsNoOp | leetcode-service/src/leetcodePoller.ts:68-88 | Polling the same string-id submission again does nothing |
| Poller.NumericIdIsAnnouncedAgain | leetcode-service/src/leetcodePoller.ts:17-88 | A numeric id is stored as text and never matches again, so it is announced on every poll |
| Poller.PollerState.GetState | leetcode-service/src/leetcodePoller.ts:68 | The stored value exactly when the key is present |
| Poller.PollerState.Poll | leetcode-service/src/leetcodePoller.ts:40-92 | The state becomes the PollStep state, and the notified list grows by the notified solution, if any |
| Server.SafeLimit | leetcode-service/src/server.ts:20-27 | In (0, 100]. 20 when absent, not finite or at most 0; otherwise min(limit, 100) |
| Server.SafeLimitStable | leetcode-service/src/server.ts:21-23 | A page size read back as a limit is kept, and a larger limit never gives a smaller page |
| Server.HandleSolved | leetcode-service/src/server.ts:29-65 | 400 exactly when not four strings plus a number or string solvedAt, and 400 when `parseInt` fails. Otherwise the forwarded solution carries the fields unchanged with the parsed solvedAt, or 500 when forwarding fails |
| Server.HandleSolvedRoundTrip | leetcode-service/src/server.ts:29-65 | Whatever solution a client sends, with solvedAt as a number or as text, is the solution forwarded |
| Store.Database.constructor | src/lib/db-helpers.ts:5 | Stands for the shared Prisma client the actions import: the tables hold the given snapshot |
| Store.Database.CreateSoloOath | src/actions/oaths.ts:42-168 | The writes leave the tables as Oaths.CreateSoloOath says, with its reply |
| Store.Database.CreateOath | src/actions/oaths.ts:173-350 | The checks, the friendship loop and the nested create leave the tables as Oaths.CreateOath says |
| Store.Database.InsertOath | src/actions/oaths.ts:272-321 | The oath, its rows and the creator's debit, as written |
| Store.CheckOath | src/actions/oaths.ts:179-262 | The error createOath reports, in the source's order; nothing exactly when it succeeds |
| Store.CheckFriends | src/actions/oaths.ts:219-238 | The loop's verdict is that every non-creator invitee is a friend |
| Store.CreateRows | src/actions/oaths.ts:279-290 | The loop builds the AddRows table |
| Store.Database.AcceptOathInvitation | src/actions/oaths.ts:355-474 | As Oaths.AcceptOathInvitation |
| Store.Database.DeclineOathInvitation | src/actions/oaths.ts:479-536 | As Oaths.DeclineOathInvitation, including the participant write kept when the oath row is missing |
| Store.Database.CreateCheckIn | src/actions/checkins.ts:34-114 | As CheckIns.CreateCheckIn |
| Store.Database.SubmitCheckIn | src/actions/checkins.ts:119-199 | As CheckIns.SubmitCheckIn |
| Store.Database.VerifyCheckIn | src/actions/checkins.ts:204-273 | As CheckIns.VerifyCheckIn |
| Store.Database.CreateDispute | src/actions/checkins.ts:278-388 | As CheckIns.CreateDispute |
| Store.Database.ResolveDispute | src/actions/checkins.ts:393-510 | As CheckIns.ResolveDispute, including the dispute write kept when the check-in row is missing |
| Store.Database.AddFriendByEmail | src/actions/friends.ts:20-138 | As Friends.AddFriendByEmail |
| Store.Database.AcceptFriendRequest | src/actions/friends.ts:143-235 | As Friends.AcceptFriendRequest |
| Store.Database.RejectFriendRequest | src/actions/friends.ts:240-281 | As Friends.RejectFriendRequest |
| Store.Database.RemoveFriend | src/actions/friends.ts:286-326 | As Friends.RemoveFriend |
| Store.Database.GetOrCreateUser | src/lib/db-helpers.ts:11-50 | The field-by-field updates object leaves the tables as DbHelpers.GetOrCreateUser says |
| Store.Database.UpdateUserCredits | src/lib/db-helpers.ts:82-91 | As DbHelpers.UpdateUserCredits |
| Store.Database.UpdateLeetCodeUsername | src/actions/users.ts:11-42 | As Users.UpdateLeetCodeUsername |
| Store.Database.PostLeetCodeSolved | src/app/api/leetcode-solved/route.ts:27-152 | The nested loops over users and their oaths leave the tables and the reply as LeetCodeSolved.LeetCodeSolved says, so its replay and counting lemmas hold of the loops |
| Store.Database.RecordPairs | src/app/api/leetcode-solved/route.ts:84-144 | The inner loop performs the RecordAll fold over one user's pairs |
| Store.Database.RecordPair | src/app/api/leetcode-solved/route.ts:85-141 | One iteration: the lookup, the upsert, and the increment unless the day was complete |
| Store.TargetsNotEmpty | src/app/api/leetcode-solved/route.ts:84-92 | A pair the loops reach is a target |

## Left out

- Notifications (created after friend requests, invitations, disputes and resolutions) are fire-and-forget rows with no effect on the modelled state. The poller's `notifyNewSolution` call becomes the list of notified solutions.
- Read-only actions that only load rows for display, namely `getUserOathInvitations`, `getOathById`, `getOathCheckIns`, `getPendingDisputesForJudge` and `getUserById`, are not modelled. They are plain queries with no logic beyond the filter.
- The source has no transactions. Each action is modelled as one atomic sequential step, so concurrent deliveries, double accepts and double resolves racing each other are not modelled.
- Every row id is a `nat` from a counter instead of a cuid, and `createdAt` order is id order. `getFriends` orders by `updatedAt`; the model lists newest id first.
- Date and time are modelled as follows:
  - `new Date()` readings and the local-time day numbers of `calculateStreak` are parameters;
  - LeetCodeSolved.LeetCodeSolved: one `now` stands for every clock reading of a request, namely `Date.now()` as the fallback time and the `new Date()` of each written row's `aiVerifiedAt`. The source reads the clock afresh for each row, so their values may differ. `LeetCodeSolvedReplay`'s "same clock, no change" relies on this merge;
  - `formatDeadlineDate`, `formatCurrency` and `toLocaleString` are presentation and not modelled.
- JavaScript numbers become unbounded integers. Timestamps, stakes and `solvedAt` are whole numbers, and the deadline helpers divide as reals.
  - `parseInt` of a digit string above about 1.8e308 gives `Infinity` in JavaScript, which the webhook would answer with the fallback time. The model keeps such a number as it is.
  - The webhook's `!Number.isFinite(ts)` branch cannot be reached in the model. A `Date` outside ±8.64e15 ms becomes `ServerError` on the first query that uses it, as the source's caught exception does.
- LeetCodeSolved.ToStartOfDay: the floor to a multiple of 86 400 000 ms differs from the source for timestamps in UTC years 0–99, that is in [−62167219200000, −59011459200000). There `Date.UTC` reads the year as 1900 + year, so the source's day start lies about 1900 years after the timestamp. `LeetCodeSolved.LeetCodeSolved` and `Store.Database.PostLeetCodeSolved` therefore key such a check-in on a different day than the source. A `solvedAt` of −60000000000 seconds reaches this range.
- `request.json()` failing on a malformed body is not modelled: the body arrives parsed.
- The `/solutions` limit is the number `Number(...)` gives, passed as `Server.JsNumber`; the conversion of the query text is not modelled. `getLatestSolutions` and the `/health` route are not modelled.
- A thrown fetch or a non-JSON body in the poller comes to `Fetched.Thrown`; a `null` body throws in the source and is caught, which the model treats the same as no submission.
- The database wrapper of the LeetCode service is a key→value map, `PollerState.state`.
- Oaths.CreateOath: the creator's row is not marked stakePaid although the creator is debited; the model keeps this as the source does, and conservation counts stakes of ACCEPTED rows.
- CheckIns.CreateCheckIn: counts a success before any verification, and a later verification counts again; the model keeps both, as the source does.
- Text.ToLower: only the ASCII letters A–Z are lowered, where JavaScript's `toLowerCase` also lowers other letters. An email such as "Émile@x.io" therefore behaves differently: `AddFriendByEmail` and `SearchUserByEmail` do not find a stored "émile@x.io", and the self check does not see it as one's own.
- CheckIns.Rival: the judge is the lowest-user-id participant other than the owner. The source takes the first other participant row of an unordered query, in practice creation order (the invitees in the order given, then the creator when absent from the list). With three or more participants the two can differ; with two, both give the one other participant.
- No action refunds or pays out stakes (COMPLETED is never set); the model has none either.
- Poller.NumericIdIsAnnouncedAgain: the declared response type has string ids; a numeric id is allowed in the model, and this lemma shows what the source then does.

## Findings

| source | as written | input that shows it | evidently intended | confidence | as-written member | corrected member |
|---|---|---|---|---|---|---|
| src/lib/oath-utils.ts:109-119 | The loop compares each sorted complete check-in with the expected day and stops at the first that differs. A second complete check-in on a day already counted ends the streak. | Complete check-ins due today, today and yesterday: the streak is 1. `createCheckIn` stamps each row with the current time, so two rows on one day are possible. | Count the consecutive days ending today that have a complete check-in: 2 here. | medium, not executed | OathUtils.StreakStopsAtRepeatedDay | OathUtils.CalculateDayStreak |
| src/lib/oath-utils.ts:109-119 | The sorted complete check-ins start with the latest due date. A complete check-in due after today comes first, differs from today and ends the loop at once. | Complete check-ins due tomorrow and today: the streak is 0. `submitCheckIn` takes the due date from its caller, so a future due date is possible. | Check-ins due after today do not break the count of days ending today: 1 here. | low, not executed | OathUtils.StreakStopsAtFutureDay | OathUtils.CalculateDayStreak |
