# Five protocols and data structures, verified

A Dafny model of the parts of this repository that keep state: the matchmaking server (MP4), the mining protocol (MP3),
the thread pool and the server on top of it (MP5), the version record (MP1), and the chained hash with the port register
built on it (MP5). `dafny verify dfyconfig.toml` checks everything.

What one program does is written as functions on values (what each step does to the state), as lemmas about those
functions and about whole runs, and, where the source updates things in place, as classes and methods with loops that are
proved to do what the functions say. Where processes or threads interleave, the model is a state machine whose steps are
the atomic steps of the source, and the theorems hold for every order of steps.

## The models

**Matchmaking** (`Matchmaking`, `MatchmakingProofs`, `MatchmakingRuns`, `MatchmakingMeaning`, `MatchmakingLimits`,
`MatchmakingProgress`, `Matchmaker`). One client is tested against an ordered waiting list by four workers that answer in any order, while
clients join and leave and every stored index shifts. A filter's verdict is an arbitrary function of two requests; a
descriptor that joins again is a new request. The reference is a sequential scan for the first client that agrees.
Every client can send `try_match` or `quit` or close its connection at any time, with or without a status that fits, and
the status and the friend that the server keeps for it change as in the source. An answer that has been invalidated can be
anything. The read at `MP4/server_main.cpp:38` may be out of range, for a
worker that has never worked or whose client has gone; it then yields an arbitrary value, and nothing depends on it.

**Mining** (`ShortlexSearch`, `Mining`, `MiningProofs`, `Dumps`, `MineProcesses`). Boss and miners are joined by pipes,
and the treasure number is the epoch. An MD5 context is the string of bytes absorbed so far and the digest an arbitrary
function from strings to sixteen bytes, so nothing is assumed about MD5 (RFC 1321). Accepting a find and announcing it is
one step of the boss; header, data and name are one message.

**Thread pool and server** (`ThreadPool`, `BoxServer`). Any number of dispatchers and workers, one access to shared memory
at a time, under sequential consistency. A control lock is a flag that anyone may release, which is how the source uses
its mutex: the worker locks it twice and the dispatcher unlocks it. The server is the pool with the main loop as its only
dispatcher and one `in_thread` flag for each connection; the scan goes through the flags one by one while workers clear
them.

**Version record** (`RecordText`, `Record`, `RecordLog`, `Classifier`, `Repository`, `RepositoryProgram`). The record is the
text that the program writes, character by character, and it is read back by the same backward scan, words and lines. The
scans read into a `char`, so byte 255 ends them like the end of the file where `char` is signed, as it is on x86. File names
are non-empty, hold no white space and no `#`, and are not `(MD5)`; a checksum is 32 hexadecimal digits; `list_file` and the
checksum of a file are inputs.

**Hash and port register** (`HashTable`, `ChainedHash`, `PortRegister`, `PortProcess`). The hash as a sequence of chains,
as linked nodes, and as the finite map they stand for, with the deletion that drops the rest of a chain as it is written;
the register as a reserve array and records whose ports change in place.

## What holds only under a condition

The code does not meet its purpose in every run. For each such case the condition is proved exact, or a run is given in
which the property fails without it.

* A client that leaves while it is the solution found so far: the comparison at `MP4/server_main.cpp:77` is strict. A
  verdict is right if and only if the search is sound (`SolutionIsFirstMatchIff`), and a departure keeps it sound if and
  only if it is another client who leaves, or nobody is being worked on, or the next client has been dispatched and agrees
  as well (`RemoveKeepsSoundIff`, `Harmless`); `DepartureAtSolutionRunsOffTheList` is a run that ends badly. Only the
  theorems about the verdict need this. Conservation, credit, asking once and pairwise rejection hold whoever leaves.
* The server does not ask whether a client that tries is pending already, and a `quit` of one partner makes the other idle
  even if that one is pending again. A step keeps the invariant if and only if neither happens (`Orderly`,
  `StepKeepsInvIff`); a second try whose filter does not compile is harmless for the invariant under a weaker condition
  (`FailedTryKeepsInvIff`). `ForgottenPartnerStaysInTheList` and `SecondTryMiscreditsAnAnswer` are runs in which a departed
  client stays in a list, and in which an answer is about a request that no longer is.
* The lift of `MP4/server_main.cpp:369-372` can put an untested client into the waiting list of a search that has stopped
  assigning. A verdict leaves the waiting list pairwise rejected if and only if it does not append a client while part of
  the list has not been dispatched, and nothing else breaks it (`VerdictKeepsRejectionIff`, `StepKeepsRejectionIff`,
  `LiftDuringJobBreaksRejection`). Clean lifts are enough for that, not necessary: after another lift the lifted client or
  the working one can still leave before the verdict. A lift keeps the search complete exactly if there is no job, or it
  is over, or it still assigns, or has found a client (`LiftKeepsCoveredIff`).
* A client whose code did not compile is in no list, though its status says that it wants a match; when it leaves, line 62
  erases at 4096. A step finds what it erases if and only if it is not such a client who leaves (`EnabledIsDefinedIff`);
  `UncompiledClientErasesBeyondTheEnd` is a run that gets there.
* A dispatched request that logs its connection in again loses the flag, and the connection can then be served by two
  workers at once (`ReloginBreaksExclusion`, `ReloginLetsASecondTaskIn`). Without that, a connection has one worker until
  this clears the flag, but not until its function returns (`NextTaskBeforeReturn`).
* A file name with byte 255 stops the scans of `MP1/loser.cpp:90-96`, `:192-198` and `:203-207`. The last commit is read back
  if and only if no name of its files holds the byte; a second commit of a directory writes nothing, and `status` after it
  lists nothing, if and only if no name in the directory does; `log` prints the newest commits if and only if no name in
  them does (`ReadLastOfRender`, `SecondCommitWritesNothingIff`, `StatusAfterCommitListsNothingIff`, `LogOfRenderIff`;
  `ByteMakesCommitsRepeat` is a directory that fails).
* Deleting the head of a chain takes its bucket along, so deletion is removal exactly if no longer chain loses its head
  (`DelIsRemovalIff`); the same decides which records a pass of the register drops (`CleanDropsOnlyFreePortsIff`).
* Every miner has a first candidate exactly if there are at most 256 miners (`IntervalsAreNonEmptyIff`).

## Model

| member | source | states |
|---|---|---|
| `MatchmakingMeaning.VerdictAsksBothFilters` | MP4/process.cpp:56-85 | On every orderly run with harmless departures a verdict pairs the working client with the first dispatched client such that each one's filter accepts the other, both become matched to each other, and it leaves the list; of every dispatched client before it, and of all of them if the working client is appended, one of the two filters refuses the other. With covered verdicts the dispatched clients are the whole list |
| `MatchmakingRuns.VerdictIsSequential` | MP4/server_main.cpp:209-234 | On an orderly run with clean lifts and harmless departures every verdict leaves exactly the state a sequential scan of the whole waiting list would leave: the first client that agrees is paired and removed, or the working client is appended |
| `MatchmakingRuns.VerdictIsSequentialOnDispatched` | MP4/server_main.cpp:201-245 | On an orderly run with harmless departures, for every order of answers and whatever the lifts do: at a verdict, `solution` is the least index of the dispatched prefix that agrees with the working client, and 4096 exactly if there is none |
| `MatchmakingRuns.VerdictIsSequentialIff` | MP4/server_main.cpp:209-234 | With a sound search a verdict leaves the state a sequential scan of the whole list would leave if and only if it has a solution or nobody behind the dispatched prefix agrees |
| `MatchmakingRuns.SolutionIsFirstMatchIff` | MP4/server_main.cpp:236-244 | When no worker is busy, the minimum kept over answers in any order is what a front-to-back scan of the dispatched prefix finds if and only if the search is sound |
| `MatchmakingRuns.FirstMatchIff` | MP4/server_main.cpp:220-232 | What the sequential scan finds: the least agreeing index, or 4096 if nothing agrees |
| `MatchmakingRuns.InvOnEveryRun` | MP4/server_main.cpp:33-405 | In every state of an orderly run, whoever leaves: clients conserved and seen as trying, indices in range, answers credited to the right client, dispatched clients accounted for, nobody asked twice |
| `MatchmakingRuns.SoundOnEveryRun` | MP4/server_main.cpp:33-405 | And sound, if the departures are harmless |
| `MatchmakingRuns.StepKeepsInv` | MP4/server_main.cpp:292-405 | Each orderly step of the eight kinds keeps the invariant, and a sound search sound if and only if it is no harmful departure |
| `MatchmakingRuns.StepKeepsInvIff` | MP4/server_main.cpp:338-361 | A step keeps the invariant if and only if nobody tries who is pending and nobody quits a match whose partner is pending again |
| `MatchmakingRuns.FailedTryKeepsInvIff` | MP4/server_main.cpp:101-126 | A second try that does not compile keeps it if and only if the client has not been dispatched and, if it is being worked on, nothing of its search is open |
| `MatchmakingRuns.EnabledIsDefinedIff` | MP4/server_main.cpp:55-62 | A step finds every element it erases or reads if and only if it is not the departure of a client that is seen as trying and stands in no list |
| `MatchmakingRuns.LiftKeepsCoveredIff` | MP4/server_main.cpp:369-372 | A lift leaves no client out of a running search if and only if it finds no job, a job without a client, one that still assigns, or one that has found a client |
| `MatchmakingRuns.StepKeepsCovered` | MP4/server_main.cpp:400-405 | Once assignment has stopped without a solution, the whole list has been dispatched, and every step but an unclean lift keeps this |
| `MatchmakingRuns.CoveredOnCleanRuns` | MP4/server_main.cpp:369-372 | On orderly runs with clean lifts, once assignment has stopped without a solution the whole list has been dispatched, whoever leaves |
| `MatchmakingRuns.CleanLiftsCoverVerdicts` | MP4/server_main.cpp:369-372 | So on such a run no verdict appends a client with part of the list not dispatched |
| `MatchmakingRuns.WaitingClientsHaveBeenTested` | MP4/server_main.cpp:209-245 | On an orderly run without such a verdict, for any two waiting clients some step of the run was a valid rejection of just this pair by the worker that was asked, and the two disagree |
| `MatchmakingRuns.VerdictKeepsRejectionIff` | MP4/server_main.cpp:229-232 | Given the invariant, that only those asked have been rejected, and a pairwise rejected list, all of which orderly runs bring about: a verdict leaves it pairwise rejected if and only if it does not append a client while part of the list has not been dispatched |
| `MatchmakingRuns.StepKeepsRejectionIff` | MP4/server_main.cpp:366-405 | No other orderly step ever breaks it |
| `MatchmakingRuns.OnlyAskedOnEveryRun` | MP4/server_main.cpp:179-185 | On every orderly run nobody has been rejected with a client that still has to be worked on, and with the working client only those who have been asked |
| `MatchmakingRuns.PairwiseRejectedOnRuns` | MP4/server_main.cpp:209-233 | On every orderly run, whoever leaves and whatever the lifts do, of any two waiting clients the later one's request has been answered with no against the earlier one's, as long as no verdict has appended a client with part of the list not dispatched |
| `MatchmakingRuns.PairwiseRejectionEndsIff` | MP4/server_main.cpp:229-232 | Up to the first such verdict the list is pairwise rejected after a step if and only if the step is not this verdict |
| `MatchmakingRuns.LeaveKeepsPairwiseRejected` | MP4/server_main.cpp:54-62 | A departure leaves the waiting list pairwise rejected |
| `MatchmakingProofs.RemoveKeepsInv` | MP4/server_main.cpp:33-82 | The removal of any pending client, from whichever of the three places, keeps the invariant |
| `MatchmakingProofs.RemoveKeepsCredit` | MP4/server_main.cpp:36-70 | After any removal every valid pending answer still belongs to the client at its shifted index |
| `MatchmakingProofs.RemoveKeepsAccount` | MP4/server_main.cpp:71-80 | After any removal every dispatched client is still being asked or has been rejected, as long as there is no solution |
| `MatchmakingProofs.RemoveKeepsSoundIff` | MP4/server_main.cpp:71-80 | A removal keeps the search sound if and only if it is harmless |
| `MatchmakingProofs.LeaveKeepsInv` | MP4/server_main.cpp:319-361 | So does leaving with its effect on the statuses of the client and its partner |
| `MatchmakingProofs.ReceiveKeepsInv` | MP4/server_main.cpp:236-245 | An answer, valid or not, keeps the invariant and the soundness of the search |
| `MatchmakingProofs.AnswerKeepsSound` | MP4/server_main.cpp:241-243 | Taking the minimum keeps the search sound whatever the order of the answers |
| `MatchmakingProofs.DispatchKeepsInv` | MP4/server_main.cpp:179-185 | Handing the next client to a worker keeps both |
| `MatchmakingProofs.AssignKeepsInv` | MP4/server_main.cpp:400-405 | So does a round of the assignment loop |
| `MatchmakingProofs.JudgeKeepsInv` | MP4/server_main.cpp:209-235 | So does a verdict |
| `MatchmakingProofs.LiftKeepsInv` | MP4/server_main.cpp:369-372 | So does a lift, even during a job |
| `MatchmakingProofs.StartJobKeepsInv` | MP4/server_main.cpp:393-399 | So does the start of a job |
| `MatchmakingProofs.TryMatchKeepsInv` | MP4/server_main.cpp:338-347 | So does the `try_match` of a client that is not pending, compiled or not |
| `MatchmakingProofs.ListsStayBelowTheSentinel` | MP4/server_main.cpp:55-55 | By pigeonhole on descriptors below 1025, no list reaches the sentinel 4096 |
| `MatchmakingLimits.DepartureAtSolutionRunsOffTheList` | MP4/server_main.cpp:220-227 | A run in which the solution leaves and the verdict then names an element beyond the end |
| `MatchmakingLimits.LiftDuringJobBreaksRejection` | MP4/server_main.cpp:369-372 | A run in which a lift during a job leaves two clients waiting that agree with each other |
| `MatchmakingLimits.UncompiledClientErasesBeyondTheEnd` | MP4/server_main.cpp:55-62 | A run to the departure of a client whose code did not compile, which finds nothing to erase |
| `MatchmakingLimits.ForgottenPartnerStaysInTheList` | MP4/server_main.cpp:351-360 | A run in which a client tries again while its old partner is still matched to it, the partner quits, and the client then leaves but stays in the list, where its descriptor comes to stand twice |
| `MatchmakingLimits.SecondTryMiscreditsAnAnswer` | MP4/server_main.cpp:101-126 | A run in which a second try leaves an open answer about a request that the client no longer has |
| `MatchmakingProgress.StepMakesProgress` | MP4/server_main.cpp:366-405 | During a job each step of server or workers changes nothing, gives the verdict, or lowers a measure of lifts, dispatches and answers to come |
| `MatchmakingProgress.JobIsNotStuck` | MP4/server_main.cpp:366-405 | During a job with a sound search some step of server or workers changes something |
| `MatchmakingProgress.VerdictComesWithinWork` | MP4/server_main.cpp:209-234 | With silent clients and any order of steps, a verdict comes within as many effective steps as the measure says, plus one |
| `MatchmakingProgress.VerdictIsReachable` | MP4/server_main.cpp:209-234 | And such a run to a verdict exists from every state during a job with a sound search |
| `MatchmakingProgress.NobodyIsAskedTwice` | MP4/server_main.cpp:201-208 | On orderly runs, within one job no request is handed out twice, through any departures |
| `MatchmakingProgress.NoAnswerIsMiscredited` | MP4/server_main.cpp:179-185 | On orderly runs, whoever leaves, a valid pending answer is about the working client and the client at the worker's index, and about the requests they have now |
| `MatchmakingProgress.ClientsAreConserved` | MP4/server_main.cpp:366-398 | On orderly runs, whoever leaves, a pending client is in exactly one of the three places, once, the server sees it as trying, and nobody else is anywhere |
| `MatchmakingMeaning.ServedInOrderOfArrival` | MP4/server_main.cpp:369-398 | On orderly runs, whoever the main loop takes out of the try list, to be worked on or to wait alone, made its request before everyone who is left there, and it takes somebody whenever it can |
| `MatchmakingMeaning.OrderOnEveryRun` | MP4/server_main.cpp:338-343 | In every state of an orderly run the try list is in the order of arrival, through all departures |
| `MatchmakingMeaning.LeavingChangesStatuses` | MP4/server_main.cpp:319-361 | A client that quits or closes is idle afterwards and has no request; if it quits a match its partner becomes idle as well, on a closed connection it does not; nobody else's status, nobody's friend, and unless it wanted a match no list changes |
| `MatchmakingMeaning.ArrivalsQueueUp` | MP4/server_main.cpp:338-347 | A client whose filter compiles goes to the end of the try list with the latest request; compiled or not it is seen as trying |
| `MatchmakingMeaning.AnswersAreTaken` | MP4/server_main.cpp:236-245 | An answer frees its worker and no other; if it is valid and a yes the solution becomes the smaller of itself and the worker's index, else it stays |
| `MatchmakingMeaning.WorkersGetTheNextClient` | MP4/server_main.cpp:179-208 | On orderly runs an idle worker is given the working client and the next one of the list, as long as there is one, the working client is there and nobody has been found; otherwise assignment stops |
| `MatchmakingMeaning.IndicesFollowTheList` | MP4/server_main.cpp:55-80 | On orderly runs, when a client leaves the waiting list every index behind it moves up by one and all others stay, and an answer under way stays valid unless it is about that client |
| `MatchmakingMeaning.OtherDeparturesLeaveTheList` | MP4/server_main.cpp:36-53 | When the working client leaves, every answer under way becomes invalid and the lists stay; when one leaves that still waits for its turn, nothing of the search changes |
| `MatchmakingMeaning.WhatCanHappenIff` | MP4/server_main.cpp:236-361 | In a state of an orderly run any client can send anything and the main loop can go on in any order; a busy worker can answer, and a valid answer is the verdict of both filters on the requests that the two clients have now |
| `Matchmaker.Server.constructor` | MP4/common.h:25-39 | The server starts idle with empty lists |
| `Matchmaker.Server.TryMatch` | MP4/server_main.cpp:338-347 | The method does what the state machine does for any client, pending or not, compiled or not, and keeps validity if the client is not pending |
| `Matchmaker.Server.Quit` | MP4/server_main.cpp:349-361 | A `quit` message has the effect of the state machine on lists and statuses, and keeps validity if it is orderly |
| `Matchmaker.Server.Close` | MP4/server_main.cpp:319-332 | So has a closed connection, which always keeps validity |
| `Matchmaker.Server.RemoveTryMatch` | MP4/server_main.cpp:33-82 | The four loops together do what the removal says for any client in a list, and keep validity |
| `Matchmaker.Server.EraseFromTryList` | MP4/server_main.cpp:43-49 | Erases the first occurrence from the try list, or reports that there is none |
| `Matchmaker.Server.FindInWaitingList` | MP4/server_main.cpp:55-61 | Finds the last occurrence in the waiting list |
| `Matchmaker.Server.EraseFromWaitingList` | MP4/server_main.cpp:62-80 | Erases and shifts the workers' and the boss's indices |
| `Matchmaker.Server.InvalidateWorkers` | MP4/server_main.cpp:36-42 | Invalidates the answers that concern the client |
| `Matchmaker.Server.MoveWorkersUp` | MP4/server_main.cpp:64-70 | Moves every worker's index behind the gap up by one |
| `Matchmaker.Server.ReceiveFromChild` | MP4/server_main.cpp:236-245 | The method takes an answer as the state machine does |
| `Matchmaker.Server.Conclude` | MP4/server_main.cpp:214-234 | With all workers idle, the lists, the boss and the two chats afterwards are those of the verdict |
| `Matchmaker.Server.JudgeAnswer` | MP4/server_main.cpp:209-235 | The method gives the verdict of the state machine and returns whom it pairs |
| `Matchmaker.Server.Lift` | MP4/server_main.cpp:369-372 | The method is the lift of the state machine |
| `Matchmaker.Server.StartJob` | MP4/server_main.cpp:393-399 | The method is the start of a job |
| `Matchmaker.Server.GoToWork` | MP4/server_main.cpp:179-185 | What a worker is given |
| `Matchmaker.Server.AssignJobs` | MP4/server_main.cpp:201-208 | The method is a round of assignment of the state machine |
| `Matchmaker.Server.AssignAll` | MP4/server_main.cpp:400-405 | The loop is four such rounds |
| `Matchmaker.Server.Round` | MP4/server_main.cpp:366-405 | The end of the main loop is verdict, lift, start and assignment in this order |
| `Matchmaker.TestPair` | MP4/process.cpp:56-85 | A worker answers yes if and only if each of the two filters accepts the other client |
| `ShortlexSearch.CandidatesIncrease` | MP3/client/miner.cpp:157-192 | After any number of candidates, across the size cap: strictly increasing in length and then lexicographically, all in the miner's tree; the queue is not empty and has at most 10,000,256 entries |
| `ShortlexSearch.NothingIsSkipped` | MP3/client/miner.cpp:184-191 | Until the cap is met, every string of the tree before the next candidate has been tried |
| `ShortlexSearch.CappedIff` | MP3/client/miner.cpp:184-191 | The cap has been met if and only if the queue was once longer than 10,000,001; a candidate leaves the queue at its front and is followed by its 256 extensions at the end unless the queue is longer than that |
| `ShortlexSearch.After` | MP3/client/miner.cpp:146-192 | The search after `n` candidates is ordered, within the tree, bounded, and complete until the cap |
| `ShortlexSearch.TryFrontKeepsOrder` | MP3/client/miner.cpp:159-190 | Trying the front keeps tried and queued strings strictly increasing |
| `ShortlexSearch.TryFrontKeepsComplete` | MP3/client/miner.cpp:186-190 | Replacing the front by its 256 extensions loses no string of the tree |
| `ShortlexSearch.IntervalsPartition` | MP3/server/boss.cpp:60-74 | Each byte is in the interval of exactly one miner |
| `ShortlexSearch.EachStringHasOneMiner` | MP3/server/boss.cpp:69-74 | Each non-empty string is in the tree of exactly one miner |
| `ShortlexSearch.IntervalsAreNonEmptyIff` | MP3/server/boss.cpp:60-74 | All intervals are non-empty if and only if there are at most 256 miners |
| `ShortlexSearch.IntervalsAreEqualShares` | MP3/server/boss.cpp:60-74 | The intervals follow each other from 0 to 256, all but the last are of one size, and the last is larger by fewer bytes than there are miners |
| `ShortlexSearch.SplitIntervals` | MP3/server/boss.cpp:69-74 | The loop computes those intervals |
| `MiningProofs.InvOnEveryRun` | MP3/server/boss.cpp:92-231 | In every reachable state of boss, miners and pipes the epochs form a chain and each pipe and miner is consistent with it |
| `MiningProofs.ContextAgreesWithString` | MP3/server/boss.cpp:95-110 | The boss's context is always that of exactly the bytes it holds |
| `MiningProofs.AcceptedIffBuiltOnCurrentContext` | MP3/server/boss.cpp:201-211 | The comparison of treasure numbers accepts a find if and only if it was built on the current context, and then the treasure grows by one |
| `MiningProofs.TreasuresAreWitnessed` | MP3/client/miner.cpp:28-40 | For each `k` up to the treasure a prefix of the string, nested in the next, has a digest that begins with exactly `k` half-bytes that are 0; so the treasure is at most sixteen |
| `Mining.WorthIff` | MP3/client/miner.cpp:28-37 | What a context is worth, read off its digest printed in hexadecimal, is the number of half-bytes that are 0 at the front of the first eight bytes, the high half of a byte first |
| `MiningProofs.TreasureGrowsByOne` | MP3/server/boss.cpp:201-211 | A step never takes back a byte or a treasure, raises the treasure by at most one, and only by accepting a find of that worth |
| `MiningProofs.DigestDecidesTheCandidate` | MP3/client/miner.cpp:157-192 | A miner sends its candidate, with its own name, the next treasure and the context behind it, and waits, if and only if the digest begins with one zero more than its treasure; otherwise it sends nothing and goes on |
| `MiningProofs.FindsAreAnnounced` | MP3/server/boss.cpp:191-231 | A find with a higher treasure is appended and announced to every miner with the string, the next treasure and the name of the miner who has found it; any other changes nothing but its pipe |
| `MiningProofs.MineIsReadAndAnnounced` | MP3/server/boss.cpp:95-110 | A chunk adds exactly its bytes, and the end of the mine is announced to every miner with treasure 0 |
| `MiningProofs.OrdersAreFollowed` | MP3/client/miner.cpp:104-156 | An order to work makes the miner start over with the order's treasure and context and the one-byte strings of its interval; a status order changes nothing |
| `MiningProofs.StatusIsOnlySent` | MP3/server/boss.cpp:117-137 | Asking for the status tells every miner the treasure and changes nothing else |
| `MiningProofs.WhatCanHappenIff` | MP3/client/miner.cpp:157-158 | With at most 256 miners, whatever is in a pipe can be read, and a miner that has work always has a candidate to try |
| `MiningProofs.StringIsGathered` | MP3/server/boss.cpp:95-211 | The string is what has been read followed by the data of the finds that raised the treasure, in their order, and nothing else |
| `MiningProofs.NoMinerIsStranded` | MP3/server/boss.cpp:224-231 | What a miner last heard followed by the orders in its pipe is the gapless run up to the treasure; a waiting miner has its find in flight or a newer order coming |
| `MiningProofs.WorkingMinerKnowsItsEpoch` | MP3/client/miner.cpp:122-132 | A miner works on a prefix of the boss's string, and on all of it if and only if it has heard of the newest treasure |
| `MiningProofs.MinersSearchTheirIntervals` | MP3/client/miner.cpp:146-154 | On every run, what a miner has tried since its last order, and its queue while it has work, are those of a search of its own interval |
| `MiningProofs.MinersNeverRepeat` | MP3/client/miner.cpp:157-192 | On every run, the candidates a miner really tries between two orders are strictly increasing in shortlex order and in its own tree; while it has work the queue is not empty and within its bound |
| `MiningProofs.MinersSkipNothing` | MP3/client/miner.cpp:184-191 | On every run, until its queue has met the cap a working miner has tried every string of its tree before the next candidate |
| `MiningProofs.NewEpochKeepsInv` | MP3/server/boss.cpp:224-231 | Announcing an epoch to all pipes keeps the invariant |
| `MiningProofs.MinerReceiveKeepsInv` | MP3/client/miner.cpp:104-156 | So does a miner's reading of an order |
| `MiningProofs.MinerTryKeepsInv` | MP3/client/miner.cpp:157-192 | So does the trial of a candidate, found or not |
| `MiningProofs.BossReceiveKeepsInv` | MP3/server/boss.cpp:191-231 | So does the boss's reading of a find, stale or not |
| `Dumps.FilesHoldPrefixes` | MP3/server/boss.cpp:232-249 | For any short or failed writes, growth and repeated requests: `0 <= start <= end <= bytes`, the file holds exactly the first `start` bytes, and a finished one the first `end` |
| `Dumps.FinishedDumpsStay` | MP3/server/boss.cpp:141-147 | A finished dump is never touched again |
| `Dumps.FileHoldsTheStringAsRequested` | MP3/server/boss.cpp:138-160 | After a request in a state in which the mine has been read, an unfinished dump whose location the requested one begins with is to reach as far as the string does then; if it finishes before it is asked for again, its file holds exactly the string as it was at the request |
| `Dumps.StringGrows` | MP3/server/boss.cpp:95-110 | What is read or found is added to the string, and the end of the mine is noted, without a change to any dump |
| `Dumps.RequestIsForAllThereIs` | MP3/server/boss.cpp:138-160 | A request goes to the first unfinished dump that answers it, which keeps what it has written, or else to a new one with nothing written; it is for all bytes there are, or none before the mine has been read; other dumps stay |
| `Dumps.RoundWritesTheNextBytes` | MP3/server/boss.cpp:232-249 | In a round an unfinished dump whose file is open or can be opened grows by exactly the next bytes that the write took, and is finished if and only if its file has as many bytes as were asked for; any other stays as it is |
| `Dumps.RoundIsEnabledIff` | MP3/server/boss.cpp:237-240 | A write can fail or take any part of the rest of the dump up to 1024 bytes |
| `Dumps.OnlyOpenFilesAreWritten` | MP3/server/boss.cpp:234-238 | No byte reaches a file that has not been opened, and no dump finishes without |
| `Dumps.FullAnswersFinishIff` | MP3/server/boss.cpp:237-246 | `n` rounds in which the file opens and every write takes all it is given finish an unfinished dump if and only if `n` is not 0 and `n` times 1024 covers what is left; the file then holds exactly the first `end` bytes, and until then what 1024 bytes a round come to |
| `Dumps.StepKeepsInv` | MP3/server/boss.cpp:138-160 | Growth, requests and rounds keep every dump consistent, and only bytes that are there are written |
| `MineProcesses.BossProcess.constructor` | MP3/server/boss.cpp:52-65 | The boss starts with no bytes and treasure 0 |
| `MineProcesses.BossProcess.Append` | MP3/server/boss.cpp:206-209 | The copying loop appends exactly the given bytes |
| `MineProcesses.BossProcess.Broadcast` | MP3/server/boss.cpp:225-230 | Every pipe gets the order, once and last |
| `MineProcesses.BossProcess.ReadMine` | MP3/server/boss.cpp:95-110 | A chunk is absorbed into string and context alike; an empty read announces the first epoch |
| `MineProcesses.BossProcess.ReceiveFind` | MP3/server/boss.cpp:191-231 | A find is accepted and announced, or leaves no trace, as in the protocol |
| `MineProcesses.BossProcess.DumpCommand` | MP3/server/boss.cpp:138-160 | The loop takes the first unfinished dump whose location is a prefix, or adds one; afterwards such a dump is to reach as far as the bytes do if the mine has been read |
| `MineProcesses.BossProcess.PushDumps` | MP3/server/boss.cpp:232-249 | The loop pushes every unfinished dump once |
| `MineProcesses.BossProcess.PushDump` | MP3/server/boss.cpp:234-247 | One dump is opened if need be and written from where it stands, at most 1024 bytes |
| `MineProcesses.MinerProcess.Md5sum` | MP3/client/miner.cpp:16-41 | The counting loop accepts exactly the strings whose digest begins with one half-byte 0 more than the treasure, and not with two more, within its first eight bytes |
| `MineProcesses.MinerProcess.ReceiveOrder` | MP3/client/miner.cpp:122-155 | An order resets the miner to the order's epoch with the one-byte strings of its interval |
| `MineProcesses.MinerProcess.TryNext` | MP3/client/miner.cpp:157-192 | One candidate is tried: it is sent, or followed by its extensions unless the queue is beyond the cap |
| `ThreadPool.HandOffIsExactlyOnce` | MP5/src/thread.c:94-119 | In every interleaving an accepted task is started at most once; until then it waits with its own argument at exactly one worker, which can go on; a refused task is never started, and nothing is started that was not launched |
| `ThreadPool.CallsTakeTheFirstIdleWorker` | MP5/src/thread.c:87-119 | A call of `run_task` goes through the workers in turn and launches its task at the first that it does not find busy; it returns 0 if and only if nothing has been launched, and then it has found every worker busy |
| `ThreadPool.AcceptedTasksAreStarted` | MP5/src/thread.c:54-68 | The other half of exactly once: an accepted task that has not been started waits at one worker, and once this has taken two steps of its own the task has been started, once |
| `ThreadPool.OwnStepsExecute` | MP5/src/thread.c:54-68 | The own steps of an occupied worker, counted over any run, bring its task from launched to started to finished; nobody else's steps take it away |
| `ThreadPool.ArgumentIsStable` | MP5/src/thread.c:48-52 | From launch to the end of the function nobody overwrites a worker's argument |
| `ThreadPool.UnlockFindsTheLockHeld` | MP5/src/thread.c:48-52 | A dispatcher releases a control lock only while it is held, by a worker waiting for itself |
| `ThreadPool.IdleFlagIsTruthful` | MP5/src/thread.c:103-110 | A worker whose flag is down has no task and holds its lock |
| `ThreadPool.InvOnEveryRun` | MP5/src/thread.c:23-119 | Control, delivery and accounting hold in every reachable state |
| `ThreadPool.StepKeepsControl` | MP5/src/thread.c:54-68 | Every step keeps positions, flags and locks of workers and dispatchers in agreement |
| `ThreadPool.OtherStepsKeepDelivery` | MP5/src/thread.c:54-119 | Steps that neither launch nor start nor finish leave every task where it is |
| `ThreadPool.UnlockKeepsDelivery` | MP5/src/thread.c:48-52 | A launch makes exactly one new pending task |
| `ThreadPool.StartKeepsDelivery` | MP5/src/thread.c:60-62 | A start takes a pending task that was not started before |
| `ThreadPool.StepKeepsAccounting` | MP5/src/thread.c:112-118 | What `run_task` returns agrees with whether the task was launched |
| `BoxServer.OneTaskPerConnection` | MP5/src/csiebox_server.c:301-342 | Without a second login, at most one worker has a connection, from the launch of its task until it clears the flag |
| `BoxServer.ActiveThreadsFitThePool` | MP5/src/csiebox_server.c:127-140 | Though the scan reads the flags one by one and twice each, while workers clear them, the published number of active threads is at most the size of the pool; outside `run_task` a flag is up if and only if a worker has that connection, and an occupied worker is busy |
| `BoxServer.ScanKeepsScan` | MP5/src/csiebox_server.c:131-140 | During the scan the connections counted so far and the raised flags still ahead are together at most as many as there are workers |
| `BoxServer.QuietScan` | MP5/src/csiebox_server.c:131-140 | A scan during which no worker takes a step finds all connections below 1024 as they are |
| `BoxServer.FlagsAreWorkers` | MP5/src/csiebox_server.c:131-140 | Outside `run_task` there are no more raised flags than workers |
| `BoxServer.OnlyFreeConnectionsAreDispatched` | MP5/src/csiebox_server.c:301-312 | Only a connection that is logged in, whose flag is down and which no worker has, is dispatched, and its flag goes up |
| `BoxServer.HandledConnectionIsFreedOrGone` | MP5/src/csiebox_server.c:313-342 | After a handled or refused request its connection is gone if it logged out and otherwise has its flag down; no other connection is touched, and an accepted task leaves all flags to its worker |
| `BoxServer.ServerInvOnEveryRun` | MP5/src/csiebox_server.c:117-179 | Exclusion holds in every reachable state of server and pool |
| `BoxServer.UnlockKeepsExclusive` | MP5/src/csiebox_server.c:312-313 | A launch makes the one in hand the one worker of its connection |
| `BoxServer.ClearKeepsExclusive` | MP5/src/csiebox_server.c:338-341 | Clearing the flag, or the logout before it, ends the hold of the one worker that has the connection |
| `BoxServer.FinishKeepsExclusive` | MP5/src/csiebox_server.c:341-342 | The return of the function after that changes nothing of who has which connection |
| `BoxServer.ReturnKeepsExclusive` | MP5/src/csiebox_server.c:313-330 | A refusal clears the flag, an acceptance leaves it to the worker |
| `BoxServer.ReloginBreaksExclusion` | MP5/src/csiebox_server.c:339-341 | A login from within a task always puts the flag out of step with the worker |
| `BoxServer.ReloginLetsASecondTaskIn` | MP5/src/csiebox_server.c:312-313 | A run in which two workers have one connection after a second login |
| `BoxServer.NextTaskBeforeReturn` | MP5/src/csiebox_server.c:339-342 | A run without a second login in which the next task of a connection is launched before the function that has cleared its flag returns |
| `Record.ReadLastOfRender` | MP1/loser.cpp:88-116 | For any history, the scan back and the reading from where it stops recover exactly the last number and the last file-to-checksum list if and only if no file of the last commit has byte 255 in its name; otherwise no files are read at all |
| `Record.ReadLastOfBlock` | MP1/loser.cpp:88-116 | The same for one block, whatever was written before it |
| `Record.LastHashOpensLastBlock` | MP1/loser.cpp:89-96 | Without that byte in a name the scan stops at the `#` that opens the last commit |
| `Record.LastStopIsInPairs` | MP1/loser.cpp:89-96 | With it, the scan stops inside a name in the part that tells the files |
| `Record.NothingIsReadFromPairs` | MP1/loser.cpp:97-116 | Reading on from there meets no `(MD5)` line, and so no files |
| `RecordText.ReadBlockOfBlock` | MP1/loser.cpp:97-116 | Reading a block, wherever it stands, undoes writing it |
| `RecordText.ReadPairsOfPairs` | MP1/loser.cpp:110-116 | Reading pairs of words undoes writing them |
| `RecordText.AfterMd5LineOfLines` | MP1/loser.cpp:103-108 | No line of a listing is taken for the line before the checksums |
| `RecordText.ValueOfDecimal` | MP1/loser.cpp:102-102 | Reading a number undoes writing it |
| `RecordText.DecimalHasNoLeadingZero` | MP1/loser.cpp:156-156 | A number is written without leading zeros |
| `RecordText.AdmittedIff` | MP1/md5.cpp:4-20 | The results are about all names without white space and `#` other than the empty one and `(MD5)`, and all checksums of 32 lower-case hexadecimal digits |
| `RecordText.BlockIsItsLines` | MP1/loser.cpp:156-175 | The text of a block is exactly the lines of its number, the three titled lists with `source => copy` for copies, the line `(MD5)`, and each file with its checksum |
| `RecordLog.BlockBetween` | MP1/loser.cpp:190-211 | The text between two openings is one commit's block, and an empty line unless it is the last |
| `RecordLog.ScanBack` | MP1/loser.cpp:191-198 | Moving back stops at the nearest `#` or byte 255 |
| `RecordLog.ReadOn` | MP1/loser.cpp:201-209 | Reading on stops before the next `#` or byte 255 or at the end, and drops the last character |
| `RecordLog.LogRound` | MP1/loser.cpp:190-211 | One round goes back to the last stop before the tag, prints from there to the next stop, and moves the tag only to a `#` |
| `RecordLog.RoundsPrintIff` | MP1/loser.cpp:190-214 | If each round prints its block when it finds it and otherwise nothing that begins like it, the output is the blocks newest first if and only if every round finds its block |
| `RecordLog.Log` | MP1/loser.cpp:178-215 | The loop computes the rounds, also where they go wrong, and stops at the number or the first block |
| `RecordLog.LogOfRenderIff` | MP1/loser.cpp:178-215 | `log n` prints the last min(n, N) commits newest first, exactly as a record of them would read, if and only if none of them has byte 255 in a name |
| `Classifier.ClassifyIsByKind` | MP1/loser.cpp:117-145 | The loop, which changes both maps as it goes, sorts each file by what was recorded before it and leaves the old map overridden by the directory |
| `Classifier.ListsIff` | MP1/loser.cpp:128-142 | In terms of names and checksums alone: a file is listed as new if no recorded file has its name and neither a recorded nor an earlier one its checksum, as copied if none has its name but one of these its checksum, and as modified if it is recorded with another checksum |
| `Classifier.CopiesNameTheirSource` | MP1/loser.cpp:131-132 | A copy is listed with the recorded file of its checksum that comes first by name, or else with the first such file of the directory |
| `Classifier.StrLeqIff` | MP1/loser.cpp:148-150 | The order of names: a prefix comes first, and otherwise whoever has the smaller character where they first differ |
| `Classifier.ListsAreInOrder` | MP1/loser.cpp:147-150 | The three lists are in that order |
| `Classifier.ClassifyOneKeepsInv` | MP1/loser.cpp:126-144 | One round of the loop sees what a test against the record and the earlier files would see |
| `Classifier.EachFileIsInItsListOnly` | MP1/loser.cpp:128-142 | In the lists that the loop leaves each file is once in that of its kind and in no other, and they name no other files |
| `Classifier.SortingMovesNothing` | MP1/loser.cpp:147-150 | Any sorting of the lists that the loop leaves is those lists, so copies keep their sources |
| `Classifier.SortOfSortedIsIdentity` | MP1/loser.cpp:148-150 | A sorted list has only one sorted arrangement |
| `Classifier.DiffersIff` | MP1/loser.cpp:146-146 | The loop reports a difference if and only if some file is not recorded as it is |
| `Classifier.NothingDiffersAfterCommit` | MP1/loser.cpp:143-146 | Against what a commit has written nothing differs |
| `Classifier.ReFilesOfHolds` | MP1/loser.cpp:111-116 | Of files with the same checksum the first in the record is remembered |
| `Repository.CommitTakesSnapshotIff` | MP1/loser.cpp:154-175 | What the last block tells after a commit: the directory over what could be read. That is every file over what was known if and only if this could be read, or the directory is empty or has every known name |
| `Repository.ReadsBackAfterCommitIff` | MP1/loser.cpp:88-116 | After a commit the record can be read if and only if no name in the directory holds byte 255 and, if the directory is empty, it could be read before |
| `Repository.BlockListsTheChanges` | MP1/loser.cpp:117-168 | A later block lists each file of the directory as new, modified or copied, or not, exactly by what could be read before |
| `Repository.FirstBlockListsAllAsNew` | MP1/loser.cpp:57-85 | A first commit lists all files as new and tells exactly the files of the directory, and writes nothing for an empty one |
| `Repository.StatusForetellsTheCommit` | MP1/loser.cpp:152-168 | What `status` lists is what a commit would write, and it lists something if and only if a commit would write a block |
| `Repository.FilesAreToldInOrder` | MP1/loser.cpp:173-174 | In every block of the record each known file is told once, in the order of the names |
| `Repository.SecondCommitWritesNothingIff` | MP1/loser.cpp:146-146 | A second commit of the same directory writes nothing if and only if no name in it holds byte 255 |
| `Repository.StatusAfterCommitListsNothingIff` | MP1/loser.cpp:154-168 | Status straight after a commit lists nothing under the same condition |
| `Repository.ByteMakesCommitsRepeat` | MP1/loser.cpp:90-96 | A file whose name is byte 255 alone is committed again and again, every time as new and as commit 1 |
| `Repository.RecordIsOverlay` | MP1/loser.cpp:143-144 | Over any sequence of commits: the record can be read if and only if the last directory that was not empty has no byte 255 in a name, and it tells the overlay of the directories from the last one on that was committed when it could not be read |
| `Repository.RecordIsOverlayOfAll` | MP1/loser.cpp:143-156 | Without that byte in any name the commits are numbered 1 to N and the record tells the overlay of all directories |
| `Repository.HistoriesAreGood` | MP1/loser.cpp:154-175 | Along any sequence of commits, whatever has been read, all names and checksums are well-formed, files are sorted, and a block lists only names of its own files, so the results on reading back apply |
| `Repository.CommitsToKeepsGood` | MP1/loser.cpp:154-175 | One commit keeps that |
| `RepositoryProgram.Sort` | MP1/loser.cpp:147-150 | The names in order: each is a prefix of the next or has the smaller character where they first differ |
| `RepositoryProgram.Directory.SortLists` | MP1/loser.cpp:147-150 | The three sorts leave what the loop left |
| `RepositoryProgram.WalkMap` | MP1/loser.cpp:173-174 | Walking through a map gives each of its entries once, in the same order of the names |
| `RepositoryProgram.PutListing` | MP1/loser.cpp:157-168 | The three loops write the listing |
| `RepositoryProgram.PutPairs` | MP1/loser.cpp:173-174 | The loop writes one pair a line |
| `RepositoryProgram.SkipToMd5` | MP1/loser.cpp:103-108 | The loop drops the lines up to `(MD5)` |
| `RepositoryProgram.ReadMaps` | MP1/loser.cpp:110-116 | The loop fills both maps from the pairs |
| `RepositoryProgram.Directory.ReadRecord` | MP1/loser.cpp:88-116 | The loops yield the number and the maps that the scan and the reading make of the record: those of the last commit, or, with byte 255 in a name of it, none |
| `RepositoryProgram.Directory.ClassifyDirectory` | MP1/loser.cpp:117-145 | The loop computes the classification |
| `RepositoryProgram.Directory.FirstCommit` | MP1/loser.cpp:57-85 | A first commit writes the directory as commit 1, or nothing if it is empty |
| `RepositoryProgram.Directory.WriteCommit` | MP1/loser.cpp:153-175 | The next commit is appended, with the number after the one read, its lists and files |
| `RepositoryProgram.Directory.Commit` | MP1/loser.cpp:35-177 | The command appends exactly the block of the next commit, or nothing if nothing differs from what is read |
| `RepositoryProgram.Directory.Status` | MP1/loser.cpp:35-177 | The command prints the listing the next commit would have, also when the record cannot be read |
| `RepositoryProgram.Directory.PrintLog` | MP1/loser.cpp:178-215 | The command prints what the rounds of `log` yield, nothing without a record; that is the newest commits of the history if and only if none of these has byte 255 in a name |
| `HashTable.PositionIsResidue` | MP5/src/hash.c:21-24 | For every hash code the adjusted C remainder is the residue between 0 and n |
| `HashTable.CRemainderIsLeft` | MP5/src/hash.c:21-21 | The remainder is that of a division towards zero |
| `HashTable.GetIsLookup` | MP5/src/hash.c:58-75 | Looking up agrees with the finite map the chains stand for |
| `HashTable.PutInsertsIfAbsent` | MP5/src/hash.c:19-56 | Putting inserts exactly what is absent |
| `HashTable.PutComesLast` | MP5/src/hash.c:38-53 | A new entry comes last in the chain of its residue, so a head stays a head |
| `HashTable.DelRemoves` | MP5/src/hash.c:101-126 | Deleting takes the key, or with the head of a chain exactly the keys of its bucket, and leaves the rest |
| `HashTable.DelIsRemovalIff` | MP5/src/hash.c:114-118 | Deletion is removal of the key if and only if it is not the head of a longer chain |
| `HashTable.SecondIsLost` | MP5/src/hash.c:117-117 | The key behind a deleted head is lost |
| `HashTable.PutKeepsGood` | MP5/src/hash.c:38-53 | Chains stay in their buckets and without repeated codes |
| `HashTable.DelKeepsGood` | MP5/src/hash.c:112-122 | So they do after a deletion |
| `HashTable.IteratorPassesOne` | MP5/src/hash.c:179-199 | A step of the iterator passes exactly the entry it stands on |
| `HashTable.WalkVisitsEverything` | MP5/src/hash.c:162-199 | A whole walk visits the chains bucket after bucket, every node once |
| `HashTable.WalkIsTheMap` | MP5/src/hash.c:162-199 | What it meets is exactly the entries of the map, none twice |
| `ChainedHash.Hash.Init` | MP5/src/hash.c:6-17 | Refuses a bad size or a second initialisation, else every bucket is empty |
| `ChainedHash.Hash.GetFromHash` | MP5/src/hash.c:58-75 | Following the pointers finds what the table holds |
| `ChainedHash.Hash.PutIntoHash` | MP5/src/hash.c:19-56 | The pointers afterwards are the table after the insertion; success tells whether the code was absent |
| `ChainedHash.Hash.LastUnlessFound` | MP5/src/hash.c:38-45 | The loop finds the end of the chain unless the code is in it |
| `ChainedHash.Hash.DelFromHash` | MP5/src/hash.c:101-126 | The pointers afterwards are the table after the deletion; only the node before the deleted one is changed |
| `ChainedHash.Hash.Search` | MP5/src/hash.c:111-124 | The loop stops at the node with the code, if there is one, with its predecessor |
| `ChainedHash.Hash.Unlink` | MP5/src/hash.c:114-115 | Unlinking an inner node erases it from its chain |
| `ChainedHash.Hash.EmptyBucket` | MP5/src/hash.c:116-118 | Deleting a head empties the bucket |
| `ChainedHash.HashIterator.constructor` | MP5/src/hash.c:162-177 | The iterator starts at the first node of the first non-empty bucket |
| `ChainedHash.HashIterator.Add` | MP5/src/hash.c:179-199 | The iterator moves as the cursor on the table does |
| `ChainedHash.HashIterator.FirstBucket` | MP5/src/hash.c:188-192 | The loop finds the next non-empty bucket |
| `PortRegister.PortsAreDistinctOnEveryRun` | MP5/src/port_register.c:109-147 | After any bookings, lookups and passes the live records hold distinct ports in 2501..3012, each with its bit set |
| `PortRegister.BookTakesTheLowestFree` | MP5/src/port_register.c:165-174 | Booking answers the lowest free port, fails if and only if all 512 are reserved, and changes no other record |
| `PortRegister.WebAnswers` | MP5/src/port_register.c:149-155 | A name with a record is answered its port and changes nothing; any other is booked the lowest port whose bit is clear, which is found from then on; the answer is -1 if and only if the name has no record and all 512 bits are set |
| `PortRegister.BookKeepsSafe` | MP5/src/port_register.c:109-136 | Booking, also of a name that has a record, keeps ports distinct and reserved |
| `PortRegister.Clean` | MP5/src/port_register.c:245-273 | A pass keeps exactly the records whose port, and whose bucket's first port, cannot be bound; afterwards a bit is set if and only if its port cannot be bound; all this despite the chain-dropping deletion |
| `PortRegister.CleanDropsOnlyFreePortsIff` | MP5/src/port_register.c:252-270 | A pass drops no port in use if and only if no chain has a bindable head before a port in use |
| `PortRegister.CleanEntryKeepsSafe` | MP5/src/port_register.c:258-265 | Freeing a bit together with deleting its record is safe at any point of the walk |
| `PortRegister.ChainIsWalked` | MP5/src/port_register.c:253-271 | After part of a walk exactly the records not yet deleted or dropped remain |
| `PortRegister.WalkClearsBits` | MP5/src/port_register.c:258-265 | After part of a walk exactly the bits of the bindable ports that have been passed are cleared |
| `PortRegister.RequestsFollowEachOther` | MP5/src/port_register.c:62-103 | In a run each request acts on the register that the ones before it have left |
| `PortRegister.PortInUseIsNotHandedOut` | MP5/src/port_register.c:222-243 | A port that no pass finds bindable is booked for nobody, even if its record has been dropped with a chain |
| `PortRegister.BookedIsFound` | MP5/src/port_register.c:138-155 | What has been booked is found until it is booked again or a pass comes |
| `PortRegister.RebookingLeavesThePortReserved` | MP5/src/port_register.c:112-134 | Booking a name again leaves its old port reserved without a record |
| `PortProcess.RegisterProcess.GetNextPort` | MP5/src/port_register.c:165-174 | The loop takes the lowest free bit, or reports that there is none |
| `PortProcess.RegisterProcess.BookPort` | MP5/src/port_register.c:109-136 | The records and bits afterwards are the register after the booking, also when a record is changed through its pointer |
| `PortProcess.RegisterProcess.GetPort` | MP5/src/port_register.c:138-147 | The lookup of the register |
| `PortProcess.RegisterProcess.WebPort` | MP5/src/port_register.c:149-155 | The recorded port and no change, or else the lowest free one, which is recorded; -1 if and only if there is neither; before the answer is put into network order |
| `PortProcess.RegisterProcess.CheckPortReserve` | MP5/src/port_register.c:222-243 | The loop sets each bit to whether its port cannot be bound |
| `PortProcess.RegisterProcess.CleanBucket` | MP5/src/port_register.c:253-271 | Walking on along the pointers of a chain, whatever has been deleted behind, does what the walk of the register says |
| `PortProcess.RegisterProcess.CleanPortReserve` | MP5/src/port_register.c:245-273 | The two loops and the check are a pass of the register |

## Left out

- MP4 worker death and re-fork, chat messages, sockets, `select`, JSON, `gcc` and `dlopen`: events and verdicts that may come at any time stand for them.
- MatchmakingRuns.VerdictIsSequential: assumes orderly runs, clean lifts and harmless departures; the conditions are exact for the single step, but a search that has lost its soundness or its coverage can regain it before the verdict, which is then right as well (`SolutionIsFirstMatchIff`, `VerdictIsSequentialIff`).
- MP3 message framing: header, data and name are one message, and finds longer than the 50 bytes of the boss's buffer do not occur. The name announced with the first epoch is read from a buffer that is not set (`MP3/server/boss.cpp:31`, `:228-229`) while its announced length is 0; it must be empty, since any other content breaks the framing, and this is not modelled.
- MP3 `quit` with its final dump loop, `status` output, and the new session of a miner after `quit`.
- MineProcesses.BossProcess.Append: requires room in the buffer, as the source does without testing it; the same holds for the table of 64 dumps.
- MD5 is not modelled; the digest is an arbitrary function.
- ThreadPool: threads are a state machine on values, since their interleaving is the point; weak memory, failed initialisation and thread destruction are not modelled.
- BoxServer: what a request does, apart from logging out or in again, is not modelled, and a logout is taken to be atomic with the test at `MP5/src/csiebox_server.c:339`, as are the two reads that one test of the scan makes; the main loop's scan and dispatch are steps on values for the same reason as the pool.
- BoxServer.OneTaskPerConnection: assumes that dispatched requests do not log in again; `ReloginLetsASecondTaskIn` shows that it is needed.
- MP1 buffer sizes (with byte 255 in a name a checksum can be read into `tmp[20]`, which is too short for it), the width of `%d`, a sign before the commit number, and the alias file; `list_file` and the checksums of files are inputs.
- RepositoryProgram.Sort: an insertion sort stands for `std::sort`; the sort of the directory itself at `MP1/loser.cpp:51` is part of the input.
- RepositoryProgram.WalkMap: the `map` of C++ is a Dafny map whose least key is taken first.
- HashTable: `get_from_hash_by_path`, whose predecessor pointer never moves and which returns a bucket number, clearing, destroying and failed allocation are not modelled.
- PortRegister: a name is its hash code, so names with the same code share a record here as in the source; how the code is computed, requests over sockets, failed allocation and the byte order of an answer are not modelled, and what can be bound is fixed within a pass.
- MP0, MP2 (whose hash and register are near copies of those of MP5), the file synchronisation, and the web pages are not part of this model.
