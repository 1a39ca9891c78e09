# ISAAC consensus bookkeeping, modelled and proved

This project models the bookkeeping behind the ISAAC consensus of mitum2 in Dafny and proves what it is for:
how votes become a result, when a voteproof is valid for a suffrage, whom a suffrage may expel, how a node's last
voteproofs move, how block maps are checked to be one chain, how caches and indexes agree with something simpler, how
often a block is saved, how many candidates may join, and how framed bytes are read back.

Loops and objects of the source are methods and classes; each of them is proved against a specification function, and
the lemmas are about those functions. Locked methods are single steps. Go ranges over maps in no particular order: the
methods pick keys arbitrarily, and their contracts hold whatever is picked. Percentages and ratios are exact reals.

| file | about |
|---|---|
| `VoteCounting.dfy`, `Thresholds.dfy` | counting votes, finality, what thresholds ask for |
| `Suffrages.dfy`, `Voteproofs.dfy`, `QuorumIntersection.dfy`, `MajorityAgreement.dfy` | suffrages with and without expelled nodes, validity of voteproofs, the safety argument, and where expels break it |
| `ExpelPools.dfy`, `ExpelSearch.dfy`, `ExpelVoting.dfy` | the pool of expel operations, the search over all their subsets, voting, agreement with validation |
| `Points.dfy`, `LastPoints.dfy`, `LastVoteproofs.dfy` | what is new after a last point, the handler of last voteproofs |
| `BlockMaps.dfy` | block maps that arrive in any order, batch after batch |
| `SuffrageWindow.dfy` | the window of three suffrage proofs against the whole history |
| `AddrQueues.dfy`, `AddrPool.dfy` | the rate limiter's address pool and its queue |
| `ProposalProcessors.dfy` | processing and saving proposals |
| `CandidateLimiter.dfy` | the limit on candidates |
| `Framing.dfy` | length-prefixed slices in memory and from a stream |
| `Wrappers.dfy`, `StringOrder.dfy`, `Sequences.dfy`, `Reals.dfy` | shared definitions |

## Where the code does not do what one may expect

Each of these has its exact condition, as an equivalence over the inputs that the bullet names, and inputs on the failing
side.

- Two validated majorities without expels always share a voter (`QuorumsIntersect`), and agree if nobody signs twice
  (`MajoritiesAgree`). With expels this fails: two halves of a suffrage of four may expel each other and each have a
  validated majority (`HalvesDisagree`), or one of four may expel the others (`OneDisagrees`), because fewer signs are
  asked for the more nodes are expelled. Majorities agree if and only if the two sides do not expel everyone between
  them, or, against one without expels, there are fewer expels than its threshold (`MajoritiesAgreeIff`). With no more
  expels than faulty nodes on each side the shared voters are still more than may be faulty (`FewExpelsAreSafe`).
- A majority counted by `FindVoteResult` is final if and only if the threshold is more than half of the quorum
  (`MajorityFinalIff`, `MajorityCanFlip`); a draw is always final.
- The search for expels visits every subset if and only if there are fewer than 64 operations (`SearchCompleteIff`,
  `ManyOperationsMissed`): from 64 on, `1 << length` is 0 and the loop does not run.
- The pool of expel operations is traversed from the latest end down, and the traversal stops at the first operation
  that has not started yet or is on a node which is no member. `Find` looks at every operation for its height if and
  only if none of them comes after such an operation (`CollectsAllIff`, `ExpellableIsHidden`). `Find` drops the
  operation on a stranger that stopped it; where everything has started, finding again reaches every operation
  (`FindingAgainCollectsAll`).
- A vote for an expel keeps every signer in the pool if and only if it does not overwrite the operation it is for
  (`VoteKeepsSignersIff`): the lookup goes by the node and the first operation met, so an operation that ends later
  hides the one voted for (`SignerLost`). For the same reason signs may be added to an operation with another span
  (`VoteFrame`).
- Expels that voting finds, on distinct nodes by distinct signers, have enough signs for validation at the default
  threshold, and are accepted there if and only if not every member is to be expelled with members' signs only
  (`FoundAcceptedIff`). If everyone is, no sign is asked for, the search takes all operations first, and nobody is left
  (`EveryoneExpelledIsRefused`), although fewer would be accepted. A member's own pool never comes to that, since a node
  does not vote to expel itself (`FoundInRunsAccepted`). With several operations on one node the condition is on the
  nodes of the set that is found (`VotingAgreesWithValidation`).
- Validation uses the threshold of the voteproof, voting the default one. At another threshold every set of k operations
  that voting may find is accepted if and only if that threshold asks for no more signs (`AllAcceptedAtIff`), which is
  when it asks for no more votes or k is at least what the default threshold does without (`AsksNoMoreIff`). Stuck
  voteproofs have 100, which refuses a single expel that five of seven members signed (`StuckAsksForMore`).
- Voting compares the addresses of signers, validation their keys too: what voting finds is known to validation if and
  only if the keys are right (`FoundKnownIff`, `WrongKeyIsFound`). All of this together is `FoundIsUsableIff`.
- Newcomers stay below a third of the suffrage if and only if the extra nodes are no more than the failing ones
  (`UnderThirdIff`), which holds for all suffrage sizes exactly for ratios below 3/7 (`SafeRatioIff`); a ratio of 1 lets
  a suffrage of seven take in seven more (`SevenMayDouble`). A configured minimum above the limit keeps the bound if and
  only if it is below half the suffrage (`LimitUnderThirdIff`, `MinimumBreaksBound`).
- The reader in memory answers more than 32767 entries with nothing and no error (`RoundTripIff`, `CanonicalIff`); the
  stream reader refuses them.
- `BatchIsValidMaps` does not compare the height of a fetched map with the height it asked for. What passes is a chain
  of the heights asked for if and only if the source is honest about them (`BatchExact`); a source that has only the
  genesis map passes up to any height, unless batches are of one (`DishonestSourcePasses`).
- An empty address is left behind in the maps of the address pool (`ShrinkQueueAgreesIff`, `EmptyAddressLeftBehind`).
- The test file of the last voteproofs expects an ACCEPT voteproof to be accepted first, or for the previous height after
  a first INIT voteproof (isaac/last_voteproofs_test.go:106-149). The code refuses both (`AcceptFirstRefused`,
  `PreviousAcceptRefused`); when `Set` succeeds is `SetSucceedsIff`.

Some more things to know:

- Two operations on one node count as two nodes in the thresholds of voting and of `NewSuffrageWithExpels`, so that fewer
  signs are enough; what is found then is accepted as before, but cannot be part of a valid voteproof
  (`TwoOperationsOnOneNode`). If the operations for the height are on distinct nodes, so is what is found.
- In runs of `Set` no gap of the last voteproofs themselves is ever filled, only gaps of the cache (`FillOnlyCaches`).
- The table in the comment on `PreviousBlockForNextRound` gives no answer for an INIT majority and an INIT draw; the code
  answers, and the answer is right (`PreviousBlockIsParent`).
- The suffrage builder repeats its last proof (isaac/suffrage_builder.go:110-116). The window is therefore proved correct
  for lists that may repeat a proof, and contiguous for lists that do not.

## Model

| member | source | states |
|---|---|---|
| `Thresholds.VotesRoundUp` | base/threshold.go:49-51 | the votes asked for are the percentage of the quorum, rounded up |
| `Thresholds.VotesOfValid` | base/threshold.go:36-51 | a valid threshold asks for more than half and at most all of a quorum |
| `Thresholds.FaultyIsRest` | base/threshold.go:72-81 | the number of faulty nodes is exactly what the threshold does without |
| `Thresholds.FaultyIsNotNegative` | base/threshold.go:72-81 | nobody may be faulty from the maximal threshold on, and never less than nobody |
| `Thresholds.SafeQuorumsBeatFaulty` | base/threshold.go:10-15 | from the safe threshold on, two quorums overlap in more than the faulty nodes |
| `VoteCounting.FindVoteResult` | base/vote.go:46-98 | result and key are a function of the bag of votes alone, whatever order the count map is ranged over in; the key is the smallest of those with most votes |
| `VoteCounting.CountVotes` | base/vote.go:62-65 | the count map holds exactly the multiplicities of the votes |
| `VoteCounting.MostVoted` | base/vote.go:67-83 | any order of the keys leads to the smallest key of maximal count |
| `VoteCounting.VoteResultIff` | base/vote.go:85-97 | a majority if and only if some key has the threshold, a draw if and only if no key can get it any more, otherwise not yet |
| `VoteCounting.MajorityIsFinal` | base/vote.go:85-87 | with a threshold above half the quorum, further votes within the quorum keep the majority and its key |
| `VoteCounting.DrawIsFinal` | base/vote.go:89-95 | further votes within the quorum keep a draw, for every threshold |
| `VoteCounting.MajorityCanFlip` | base/vote.go:75-79 | otherwise a later tie moves the majority to another key |
| `VoteCounting.MajorityFinalIff` | base/vote.go:46-98 | majorities are final if and only if the threshold is above half the quorum |
| `VoteCounting.NotYetIff` | base/vote.go:89-97 | below the quorum counting is undecided if and only if some completion is a majority and another one a draw |
| `Suffrages.IsDuplicatedSlice` | util/slice.go:12-40 | finds out exactly whether two keys are equal |
| `Suffrages.NewSuffrage` | isaac/suffrage.go:14-43 | accepts exactly the non-empty lists of nodes with distinct addresses, and indexes them |
| `Suffrages.Filter2Slices` | util/slice.go:125-153 | leaves exactly the nodes that nobody expels, in order |
| `Suffrages.NewSuffrageWithExpels` | isaac/suffrage.go:70-97 | computes the specification of a suffrage with expels, error cases included |
| `Suffrages.ExpelsAccepted` | isaac/suffrage.go:70-97 | members are expelled if and only if somebody is left and every operation has enough signs; exactly the other members are left |
| `Suffrages.TooManyExpels` | isaac/suffrage.go:79-90 | more operations than members wrap the number of signs around, and are refused |
| `Suffrages.KnownIff` | isaac/suffrage_operation.go:179-207 | an expel is known if and only if it is not expired, about a member, and signed by members with their own keys |
| `Voteproofs.IsValidSignFacts` | base/voteproof_isvalid.go:83-132 | all sign facts are of the point, and one of them is the majority |
| `Voteproofs.IsValidVoteproof` | base/voteproof_isvalid.go:7-60 | decides the validity of a voteproof by itself, no node signing twice |
| `Voteproofs.ValidIff` | base/voteproof_isvalid.go:7-132 | everything that makes a voteproof valid by itself, with expels and stuck ones (isaac/voteproof.go) |
| `Voteproofs.IsValidVoteproofWithMembers` | base/voteproof_isvalid.go:173-214 | decides whether the signers are members and a recount gives result and majority |
| `Voteproofs.IsValidVoteproofWithSuffrage` | isaac/voteproof_isvalid.go:8-51 | decides validity with expels, where everyone who is left has to vote |
| `QuorumIntersection.CountIsSigners` | base/ballot.go:58-76 | with one sign fact a node, counting hashes counts nodes |
| `QuorumIntersection.PlainAcceptedIff` | base/voteproof_isvalid.go:173-214 | a majority is validated if and only if members signed it and at least the threshold of them its fact |
| `QuorumIntersection.ExpelAcceptedIff` | isaac/voteproof_isvalid.go:8-51 | with expels, if and only if they are known and signed enough, and exactly all the other members signed its fact |
| `QuorumIntersection.DrawAcceptedIff` | base/voteproof_isvalid.go:173-214 | a draw is validated if and only if members signed it and no fact has the threshold or can get it from those who did not sign |
| `QuorumIntersection.ExpelDrawAcceptedIff` | isaac/voteproof_isvalid.go:8-51 | with expels, if and only if they are known and signed enough, members signed, and the others cannot all agree any more |
| `QuorumIntersection.StuckAcceptedIff` | isaac/voteproof_isvalid.go:41-48 | a stuck voteproof is validated if and only if its expels are known and signed enough, and exactly all the others signed |
| `QuorumIntersection.UnanimousIsAccepted` | isaac/voteproof_isvalid.go:8-51 | when all the others sign one fact, any expels that are known and signed enough make a validated majority, and none do too |
| `QuorumIntersection.VotersOfPlain` | base/voteproof_isvalid.go:173-214 | a validated majority has at least the threshold of members behind it |
| `QuorumIntersection.VotersOfExpel` | isaac/voteproof_isvalid.go:22-48 | with expels, the voters of a validated majority are exactly the members that are not expelled |
| `QuorumIntersection.QuorumsIntersect` | base/voteproof_isvalid.go:173-214 | two validated majorities without expels share at least th1+th2-n voters, at least one, and from the safe threshold on more than the faulty nodes |
| `QuorumIntersection.MajoritiesAgree` | base/voteproof_isvalid.go:173-214 | if no node signs two facts, two validated majorities without expels are for the same fact |
| `QuorumIntersection.ExpelMeetsPlain` | isaac/voteproof_isvalid.go:8-51 | a majority with k expels shares at least th-k voters with a plain one |
| `QuorumIntersection.ExpelMeetsExpel` | isaac/voteproof_isvalid.go:8-51 | two majorities with expels share exactly the members that neither expels |
| `MajorityAgreement.MajoritiesAgreeIff` | isaac/voteproof_isvalid.go:8-51 | with expels or without, majorities at one point agree without double signing if and only if the sides do not expel everyone between them and the expelled are no quorum of a side without expels |
| `MajorityAgreement.FewExpelsAreSafe` | isaac/voteproof_isvalid.go:8-51 | from the safe threshold on, majorities that expel no more than the faulty nodes share more voters than those, and so agree |
| `MajorityAgreement.HalvesDisagree` | isaac/suffrage.go:79-82 | two halves of four members expel each other, and both have a validated majority, for different facts |
| `MajorityAgreement.OneDisagrees` | isaac/suffrage.go:79-82 | one of four members expels the others and has a validated majority alone, against that of the others |
| `MajorityAgreement.RestAgrees` | isaac/voteproof_isvalid.go:8-51 | whoever is not expelled can make a validated majority for any fact |
| `MajorityAgreement.FoundIsUsableIff` | isaac/voteproof_isvalid.go:22-39 | what voting finds can be part of a voteproof if and only if it is on distinct nodes, somebody is left, the threshold asks for no more signs, and the keys are right |
| `ExpelSearch.FilterOperation` | isaac/suffrage_voting.go:208-225 | passes exactly operations signed by members only, often enough |
| `ExpelSearch.EnoughOutside` | isaac/suffrage_voting.go:226-253 | are there enough signs outside the expelled set for every operation |
| `ExpelSearch.Gather` | isaac/suffrage_voting.go:312-323 | collects the operations of a mask; an operation that is filtered out is never part of an expellable set |
| `ExpelSearch.Sort` | isaac/suffrage_voting.go:142-145 | a sorted permutation, here by hash and at 325-328 by the number of signs |
| `ExpelSearch.TryMask` | isaac/suffrage_voting.go:301-332 | a mask is taken if and only if its operations can be expelled together |
| `ExpelSearch.FindExpelCombinations` | isaac/suffrage_voting.go:199-257 | returns the set of the greatest mask that can be expelled, and nothing if and only if no subset can (below 64 operations) |
| `ExpelSearch.MasksAreSubsets` | isaac/suffrage_voting.go:301-323 | below 64 operations the masks are the non-empty subsets, each exactly once |
| `ExpelSearch.SearchIsComplete` | isaac/suffrage_voting.go:288-334 | some mask succeeds if and only if some non-empty subset can be expelled |
| `ExpelSearch.ManyOperationsMissed` | isaac/suffrage_voting.go:301-301 | from 64 different operations for one height on, a set that can be expelled is missed |
| `ExpelSearch.SearchCompleteIff` | isaac/suffrage_voting.go:288-334 | the search is complete if and only if there are fewer than 64 operations |
| `ExpelSearch.NothingExpellableIff` | isaac/suffrage_voting.go:288-334 | whether anything can be expelled does not depend on the order of the operations |
| `ExpelPools.PutKeeps` | isaac/database/pool.go:494-512 | storing replaces the operation with the same end and fact, and nothing else; the keys stay ordered |
| `ExpelPools.LookupIff` | isaac/database/pool.go:445-492 | a lookup finds an operation if and only if it has the greatest key of those on the node and covers the height |
| `ExpelPools.Traverse` | isaac/database/pool.go:514-547 | collects the operations before the first that is not for the height or on a stranger, and reports that stranger |
| `ExpelPools.TraversalStops` | isaac/database/pool.go:526-543 | it goes on exactly as long as operations are for the height and on members |
| `ExpelPools.CollectsAllIff` | isaac/database/pool.go:526-543 | every operation for the height on a member is collected if and only if none comes after one that has not started or is on a stranger |
| `ExpelPools.CleanedKeeps` | isaac/database/pool.go:549-605 | after a search one stranger and what has ended are gone, and nothing that the search is about |
| `ExpelPools.CleanedExact` | isaac/suffrage_voting.go:101-136 | exactly the stranger and what ended before the height are gone |
| `ExpelPools.FindingAgainCollectsAll` | isaac/suffrage_voting.go:94-136 | where everything has started, after as many searches as there are strangers every operation for the height on a member is collected |
| `ExpelVoting.FilteredSigns` | isaac/suffrage_voting.go:259-283 | after filtering, exactly the signs of nodes that are not expelled count |
| `ExpelVoting.FilterFailsIff` | isaac/suffrage_voting.go:259-283 | filtering fails if and only if it drops signs and somebody signed twice of those that stay |
| `ExpelVoting.VotingAgreesWithValidation` | isaac/suffrage.go:70-97 | sets that voting may find, several operations on one node included, are accepted at a threshold if and only if somebody is left and the signs suffice for it, as they do if it asks for no more than voting; the new suffrage is exactly the rest |
| `ExpelVoting.FoundAcceptedIff` | isaac/suffrage.go:70-97 | for operations on distinct members, what the search finds is accepted at a threshold if and only if the signs suffice and they are not about every member with members' signs only |
| `ExpelVoting.AsksNoMoreIff` | isaac/suffrage.go:79-82 | a threshold asks for no more signs than voting if and only if it asks for no more votes, or all the others have to sign anyway |
| `ExpelVoting.AllAcceptedAtIff` | isaac/suffrage.go:70-97 | all sets of k operations that voting may find are accepted at a threshold if and only if it asks for no more signs |
| `ExpelVoting.StuckAsksForMore` | isaac/voteproof_isvalid.go:31-31 | at the threshold of stuck voteproofs, an expel that five of seven members signed is refused |
| `ExpelVoting.FoundKnownIff` | isaac/suffrage_operation.go:179-207 | what voting finds is known to validation if and only if members signed with their own keys |
| `ExpelVoting.WrongKeyIsFound` | isaac/suffrage_voting.go:211-216 | voting finds an operation that is signed with other keys, which validation refuses |
| `ExpelVoting.EveryoneExpelledIsRefused` | isaac/suffrage_voting.go:226-253 | four members who expel each other are all found first, and refused, where one alone would be accepted |
| `ExpelVoting.AllTheRestSigned` | isaac/suffrage_voting.go:229-231 | beyond the nodes the threshold can do without, every remaining member signed every operation |
| `ExpelVoting.FindIn` | isaac/suffrage_voting.go:94-171 | finds the greatest expellable set of what the traversal collects, nothing if and only if there is none (below 64), and says exactly when validation accepts the result, at every threshold |
| `ExpelVoting.ExpellableIsHidden` | isaac/suffrage_voting.go:118-122 | an operation on a stranger or for later heights that ends later hides one that can be expelled |
| `ExpelVoting.SuffrageVoting.Find` | isaac/suffrage_voting.go:94-171 | the same on the pool of the voting, which forgets the stranger and what has ended; after a member's search somebody is left |
| `ExpelVoting.FilterAll` | isaac/suffrage_voting.go:159-170 | filters every found operation, or fails where a filtered one has a signer twice |
| `ExpelVoting.SuffrageVoting.Vote` | isaac/suffrage_voting.go:47-92 | what a vote makes of the pool and whether it counts |
| `ExpelVoting.VoteCountsIff` | isaac/suffrage_voting.go:47-92 | a vote counts if and only if it is not about the local node, not in the state, and new to the pool or with a signer that the pool lacks; otherwise nothing changes |
| `ExpelVoting.VotesGather` | isaac/suffrage_voting.go:173-197 | vote by vote the signs of an operation gather in the pool |
| `ExpelVoting.MergedSigns` | base/base_operation.go:236-262 | merging keeps the signs there are and adds those of new signers, but for the expelled node |
| `ExpelVoting.MergeJoins` | isaac/suffrage_voting.go:173-197 | merging keeps every signer, adds the new ones, and has nobody sign twice |
| `ExpelVoting.VoteFrame` | isaac/suffrage_voting.go:47-92 | a vote that counts changes one operation, the one the lookup finds or else its own, and nothing else; its signers are joined |
| `ExpelVoting.VoteKeepsSignersIff` | isaac/suffrage_voting.go:67-84 | a vote keeps all signers in the pool if and only if it does not overwrite an operation that the lookup misses |
| `ExpelVoting.SignerLost` | isaac/suffrage_voting.go:67-74 | a vote after a later one on the same node loses a signer |
| `ExpelVoting.RunKeepsPool` | isaac/suffrage_voting.go:47-171 | after any run of votes and searches the pool is ordered, every operation has distinct signers, and none expels the local node |
| `ExpelVoting.FoundInRunsAccepted` | isaac/suffrage_voting.go:94-171 | after any such run, what the search of a member finds is accepted at a threshold if and only if the signs suffice for it, as at the default one, and makes the suffrage of exactly the other members |
| `ExpelVoting.TwoOperationsOnOneNode` | isaac/suffrage_voting.go:226-253 | two votes make two operations on one node, which two signs expel together though not alone; a suffrage accepts them, a voteproof does not |
| `LastPoints.AcceptedRaises` | isaac/lastpoint.go:50-123 | what is accepted raises (height, round, stage, majority, confirm) or is a suffrage confirm within a draw's height; the height never drops |
| `LastPoints.AcceptedIff` | isaac/lastpoint.go:50-123 | exactly what is accepted, in terms of that order |
| `LastPoints.LastPointIff` | isaac/lastpoint.go:14-40 | a voteproof has no last point if and only if it confirms a suffrage at another stage than INIT |
| `LastPoints.ZeroAcceptsAll` | isaac/lastpoint.go:50-54 | after a zero last point everything is new |
| `LastPoints.ReplayRejected` | isaac/lastpoint.go:109-132 | the voteproof behind the last point is not new again |
| `LastPoints.NoWayBack` | isaac/lastpoint.go:50-123 | two points follow each other both ways only by a suffrage confirm within a draw's height |
| `LastVoteproofs.LastVoteproofsHandler.Set` | isaac/last_voteproofs.go:139-189 | result, slots and cache after a voteproof, whatever the cache evicts |
| `LastVoteproofs.LastVoteproofsHandler.FillMissing` | isaac/last_voteproofs.go:225-277 | the same for filling a gap |
| `LastVoteproofs.LastVoteproofsHandler.ForceSetLast` | isaac/last_voteproofs.go:191-223 | the same for setting by force |
| `LastVoteproofs.SetFrame` | isaac/last_voteproofs.go:173-188 | a new voteproof fills the slot of its stage and leaves the other one; the majority changes for majorities only; what was there before is cached, and nothing else but evictions |
| `LastVoteproofs.RefusedChangesNothing` | isaac/last_voteproofs.go:139-181 | what is refused changes nothing |
| `LastVoteproofs.FillFrame` | isaac/last_voteproofs.go:225-277 | filling succeeds if and only if there is a gap, and fills the entry of the cap and an empty slot |
| `LastVoteproofs.ForceFrame` | isaac/last_voteproofs.go:191-223 | by force the slot of the stage is filled; the other one and the majority are dropped if and only if that one is ahead |
| `LastVoteproofs.MainPathRaises` | isaac/last_voteproofs.go:160-188 | a new voteproof that is no suffrage confirm becomes the cap and strictly raises it |
| `LastVoteproofs.MainPathCap` | isaac/last_voteproofs.go:160-188 | confirms included: it becomes the cap except for a confirm behind an ACCEPT voteproof of a draw's height |
| `LastVoteproofs.FillKeepsCap` | isaac/last_voteproofs.go:225-277 | filling a gap never changes the cap, from any state |
| `LastVoteproofs.FillOnlyCaches` | isaac/last_voteproofs.go:139-171 | in runs of Set a gap is filled in the cache only |
| `LastVoteproofs.FillOnce` | isaac/last_voteproofs.go:225-277 | a gap that was filled is not filled again |
| `LastVoteproofs.CacheRemembers` | isaac/last_voteproofs.go:184-186 | the cache holds the last voteproofs before a voteproof that was placed |
| `LastVoteproofs.PreviousBlockIsParent` | isaac/last_voteproofs.go:38-59 | the previous block for the next round is the block before that height, given exactly when the last majority knows it |
| `LastVoteproofs.SetSucceedsIff` | isaac/last_voteproofs.go:139-189 | when Set succeeds: by the slots, by what follows the cap, and by the gaps of the cache |
| `LastVoteproofs.AcceptFirstRefused` | isaac/last_voteproofs.go:145-150 | a new handler refuses an ACCEPT voteproof |
| `LastVoteproofs.PreviousAcceptRefused` | isaac/last_voteproofs.go:151-158 | behind the first INIT voteproof the ACCEPT voteproof of the height before is refused |
| `LastVoteproofs.StepKeepsInv` | isaac/last_voteproofs.go:139-189 | ACCEPT comes with INIT, INIT with a majority, the majority is one and not above the cap, the cap's height does not drop |
| `LastVoteproofs.ForceSetsCap` | isaac/last_voteproofs.go:191-223 | from any state, setting by force makes the argument the cap |
| `LastVoteproofs.RunKeepsInv` | isaac/last_voteproofs.go:139-189 | the invariant after every run of Set, confirms included |
| `LastVoteproofs.RunFromEmpty` | isaac/last_voteproofs.go:105-109 | the invariant after every run from a new handler |
| `LastVoteproofs.RunRaises` | isaac/last_voteproofs.go:139-189 | without confirms the cap stays or rises over every run |
| `LastVoteproofs.NeverNewAgain` | isaac/last_voteproofs.go:122-137 | and a voteproof that was the cap is never new again |
| `BlockMaps.IsValidMaps` | base/block.go:167-203 | the slots and the verdict after one delivery |
| `BlockMaps.DeliverChecksLinks` | base/block.go:183-200 | a delivery checks exactly the links it completes |
| `BlockMaps.OrderDoesNotMatter` | base/block.go:167-203 | in whatever order the maps of a batch arrive, all calls succeed if and only if the batch is linked |
| `BlockMaps.ChunkLength` | base/block.go:123-128 | the slice prepared for a chunk has one slot for each of its jobs |
| `BlockMaps.RunJob` | base/block.go:132-158 | slots, last map and verdict after one job |
| `BlockMaps.RunChunk` | util/worker.go:208-216 | the same after the jobs of a chunk in a given order |
| `BlockMaps.RunBatch` | base/block.go:120-131 | one chunk, in a slice of exactly its size |
| `BlockMaps.BatchIsValidMaps` | base/block.go:96-165 | computes the verdict of the specification, for every order of the jobs of each chunk |
| `BlockMaps.ChunkExact` | base/block.go:132-158 | with an honest source the jobs of a chunk succeed, in any order, if and only if everything is there and linked |
| `BlockMaps.BatchExact` | base/block.go:96-165 | for every batch size and order, an honest source passes if and only if all maps from `prev` to `to` form one chain, and what passes is that chain if and only if the source is honest on those heights |
| `BlockMaps.SuccessAsksForAll` | base/block.go:132-158 | whatever the source, on success there was a map for every height, and it passed the callback |
| `BlockMaps.DishonestSourcePasses` | base/block.go:136-151 | a source with the genesis map only passes up to any height, if and only if batches are larger than one |
| `SuffrageWindow.LastConsensusNodesWatcher.CompareProofs` | isaac/last_consensus_nodes_watcher.go:277-326 | the loop rebuilds the specified window |
| `SuffrageWindow.LastConsensusNodesWatcher.LoadLast` | isaac/last_consensus_nodes_watcher.go:338-369 | window, height and candidates after asking the local source |
| `SuffrageWindow.LastConsensusNodesWatcher.Update` | isaac/last_consensus_nodes_watcher.go:216-275 | window, height and candidates after an update, and what counts as updated |
| `SuffrageWindow.LastConsensusNodesWatcher.GetSuffrage` | isaac/last_consensus_nodes_watcher.go:109-150 | the scan finds the newest proof not after the height |
| `SuffrageWindow.CompareKeeps` | isaac/last_consensus_nodes_watcher.go:277-326 | the new window has at most three proofs without a gap and ends with the newest reported one; it is empty if and only if nothing is newer |
| `SuffrageWindow.CompareExact` | isaac/last_consensus_nodes_watcher.go:277-326 | the window is exactly the last three newer proofs, or all newer ones behind as many direct predecessors as there are and fit |
| `SuffrageWindow.WindowIsMaximal` | isaac/last_consensus_nodes_watcher.go:299-320 | contiguous lists that meet make the last three of both together |
| `SuffrageWindow.LocalReplacesWindow` | isaac/last_consensus_nodes_watcher.go:338-369 | a newer proof of the local source replaces the window, any other leaves it |
| `SuffrageWindow.GrowthKeepsAnswers` | isaac/last_consensus_nodes_watcher.go:216-275 | when the next proofs come, every height from the first retained one on has the answer of the history, and none loses it while three are enough |
| `SuffrageWindow.UpdateTakesNewest` | isaac/last_consensus_nodes_watcher.go:244-268 | an update ends at the greatest height and the newest candidates it has heard of |
| `SuffrageWindow.UpdateKeepsInv` | isaac/last_consensus_nodes_watcher.go:216-275 | after every update the window is a piece of the history ending with the latest proof for its height |
| `SuffrageWindow.UpdateKeepsContiguous` | isaac/last_consensus_nodes_watcher.go:216-275 | from contiguous lists come contiguous windows |
| `SuffrageWindow.InitialInv` | isaac/last_consensus_nodes_watcher.go:53-61 | so it is for a new watcher |
| `SuffrageWindow.AnswersRefineHistory` | isaac/last_consensus_nodes_watcher.go:109-150 | an answer is the one of the whole history, and there is one exactly from the first block of the window up to its height |
| `SuffrageWindow.AnswersAtTheEnd` | isaac/last_consensus_nodes_watcher.go:112-126 | the last proof answers for the last height, and nothing for later ones or without a window |
| `SuffrageWindow.RunRefinesHistory` | isaac/last_consensus_nodes_watcher.go:109-275 | the same after every run of updates |
| `AddrQueues.RateLimitAddrsQueue.Add` | launch/ratelimit.go:1096-1105 | the value is last, and once; list and map agree |
| `AddrQueues.RateLimitAddrsQueue.Remove` | launch/ratelimit.go:1107-1120 | the value is gone, the others keep their order |
| `AddrQueues.RateLimitAddrsQueue.Pop` | launch/ratelimit.go:1122-1140 | the oldest value is taken |
| `AddrPool.AddrPool.AddNode` | launch/ratelimit.go:948-970 | a node is recorded once, and for known addresses only |
| `AddrPool.AddrPool.GetRateLimiter` | launch/ratelimit.go:972-1014 | limiters, access time and queue after an access, and the limiter returned |
| `AddrPool.AddrPool.Remove` | launch/ratelimit.go:1016-1027 | the address is gone from all indexes |
| `AddrPool.AddrPool.ShrinkExpired` | launch/ratelimit.go:1030-1052 | exactly the expired addresses of the visited shards are removed, and counted |
| `AddrPool.AddrPool.ShrinkAddrsQueue` | launch/ratelimit.go:1059-1074 | from any state, the oldest addresses beyond the limit are removed; those with limiters are counted |
| `AddrPool.AddrPool.Shrink` | launch/ratelimit.go:1029-1057 | from any state, at most `maxAddrs` addresses stay in the queue; if the indexes agreed the count is the number of addresses that are gone, and without the empty address they agree again |
| `AddrPool.ShrinkMeaning` | launch/ratelimit.go:1029-1074 | that this follows from what is removed and counted |
| `AddrPool.AccessAgrees` | launch/ratelimit.go:972-1014 | an access keeps the indexes in agreement |
| `AddrPool.AccessObserved` | launch/ratelimit.go:972-1014 | what a limiter is made from, that it is kept and returned, that other limiters and all nodes stay, and which access time changes |
| `AddrPool.AccessQueued` | launch/ratelimit.go:984-990 | an address goes to the end of the queue if and only if it has no limiters |
| `AddrPool.ExpiresByAccess` | launch/ratelimit.go:1030-1052 | an address expires by its last access |
| `AddrPool.AddNodeObserved` | launch/ratelimit.go:948-970 | a node is recorded once, for an address that is there, and given to later accesses |
| `AddrPool.RemovedExactly` | launch/ratelimit.go:1016-1027 | removing takes exactly the addresses out of everything |
| `AddrPool.AddNodeAgrees` | launch/ratelimit.go:948-970 | so does recording a node |
| `AddrPool.RemoveAllAgrees` | launch/ratelimit.go:1016-1027 | so does removing |
| `AddrPool.ShrinkAgrees` | launch/ratelimit.go:1029-1057 | shrinking too; of what is not expired it keeps the addresses created last, in order |
| `AddrPool.ShrinkOnlyRemoves` | launch/ratelimit.go:1029-1057 | shrinking changes nothing about the addresses that stay |
| `AddrPool.ShrinkQueueAgreesIff` | launch/ratelimit.go:1059-1074 | evicting keeps the agreement if and only if the empty address is not evicted |
| `AddrPool.EmptyAddressLeftBehind` | launch/ratelimit.go:1063-1065 | an access with an empty address leaves it behind in the maps after the next shrink |
| `AddrPool.ShrinkCounts` | launch/ratelimit.go:1029-1057 | both counts of a shrink together are the number of addresses that are gone |
| `AddrPool.RunAgrees` | launch/ratelimit.go:912-1140 | with non-empty addresses the indexes agree after every run of all operations |
| `ProposalProcessors.DefaultProposalProcessor.Process` | isaac/proposal_processor.go:129-164 | a proposal is processed once, and not after a cancel |
| `ProposalProcessors.DefaultProposalProcessor.Save` | isaac/proposal_processor.go:166-198 | a processor is saved once, not after a cancel, and is closed by it |
| `ProposalProcessors.DefaultProposalProcessor.SaveBlock` | isaac/proposal_processor.go:630-655 | the writer saves only the manifest that the ACCEPT majority agreed on |
| `ProposalProcessors.WritesAtMostOnce` | isaac/proposal_processor.go:129-204 | over every run of a processor its writer saves at most once, and only what Process made |
| `ProposalProcessors.ProcessedIff` | isaac/proposal_processor.go:129-164 | a proposal is processed if and only if it was not, is not cancelled and its operations do not fail; a failure changes nothing |
| `ProposalProcessors.SavedIff` | isaac/proposal_processor.go:129-198 | after a successful Process the writer saves if and only if the majority agreed on that block and the writer gets there, and Save succeeds if and only if that does |
| `ProposalProcessors.NotSaved` | isaac/proposal_processor.go:129-204 | without a Process, or once cancelled, nothing is written |
| `ProposalProcessors.ProposalProcessors.Process` | isaac/proposal_processors.go:61-125 | which processor is current after a proposal |
| `ProposalProcessors.ProposalProcessors.Save` | isaac/proposal_processors.go:127-189 | heights and blocks that are saved, and no processor is left |
| `ProposalProcessors.ProposalProcessors.Cancel` | isaac/proposal_processors.go:191-204 | no processor is left |
| `ProposalProcessors.WrittenIsProcessed` | isaac/proposal_processors.go:151-189 | a block is written only for a new height, the current proposal, and the manifest it was processed to |
| `ProposalProcessors.SaveSucceedsIff` | isaac/proposal_processors.go:127-189 | Save succeeds if and only if the height is new, the current processor is ready for the block and the writer saves it; what is handed over and written, and that no processor is left |
| `ProposalProcessors.StartedIsReady` | isaac/proposal_processors.go:61-125 | after Process has started, the processor is ready for exactly the block it was processed to |
| `ProposalProcessors.NotStarted` | isaac/proposal_processors.go:61-125 | the current processor is left alone if it is for the proposal, and else cancelled |
| `ProposalProcessors.ProcessedCanBeSaved` | isaac/proposal_processors.go:61-189 | over calls, a processed proposal can be saved, if and only if height, proposal and block are right |
| `ProposalProcessors.CanceledCannotBeSaved` | isaac/proposal_processors.go:191-204 | after a cancel nothing can be saved |
| `ProposalProcessors.RunKeepsInv` | isaac/proposal_processors.go:61-204 | the invariant after every run, and that nothing saved is forgotten |
| `ProposalProcessors.OneSavePerHeight` | isaac/proposal_processors.go:151-189 | in every run the heights that are saved and written strictly increase |
| `ProposalProcessors.NeverAgain` | isaac/proposal_processors.go:156-173 | a height that was handed over is refused for the rest of the run, even if its save failed |
| `CandidateLimiter.NewCandidatesBound` | isaac/suffrage_limiter.go:125-156 | the subtraction does not wrap around, and what is retained is more than two thirds of what it carries |
| `CandidateLimiter.LimitIs` | isaac/suffrage_limiter.go:140-155 | the limit in whole numbers, for every size and ratio |
| `CandidateLimiter.LimitOtherwise` | isaac/suffrage_limiter.go:129-142 | the error cases, and the limit below four members |
| `CandidateLimiter.MonotoneInRatio` | isaac/suffrage_limiter.go:144-151 | the limit grows with the ratio |
| `CandidateLimiter.UnderThirdIff` | isaac/suffrage_limiter.go:123-156 | newcomers stay below a third if and only if the extra nodes are no more than the failing ones |
| `CandidateLimiter.SevenMayDouble` | isaac/suffrage_limiter.go:144-155 | the full ratio lets a suffrage of seven double |
| `CandidateLimiter.SafeRatioIff` | isaac/suffrage_limiter.go:125-156 | for every size they stay below a third if and only if the ratio is below 3/7 |
| `CandidateLimiter.LimitUnderThirdIff` | isaac/suffrage_limiter.go:72-91 | the configured limit keeps the bound if and only if what it comes from does: a minimum or maximum below half the suffrage, or the limit by ratio |
| `CandidateLimiter.MaximumKeepsBound` | isaac/suffrage_limiter.go:72-91 | without a minimum, a maximum never breaks the bound |
| `CandidateLimiter.MinimumBreaksBound` | isaac/suffrage_limiter.go:72-91 | a minimum of two breaks it for four members |
| `Framing.WriteLengthed` | util/bytes.go:159-175 | writes the length and the bytes |
| `Framing.WriteLengthedSlice` | util/bytes.go:250-262 | writes the encoding of a slice |
| `Framing.ReadLengthedBytesSlice` | util/bytes.go:264-292 | the loop computes the recursive decoding |
| `Framing.LengthRoundTrip` | util/int.go:54-70 | a 64-bit length is read back from its eight bytes |
| `Framing.BigEndianIsOrdered` | util/int.go:50-59 | the bytes of numbers are ordered as the numbers are |
| `Framing.RoundTripIff` | util/bytes.go:250-292 | reading what was written, whatever follows it, gives it back if and only if there are at most 32767 entries |
| `Framing.Canonical` | util/bytes.go:264-292 | what is accepted within the limit is exactly the encoding of the result |
| `Framing.CanonicalIff` | util/bytes.go:269-273 | and it is so only within the limit |
| `Framing.EnsureRead` | util/bytes.go:94-138 | reads exactly the bytes asked for, however the stream is cut, or fails if it is too short |
| `Framing.ReadLength` | util/bytes.go:205-216 | reads a length whenever there are eight bytes |
| `Framing.ReadLengthed` | util/bytes.go:218-237 | reads the same entry as the reader in memory, up to the size limit |
| `Framing.ReadLengthedSlice` | util/bytes.go:294-328 | accepts exactly what the reader in memory accepts within the limits, with the same entries and the exact count of bytes, however the stream is cut |
| `Framing.StreamRoundTrip` | util/bytes.go:250-328 | streaming what was written gives it back |

## Left out

- Rounding of floating point numbers in thresholds and limits; negative percentages, which Go converts to unsigned integers in a way that depends on the machine.
- Signatures, public key encoding and hashes: signatures are taken as verified, hashes are strings, and equal strings are equal facts.
- Stage strings other than the three named ones, and nil entries in lists other than the nodes of a new suffrage.
- Voteproofs with expels: that the majority fact lists the same expels as the voteproof (isaac/voteproof.go:420-435).
- Stuck voteproofs in the intersection lemmas, because their votes are deliberately not counted again; that the stuck resolver takes only those of the found expels that are on nodes it misses.
- The encoding of expel operations in the database, whose keys are taken to be ordered by end and fact hash, and its errors.
- The counter of ties in FindVoteResult, which is assigned and never read.
- Goroutines, timeouts, tickers, retries and contexts: each locked method is one step; a job of a batch fetches, checks and calls back in one step; a cancelled shrink is a number of visited shards.
- How the cache of last voteproofs picks what it evicts: any choice is an input of the step.
- The operations inside a proposal, the manifest and the block writer: what processing and writing come to is an input of the step.
- ACCEPT voteproofs without a majority in Save, for which the source has no answer.
- Errors of readers and writers other than the end of the stream.
- The builder of suffrage proofs, the fixed limiter, and the frames around length-prefixed slices.
