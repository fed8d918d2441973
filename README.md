# Twitter tweet ledger

A model of the `Twitter` smart contract that the test suite at
`repo/test/Twitter.test.js` exercises. The contract source is not part of this
model, so everything here is the behaviour that the suite pins down.

The contract keeps three things:
- an append-only list of tweets, each with an id equal to its position, an author, content and a `deleted` flag;
- an owner, which is the deploying account;
- a balance.

Its calls work as follows:
- `createTweet` appends a tweet.
- `editTweet` replaces a tweet's content. Only the author may do it, and only while the tweet is not deleted.
- `deleteTweet` sets the `deleted` flag, with the same two checks.
- `getTweets` returns the tweets that are not deleted, in creation order.
- `withdraw` is for the owner only.

A rejected call reverts, so it changes nothing.

Files:
- `twitter.dfy` (module `TweetLedger`) holds the data types and the `Visible` filter behind `getTweets`. It also holds `Step`, the effect of one call on the ledger as a value, and `Run`, a sequence of calls. The class `Twitter` holds the contract's mutable state. Each of its methods is proved to do what `Step` says.
- `properties.dfy` (module `LedgerProperties`) proves what the tests assert, and the invariants behind them, as lemmas over `Step`, `Run` and `Visible`.
- `scenarios.dfy` (module `TwitterTests`) has one method per test case. Each method deploys a fresh `Twitter`, as the suite's `beforeEach` does, and makes that test's calls. The test's assertions are the method's postconditions, proved from the class contracts and the lemmas about `Visible`.

Modelling decisions that the tests do not settle:
- An id past the end of the list is rejected with `NotFound` before any other check. In Solidity this is the out-of-bounds array panic, which carries no reason string, so `Reason(NotFound)` is empty.
- The author check comes before the deleted check. So a non-author who touches a deleted tweet gets "You are not the author of this tweet".
- The caller (`msg.sender`) is an explicit `Address` parameter, a 160-bit account number. Deployment is the constructor, and its argument is the deploying account.

## Model

| member | source | states |
|---|---|---|
| TweetLedger.Visible | repo/test/Twitter.test.js:55-61 | `getTweets()` returns no more tweets than are stored, and a tweet is in the result exactly when it is stored and not deleted |
| TweetLedger.Twitter.GetTweets | repo/test/Twitter.test.js:19-20 | the class's `getTweets()` returns `Visible(tweets)`: no more tweets than are stored, and a tweet is in the result exactly when it is stored and not deleted |
| LedgerProperties.RevertReasons | repo/test/Twitter.test.js:43-85 | for every call on every ledger, the revert string that `revertedWith` matches is empty exactly when the call succeeds or hits the out-of-range panic. A rejected `withdraw` carries "Ownable: caller is not the owner", any other unauthorized call "You are not the author of this tweet", and a deleted tweet "The tweet is deleted" |
| TweetLedger.Step | repo/test/Twitter.test.js:40-87 | every call either succeeds or reverts, and a reverted call leaves the ledger unchanged. No call changes the owner, shrinks the list or changes a tweet's id or author. No call touches a deleted tweet. Ids stay equal to positions |
| TweetLedger.Twitter.constructor | repo/test/Twitter.test.js:10-15 | deployment makes the deployer the owner, with no tweets, zero balance and an empty `getTweets()` |
| TweetLedger.Twitter.CreateTweet | repo/test/Twitter.test.js:23-29 | appends a live tweet by the caller, with id equal to the old length. The balance is unchanged. The result agrees with `Step` |
| TweetLedger.Twitter.EditTweet | repo/test/Twitter.test.js:31-53 | an out-of-range id gives `NotFound`. A non-author gets the not-the-author revert. The author of a deleted tweet gets `AlreadyDeleted`. Otherwise only that tweet's content is replaced. On any error nothing changes. The result agrees with `Step` |
| TweetLedger.Twitter.DeleteTweet | repo/test/Twitter.test.js:55-76 | the same three rejections as edit. On success only that tweet's `deleted` flag is set. On any error nothing changes. The result agrees with `Step` |
| TweetLedger.Twitter.Withdraw | repo/test/Twitter.test.js:79-87 | succeeds exactly when the caller is the owner, even with zero balance. It then pays the whole balance and zeroes it. Any other caller gets "Ownable: caller is not the owner" and nothing changes |
| LedgerProperties.VisibleAppend | repo/test/Twitter.test.js:23-29 | appending a tweet adds it to the end of `getTweets()` exactly when it is live |
| LedgerProperties.VisibleIdsIndexLedger | repo/test/Twitter.test.js:55-61 | every tweet `getTweets()` returns is live and is the stored tweet at position equal to its id |
| LedgerProperties.VisibleAscending | repo/test/Twitter.test.js:23-38 | `getTweets()` lists tweets in creation order, with ids strictly ascending |
| LedgerProperties.DeployedIsEmpty | repo/test/Twitter.test.js:18-21 | a freshly deployed ledger's `getTweets()` is empty, and its owner is the deployer |
| LedgerProperties.CreateShowsTweet | repo/test/Twitter.test.js:23-29 | `createTweet` always succeeds and appends the new tweet, with the next id, to `getTweets()` |
| LedgerProperties.CreateOnFreshLedger | repo/test/Twitter.test.js:23-29 | on a fresh ledger, `createTweet(c)` makes `getTweets()` exactly one tweet, with id 0 and content `c` |
| LedgerProperties.VisibleAfterEdit | repo/test/Twitter.test.js:31-38 | replacing live tweet `i` in place keeps the count of `getTweets()` and changes only the entry with id `i` |
| LedgerProperties.EditByAuthor | repo/test/Twitter.test.js:31-38 | the author's edit of a live tweet succeeds. The count shown stays the same, and the entry with that id now has the new content |
| LedgerProperties.DeleteCountsOneFewer | repo/test/Twitter.test.js:55-61 | soft-deleting a live tweet lowers the count of `getTweets()` by exactly one |
| LedgerProperties.VisibleAfterDelete | repo/test/Twitter.test.js:55-61 | soft-deleting live tweet `i` lowers the count of `getTweets()` by one and removes exactly the tweet with id `i` |
| LedgerProperties.DeleteByAuthor | repo/test/Twitter.test.js:55-61 | the author's delete of a live tweet succeeds, lowers the count shown by one and hides exactly that tweet |
| LedgerProperties.NonAuthorRejected | repo/test/Twitter.test.js:40-69 | an edit or delete by a non-author reverts with "You are not the author of this tweet" and leaves the ledger unchanged |
| LedgerProperties.DeletedIsTerminal | repo/test/Twitter.test.js:48-76 | after a successful delete, both a further edit and a further delete revert with "The tweet is deleted" and change nothing |
| LedgerProperties.WithdrawOnlyByOwner | repo/test/Twitter.test.js:79-87 | `withdraw` succeeds exactly for the owner and then zeroes the balance. Anyone else gets "Ownable: caller is not the owner" and nothing changes |
| LedgerProperties.WithdrawOnFreshLedger | repo/test/Twitter.test.js:80-82 | the deployer's `withdraw` on a fresh ledger that was never funded succeeds |
| LedgerProperties.RunExtends | repo/test/Twitter.test.js:17-77 | over any sequence of calls, the owner is fixed and the list only grows. Ids and authors never change, a deleted tweet stays deleted and unchanged, and ids stay equal to positions |
| LedgerProperties.DeletedNeverShownAgain | repo/test/Twitter.test.js:55-61 | once a tweet is deleted, no later sequence of calls makes `getTweets()` show it again |
| LedgerProperties.OwnerIsDeployer | repo/test/Twitter.test.js:10-15 | after any sequence of the modelled calls (create, edit, delete, withdraw), the owner is still the deploying account |
| TwitterTests.EmptyInitialState | repo/test/Twitter.test.js:18-21 | a fresh contract's `getTweets()` is empty |
| TwitterTests.CreatesTweet | repo/test/Twitter.test.js:23-29 | `createTweet("Hello, world!")` returns id 0, and then one tweet is shown, with that content |
| TwitterTests.EditsOwnTweet | repo/test/Twitter.test.js:31-38 | the first tweet gets id 0, and the author's `editTweet(0, "Goodbye, world!")` succeeds. One tweet is shown, with the new content |
| TwitterTests.CannotEditOthersTweet | repo/test/Twitter.test.js:40-46 | another account's edit reverts with "You are not the author of this tweet", and the tweet is unchanged |
| TwitterTests.CannotEditDeletedTweet | repo/test/Twitter.test.js:48-53 | the author's delete of tweet 0 succeeds, and a later edit of it reverts with "The tweet is deleted" |
| TwitterTests.DeletesOwnTweet | repo/test/Twitter.test.js:55-61 | the author's delete succeeds, and `getTweets()` is then empty |
| TwitterTests.CannotDeleteOthersTweet | repo/test/Twitter.test.js:63-69 | another account's delete reverts with "You are not the author of this tweet", and the tweet is still shown |
| TwitterTests.CannotDeleteDeletedTweet | repo/test/Twitter.test.js:71-76 | the author's delete of tweet 0 succeeds, and a second delete of it reverts with "The tweet is deleted" |
| TwitterTests.OwnerWithdraws | repo/test/Twitter.test.js:80-82 | the deployer's `withdraw` succeeds and pays out zero |
| TwitterTests.OthersCannotWithdraw | repo/test/Twitter.test.js:84-86 | another account's `withdraw` reverts with "Ownable: caller is not the owner" |

## Left out

- Receiving ether: the contract's way of accepting deposits is not part of this model. The balance therefore starts at zero and only `withdraw` changes it.
- The transfer of the balance to the owner's account: `Withdraw` returns the amount paid instead.
- Gas, and the time stamp a tweet may carry: no test observes either.
- Emitted events: no test observes them.
- The hardhat and ethers machinery: signers, contract factories, `connect` and promises. The caller becomes a parameter, and deployment becomes the constructor.
- The mocha and chai harness. Its assertions become postconditions.
- The width of the id argument: the contract takes a 256-bit unsigned integer, and the model uses `nat`. No list can reach 2^256 entries, so nothing is lost.
- OwnerIsDeployer, the owner: the revert string "Ownable: caller is not the owner" is that of OpenZeppelin's `Ownable`, whose `transferOwnership` and `renounceOwnership` change the owner. Those two calls are not modelled, so the owner stays the deployer only over the four modelled calls.
- The order of the checks and the out-of-range behaviour: these are the modelling decisions above, not behaviour the tests assert.
