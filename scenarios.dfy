/**
 The test cases of the `Twitter` test suite, each as a method that deploys a
 fresh contract (as `beforeEach` does) and makes the same calls. What each test
 asserts is the method's postcondition, proved from the contracts of the
 `Twitter` class and the lemmas about `Visible`.
 */
module TwitterTests {
  import opened TweetLedger
  import LedgerProperties

  const Hello: string := "Hello, world!"
  const Goodbye: string := "Goodbye, world!"

  /** A fresh contract shows no tweets. */
  method EmptyInitialState(owner: Address) returns (shown: seq<Tweet>)
    ensures shown == []
  {
    var twitter := new Twitter(owner);
    shown := twitter.GetTweets();
  }

  /** Creating a tweet shows exactly that one tweet, with its content. */
  method CreatesTweet(owner: Address) returns (id: nat, shown: seq<Tweet>)
    ensures id == 0
    ensures |shown| == 1 && shown[0].content == Hello
    ensures shown == [Tweet(0, owner, Hello, false)]
  {
    var twitter := new Twitter(owner);
    id := twitter.CreateTweet(owner, Hello);
    LedgerProperties.VisibleAppend([], Tweet(0, owner, Hello, false));
    shown := twitter.GetTweets();
  }

  /** The author edits tweet 0: still one tweet shown, now with the new content. */
  method EditsOwnTweet(owner: Address) returns (id: nat, s: Status, shown: seq<Tweet>)
    ensures id == 0 && s == Ok
    ensures |shown| == 1 && shown[0].content == Goodbye
    ensures shown == [Tweet(0, owner, Goodbye, false)]
  {
    var twitter := new Twitter(owner);
    id := twitter.CreateTweet(owner, Hello);
    s := twitter.EditTweet(owner, 0, Goodbye);
    LedgerProperties.VisibleAppend([], Tweet(0, owner, Goodbye, false));
    assert twitter.tweets == [] + [Tweet(0, owner, Goodbye, false)];
    shown := twitter.GetTweets();
  }

  /** Another account cannot edit the owner's tweet; the tweet is as it was. */
  method CannotEditOthersTweet(owner: Address, other: Address) returns (s: Status, shown: seq<Tweet>)
    requires owner != other
    ensures s == Unauthorized(NotAuthorReason) && Reason(s) == "You are not the author of this tweet"
    ensures shown == [Tweet(0, owner, Hello, false)]
  {
    var twitter := new Twitter(owner);
    var id := twitter.CreateTweet(owner, Hello);
    assert id == 0;
    s := twitter.EditTweet(other, 0, Goodbye);
    LedgerProperties.VisibleAppend([], Tweet(0, owner, Hello, false));
    shown := twitter.GetTweets();
  }

  /** Once the author has deleted tweet 0 (which succeeds), it cannot be edited. */
  method CannotEditDeletedTweet(owner: Address) returns (deleted: Status, s: Status)
    ensures deleted == Ok
    ensures s == AlreadyDeleted && Reason(s) == "The tweet is deleted"
  {
    var twitter := new Twitter(owner);
    var id := twitter.CreateTweet(owner, Hello);
    assert id == 0;
    deleted := twitter.DeleteTweet(owner, 0);
    s := twitter.EditTweet(owner, 0, Goodbye);
  }

  /** The author deletes tweet 0: no tweet is shown any more. */
  method DeletesOwnTweet(owner: Address) returns (s: Status, shown: seq<Tweet>)
    ensures s == Ok && shown == []
  {
    var twitter := new Twitter(owner);
    var id := twitter.CreateTweet(owner, Hello);
    assert id == 0;
    s := twitter.DeleteTweet(owner, 0);
    LedgerProperties.VisibleAppend([], Tweet(0, owner, Hello, true));
    assert twitter.tweets == [] + [Tweet(0, owner, Hello, true)];
    shown := twitter.GetTweets();
  }

  /** Another account cannot delete the owner's tweet; it is still shown. */
  method CannotDeleteOthersTweet(owner: Address, other: Address) returns (s: Status, shown: seq<Tweet>)
    requires owner != other
    ensures s == Unauthorized(NotAuthorReason) && Reason(s) == "You are not the author of this tweet"
    ensures shown == [Tweet(0, owner, Hello, false)]
  {
    var twitter := new Twitter(owner);
    var id := twitter.CreateTweet(owner, Hello);
    assert id == 0;
    s := twitter.DeleteTweet(other, 0);
    LedgerProperties.VisibleAppend([], Tweet(0, owner, Hello, false));
    shown := twitter.GetTweets();
  }

  /** Once the author has deleted tweet 0 (which succeeds), it cannot be deleted again. */
  method CannotDeleteDeletedTweet(owner: Address) returns (deleted: Status, s: Status)
    ensures deleted == Ok
    ensures s == AlreadyDeleted && Reason(s) == "The tweet is deleted"
  {
    var twitter := new Twitter(owner);
    var id := twitter.CreateTweet(owner, Hello);
    assert id == 0;
    deleted := twitter.DeleteTweet(owner, 0);
    s := twitter.DeleteTweet(owner, 0);
  }

  /** The deployer withdraws from a contract that holds nothing; the call succeeds. */
  method OwnerWithdraws(owner: Address) returns (s: Status, paid: nat)
    ensures s == Ok && paid == 0
  {
    var twitter := new Twitter(owner);
    s, paid := twitter.Withdraw(owner);
  }

  /** Any other account's withdrawal reverts as not the owner. */
  method OthersCannotWithdraw(owner: Address, other: Address) returns (s: Status)
    requires owner != other
    ensures s == Unauthorized(NotOwnerReason) && Reason(s) == "Ownable: caller is not the owner"
  {
    var twitter := new Twitter(owner);
    var paid;
    s, paid := twitter.Withdraw(other);
  }
}
