/**
 The `Twitter` contract: an append-only ledger of tweets with author-only
 edit and soft delete, a public read of the tweets that are not deleted, and
 an owner-only withdrawal of the contract balance.

 The caller of every call (`msg.sender`) is an explicit `Address` parameter.
 A call that the contract rejects reverts, so it leaves the state as it was;
 here it returns a `Status` other than `Ok` and changes nothing.
 */
module TweetLedger {

  /** An Ethereum account: a 160-bit address. */
  newtype Address = x: int | 0 <= x < 0x1_0000_0000_0000_0000_0000_0000_0000_0000_0000_0000

  /** One stored tweet; `id` is its position in the ledger. */
  datatype Tweet = Tweet(id: nat, author: Address, content: string, deleted: bool)

  /** The outcome of a call: `Ok`, or the reason it reverted. */
  datatype Status =
    | Ok
    | NotFound                    // the id is past the end of the ledger
    | Unauthorized(reason: string) // the caller is not the author, or not the owner
    | AlreadyDeleted              // the tweet is soft-deleted

  const NotAuthorReason: string := "You are not the author of this tweet"
  const NotOwnerReason: string := "Ownable: caller is not the owner"
  const DeletedReason: string := "The tweet is deleted"

  /** The revert string a caller sees; an out-of-range index is a panic without one. */
  function Reason(s: Status): string
  {
    match s
    case Ok => ""
    case NotFound => ""
    case Unauthorized(reason) => reason
    case AlreadyDeleted => DeletedReason
  }

  /** Every tweet's id is its position in the ledger. */
  predicate WellFormed(tweets: seq<Tweet>)
  {
    forall i :: 0 <= i < |tweets| ==> tweets[i].id == i
  }

  /**
   `getTweets()`: the tweets that are not deleted, in ledger order.
   Deleted tweets are left out entirely, not merely flagged.
   */
  function Visible(tweets: seq<Tweet>): (r: seq<Tweet>)
    ensures |r| <= |tweets|
    ensures forall t :: t in r <==> t in tweets && !t.deleted
    decreases |tweets|
  {
    if tweets == [] then []
    else
      var init, last := tweets[..|tweets| - 1], tweets[|tweets| - 1];
      assert tweets == init + [last];
      var rest := Visible(init);
      if last.deleted then rest else rest + [last]
  }

  /** The whole state of a deployed contract, as a value. */
  datatype Ledger = Ledger(tweets: seq<Tweet>, owner: Address, balance: nat)

  /** The contract just deployed by `deployer`: no tweets, owned by the deployer, nothing held. */
  function Deploy(deployer: Address): Ledger
  {
    Ledger([], deployer, 0)
  }

  /** One external call, with the account that sends it. */
  datatype Call =
    | CreateTweet(caller: Address, content: string)
    | EditTweet(caller: Address, id: nat, content: string)
    | DeleteTweet(caller: Address, id: nat)
    | Withdraw(caller: Address)

  /**
   The checks `editTweet` and `deleteTweet` make before changing tweet `id`:
   the id must exist, the caller must be its author, and it must not be deleted,
   tried in that order.
   */
  function CheckMutable(tweets: seq<Tweet>, caller: Address, id: nat): Status
  {
    if id >= |tweets| then NotFound
    else if tweets[id].author != caller then Unauthorized(NotAuthorReason)
    else if tweets[id].deleted then AlreadyDeleted
    else Ok
  }

  /**
   The ledger `next` keeps everything `l` has fixed: the same owner, every
   tweet still present with the same id and author, and a deleted tweet
   deleted and unchanged.
   */
  predicate Extends(l: Ledger, next: Ledger)
  {
    && next.owner == l.owner
    && |l.tweets| <= |next.tweets|
    && forall i :: 0 <= i < |l.tweets| ==> Keeps(l.tweets[i], next.tweets[i])
  }

  predicate Keeps(t: Tweet, later: Tweet)
  {
    later.id == t.id && later.author == t.author && (t.deleted ==> later == t)
  }

  /**
   The effect of one call on the ledger and the status it returns.
   A rejected call reverts: the ledger is returned unchanged.
   */
  function Step(l: Ledger, c: Call): (r: (Ledger, Status))
    ensures r.1 != Ok ==> r.0 == l
    ensures Extends(l, r.0)
    ensures WellFormed(l.tweets) ==> WellFormed(r.0.tweets)
  {
    match c
    case CreateTweet(caller, content) =>
      (l.(tweets := l.tweets + [Tweet(|l.tweets|, caller, content, false)]), Ok)
    case EditTweet(caller, id, content) =>
      var s := CheckMutable(l.tweets, caller, id);
      if s != Ok then (l, s)
      else (l.(tweets := l.tweets[id := l.tweets[id].(content := content)]), Ok)
    case DeleteTweet(caller, id) =>
      var s := CheckMutable(l.tweets, caller, id);
      if s != Ok then (l, s)
      else (l.(tweets := l.tweets[id := l.tweets[id].(deleted := true)]), Ok)
    case Withdraw(caller) =>
      if caller != l.owner then (l, Unauthorized(NotOwnerReason))
      else (l.(balance := 0), Ok)
  }

  /** The ledger after a sequence of calls, applied one at a time in order. */
  function Run(l: Ledger, calls: seq<Call>): Ledger
    decreases |calls|
  {
    if calls == [] then l else Run(Step(l, calls[0]).0, calls[1..])
  }

  /** The deployed contract. Its fields change only through its methods. */
  class Twitter {
    var tweets: seq<Tweet>
    const owner: Address
    var balance: nat

    /**
     The object invariant: ids equal positions. It is what lets a caller apply
     the ledger lemmas (id order of `GetTweets()`, the effect of an edit or a
     delete on it) to `State()`.
     */
    ghost predicate Valid()
      reads this
    {
      WellFormed(tweets)
    }

    /** The contract's state as a `Ledger` value. */
    function State(): Ledger
      reads this
    {
      Ledger(tweets, owner, balance)
    }

    /** Deployment: the deploying account becomes the owner. */
    constructor (deployer: Address)
      ensures Valid()
      ensures State() == Deploy(deployer)
      ensures GetTweets() == []
    {
      tweets := [];
      owner := deployer;
      balance := 0;
    }

    /** `getTweets()`: the tweets that are not deleted, in creation order. */
    function GetTweets(): (r: seq<Tweet>)
      reads this
      ensures |r| <= |tweets|
      ensures forall t :: t in r <==> t in tweets && !t.deleted
    {
      Visible(tweets)
    }

    /** `createTweet(content)`: appends a live tweet authored by the caller and returns its id. */
    method CreateTweet(caller: Address, content: string) returns (id: nat)
      requires Valid()
      modifies this
      ensures Valid()
      ensures id == |old(tweets)|
      ensures tweets == old(tweets) + [Tweet(id, caller, content, false)]
      ensures balance == old(balance)
      ensures State() == Step(old(State()), Call.CreateTweet(caller, content)).0
    {
      id := |tweets|;
      tweets := tweets + [Tweet(id, caller, content, false)];
    }

    /** `editTweet(id, content)`: the author replaces the content of a live tweet. */
    method EditTweet(caller: Address, id: nat, content: string) returns (s: Status)
      requires Valid()
      modifies this
      ensures Valid()
      ensures id >= |old(tweets)| ==> s == NotFound
      ensures id < |old(tweets)| && old(tweets)[id].author != caller ==> s == Unauthorized(NotAuthorReason)
      ensures id < |old(tweets)| && old(tweets)[id].author == caller && old(tweets)[id].deleted ==> s == AlreadyDeleted
      ensures s == Ok ==> tweets == old(tweets)[id := old(tweets)[id].(content := content)]
      ensures s != Ok ==> tweets == old(tweets)
      ensures balance == old(balance)
      ensures (State(), s) == Step(old(State()), Call.EditTweet(caller, id, content))
    {
      if id >= |tweets| {
        return NotFound;
      }
      if tweets[id].author != caller {
        return Unauthorized(NotAuthorReason);
      }
      if tweets[id].deleted {
        return AlreadyDeleted;
      }
      tweets := tweets[id := tweets[id].(content := content)];
      s := Ok;
    }

    /** `deleteTweet(id)`: the author marks a live tweet deleted; it stays in storage. */
    method DeleteTweet(caller: Address, id: nat) returns (s: Status)
      requires Valid()
      modifies this
      ensures Valid()
      ensures id >= |old(tweets)| ==> s == NotFound
      ensures id < |old(tweets)| && old(tweets)[id].author != caller ==> s == Unauthorized(NotAuthorReason)
      ensures id < |old(tweets)| && old(tweets)[id].author == caller && old(tweets)[id].deleted ==> s == AlreadyDeleted
      ensures s == Ok ==> tweets == old(tweets)[id := old(tweets)[id].(deleted := true)]
      ensures s != Ok ==> tweets == old(tweets)
      ensures balance == old(balance)
      ensures (State(), s) == Step(old(State()), Call.DeleteTweet(caller, id))
    {
      if id >= |tweets| {
        return NotFound;
      }
      if tweets[id].author != caller {
        return Unauthorized(NotAuthorReason);
      }
      if tweets[id].deleted {
        return AlreadyDeleted;
      }
      tweets := tweets[id := tweets[id].(deleted := true)];
      s := Ok;
    }

    /**
     `withdraw()`: the owner takes the whole balance, which may be zero.
     `paid` is the amount sent to the owner.
     */
    method Withdraw(caller: Address) returns (s: Status, paid: nat)
      requires Valid()
      modifies this
      ensures Valid()
      ensures s == Ok <==> caller == owner
      ensures s != Ok ==> s == Unauthorized(NotOwnerReason) && paid == 0 && balance == old(balance)
      ensures s == Ok ==> paid == old(balance) && balance == 0
      ensures tweets == old(tweets)
      ensures (State(), s) == Step(old(State()), Call.Withdraw(caller))
    {
      if caller != owner {
        return Unauthorized(NotOwnerReason), 0;
      }
      paid := balance;
      balance := 0;
      s := Ok;
    }
  }
}
