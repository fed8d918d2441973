/**
 Properties of the tweet ledger, stated over the `Step`, `Run` and `Visible`
 functions that the `Twitter` class is proved against.
 */
module LedgerProperties {
  import opened TweetLedger

  /** Appending one tweet extends the visible list by it exactly when it is live. */
  lemma VisibleAppend(tweets: seq<Tweet>, t: Tweet)
    ensures Visible(tweets + [t]) == if t.deleted then Visible(tweets) else Visible(tweets) + [t]
  {
    assert (tweets + [t])[..|tweets|] == tweets;
  }

  /** In a well-formed ledger every id shown by `getTweets()` is an index of a live tweet. */
  lemma VisibleIdsIndexLedger(tweets: seq<Tweet>)
    requires WellFormed(tweets)
    ensures forall t :: t in Visible(tweets) ==> t.id < |tweets| && tweets[t.id] == t && !t.deleted
  {
    forall t | t in Visible(tweets)
      ensures t.id < |tweets| && tweets[t.id] == t
    {
      var i :| 0 <= i < |tweets| && tweets[i] == t;
    }
  }

  /** `getTweets()` lists the live tweets in creation order: ids strictly ascending. */
  lemma {:induction false} VisibleAscending(tweets: seq<Tweet>)
    requires WellFormed(tweets)
    ensures forall j, k :: 0 <= j < k < |Visible(tweets)| ==> Visible(tweets)[j].id < Visible(tweets)[k].id
  {
    if tweets != [] {
      var n := |tweets|;
      var init, last := tweets[..n - 1], tweets[n - 1];
      assert tweets == init + [last];
      VisibleAscending(init);
      VisibleIdsIndexLedger(init);
      VisibleAppend(init, last);
      var v := Visible(init);
      forall j | 0 <= j < |v| ensures v[j].id < last.id {
        assert v[j] in v;
      }
    }
  }

  /** A freshly deployed contract shows no tweets. */
  lemma DeployedIsEmpty(deployer: Address)
    ensures Visible(Deploy(deployer).tweets) == []
    ensures Deploy(deployer).owner == deployer && WellFormed(Deploy(deployer).tweets)
  {
  }

  /** `createTweet` adds the new tweet, with the next id, to the end of `getTweets()`. */
  lemma CreateShowsTweet(l: Ledger, caller: Address, content: string)
    ensures Step(l, CreateTweet(caller, content)).1 == Ok
    ensures Visible(Step(l, CreateTweet(caller, content)).0.tweets)
         == Visible(l.tweets) + [Tweet(|l.tweets|, caller, content, false)]
  {
    VisibleAppend(l.tweets, Tweet(|l.tweets|, caller, content, false));
  }

  /** On a fresh contract, one `createTweet(c)` makes `getTweets()` exactly one tweet, id 0, content `c`. */
  lemma CreateOnFreshLedger(deployer: Address, caller: Address, content: string)
    ensures Visible(Run(Deploy(deployer), [CreateTweet(caller, content)]).tweets)
         == [Tweet(0, caller, content, false)]
  {
    CreateShowsTweet(Deploy(deployer), caller, content);
  }

  /**
   Editing live tweet `i` in place: `getTweets()` keeps its length, and shows
   `edited` where it showed tweet `i` and the other tweets as before.
   */
  lemma {:induction false} VisibleAfterEdit(tweets: seq<Tweet>, i: nat, edited: Tweet)
    requires WellFormed(tweets) && i < |tweets| && !tweets[i].deleted
    requires edited.id == i && !edited.deleted
    ensures |Visible(tweets[i := edited])| == |Visible(tweets)|
    ensures forall j :: 0 <= j < |Visible(tweets)| ==>
      Visible(tweets[i := edited])[j] == if Visible(tweets)[j].id == i then edited else Visible(tweets)[j]
  {
    var n := |tweets|;
    var init, last := tweets[..n - 1], tweets[n - 1];
    assert tweets == init + [last];
    if i == n - 1 {
      EditLast(init, last, edited);
    } else {
      assert tweets[i := edited] == init[i := edited] + [last];
      VisibleAfterEdit(init, i, edited);
      EditBeforeLast(init, last, i, edited);
    }
  }

  /** The edited tweet is the last one: everything before it is shown unchanged. */
  lemma EditLast(init: seq<Tweet>, last: Tweet, edited: Tweet)
    requires WellFormed(init) && last.id == |init| && !last.deleted
    requires edited.id == |init| && !edited.deleted
    ensures Visible(init + [last]) == Visible(init) + [last]
    ensures Visible(init + [edited]) == Visible(init) + [edited]
    ensures forall j :: 0 <= j < |Visible(init)| ==> Visible(init)[j].id != |init|
  {
    VisibleAppend(init, last);
    VisibleAppend(init, edited);
    VisibleIdsIndexLedger(init);
    var v := Visible(init);
    forall j | 0 <= j < |v| ensures v[j].id != |init| {
      assert v[j] in v;
    }
  }

  /** The edited tweet lies before `last`: appending `last` keeps the correspondence. */
  lemma EditBeforeLast(init: seq<Tweet>, last: Tweet, i: nat, t: Tweet)
    requires i < |init| && last.id != i
    requires |Visible(init[i := t])| == |Visible(init)|
    requires forall j :: 0 <= j < |Visible(init)| ==>
      Visible(init[i := t])[j] == if Visible(init)[j].id == i then t else Visible(init)[j]
    ensures |Visible(init[i := t] + [last])| == |Visible(init + [last])|
    ensures forall j :: 0 <= j < |Visible(init + [last])| ==>
      Visible(init[i := t] + [last])[j] == if Visible(init + [last])[j].id == i then t else Visible(init + [last])[j]
  {
    VisibleAppend(init, last);
    VisibleAppend(init[i := t], last);
    if !last.deleted {
      AppendKeepsEdit(Visible(init), Visible(init[i := t]), last, i, t);
    }
  }

  /** Appending the same tweet `last` to both lists keeps the edit correspondence. */
  lemma AppendKeepsEdit(shown: seq<Tweet>, edited: seq<Tweet>, last: Tweet, i: nat, t: Tweet)
    requires last.id != i && |edited| == |shown|
    requires forall j :: 0 <= j < |shown| ==> edited[j] == if shown[j].id == i then t else shown[j]
    ensures forall j :: 0 <= j < |shown + [last]| ==>
      (edited + [last])[j] == if (shown + [last])[j].id == i then t else (shown + [last])[j]
  {
  }

  /**
   The author's `editTweet(i, c)` on a live tweet succeeds and changes only the
   content shown for tweet `i`; the number of tweets shown stays the same.
   */
  lemma EditByAuthor(l: Ledger, caller: Address, i: nat, content: string)
    requires WellFormed(l.tweets) && i < |l.tweets|
    requires l.tweets[i].author == caller && !l.tweets[i].deleted
    ensures Step(l, EditTweet(caller, i, content)).1 == Ok
    ensures var after := Visible(Step(l, EditTweet(caller, i, content)).0.tweets);
      && |after| == |Visible(l.tweets)|
      && forall j :: 0 <= j < |after| ==>
           after[j] == if Visible(l.tweets)[j].id == i then Visible(l.tweets)[j].(content := content)
                       else Visible(l.tweets)[j]
  {
    VisibleIdsIndexLedger(l.tweets);
    forall j | 0 <= j < |Visible(l.tweets)| && Visible(l.tweets)[j].id == i
      ensures Visible(l.tweets)[j] == l.tweets[i]
    {
      assert Visible(l.tweets)[j] in Visible(l.tweets);
    }
    VisibleAfterEdit(l.tweets, i, l.tweets[i].(content := content));
  }

  /** Soft-deleting live tweet `i` shows one tweet fewer in `getTweets()`. */
  lemma {:induction false} DeleteCountsOneFewer(tweets: seq<Tweet>, i: nat)
    requires i < |tweets| && !tweets[i].deleted
    ensures |Visible(tweets[i := tweets[i].(deleted := true)])| == |Visible(tweets)| - 1
  {
    var n := |tweets|;
    var init, last := tweets[..n - 1], tweets[n - 1];
    var gone := tweets[i].(deleted := true);
    assert tweets == init + [last];
    if i == n - 1 {
      VisibleAppend(init, last);
      assert tweets[i := gone] == init + [gone];
      VisibleAppend(init, gone);
    } else {
      assert tweets[i := gone] == init[i := gone] + [last];
      DeleteCountsOneFewer(init, i);
      AppendKeepsCount(init, init[i := gone], last);
    }
  }

  /** Appending the same tweet to two ledgers keeps the difference in the number shown. */
  lemma AppendKeepsCount(before: seq<Tweet>, after: seq<Tweet>, last: Tweet)
    ensures |Visible(after + [last])| - |Visible(before + [last])| == |Visible(after)| - |Visible(before)|
  {
    VisibleAppend(before, last);
    VisibleAppend(after, last);
  }

  /** Soft-deleting live tweet `i` hides exactly that tweet from `getTweets()`: one fewer shown. */
  lemma VisibleAfterDelete(tweets: seq<Tweet>, i: nat)
    requires WellFormed(tweets) && i < |tweets| && !tweets[i].deleted
    ensures |Visible(tweets[i := tweets[i].(deleted := true)])| == |Visible(tweets)| - 1
    ensures forall t :: t in Visible(tweets[i := tweets[i].(deleted := true)]) <==>
      t in Visible(tweets) && t.id != i
  {
    var gone := tweets[i].(deleted := true);
    DeleteCountsOneFewer(tweets, i);
    VisibleIdsIndexLedger(tweets);
    assert WellFormed(tweets[i := gone]);
    VisibleIdsIndexLedger(tweets[i := gone]);
    forall t ensures t in Visible(tweets[i := gone]) <==> t in Visible(tweets) && t.id != i {
      if t in Visible(tweets) && t.id != i {
        assert tweets[i := gone][t.id] == t;
      }
    }
  }

  /** The author's `deleteTweet(i)` on a live tweet succeeds and removes it from `getTweets()`. */
  lemma DeleteByAuthor(l: Ledger, caller: Address, i: nat)
    requires WellFormed(l.tweets) && i < |l.tweets|
    requires l.tweets[i].author == caller && !l.tweets[i].deleted
    ensures Step(l, DeleteTweet(caller, i)).1 == Ok
    ensures var after := Visible(Step(l, DeleteTweet(caller, i)).0.tweets);
      && |after| == |Visible(l.tweets)| - 1
      && forall t :: t in after <==> t in Visible(l.tweets) && t.id != i
  {
    VisibleAfterDelete(l.tweets, i);
  }

  /** `editTweet` and `deleteTweet` by anyone but the author revert with the not-the-author reason. */
  lemma NonAuthorRejected(l: Ledger, caller: Address, i: nat, content: string)
    requires i < |l.tweets| && l.tweets[i].author != caller
    ensures Step(l, EditTweet(caller, i, content)) == (l, Unauthorized(NotAuthorReason))
    ensures Step(l, DeleteTweet(caller, i)) == (l, Unauthorized(NotAuthorReason))
    ensures Reason(Unauthorized(NotAuthorReason)) == "You are not the author of this tweet"
  {
  }

  /** After the author deletes tweet `i`, both a further edit and a further delete revert as deleted. */
  lemma DeletedIsTerminal(l: Ledger, caller: Address, i: nat, content: string)
    requires i < |l.tweets| && l.tweets[i].author == caller
    requires Step(l, DeleteTweet(caller, i)).1 == Ok
    ensures var gone := Step(l, DeleteTweet(caller, i)).0;
      && Step(gone, EditTweet(caller, i, content)) == (gone, AlreadyDeleted)
      && Step(gone, DeleteTweet(caller, i)) == (gone, AlreadyDeleted)
      && Reason(AlreadyDeleted) == "The tweet is deleted"
  {
  }

  /**
   The revert string of every call: empty exactly when the call succeeds or
   names a tweet that does not exist, the owner message for a rejected
   withdrawal, the author message for any other unauthorized call, and the
   deleted message for a deleted tweet.
   */
  lemma RevertReasons(l: Ledger, c: Call)
    ensures var s := Step(l, c).1;
      && (Reason(s) == "" <==> s == Ok || s == NotFound)
      && (s.Unauthorized? && c.Withdraw? ==> Reason(s) == "Ownable: caller is not the owner")
      && (s.Unauthorized? && !c.Withdraw? ==> Reason(s) == "You are not the author of this tweet")
      && (s == AlreadyDeleted ==> Reason(s) == "The tweet is deleted")
  {
  }

  /** `withdraw()` succeeds exactly for the owner, zero balance included; others revert as not the owner. */
  lemma WithdrawOnlyByOwner(l: Ledger, caller: Address)
    ensures Step(l, Withdraw(caller)).1 == Ok <==> caller == l.owner
    ensures caller == l.owner ==> Step(l, Withdraw(caller)).0 == l.(balance := 0)
    ensures caller != l.owner ==> Step(l, Withdraw(caller)) == (l, Unauthorized(NotOwnerReason))
    ensures Reason(Unauthorized(NotOwnerReason)) == "Ownable: caller is not the owner"
  {
  }

  /** The deployer can withdraw from a contract that was never funded. */
  lemma WithdrawOnFreshLedger(deployer: Address)
    ensures Step(Deploy(deployer), Withdraw(deployer)) == (Deploy(deployer), Ok)
  {
  }

  /** `Extends` is transitive, so it chains along a run of calls. */
  lemma ExtendsTransitive(a: Ledger, b: Ledger, c: Ledger)
    requires Extends(a, b) && Extends(b, c)
    ensures Extends(a, c)
  {
    forall i | 0 <= i < |a.tweets| ensures Keeps(a.tweets[i], c.tweets[i]) {
      assert Keeps(a.tweets[i], b.tweets[i]) && Keeps(b.tweets[i], c.tweets[i]);
    }
  }

  /**
   Over any sequence of calls: the owner never changes, the ledger only grows,
   ids and authors never change, a deleted tweet stays deleted and unchanged,
   and ids stay equal to positions.
   */
  lemma {:induction false} RunExtends(l: Ledger, calls: seq<Call>)
    ensures Extends(l, Run(l, calls))
    ensures WellFormed(l.tweets) ==> WellFormed(Run(l, calls).tweets)
    decreases |calls|
  {
    if calls != [] {
      var next := Step(l, calls[0]).0;
      RunExtends(next, calls[1..]);
      ExtendsTransitive(l, next, Run(next, calls[1..]));
    }
  }

  /** Once deleted, a tweet never appears in `getTweets()` again, whatever calls follow. */
  lemma DeletedNeverShownAgain(l: Ledger, calls: seq<Call>, i: nat)
    requires WellFormed(l.tweets) && i < |l.tweets| && l.tweets[i].deleted
    ensures forall t :: t in Visible(Run(l, calls).tweets) ==> t.id != i
  {
    RunExtends(l, calls);
    var later := Run(l, calls).tweets;
    assert Keeps(l.tweets[i], later[i]);
    VisibleIdsIndexLedger(later);
  }

  /** The contract's fixed history: the owner is the deployer after any calls. */
  lemma OwnerIsDeployer(deployer: Address, calls: seq<Call>)
    ensures Run(Deploy(deployer), calls).owner == deployer
    ensures WellFormed(Run(Deploy(deployer), calls).tweets)
  {
    RunExtends(Deploy(deployer), calls);
  }
}
