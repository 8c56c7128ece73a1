/** The scheduled fetch handler: for each watched account, read its cursor,
    fetch the account's recent statuses, keep the ones above the cursor and
    sort them into the processing queue. The browser, the page and the table
    are replaced by an `Environment` that says, per account, whether the
    cursor read or the browser launch throws and what the page yields. */
module FetchHandler {
  import opened Optional
  import Persistence
  import Selection
  import AccountLoop
  import BigIntParse

  type Post = Selection.Post

  /** The watched accounts. */
  const Accounts: seq<string> := ["107780257626128497"]

  /** What loading the statuses page gives: a throw (navigation, extraction
      or `JSON.parse`), no text in the `pre` element, or the parsed array. */
  datatype FetchOutcome = Failed | NoBody | Loaded(posts: seq<Post>)

  /** The world outside the handler. `unreadable` accounts make the cursor
      read throw; `launchFails` accounts make the browser start-up throw after
      the cursor was read. Both happen before the `try` block. */
  datatype Environment = Environment(unreadable: set<string>, launchFails: set<string>,
                                     fetch: string -> FetchOutcome)

  /** How the `try` block for one account ends: the error was caught and
      logged, there was nothing new and the handler returned, or the queue was
      processed in this order. */
  datatype Outcome = Caught | NothingNew | Processed(queue: seq<Post>)

  /** `JSON.parse(jsonContent || '[]')`: an empty page is the empty array;
      `None` when loading threw. */
  function Batch(fetched: FetchOutcome): (r: Option<seq<Post>>)
    ensures r.None? <==> fetched.Failed?
    ensures fetched.NoBody? ==> r == Some([])
  {
    match fetched
    case Failed => None
    case NoBody => Some([])
    case Loaded(posts) => Some(posts)
  }

  /** The `try` block for one account with cursor `cursor`. */
  function TryBlock(cursor: string, fetched: FetchOutcome): (o: Outcome)
    ensures fetched.Failed? ==> o == Caught
    ensures fetched.NoBody? ==> o == NothingNew
    ensures o.Processed? ==> |o.queue| > 0 && Selection.SortedById(o.queue)
  {
    match Batch(fetched)
    case None => Caught
    case Some(batch) =>
      match Selection.FilterNew(batch, cursor)
      case None => Caught
      case Some(newPosts) =>
        if |newPosts| == 0 then NothingNew else Processed(Selection.SortById(newPosts))
  }

  /** The `try` block ends in the `catch` exactly when loading the page
      threw, some status id is not a valid `BigInt` string, or there is a
      status and the cursor is not one. */
  lemma TryBlockCaught(cursor: string, fetched: FetchOutcome)
    ensures TryBlock(cursor, fetched) == Caught <==>
              || Batch(fetched).None?
              || (exists i | 0 <= i < |Batch(fetched).value| :: !Selection.ValidId(Batch(fetched).value[i]))
              || (|Batch(fetched).value| > 0 && BigIntParse.StringToBigInt(cursor).None?)
  {
    if Batch(fetched).Some? {
      Selection.FilterNewThrows(Batch(fetched).value, cursor);
      CaughtByFilter(cursor, fetched);
    }
  }

  /** Once the page is loaded, only the filter can throw. */
  lemma CaughtByFilter(cursor: string, fetched: FetchOutcome)
    requires Batch(fetched).Some?
    ensures TryBlock(cursor, fetched) == Caught <==> Selection.FilterNew(Batch(fetched).value, cursor).None?
  {
  }

  /** The handler returns early for an account exactly when the page loaded,
      every id and the cursor were read, and no status is above the cursor. */
  lemma TryBlockNothingNew(cursor: string, fetched: FetchOutcome)
    ensures TryBlock(cursor, fetched) == NothingNew <==>
              && Batch(fetched).Some?
              && Selection.FilterNew(Batch(fetched).value, cursor).Some?
              && Selection.NoneAbove(Batch(fetched).value, cursor)
  {
    if Batch(fetched).Some? && Selection.FilterNew(Batch(fetched).value, cursor).Some? {
      Selection.FilterNewEmpty(Batch(fetched).value, cursor);
    }
  }

  /** A processed queue holds every loaded status above the cursor, as often
      as it was loaded, and nothing else; statuses with equal ids keep their
      page order; and it is the only sorted arrangement with those two
      properties. */
  lemma TryBlockQueue(cursor: string, fetched: FetchOutcome, q: seq<Post>)
    requires TryBlock(cursor, fetched) == Processed(q)
    ensures fetched.Loaded?
    ensures Selection.SelectsAbove(fetched.posts, cursor, q)
    ensures Selection.KeepsOrderAbove(fetched.posts, cursor, q)
    ensures forall q' | Selection.SortedById(q') && Selection.KeepsOrderAbove(fetched.posts, cursor, q') :: q' == q
  {
    var batch := fetched.posts;
    assert q == Selection.SortById(Selection.FilterNew(batch, cursor).value);
    Selection.QueueSelects(batch, cursor);
    forall q' | Selection.SortedById(q') && Selection.KeepsOrderAbove(batch, cursor, q') ensures q' == q {
      Selection.QueueExact(batch, cursor, q');
    }
  }

  /** `return` leaves the handler; the other outcomes go on to the next account. */
  predicate Exits(o: Outcome) {
    o.NothingNew?
  }

  /** The `for` loop over `accounts`. */
  function RunAccounts(accounts: seq<string>, store: Persistence.Store, env: Environment): (r: AccountLoop.Run<Outcome>)
    ensures |r.events| <= |accounts|
    ensures forall i | 0 <= i < |r.events| ::
              && r.events[i].account == accounts[i]
              && r.events[i].outcome == TryBlock(AccountLoop.CursorOf(store, accounts[i]), env.fetch(accounts[i]))
    ensures forall i | 0 <= i < |r.events| - 1 :: r.events[i].outcome != NothingNew
    ensures r.status == AccountLoop.ReturnedEarly <==>
              |r.events| > 0 && r.events[|r.events| - 1].outcome == NothingNew
    ensures r.status == AccountLoop.Threw ==>
              |r.events| < |accounts|
              && (accounts[|r.events|] in env.unreadable || accounts[|r.events|] in env.launchFails)
    ensures r.status == AccountLoop.Completed ==> |r.events| == |accounts|
    ensures forall k | k in store :: k in r.store && r.store[k] == store[k]
    ensures forall k | k in r.store && k !in store ::
              r.store[k] == Some(Persistence.DefaultValue) && AccountLoop.CursorRead(accounts, env.launchFails, r, k)
  {
    RunOutcomes(accounts, store, env);
    RunEnds(accounts, store, env);
    RunStore(accounts, store, env);
    AccountLoop.Loop(accounts, store, env.unreadable, env.launchFails, Attempt(env), Exits)
  }

  /** The `try` block for an account and its cursor. */
  function Attempt(env: Environment): (string, string) -> Outcome {
    (account, cursor) => TryBlock(cursor, env.fetch(account))
  }

  /** The events of `RunAccounts`, in account order, with their outcomes. */
  lemma RunOutcomes(accounts: seq<string>, store: Persistence.Store, env: Environment)
    ensures var r := AccountLoop.Loop(accounts, store, env.unreadable, env.launchFails, Attempt(env), Exits);
            forall i | 0 <= i < |r.events| ::
              && r.events[i].account == accounts[i]
              && r.events[i].outcome == TryBlock(AccountLoop.CursorOf(store, accounts[i]), env.fetch(accounts[i]))
  {
    AccountLoop.LoopAccounts(accounts, store, env.unreadable, env.launchFails, Attempt(env), Exits);
    AccountLoop.LoopOutcomes(accounts, store, env.unreadable, env.launchFails, Attempt(env), Exits);
  }

  /** How `RunAccounts` ends. */
  lemma RunEnds(accounts: seq<string>, store: Persistence.Store, env: Environment)
    ensures var r := AccountLoop.Loop(accounts, store, env.unreadable, env.launchFails, Attempt(env), Exits);
            && (forall i | 0 <= i < |r.events| - 1 :: r.events[i].outcome != NothingNew)
            && (r.status == AccountLoop.ReturnedEarly <==>
                  |r.events| > 0 && r.events[|r.events| - 1].outcome == NothingNew)
            && (r.status == AccountLoop.Threw ==>
                  |r.events| < |accounts|
                  && (accounts[|r.events|] in env.unreadable || accounts[|r.events|] in env.launchFails))
            && (r.status == AccountLoop.Completed ==> |r.events| == |accounts|)
  {
    AccountLoop.LoopAccounts(accounts, store, env.unreadable, env.launchFails, Attempt(env), Exits);
    AccountLoop.LoopExits(accounts, store, env.unreadable, env.launchFails, Attempt(env), Exits);
  }

  /** What `RunAccounts` does to the store. */
  lemma RunStore(accounts: seq<string>, store: Persistence.Store, env: Environment)
    ensures var r := AccountLoop.Loop(accounts, store, env.unreadable, env.launchFails, Attempt(env), Exits);
            && (forall k | k in store :: k in r.store && r.store[k] == store[k])
            && (forall k | k in r.store && k !in store ::
                  r.store[k] == Some(Persistence.DefaultValue) && AccountLoop.CursorRead(accounts, env.launchFails, r, k))
  {
    AccountLoop.LoopStore(accounts, store, env.unreadable, env.launchFails, Attempt(env), Exits);
  }

  /** `handler()`: the loop over the one watched account. It never changes an
      existing cursor record, and adds at most the "0" record of that account. */
  function Handler(store: Persistence.Store, env: Environment): (r: AccountLoop.Run<Outcome>)
    ensures |r.events| <= 1
    ensures forall k | k in store :: k in r.store && r.store[k] == store[k]
    ensures forall k | k in r.store && k !in store :: k == Accounts[0] && r.store[k] == Some("0")
  {
    RunAccounts(Accounts, store, env)
  }

  /** The cursor write is left out of the handler, so a second invocation
      on the store the first one left does exactly what the first did: it
      reprocesses the same statuses in the same order. */
  lemma HandlerRerun(store: Persistence.Store, env: Environment)
    ensures Handler(Handler(store, env).store, env) == Handler(store, env)
  {
    AccountLoop.LoopRerun(Accounts, store, env.unreadable, env.launchFails, Attempt(env), Exits);
  }

  /** An account whose page could not be loaded is logged and the loop goes
      on with the next account. */
  lemma FetchFailureIsCaught(account: string, rest: seq<string>, store: Persistence.Store, env: Environment)
    requires account !in env.unreadable && account !in env.launchFails
    requires env.fetch(account).Failed?
    ensures var r := RunAccounts([account] + rest, store, env);
            var next := RunAccounts(rest, Persistence.GetLastProcessedById(store, account).store, env);
            r.events == [AccountLoop.Event(account, Caught)] + next.events && r.status == next.status
  {
    assert ([account] + rest)[0] == account && ([account] + rest)[1..] == rest;
  }

  /** A cursor read that throws happens before the `try` block: it leaves
      the handler at once, with no event and the store as it was. */
  lemma CursorReadFailurePropagates(account: string, rest: seq<string>, store: Persistence.Store, env: Environment)
    requires account in env.unreadable
    ensures RunAccounts([account] + rest, store, env) == AccountLoop.Run([], store, AccountLoop.Threw)
  {
    assert ([account] + rest)[0] == account;
  }

  /** A browser launch that throws also ends the handler at once, but after
      the cursor read, so an account without a record keeps the "0" record
      that read wrote, although it has no event. */
  lemma LaunchFailureKeepsRecord(account: string, rest: seq<string>, store: Persistence.Store, env: Environment)
    requires account !in env.unreadable && account in env.launchFails
    requires account !in store
    ensures var r := RunAccounts([account] + rest, store, env);
            && r.events == [] && r.status == AccountLoop.Threw
            && r.store == store[account := Some(Persistence.DefaultValue)]
  {
    assert ([account] + rest)[0] == account;
  }

  /** An account whose page has no text selects nothing, and the `return`
      leaves the whole handler: no later account is visited. */
  lemma EmptyPageReturns(account: string, rest: seq<string>, store: Persistence.Store, env: Environment)
    requires account !in env.unreadable && account !in env.launchFails
    requires env.fetch(account).NoBody?
    ensures var r := RunAccounts([account] + rest, store, env);
            r.events == [AccountLoop.Event(account, NothingNew)] && r.status == AccountLoop.ReturnedEarly
  {
    assert ([account] + rest)[0] == account;
  }
}
