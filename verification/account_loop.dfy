/** The shape of the fetch handler's `for` loop over accounts, whatever the
    body of its `try` block computes. For each account the cursor is read
    from the store, then the browser is started, then the `try` block runs
    and yields an outcome. A throw before the `try` block ends the whole loop
    with that exception; an outcome that `return`s ends it normally; any
    other outcome lets the loop go on to the next account. */
module AccountLoop {
  import opened Optional
  import Persistence

  datatype Event<O> = Event(account: string, outcome: O)

  /** How the loop ends: after the last account, by `return`, or by a throw. */
  datatype Status = Completed | ReturnedEarly | Threw

  datatype Run<O> = Run(events: seq<Event<O>>, store: Persistence.Store, status: Status)

  /** The cursor `getLastProcessedById` returns for `account` from `store`. */
  function CursorOf(store: Persistence.Store, account: string): string {
    Persistence.GetLastProcessedById(store, account).value
  }

  /** The loop over `accounts`. `unreadable` accounts make the cursor read
      throw, `launchFails` accounts make the browser start-up throw after the
      read, `attempt(account, cursor)` is the `try` block and `exits` says
      which of its outcomes leave the handler. */
  function Loop<O>(accounts: seq<string>, store: Persistence.Store,
                   unreadable: set<string>, launchFails: set<string>,
                   attempt: (string, string) -> O, exits: O -> bool): (r: Run<O>)
    ensures |r.events| <= |accounts|
    decreases |accounts|
  {
    if |accounts| == 0 then Run([], store, Completed)
    else
      var account := accounts[0];
      if account in unreadable then Run([], store, Threw)
      else
        var read := Persistence.GetLastProcessedById(store, account);
        if account in launchFails then Run([], read.store, Threw)
        else
          var outcome := attempt(account, read.value);
          if exits(outcome) then Run([Event(account, outcome)], read.store, ReturnedEarly)
          else
            var rest := Loop(accounts[1..], read.store, unreadable, launchFails, attempt, exits);
            Run([Event(account, outcome)] + rest.events, rest.store, rest.status)
  }

  /** Each event is for the account at its position, the loop completes only
      after the last account, and a throw names the next account as unreadable
      or as failing to start the browser. */
  lemma {:induction false} LoopAccounts<O>(accounts: seq<string>, store: Persistence.Store,
                                           unreadable: set<string>, launchFails: set<string>,
                                           attempt: (string, string) -> O, exits: O -> bool)
    ensures var r := Loop(accounts, store, unreadable, launchFails, attempt, exits);
            && (forall i | 0 <= i < |r.events| :: r.events[i].account == accounts[i])
            && (r.status == Completed ==> |r.events| == |accounts|)
            && (r.status == Threw ==>
                  |r.events| < |accounts|
                  && (accounts[|r.events|] in unreadable || accounts[|r.events|] in launchFails))
    decreases |accounts|
  {
    if |accounts| > 0 && accounts[0] !in unreadable && accounts[0] !in launchFails {
      var read := Persistence.GetLastProcessedById(store, accounts[0]);
      LoopAccounts(accounts[1..], read.store, unreadable, launchFails, attempt, exits);
    }
  }

  /** `k` is an account whose cursor the run read: one that has an event, or
      the account whose browser launch then threw. */
  predicate CursorRead<O>(accounts: seq<string>, launchFails: set<string>, r: Run<O>, k: string) {
    && |r.events| <= |accounts|
    && (|| k in accounts[..|r.events|]
        || (r.status == Threw && |r.events| < |accounts| && k == accounts[|r.events|] && k in launchFails))
  }

  /** The loop never changes an existing record, and every record it adds is
      the "0" record of an account whose cursor it read. */
  lemma {:induction false} LoopStore<O>(accounts: seq<string>, store: Persistence.Store,
                                        unreadable: set<string>, launchFails: set<string>,
                                        attempt: (string, string) -> O, exits: O -> bool)
    ensures var r := Loop(accounts, store, unreadable, launchFails, attempt, exits);
            && (forall k | k in store :: k in r.store && r.store[k] == store[k])
            && (forall k | k in r.store && k !in store ::
                  r.store[k] == Some(Persistence.DefaultValue) && CursorRead(accounts, launchFails, r, k))
    decreases |accounts|
  {
    var r := Loop(accounts, store, unreadable, launchFails, attempt, exits);
    if |accounts| > 0 && accounts[0] !in unreadable {
      var read := Persistence.GetLastProcessedById(store, accounts[0]);
      if accounts[0] in launchFails {
        assert r == Run([], read.store, Threw);
      } else if exits(attempt(accounts[0], read.value)) {
        assert accounts[..|r.events|] == [accounts[0]];
      } else {
        var rest := Loop(accounts[1..], read.store, unreadable, launchFails, attempt, exits);
        LoopStore(accounts[1..], read.store, unreadable, launchFails, attempt, exits);
        forall k | k in r.store && k !in store
          ensures r.store[k] == Some(Persistence.DefaultValue) && CursorRead(accounts, launchFails, r, k)
        {
          CursorReadStep(accounts, launchFails, r.events[0], rest, r, k);
        }
      }
    }
  }

  /** An account whose cursor the rest of the loop read, or the first
      account, had its cursor read by the whole loop. */
  lemma CursorReadStep<O>(accounts: seq<string>, launchFails: set<string>,
                          first: Event<O>, rest: Run<O>, r: Run<O>, k: string)
    requires |accounts| > 0
    requires |rest.events| < |accounts|
    requires r == Run([first] + rest.events, rest.store, rest.status)
    requires k == accounts[0] || CursorRead(accounts[1..], launchFails, rest, k)
    ensures CursorRead(accounts, launchFails, r, k)
  {
    assert accounts[..|r.events|] == [accounts[0]] + accounts[1..][..|rest.events|];
    if k == accounts[0] {
      assert accounts[..|r.events|][0] == k;
    } else if k !in accounts[1..][..|rest.events|] {
      assert accounts[1..][|rest.events|] == accounts[|r.events|];
    }
  }

  /** Each account the loop reached got the outcome of the `try` block run
      with the cursor the initial store holds for it: the reads of earlier
      accounts never change what a later read returns. */
  lemma {:induction false} LoopOutcomes<O>(accounts: seq<string>, store: Persistence.Store,
                                           unreadable: set<string>, launchFails: set<string>,
                                           attempt: (string, string) -> O, exits: O -> bool)
    ensures var r := Loop(accounts, store, unreadable, launchFails, attempt, exits);
            forall i | 0 <= i < |r.events| ::
              r.events[i].outcome == attempt(accounts[i], CursorOf(store, accounts[i]))
    decreases |accounts|
  {
    if |accounts| > 0 && accounts[0] !in unreadable && accounts[0] !in launchFails {
      var r := Loop(accounts, store, unreadable, launchFails, attempt, exits);
      var read := Persistence.GetLastProcessedById(store, accounts[0]);
      var first := Event(accounts[0], attempt(accounts[0], read.value));
      assert read.value == CursorOf(store, accounts[0]);
      if !exits(first.outcome) {
        var rest := Loop(accounts[1..], read.store, unreadable, launchFails, attempt, exits);
        LoopOutcomes(accounts[1..], read.store, unreadable, launchFails, attempt, exits);
        OutcomesStep(accounts, store, attempt, first, rest.events, r.events);
      }
    }
  }

  /** The events of the loop from the second account on, each with the
      outcome for the cursor after the first read, prefixed by the first
      account's event, carry the outcomes for the initial cursors: the first
      read leaves every later account's cursor as it was. */
  lemma OutcomesStep<O>(accounts: seq<string>, store: Persistence.Store, attempt: (string, string) -> O,
                        first: Event<O>, rest: seq<Event<O>>, events: seq<Event<O>>)
    requires |accounts| > 0 && |rest| < |accounts|
    requires events == [first] + rest
    requires first.outcome == attempt(accounts[0], CursorOf(store, accounts[0]))
    requires var mid := Persistence.GetLastProcessedById(store, accounts[0]).store;
             forall i | 0 <= i < |rest| :: rest[i].outcome == attempt(accounts[1..][i], CursorOf(mid, accounts[1..][i]))
    ensures forall i | 0 <= i < |events| :: events[i].outcome == attempt(accounts[i], CursorOf(store, accounts[i]))
  {
    forall i | 1 <= i < |events|
      ensures events[i].outcome == attempt(accounts[i], CursorOf(store, accounts[i]))
    {
      assert events[i] == rest[i - 1] && accounts[1..][i - 1] == accounts[i];
      Persistence.ReadPreservesReads(store, accounts[0], accounts[i]);
    }
  }

  /** Only the last event can be an outcome that leaves the handler, and the
      loop ended by `return` exactly when it is one. */
  lemma {:induction false} LoopExits<O>(accounts: seq<string>, store: Persistence.Store,
                                        unreadable: set<string>, launchFails: set<string>,
                                        attempt: (string, string) -> O, exits: O -> bool)
    ensures var r := Loop(accounts, store, unreadable, launchFails, attempt, exits);
            && (forall i | 0 <= i < |r.events| - 1 :: !exits(r.events[i].outcome))
            && (r.status == ReturnedEarly <==> |r.events| > 0 && exits(r.events[|r.events| - 1].outcome))
    decreases |accounts|
  {
    if |accounts| > 0 && accounts[0] !in unreadable && accounts[0] !in launchFails {
      var read := Persistence.GetLastProcessedById(store, accounts[0]);
      LoopExits(accounts[1..], read.store, unreadable, launchFails, attempt, exits);
    }
  }

  /** Running the loop again on the store the first run left gives the same
      run: nothing in the loop writes a cursor other than the "0" a first
      read creates, so every account sees the same cursor again. */
  lemma {:induction false} LoopRerun<O>(accounts: seq<string>, store: Persistence.Store,
                                        unreadable: set<string>, launchFails: set<string>,
                                        attempt: (string, string) -> O, exits: O -> bool)
    ensures var r := Loop(accounts, store, unreadable, launchFails, attempt, exits);
            Loop(accounts, r.store, unreadable, launchFails, attempt, exits) == r
    decreases |accounts|
  {
    if |accounts| > 0 && accounts[0] !in unreadable {
      var account := accounts[0];
      var read := Persistence.GetLastProcessedById(store, account);
      Persistence.ReadTwice(store, account);
      if account !in launchFails && !exits(attempt(account, read.value)) {
        var rest := Loop(accounts[1..], read.store, unreadable, launchFails, attempt, exits);
        LoopRerun(accounts[1..], read.store, unreadable, launchFails, attempt, exits);
        LoopStore(accounts[1..], read.store, unreadable, launchFails, attempt, exits);
        assert Persistence.GetLastProcessedById(rest.store, account)
               == Persistence.Read(read.value, rest.store);
      }
    }
  }
}
