/** One transaction at a time per database: beginTransaction, enterVersionChange, commit and rollback as the atomic
    steps between their awaits, in any interleaving. */
module TransactionProtocol {
  datatype TxLevel = NoTx | Read | Write | VersionChange

  /** What a begin call asks for; Other is a mode that beginTransaction refuses. */
  datatype Mode = ReadOnly | ReadWrite | EnterVersionChange | Other

  /** A call that awaits a condition: round says which promise it has been given. */
  datatype Waiter = Waiter(db: string, mode: Mode, round: nat)

  /** A condition to wait on. Its promise is resolved, and replaced by a new one, each time it is triggered. */
  class AsyncCondition {
    var round: nat

    constructor ()
      ensures round == 0
    {
      round := 0;
    }

    method Trigger()
      modifies this
      ensures round == old(round) + 1
    {
      round := round + 1;
    }
  }

  datatype Progress = Began(level: TxLevel) | Waits | Refused

  function LevelOf(mode: Mode): TxLevel
    requires mode != Other
  {
    match mode
    case ReadOnly => Read
    case ReadWrite => Write
    case EnterVersionChange => VersionChange
  }

  /** What becomes of a call that finds its database at that level. */
  function Next(level: TxLevel, mode: Mode): Progress {
    if level != NoTx then Waits else if mode == Other then Refused else Began(LevelOf(mode))
  }

  /** A database is busy exactly when a transaction runs on it, and at most one does. */
  ghost predicate OneEach(levels: map<string, TxLevel>, running: map<nat, string>) {
    && (forall c <- running :: running[c] in levels && levels[running[c]] != NoTx)
    && (forall db <- levels :: levels[db] != NoTx ==> exists c :: c in running && running[c] == db)
    && (forall c, d :: c in running && d in running && running[c] == running[d] ==> c == d)
  }

  /** A call that sleeps, because its promise has not been resolved, is on a busy database. */
  ghost predicate WaitForBusy(levels: map<string, TxLevel>, waiting: map<nat, Waiter>, round: nat) {
    forall w <- waiting ::
      waiting[w].db in levels && waiting[w].round <= round &&
      (waiting[w].round == round ==> levels[waiting[w].db] != NoTx)
  }

  lemma BeginKeepsOneEach(
      levels: map<string, TxLevel>, running: map<nat, string>, db: string, cookie: nat, level: TxLevel)
    requires OneEach(levels, running) && db in levels && levels[db] == NoTx && cookie !in running && level != NoTx
    ensures OneEach(levels[db := level], running[cookie := db])
  {
    var l, r := levels[db := level], running[cookie := db];
    assert r[cookie] == db;
    forall e | e in l && l[e] != NoTx ensures exists c :: c in r && r[c] == e {
      if e != db {
        var c :| c in running && running[c] == e;
        assert c in r && r[c] == e;
      }
    }
  }

  lemma EndKeepsOneEach(levels: map<string, TxLevel>, running: map<nat, string>, cookie: nat)
    requires OneEach(levels, running) && cookie in running
    ensures OneEach(levels[running[cookie] := NoTx], running - {cookie})
  {
    var db := running[cookie];
    var l, r := levels[db := NoTx], running - {cookie};
    forall e | e in l && l[e] != NoTx ensures exists c :: c in r && r[c] == e {
      var c :| c in running && running[c] == e;
      assert c in r && r[c] == e;
    }
  }

  // ----------------------------------------------------------- atomic steps

  /** txLevel of each database, the databases of the running transactions, the begin calls that have not come back yet,
      the next cookie, and how often the condition has been triggered. */
  datatype System = System(levels: map<string, TxLevel>, running: map<nat, string>, waiting: map<nat, Waiter>,
    next: nat, round: nat)

  const INITIAL := System(map[], map[], map[], 1, 0)

  datatype Action =
    | ConnectTo(db: string)
    | BeginOn(db: string, mode: Mode)
    | ResumeCall(waiter: nat)
    | FinishTx(cookie: nat)

  /** A call looks at the level of its database: it begins when it finds the database idle, and waits when it does
      not. */
  function Look(s: System, cookie: nat, db: string, mode: Mode): System
    requires db in s.levels
  {
    match Next(s.levels[db], mode)
    case Began(level) => s.(levels := s.levels[db := level], running := s.running[cookie := db])
    case Waits => s.(waiting := s.waiting[cookie := Waiter(db, mode, s.round)])
    case Refused => s
  }

  /** A call sleeps until its promise is resolved. */
  predicate Sleeping(s: System, w: nat) {
    w in s.waiting && s.waiting[w].round == s.round
  }

  /** What an atomic step does; one that cannot be taken does nothing. */
  function Step(s: System, a: Action): System {
    match a
    case ConnectTo(db) => if db in s.levels then s else s.(levels := s.levels[db := NoTx])
    case BeginOn(db, mode) =>
      var t := s.(next := s.next + 1);
      if db in s.levels then Look(t, s.next, db, mode) else t
    case ResumeCall(w) =>
      if w in s.waiting && s.waiting[w].db in s.levels && !Sleeping(s, w)
      then Look(s.(waiting := s.waiting - {w}), w, s.waiting[w].db, s.waiting[w].mode)
      else s
    case FinishTx(c) =>
      if c in s.running
      then s.(levels := s.levels[s.running[c] := NoTx], running := s.running - {c}, round := s.round + 1)
      else s
  }

  /** What a sequence of steps leads to, from a backend without databases. */
  function After(actions: seq<Action>): System {
    if |actions| == 0 then INITIAL else Step(After(actions[..|actions| - 1]), actions[|actions| - 1])
  }

  ghost predicate Sound(s: System) {
    && OneEach(s.levels, s.running)
    && (forall c <- s.running :: c < s.next)
    && (forall w <- s.waiting :: w < s.next && w !in s.running)
    && WaitForBusy(s.levels, s.waiting, s.round)
  }

  lemma LookKeepsSound(s: System, cookie: nat, db: string, mode: Mode)
    requires Sound(s) && db in s.levels && cookie < s.next && cookie !in s.running && cookie !in s.waiting
    ensures Sound(Look(s, cookie, db, mode))
  {
    hide OneEach;
    if Next(s.levels[db], mode).Began? {
      BeginKeepsOneEach(s.levels, s.running, db, cookie, LevelOf(mode));
    }
  }

  lemma StepKeepsSound(s: System, a: Action)
    requires Sound(s)
    ensures Sound(Step(s, a))
  {
    hide Look;
    match a {
      case ConnectTo(db) =>
      case BeginOn(db, mode) =>
        if db in s.levels {
          LookKeepsSound(s.(next := s.next + 1), s.next, db, mode);
        }
      case ResumeCall(w) =>
        if Step(s, a) != s {
          LookKeepsSound(s.(waiting := s.waiting - {w}), w, s.waiting[w].db, s.waiting[w].mode);
        }
      case FinishTx(c) =>
        if c in s.running {
          EndKeepsOneEach(s.levels, s.running, c);
        }
    }
  }

  /** Every interleaving of the steps keeps the invariant. */
  lemma {:induction false} AfterIsSound(actions: seq<Action>)
    ensures Sound(After(actions))
  {
    hide Sound, Step;
    if |actions| == 0 {
      InitialIsSound();
    } else {
      AfterIsSound(actions[..|actions| - 1]);
      StepKeepsSound(After(actions[..|actions| - 1]), actions[|actions| - 1]);
    }
  }

  lemma InitialIsSound()
    ensures Sound(INITIAL)
  {
  }

  /** Mutual exclusion: whatever steps have been taken, two running transactions are on different databases, and a
      database is busy exactly when a transaction runs on it. */
  lemma AtMostOneTransaction(actions: seq<Action>)
    ensures var s := After(actions);
      && (forall c, d :: c in s.running && d in s.running && c != d ==> s.running[c] != s.running[d])
      && (forall db <- s.levels :: s.levels[db] != NoTx <==> exists c :: c in s.running && s.running[c] == db)
  {
    AfterIsSound(actions);
  }

  /** No lost wake-up: whatever steps have been taken, a call whose promise has not been resolved has a transaction to
      wait for, whose end resolves it; and when the database is idle, the promise has been resolved, and the call begins
      its transaction when it is resumed, or is refused for its mode. */
  lemma NoLostWakeUp(actions: seq<Action>, w: nat)
    requires w in After(actions).waiting
    ensures var s, t := After(actions), After(actions + [ResumeCall(w)]);
      var db, mode := s.waiting[w].db, s.waiting[w].mode;
      && db in s.levels
      && (s.waiting[w].round == s.round ==> t == s && exists c ::
          && c in s.running && s.running[c] == db
          && After(actions + [FinishTx(c)]).round > s.round && After(actions + [FinishTx(c)]).waiting == s.waiting)
      && (s.levels[db] == NoTx ==>
          && s.waiting[w].round < s.round && t.waiting == s.waiting - {w}
          && (mode == ReadOnly ==> t.levels == s.levels[db := Read] && t.running == s.running[w := db])
          && (mode == ReadWrite ==> t.levels == s.levels[db := Write] && t.running == s.running[w := db])
          && (mode == EnterVersionChange ==>
              t.levels == s.levels[db := VersionChange] && t.running == s.running[w := db])
          && (mode == Other ==> t.levels == s.levels && t.running == s.running))
  {
    hide After;
    AfterIsSound(actions);
    var s := After(actions);
    OneMoreStep(actions, ResumeCall(w));
    if Sleeping(s, w) {
      var c :| c in s.running && s.running[c] == s.waiting[w].db;
      OneMoreStep(actions, FinishTx(c));
      assert c in s.running;
    }
  }

  /** Whatever steps have been taken, a call finds its database idle and begins its transaction, at its level and under
      the next cookie, or is refused for its mode; or finds it busy and waits for the round to end; or does not find
      it. */
  lemma BeginsExactlyWhen(actions: seq<Action>, db: string, mode: Mode)
    ensures var s, t := After(actions), After(actions + [BeginOn(db, mode)]);
      && t.next == s.next + 1 && t.round == s.round
      && s.next !in s.running && s.next !in s.waiting
      && (db in s.levels && s.levels[db] == NoTx ==>
          && t.waiting == s.waiting
          && (mode == ReadOnly ==> t.levels == s.levels[db := Read] && t.running == s.running[s.next := db])
          && (mode == ReadWrite ==> t.levels == s.levels[db := Write] && t.running == s.running[s.next := db])
          && (mode == EnterVersionChange ==>
              t.levels == s.levels[db := VersionChange] && t.running == s.running[s.next := db])
          && (mode == Other ==> t.levels == s.levels && t.running == s.running))
      && (db in s.levels && s.levels[db] != NoTx ==>
          && t.levels == s.levels && t.running == s.running
          && t.waiting == s.waiting[s.next := Waiter(db, mode, s.round)])
      && (db !in s.levels ==> t.levels == s.levels && t.running == s.running && t.waiting == s.waiting)
  {
    hide After;
    AfterIsSound(actions);
    OneMoreStep(actions, BeginOn(db, mode));
  }

  /** And the end of a transaction leaves its database idle, and resolves every promise; connecting makes a new database
      that is idle, or changes nothing. */
  lemma EndsExactlyWhen(actions: seq<Action>, c: nat, db: string)
    ensures var s, t, u := After(actions), After(actions + [FinishTx(c)]), After(actions + [ConnectTo(db)]);
      && (c in s.running ==>
          && s.running[c] in s.levels && s.levels[s.running[c]] != NoTx
          && t == s.(levels := s.levels[s.running[c] := NoTx], running := s.running - {c}, round := s.round + 1)
          && forall w <- t.waiting :: t.waiting[w].round < t.round)
      && (c !in s.running ==> t == s)
      && u == if db in s.levels then s else s.(levels := s.levels[db := NoTx])
  {
    hide After;
    AfterIsSound(actions);
    OneMoreStep(actions, FinishTx(c));
    OneMoreStep(actions, ConnectTo(db));
  }

  lemma OneMoreStep(actions: seq<Action>, a: Action)
    ensures After(actions + [a]) == Step(After(actions), a)
  {
    assert (actions + [a])[..|actions|] == actions;
  }

  class Backend {
    /** txLevel of each database. */
    var levels: map<string, TxLevel>
    /** connectionsByTransaction: the database of each running transaction's connection. */
    var running: map<nat, string>
    /** The begin calls that have not come back yet, by the cookie they will hand out. */
    var waiting: map<nat, Waiter>
    var transactionIdCounter: nat
    const transactionDone: AsyncCondition

    ghost function Now(): System
      reads this, transactionDone
    {
      System(levels, running, waiting, transactionIdCounter, transactionDone.round)
    }

    ghost predicate Valid()
      reads this, transactionDone
    {
      Sound(Now())
    }

    constructor ()
      ensures Valid() && Now() == INITIAL && fresh(transactionDone)
    {
      levels, running, waiting, transactionIdCounter := map[], map[], map[], 1;
      transactionDone := new AsyncCondition();
    }

    /** A database comes into being when it is first connected to. */
    method Connect(db: string)
      requires Valid()
      modifies this`levels
      ensures Valid() && Now() == Step(old(Now()), ConnectTo(db))
      ensures levels == if db in old(levels) then old(levels) else old(levels)[db := NoTx]
    {
      StepKeepsSound(Now(), ConnectTo(db));
      if db !in levels {
        levels := levels[db := NoTx];
      }
    }

    /** The call runs up to its first await, or through. */
    method Begin(db: string, mode: Mode) returns (cookie: nat, p: Progress)
      requires Valid()
      modifies this
      ensures Valid() && Now() == Step(old(Now()), BeginOn(db, mode)) && cookie == old(transactionIdCounter)
      ensures db in old(levels) && old(levels)[db] == NoTx ==>
        && waiting == old(waiting)
        && (mode == ReadOnly ==>
            p == Began(Read) && levels == old(levels)[db := Read] && running == old(running)[cookie := db])
        && (mode == ReadWrite ==>
            p == Began(Write) && levels == old(levels)[db := Write] && running == old(running)[cookie := db])
        && (mode == EnterVersionChange ==>
            && p == Began(VersionChange) && levels == old(levels)[db := VersionChange]
            && running == old(running)[cookie := db])
        && (mode == Other ==> p == Refused && levels == old(levels) && running == old(running))
      ensures db in old(levels) && old(levels)[db] != NoTx ==>
        && p == Waits && levels == old(levels) && running == old(running)
        && waiting == old(waiting)[cookie := Waiter(db, mode, transactionDone.round)]
      ensures db !in old(levels) ==>
        p == Refused && levels == old(levels) && running == old(running) && waiting == old(waiting)
    {
      hide Sound;
      StepKeepsSound(Now(), BeginOn(db, mode));
      cookie := transactionIdCounter;
      transactionIdCounter := transactionIdCounter + 1;
      if db !in levels {
        p := Refused;
      } else {
        p := Enter(cookie, db, mode);
      }
    }

    /** A call whose promise has been resolved looks at the level again. */
    method Resume(w: nat) returns (p: Progress)
      requires Valid() && w in waiting && waiting[w].round != transactionDone.round
      modifies this
      ensures Valid() && Now() == Step(old(Now()), ResumeCall(w))
      ensures var call, was := old(waiting)[w], old(levels);
        && (was[call.db] == NoTx ==>
            && waiting == old(waiting) - {w}
            && (call.mode == ReadOnly ==>
                p == Began(Read) && levels == was[call.db := Read] && running == old(running)[w := call.db])
            && (call.mode == ReadWrite ==>
                p == Began(Write) && levels == was[call.db := Write] && running == old(running)[w := call.db])
            && (call.mode == EnterVersionChange ==>
                && p == Began(VersionChange) && levels == was[call.db := VersionChange]
                && running == old(running)[w := call.db])
            && (call.mode == Other ==> p == Refused && levels == was && running == old(running)))
        && (was[call.db] != NoTx ==>
            && p == Waits && levels == was && running == old(running)
            && waiting == old(waiting)[w := call.(round := transactionDone.round)])
    {
      StepKeepsSound(Now(), ResumeCall(w));
      var call := waiting[w];
      waiting := waiting - {w};
      p := Enter(w, call.db, call.mode);
    }

    /** The loop over the level and what follows it, up to the next await. */
    method Enter(cookie: nat, db: string, mode: Mode) returns (p: Progress)
      requires db in levels
      modifies this`levels, this`running, this`waiting
      ensures Now() == Look(old(Now()), cookie, db, mode) && p == Next(old(levels)[db], mode)
    {
      if levels[db] != NoTx {
        waiting := waiting[cookie := Waiter(db, mode, transactionDone.round)];
        return Waits;
      }
      if mode == Other {
        return Refused;
      }
      var level := LevelOf(mode);
      levels := levels[db := level];
      running := running[cookie := db];
      p := Began(level);
    }

    /** commit and rollback, as far as other transactions see them. */
    method Finish(cookie: nat) returns (ok: bool)
      requires Valid()
      modifies this`levels, this`running, transactionDone
      ensures Valid() && Now() == Step(old(Now()), FinishTx(cookie)) && ok == (cookie in old(running))
      ensures ok ==>
        && levels == old(levels)[old(running)[cookie] := NoTx] && running == old(running) - {cookie}
        && transactionDone.round == old(transactionDone.round) + 1
      ensures !ok ==>
        levels == old(levels) && running == old(running) && transactionDone.round == old(transactionDone.round)
    {
      StepKeepsSound(Now(), FinishTx(cookie));
      if cookie !in running {
        return false;
      }
      var db := running[cookie];
      if levels[db] == NoTx {
        return false;
      }
      levels := levels[db := NoTx];
      running := running - {cookie};
      transactionDone.Trigger();
      ok := true;
    }
  }

  // -------------------------------------------------------------- all runs

  /** Any sequence of atomic steps, in any interleaving, leads where the steps lead. A call can only go on once its
      promise has been resolved. */
  method Perform(actions: seq<Action>) returns (backend: Backend)
    ensures backend.Now() == After(actions) && backend.Valid()
  {
    hide Sound, Step;
    backend := new Backend();
    for i := 0 to |actions|
      invariant backend.Valid() && fresh(backend) && fresh(backend.transactionDone)
      invariant backend.Now() == After(actions[..i])
    {
      assert actions[..i + 1][..i] == actions[..i];
      match actions[i] {
        case ConnectTo(db) =>
          backend.Connect(db);
        case BeginOn(db, mode) =>
          var cookie, p := backend.Begin(db, mode);
        case ResumeCall(w) =>
          if w in backend.waiting && backend.waiting[w].round != backend.transactionDone.round {
            var p := backend.Resume(w);
          } else {
            NotResumed(backend.Now(), w);
          }
        case FinishTx(cookie) =>
          var ok := backend.Finish(cookie);
      }
    }
    assert actions[..|actions|] == actions;
  }

  lemma NotResumed(s: System, w: nat)
    requires w !in s.waiting || Sleeping(s, w)
    ensures Step(s, ResumeCall(w)) == s
  {
  }
}
