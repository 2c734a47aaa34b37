/** The database connection pool: one adapter, one holder. */
module ConnectionPool {
  import opened Bytes
  import opened OrderedKeys

  type Key = nat         // an adapter pointer
  const NULL: Key := 0

  /** Reference counts by adapter. */
  type Counts = map<Key, uint32>

  ghost function Unlocked(c: Counts): set<Key> {
    set k | k in c && c[k] == 0
  }

  /** The adapter handed out: the first unlocked one, else a newly created one (NULL when creating
      fails). */
  ghost function Choice(c: Counts, created: Key): Key {
    if Unlocked(c) != {} then Least(Unlocked(c)) else created
  }

  ghost function Get(c: Counts, created: Key): Counts {
    if Choice(c, created) == NULL && Unlocked(c) == {} then c else c[Choice(c, created) := 1]
  }

  /** Which adapter is handed out: the first one with no holder, and only when there is none the new one. */
  lemma ChoiceExactly(c: Counts, created: Key, k: Key)
    ensures Choice(c, created) == k <==>
            || (k in c && c[k] == 0 && forall j | j in c && j < k :: c[j] != 0)
            || (k == created && forall j | j in c :: c[j] != 0)
  {
    var free := Unlocked(c);
    if free != {} {
      var least := Least(free);
      assert least in c && c[least] == 0;
      forall j | j in c && c[j] == 0
        ensures least <= j
      {
        assert j in free;
      }
    } else {
      forall j | j in c
        ensures c[j] != 0
      {
        assert j !in free;
      }
    }
  }

  /** Unlocking subtracts one from an unsigned count. */
  ghost function Release(c: Counts, k: Key): Counts {
    if k in c then c[k := if c[k] == 0 then 0xFFFF_FFFF else c[k] - 1] else c
  }

  lemma UnlockedInside(c: Counts)
    ensures Unlocked(c) <= c.Keys
  {
  }

  /** The first unlocked adapter of a walk is the least one. */
  lemma FirstUnlocked(c: Counts, rest: set<Key>, k: Key)
    requires Unlocked(c) <= rest <= c.Keys && rest != {} && k == Least(rest) && c[k] == 0
    ensures Unlocked(c) != {} && Least(Unlocked(c)) == k
  {
    assert k in Unlocked(c);
  }

  lemma LockedSkipped(c: Counts, rest: set<Key>, k: Key)
    requires Unlocked(c) <= rest && k in c && c[k] != 0
    ensures Unlocked(c) <= rest - {k}
  {
  }

  class DatabaseConnection {
    const adapter: Key
    var referenceCount: uint32

    constructor (adapter: Key)
      ensures this.adapter == adapter && referenceCount == 0
    {
      this.adapter := adapter;
      referenceCount := 0;
    }

    method Lock()
      modifies this
      ensures referenceCount == (old(referenceCount) + 1) % 0x1_0000_0000
    {
      referenceCount := (referenceCount + 1) % 0x1_0000_0000;
    }

    method Unlock()
      modifies this
      ensures referenceCount == (old(referenceCount) - 1) % 0x1_0000_0000
    {
      referenceCount := (referenceCount - 1) % 0x1_0000_0000;
    }

    predicate IsLock()
      reads this
    {
      referenceCount > 0
    }
  }

  class DbNVManager {
    var mapConnection: map<Key, DatabaseConnection>

    ghost predicate Valid()
      reads this
    {
      forall k | k in mapConnection :: mapConnection[k].adapter == k
    }

    ghost function Counted(): Counts
      reads this, mapConnection.Values
    {
      map k | k in mapConnection :: mapConnection[k].referenceCount
    }

    constructor ()
      ensures Valid() && Counted() == map[]
    {
      mapConnection := map[];
    }

    /** Hands out an adapter. `created` is what connecting to the database would give: a new adapter,
        or NULL when it fails. */
    method GetNVDataAccess(created: Key) returns (adapter: Key)
      requires Valid() && created !in mapConnection
      modifies this, mapConnection.Values
      ensures Valid()
      ensures adapter == Choice(old(Counted()), created)
      ensures Counted() == Get(old(Counted()), created)
    {
      hide Least, Unlocked, Counted;
      ghost var c := Counted();
      CountedHas();
      var rest := mapConnection.Keys;
      UnlockedInside(c);
      while rest != {}
        invariant Valid() && mapConnection == old(mapConnection) && HasCounts(c)
        invariant rest <= mapConnection.Keys
        invariant Unlocked(c) <= rest
        decreases |rest|
      {
        var k := NextKey(rest);
        var connectionInfo := mapConnection[k];
        if !connectionInfo.IsLock() {
          connectionInfo.Lock();
          FirstUnlocked(c, rest, k);
          CountedIs(c[k := 1]);
          return connectionInfo.adapter;
        }
        LockedSkipped(c, rest, k);
        rest := rest - {k};
      }
      if created == NULL {
        CountedIs(c);
        return NULL;
      }
      EnterLocked(created, c);
      return created;
    }

    /** A newly created adapter enters the pool locked. */
    method EnterLocked(created: Key, ghost c: Counts)
      requires Valid() && created !in mapConnection && HasCounts(c)
      modifies this
      ensures Valid() && Counted() == c[created := 1]
    {
      hide Counted;
      var databaseConnection := new DatabaseConnection(created);
      mapConnection := mapConnection[created := databaseConnection];
      databaseConnection.Lock();
      CountedIs(c[created := 1]);
    }

    /** `c` has the reference counts. */
    ghost predicate HasCounts(c: Counts)
      reads this, mapConnection.Values
    {
      c.Keys == mapConnection.Keys && forall k | k in mapConnection :: mapConnection[k].referenceCount == c[k]
    }

    lemma CountedHas()
      ensures HasCounts(Counted())
    {
    }

    lemma CountedIs(c: Counts)
      requires HasCounts(c)
      ensures Counted() == c
    {
    }

    method ReleaseNVDataAccess(adapter: Key)
      requires Valid()
      modifies mapConnection.Values
      ensures Valid() && mapConnection == old(mapConnection)
      ensures Counted() == Release(old(Counted()), adapter)
    {
      if adapter in mapConnection {
        mapConnection[adapter].Unlock();
      }
    }
  }

  // ----- runs -----

  datatype Step = Acquire(created: Key) | Return(adapter: Key)

  /** The pool, and the adapters callers hold. */
  datatype State = State(counts: Counts, held: set<Key>)

  const EMPTY := State(map[], {})

  /** Callers return only what they hold; a new adapter is none of the pool's. */
  ghost predicate Allowed(st: State, step: Step) {
    match step
    case Acquire(created) => created !in st.counts
    case Return(k) => k in st.held
  }

  ghost function Next(st: State, step: Step): State {
    match step
    case Acquire(created) =>
      var k := Choice(st.counts, created);
      State(Get(st.counts, created), if k == NULL then st.held else st.held + {k})
    case Return(k) => State(Release(st.counts, k), st.held - {k})
  }

  ghost predicate IsRun(steps: seq<Step>) {
    steps == [] ||
    (IsRun(steps[..|steps| - 1]) && Allowed(Final(steps[..|steps| - 1]), steps[|steps| - 1]))
  }

  ghost function Final(steps: seq<Step>): State {
    if steps == [] then EMPTY else Next(Final(steps[..|steps| - 1]), steps[|steps| - 1])
  }

  /** The largest number of adapters held at the same time so far. */
  ghost function Peak(steps: seq<Step>): nat {
    if steps == [] then 0
    else
      var before, now := Peak(steps[..|steps| - 1]), |Final(steps).held|;
      if now > before then now else before
  }

  /** A count is 1 for a held adapter and 0 for the others. */
  ghost predicate Exclusive(st: State) {
    && st.held <= st.counts.Keys
    && NULL !in st.counts
    && forall k | k in st.counts :: st.counts[k] == if k in st.held then 1 else 0
  }

  /** What every step keeps; an acquired adapter was held by nobody. */
  lemma StepKeepsExclusive(st: State, step: Step)
    requires Exclusive(st) && Allowed(st, step)
    ensures Exclusive(Next(st, step))
    ensures step.Acquire? ==> Choice(st.counts, step.created) !in st.held
    ensures step.Acquire? && Choice(st.counts, step.created) !in st.counts ==> st.held == st.counts.Keys
  {
    if step.Acquire? && Unlocked(st.counts) == {} {
      forall k | k in st.counts
        ensures k in st.held
      {
        assert k !in Unlocked(st.counts);
      }
    }
  }

  /** Mutual exclusion and high-water mark over every run: the pool is exactly as large as the largest
      number of adapters ever held at once. */
  lemma {:induction false} PoolSizeIsPeak(steps: seq<Step>)
    requires IsRun(steps)
    ensures Exclusive(Final(steps))
    ensures |Final(steps).counts| == Peak(steps)
    decreases |steps|
  {
    if steps != [] {
      var init, step := steps[..|steps| - 1], steps[|steps| - 1];
      PoolSizeIsPeak(init);
      var st, st' := Final(init), Final(steps);
      StepKeepsExclusive(st, step);
      SubsetSize(st'.held, st'.counts.Keys);
      match step
      case Acquire(created) =>
        var k := Choice(st.counts, created);
        if k !in st.counts && k != NULL {
          assert st'.counts.Keys == st.counts.Keys + {k};
          assert st'.held == st'.counts.Keys;
        } else {
          assert st'.counts.Keys == st.counts.Keys;
        }
      case Return(k) =>
        assert st'.counts.Keys == st.counts.Keys;
    }
  }

  lemma {:induction false} SubsetSize(a: set<Key>, b: set<Key>)
    requires a <= b
    ensures |a| <= |b|
    decreases |a|
  {
    if a != {} {
      var x :| x in a;
      SubsetSize(a - {x}, b - {x});
    }
  }

  /** No adapter is handed to two holders: one that somebody holds is not handed out again. */
  lemma NeverHandedTwice(steps: seq<Step>, created: Key)
    requires IsRun(steps) && Allowed(Final(steps), Acquire(created))
    ensures Choice(Final(steps).counts, created) !in Final(steps).held
  {
    PoolSizeIsPeak(steps);
    StepKeepsExclusive(Final(steps), Acquire(created));
  }

  /** The discipline is needed: a return keeps the counts in {0, 1} exactly when the adapter is held
      or is not the pool's. */
  lemma ReturnKeepsCountsExactly(st: State, k: Key)
    requires Exclusive(st)
    ensures (forall j | j in Release(st.counts, k) :: Release(st.counts, k)[j] <= 1)
            <==> k in st.held || k !in st.counts
  {
    if k in st.counts && k !in st.held {
      assert Release(st.counts, k)[k] == 0xFFFF_FFFF;
    }
  }

  // ----- an adapter returned twice -----

  ghost predicate RunsFrom(st: State, steps: seq<Step>)
    decreases |steps|
  {
    steps == [] || (Allowed(st, steps[0]) && RunsFrom(Next(st, steps[0]), steps[1..]))
  }

  /** The adapters a run hands out, NULL when none can be created. */
  ghost function HandedOut(st: State, steps: seq<Step>): seq<Key>
    decreases |steps|
  {
    if steps == [] then []
    else
      (if steps[0].Acquire? then [Choice(st.counts, steps[0].created)] else [])
      + HandedOut(Next(st, steps[0]), steps[1..])
  }

  /** Nobody holds `k`, and its count is not zero. */
  ghost predicate Lost(st: State, k: Key) {
    k in st.counts && st.counts[k] != 0 && k !in st.held && k != NULL
  }

  /** A lost adapter stays lost, and no run hands it out. */
  lemma {:induction false} LostForGood(st: State, steps: seq<Step>, k: Key)
    requires Lost(st, k) && RunsFrom(st, steps)
    ensures k !in HandedOut(st, steps)
    decreases |steps|
  {
    if steps != [] {
      LostForGood(Next(st, steps[0]), steps[1..], k);
    }
  }

  /** An adapter returned twice is never handed out again, in any later run that keeps the discipline. */
  lemma DoubleReturnLosesAdapter(st: State, k: Key, steps: seq<Step>)
    requires Exclusive(st) && k in st.held
    requires RunsFrom(State(Release(Release(st.counts, k), k), st.held - {k}), steps)
    ensures k !in HandedOut(State(Release(Release(st.counts, k), k), st.held - {k}), steps)
  {
    var twice := State(Release(Release(st.counts, k), k), st.held - {k});
    assert Lost(twice, k);
    LostForGood(twice, steps, k);
  }
}
