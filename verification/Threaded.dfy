/** threaded: a hand-off cell between one producer and one consumer over one atomic slot.

    Every access to the slot, every allocation and every release is one step; the two threads'
    steps interleave freely. Objects are numbered in the order of their allocation, so that, with one
    producer, the number of an object is the number of its commit (the initial object is number 0). */
module Threaded {
  import opened Facts

  datatype Option<+T> = None | Some(value: T)

  /** Where the producer stands in `commit`. */
  datatype Producer = ProducerIdle | Allocated(obj: nat) | Exchanged(stale: Option<nat>)

  /** Where the consumer stands in `consume`. */
  datatype Consumer = ConsumerIdle | SawValue | Retired

  datatype State<T> = State(
    slot: Option<nat>,
    consumed: Option<nat>,
    cleanup: Option<nat>,
    cache: T,
    producer: Producer,
    consumer: Consumer,
    objects: seq<T>,          // the content of every object ever allocated
    freed: multiset<nat>,     // the releases so far
    last: nat,                // the newest object ever put in the slot
    returned: seq<nat>)       // the objects that `consume` has returned

  datatype Step<T> =
    | Reserve(content: T)     // the producer writes through the reference from `reserve`
    | Allocate                // commit: copy the cache to a new object
    | Exchange                // commit: swap it into the slot
    | Discard                 // commit: release what was there
    | Load                    // consume: read the slot; null ends the call
    | Retire                  // consume: the current object replaces the one kept for cleanup
    | Take                    // consume: empty the slot and return what was in it
    | Cleanup                 // cleanup()

  function Count(o: Option<nat>): multiset<nat> {
    match o
    case None => multiset{}
    case Some(x) => multiset{x}
  }

  function Init<T>(content: T, cache: T): State<T> {
    State(None, Some(0), None, cache, ProducerIdle, ConsumerIdle, [content], multiset{}, 0, [])
  }

  predicate Enabled<T>(s: State<T>, step: Step<T>) {
    match step
    case Reserve(_) => s.producer.ProducerIdle?
    case Allocate => s.producer.ProducerIdle?
    case Exchange => s.producer.Allocated?
    case Discard => s.producer.Exchanged?
    case Load => s.consumer.ConsumerIdle?
    case Retire => s.consumer.SawValue?
    case Take => s.consumer.Retired?
    case Cleanup => s.consumer.ConsumerIdle?
  }

  /** `consume` returns: a reference to the current object, which must exist. */
  function Return<T>(s: State<T>): State<T> {
    if s.consumed.None? then s else s.(returned := s.returned + [s.consumed.value])
  }

  function Next<T>(s: State<T>, step: Step<T>): State<T>
    requires Enabled(s, step)
  {
    match step
    case Reserve(content) => s.(cache := content)
    case Allocate => s.(producer := Allocated(|s.objects|), objects := s.objects + [s.cache])
    case Exchange => s.(producer := Exchanged(s.slot), slot := Some(s.producer.obj), last := s.producer.obj)
    case Discard => s.(producer := ProducerIdle, freed := s.freed + Count(s.producer.stale))
    case Load => if s.slot.None? then Return(s) else s.(consumer := SawValue)
    case Retire => s.(consumer := Retired, freed := s.freed + Count(s.cleanup), cleanup := s.consumed)
    case Take => Return(s.(consumer := ConsumerIdle, consumed := s.slot, slot := None))
    case Cleanup => s.(cleanup := None, freed := s.freed + Count(s.cleanup))
  }

  /** The destructor, which runs when neither thread is inside a call. */
  function Destroy<T>(s: State<T>): State<T> {
    s.(slot := None, consumed := None, cleanup := None,
       freed := s.freed + Count(s.slot) + Count(s.consumed) + Count(s.cleanup))
  }

  // ---------- the invariant ----------

  /** 1 if the pointer leads to `x`. */
  function Is(o: Option<nat>, x: nat): nat {
    if o == Some(x) then 1 else 0
  }

  /** How many releases of `x` are still to come from what the fields and the threads hold. Between
      Retire and Take the object kept for cleanup and the current one are the same, so it counts once. */
  function Owners<T>(s: State<T>, x: nat): nat {
    Is(s.slot, x) + InHand(s.producer, x) + Kept(s, x)
  }

  function InHand(p: Producer, x: nat): nat {
    match p
    case ProducerIdle => 0
    case Allocated(obj) => Is(Some(obj), x)
    case Exchanged(stale) => Is(stale, x)
  }

  function Kept<T>(s: State<T>, x: nat): nat {
    Is(s.consumed, x) + if s.consumer.Retired? then 0 else Is(s.cleanup, x)
  }

  /** How the three pointers and the two threads' positions agree. */
  ghost predicate Pointers<T>(s: State<T>) {
    && s.consumed.Some?
    && (if s.slot.Some? then s.slot.value == s.last && s.consumed.value < s.last else s.consumed.value == s.last)
    && (!s.consumer.ConsumerIdle? ==> s.slot.Some?)
    && (s.consumer.Retired? ==> s.cleanup == s.consumed)
    && (if s.producer.Allocated? then s.producer.obj == |s.objects| - 1 == s.last + 1 else s.last == |s.objects| - 1)
  }

  /** Every object ever allocated is owned once or has been released once, never both. */
  ghost predicate Ledger<T>(s: State<T>) {
    forall x: nat {:trigger s.freed[x]} :: s.freed[x] + Owners(s, x) == if x < |s.objects| then 1 else 0
  }

  /** What was returned is in order, and the last return is the current object. */
  ghost predicate History<T>(s: State<T>) {
    && s.consumed.Some?
    && (forall i, j :: 0 <= i < j < |s.returned| ==> s.returned[i] <= s.returned[j])
    && (forall i :: 0 <= i < |s.returned| ==> s.returned[i] <= s.consumed.value)
    && (|s.returned| > 0 ==> s.returned[|s.returned| - 1] == s.consumed.value)
  }

  ghost predicate Inv<T>(s: State<T>) {
    Pointers(s) && Ledger(s) && History(s)
  }

  lemma InitInv<T>(content: T, cache: T)
    ensures Inv(Init(content, cache))
  {
  }

  lemma StepPointers<T>(s: State<T>, step: Step<T>)
    requires Pointers(s) && Enabled(s, step)
    ensures Pointers(Next(s, step))
  {
  }

  /** Each step moves an object from one owner to another, or from its owner to the released ones. */
  lemma StepOwners<T>(s: State<T>, step: Step<T>, x: nat)
    requires Pointers(s) && Enabled(s, step)
    ensures var t := Next(s, step);
      t.freed[x] + Owners(t, x) == s.freed[x] + Owners(s, x) + (if step.Allocate? then Is(Some(|s.objects|), x) else 0)
  {
  }

  lemma StepLedger<T>(s: State<T>, step: Step<T>)
    requires Pointers(s) && Ledger(s) && Enabled(s, step)
    ensures Ledger(Next(s, step))
  {
    var t := Next(s, step);
    forall x: nat ensures t.freed[x] + Owners(t, x) == if x < |t.objects| then 1 else 0 {
      assert s.freed[x] + Owners(s, x) == if x < |s.objects| then 1 else 0;
      StepOwners(s, step, x);
    }
  }

  lemma StepHistory<T>(s: State<T>, step: Step<T>)
    requires Pointers(s) && History(s) && Enabled(s, step)
    ensures History(Next(s, step))
  {
  }

  lemma StepInv<T>(s: State<T>, step: Step<T>)
    requires Inv(s) && Enabled(s, step)
    ensures Inv(Next(s, step))
  {
    StepPointers(s, step);
    StepLedger(s, step);
    StepHistory(s, step);
  }

  lemma StepGrows<T>(s: State<T>, step: Step<T>)
    requires Pointers(s) && Enabled(s, step)
    ensures var t := Next(s, step);
            s.last <= t.last && s.objects <= t.objects && s.returned <= t.returned && s.freed <= t.freed
  {
  }

  // ---------- runs ----------

  ghost predicate Runs<T>(s: State<T>, steps: seq<Step<T>>)
    decreases |steps|
  {
    |steps| > 0 ==> Enabled(s, steps[0]) && Runs(Next(s, steps[0]), steps[1..])
  }

  function Exec<T>(s: State<T>, steps: seq<Step<T>>): State<T>
    requires Runs(s, steps)
    decreases |steps|
  {
    if |steps| == 0 then s else Exec(Next(s, steps[0]), steps[1..])
  }

  /** The invariant holds after every interleaving of the steps of the two threads. */
  lemma {:induction false} RunInv<T>(s: State<T>, steps: seq<Step<T>>)
    requires Inv(s) && Runs(s, steps)
    ensures Inv(Exec(s, steps))
    ensures s.last <= Exec(s, steps).last
    ensures s.objects <= Exec(s, steps).objects && s.returned <= Exec(s, steps).returned
    ensures s.freed <= Exec(s, steps).freed
    decreases |steps|
  {
    if |steps| > 0 {
      StepInv(s, steps[0]);
      StepGrows(s, steps[0]);
      RunInv(Next(s, steps[0]), steps[1..]);
    }
  }

  /** The exchange after a non-null load never yields null: `consume` always has something to return. */
  lemma TakeFindsValue<T>(content: T, cache: T, steps: seq<Step<T>>)
    requires Runs(Init(content, cache), steps)
    ensures var s := Exec(Init(content, cache), steps);
            s.consumer.Retired? ==> s.slot.Some? && Next(s, Take).consumed.Some?
  {
    InitInv(content, cache);
    RunInv(Init(content, cache), steps);
  }

  /** What the producer has committed in the run: the cache at each allocation. */
  function Commits<T>(cache: T, steps: seq<Step<T>>): seq<T> {
    if |steps| == 0 then []
    else
      match steps[0]
      case Reserve(content) => Commits(content, steps[1..])
      case Allocate => [cache] + Commits(cache, steps[1..])
      case _ => Commits(cache, steps[1..])
  }

  /** Object `n` has the content of commit `n`; nothing overwrites it. */
  lemma {:induction false} ObjectsAreCommits<T>(s: State<T>, steps: seq<Step<T>>)
    requires Runs(s, steps)
    ensures Exec(s, steps).objects == s.objects + Commits(s.cache, steps)
    decreases |steps|
  {
    if |steps| > 0 {
      ObjectsAreCommits(Next(s, steps[0]), steps[1..]);
    }
  }

  /** What is committed is what was last written through the reference from `reserve`. */
  lemma {:induction false} CommitsLastWritten<T>(s: State<T>, content: T, quiet: seq<Step<T>>)
    requires Runs(s, [Reserve(content)] + quiet + [Allocate]) && forall i :: 0 <= i < |quiet| ==> !quiet[i].Reserve?
    ensures var t := Exec(s, [Reserve(content)] + quiet + [Allocate]);
      t.producer.Allocated? && t.producer.obj == |t.objects| - 1 && t.objects[t.producer.obj] == content
  {
    var steps := [Reserve(content)] + quiet + [Allocate];
    assert steps[1..] == quiet + [Allocate];
    QuietKeepsCache(Next(s, Reserve(content)), quiet);
  }

  lemma {:induction false} QuietKeepsCache<T>(s: State<T>, quiet: seq<Step<T>>)
    requires Runs(s, quiet + [Allocate]) && forall i :: 0 <= i < |quiet| ==> !quiet[i].Reserve?
    ensures var t := Exec(s, quiet + [Allocate]);
      t.producer.Allocated? && t.producer.obj == |t.objects| - 1 && t.objects[t.producer.obj] == s.cache
    decreases |quiet|
  {
    if quiet == [] {
      assert quiet + [Allocate] == [Allocate];
      assert [Step<T>.Allocate][1..] == [];
      assert Exec(s, [Allocate]) == Exec(Next(s, Allocate), []);
    } else {
      assert (quiet + [Allocate])[1..] == quiet[1..] + [Allocate];
      QuietKeepsCache(Next(s, quiet[0]), quiet[1..]);
    }
  }

  /** A run in which the two threads overlap: the object is taken before its commit is finished. */
  lemma Overlapping()
    ensures var steps := [Reserve(5), Allocate, Exchange, Load, Retire, Take];
      && Runs(Init(0, 0), steps)
      && var s := Exec(Init(0, 0), steps);
         s.objects == [0, 5] && s.returned == [1] && s.cleanup == Some(0) && s.slot == None && s.producer.Exchanged?
  {
  }

  /** The number of commits that are finished; the one under way, if any, is the next. */
  function Finished<T>(s: State<T>): int {
    |s.objects| - 1 - if s.producer.ProducerIdle? then 0 else 1
  }

  /** A `consume` that ends with the step `step` returns an object that is at least as new as every
      finished commit and as everything returned before, with the content it was committed with. */
  lemma ConsumeIsFresh<T>(content: T, cache: T, steps: seq<Step<T>>, step: Step<T>)
    requires Runs(Init(content, cache), steps)
    requires var s := Exec(Init(content, cache), steps);
             Enabled(s, step) && (step.Take? || (step.Load? && s.slot.None?))
    ensures var s := Exec(Init(content, cache), steps);
            var t := Next(s, step);
            && t.consumer.ConsumerIdle? && |t.returned| == |s.returned| + 1
            && var r := t.returned[|s.returned|];
               && t.consumed == Some(r) && Finished(s) <= r < |s.objects|
               && (forall i :: 0 <= i < |s.returned| ==> s.returned[i] <= r)
               && t.objects == [content] + Commits(cache, steps)
  {
    InitInv(content, cache);
    RunInv(Init(content, cache), steps);
    ObjectsAreCommits(Init(content, cache), steps);
    var s := Exec(Init(content, cache), steps);
    StepHistory(s, step);
  }

  /** No object is released twice, and none that is still reachable has been released: not the one in
      the slot, not the current one, not the one last returned to the consumer. */
  lemma NoPrematureRelease<T>(content: T, cache: T, steps: seq<Step<T>>, x: nat)
    requires Runs(Init(content, cache), steps)
    ensures var s := Exec(Init(content, cache), steps);
            && s.freed[x] <= 1
            && (s.slot == Some(x) || s.consumed == Some(x) || s.cleanup == Some(x) ==> s.freed[x] == 0)
            && (|s.returned| > 0 && s.returned[|s.returned| - 1] == x ==> s.freed[x] == 0)
  {
    InitInv(content, cache);
    RunInv(Init(content, cache), steps);
    OwnedNotFreed(Exec(Init(content, cache), steps), x);
  }

  lemma OwnedNotFreed<T>(s: State<T>, x: nat)
    requires Ledger(s) && (s.consumer.Retired? ==> s.cleanup == s.consumed)
    ensures s.freed[x] <= 1
    ensures s.slot == Some(x) || s.consumed == Some(x) || s.cleanup == Some(x) ==> s.freed[x] == 0
  {
    assert s.freed[x] + Owners(s, x) <= 1;
  }

  /** After the destructor every object ever allocated has been released exactly once. */
  lemma DestroyReleasesAll<T>(content: T, cache: T, steps: seq<Step<T>>, x: nat)
    requires Runs(Init(content, cache), steps)
    requires var s := Exec(Init(content, cache), steps); s.producer.ProducerIdle? && s.consumer.ConsumerIdle?
    ensures var s := Exec(Init(content, cache), steps);
            Destroy(s).freed[x] == if x < |s.objects| then 1 else 0
  {
    InitInv(content, cache);
    RunInv(Init(content, cache), steps);
    DestroyedLedger(Exec(Init(content, cache), steps), x);
  }

  // ---------- whole calls, with the other thread running ----------

  predicate OfProducer<T>(step: Step<T>) {
    step.Reserve? || step.Allocate? || step.Exchange? || step.Discard?
  }

  /** What one thread does while the other is between two steps: any steps at all. Choices that are not
      that thread's, or that it cannot make at that point, are passed over. */
  function Turn<T>(s: State<T>, producer: bool, choices: seq<Step<T>>): State<T>
    decreases |choices|
  {
    if choices == [] then s
    else
      var c := choices[0];
      Turn(if OfProducer(c) == producer && Enabled(s, c) then Next(s, c) else s, producer, choices[1..])
  }

  /** The turns cover every run of one thread: steps of its own that it can make are all made. */
  lemma {:induction false} TurnIsRun<T>(s: State<T>, producer: bool, steps: seq<Step<T>>)
    requires Runs(s, steps)
    requires forall i :: 0 <= i < |steps| ==>
      producer == (steps[i].Reserve? || steps[i].Allocate? || steps[i].Exchange? || steps[i].Discard?)
    ensures Turn(s, producer, steps) == Exec(s, steps)
    decreases |steps|
  {
    if steps != [] {
      TurnIsRun(Next(s, steps[0]), producer, steps[1..]);
    }
  }

  /** And nothing else: what a turn does is a run of steps of that thread. */
  lemma {:induction false} TurnHasRun<T>(s: State<T>, producer: bool, choices: seq<Step<T>>)
    returns (steps: seq<Step<T>>)
    ensures Runs(s, steps) && Exec(s, steps) == Turn(s, producer, choices)
    ensures forall i :: 0 <= i < |steps| ==>
      producer == (steps[i].Reserve? || steps[i].Allocate? || steps[i].Exchange? || steps[i].Discard?)
    decreases |choices|
  {
    if choices == [] {
      steps := [];
    } else {
      var c := choices[0];
      if OfProducer(c) == producer && Enabled(s, c) {
        var rest := TurnHasRun(Next(s, c), producer, choices[1..]);
        steps := [c] + rest;
        assert steps[1..] == rest;
      } else {
        steps := TurnHasRun(s, producer, choices[1..]);
      }
    }
  }

  /** What the other thread may rely on when one thread has run from `s` to `t`. */
  ghost predicate Interfered<T>(s: State<T>, t: State<T>, producer: bool) {
    && s.last <= t.last && s.objects <= t.objects && s.returned <= t.returned && s.freed <= t.freed
    && (producer ==> t.consumer == s.consumer && t.consumed == s.consumed && t.cleanup == s.cleanup
                     && t.returned == s.returned && (s.slot.Some? ==> t.slot.Some?))
    && (!producer ==> t.producer == s.producer && t.cache == s.cache && t.objects == s.objects && t.last == s.last)
  }

  lemma {:induction false} TurnInv<T>(s: State<T>, producer: bool, choices: seq<Step<T>>)
    requires Inv(s)
    ensures Inv(Turn(s, producer, choices)) && Interfered(s, Turn(s, producer, choices), producer)
    decreases |choices|
  {
    if choices != [] {
      var c := choices[0];
      if OfProducer(c) == producer && Enabled(s, c) {
        StepInv(s, c);
        StepGrows(s, c);
        TurnInv(Next(s, c), producer, choices[1..]);
      } else {
        TurnInv(s, producer, choices[1..]);
      }
    }
  }

  /** `commit` from `s`, with the consumer's turns between its three steps. */
  ghost function CommitCall<T>(s: State<T>, first: seq<Step<T>>, second: seq<Step<T>>): (t: State<T>)
    requires Inv(s) && s.producer.ProducerIdle?
    ensures Inv(t) && t.producer.ProducerIdle?
  {
    StepInv(s, Allocate);
    var a := Next(s, Allocate);
    TurnInv(a, false, first);
    var b := Turn(a, false, first);
    StepInv(b, Exchange);
    var c := Next(b, Exchange);
    TurnInv(c, false, second);
    var d := Turn(c, false, second);
    StepInv(d, Discard);
    Next(d, Discard)
  }

  /** The content of the cache is the newest object, in the slot or already taken, and of the older
      objects only those that the consumer still holds have not been released. */
  lemma CommitMeans<T>(s: State<T>, first: seq<Step<T>>, second: seq<Step<T>>)
    requires Inv(s) && s.producer.ProducerIdle?
    ensures var t := CommitCall(s, first, second);
      && t.cache == s.cache && t.objects == s.objects + [s.cache]
      && (t.slot == Some(|s.objects|) || (t.slot.None? && t.consumed == Some(|s.objects|)))
      && forall x: nat {:trigger t.freed[x]} :: x < |s.objects| ==>
           t.freed[x] == if t.consumed == Some(x) || t.cleanup == Some(x) then 0 else 1
  {
    CommitSlot(s, first, second);
    QuietProducer(CommitCall(s, first, second));
  }

  lemma CommitSlot<T>(s: State<T>, first: seq<Step<T>>, second: seq<Step<T>>)
    requires Inv(s) && s.producer.ProducerIdle?
    ensures var t := CommitCall(s, first, second);
      && t.cache == s.cache && t.objects == s.objects + [s.cache]
      && (t.slot == Some(|s.objects|) || (t.slot.None? && t.consumed == Some(|s.objects|)))
  {
    StepInv(s, Allocate);
    var a := Next(s, Allocate);
    TurnInv(a, false, first);
    var b := Turn(a, false, first);
    StepInv(b, Exchange);
    TurnInv(Next(b, Exchange), false, second);
  }

  lemma CommitEnabled<T>(s: State<T>, first: seq<Step<T>>, second: seq<Step<T>>)
    requires Inv(s) && s.producer.ProducerIdle?
    ensures var b := Turn(Next(s, Allocate), false, first);
      b.producer.Allocated? && Turn(Next(b, Exchange), false, second).producer.Exchanged?
  {
    StepInv(s, Allocate);
    TurnInv(Next(s, Allocate), false, first);
    var b := Turn(Next(s, Allocate), false, first);
    StepInv(b, Exchange);
    TurnInv(Next(b, Exchange), false, second);
  }

  lemma QuietProducer<T>(s: State<T>)
    requires Inv(s) && s.producer.ProducerIdle?
    ensures forall x: nat {:trigger s.freed[x]} :: x < |s.objects| ==>
      s.freed[x] == if s.slot == Some(x) || s.consumed == Some(x) || s.cleanup == Some(x) then 0 else 1
  {
    forall x: nat | x < |s.objects|
      ensures s.freed[x] == if s.slot == Some(x) || s.consumed == Some(x) || s.cleanup == Some(x) then 0 else 1
    {
      assert s.freed[x] + Owners(s, x) == 1;
    }
  }

  lemma QuietConsumer<T>(s: State<T>, x: nat)
    requires Inv(s) && s.consumer.ConsumerIdle?
    ensures s.freed[x] <= 1
    ensures s.consumed == Some(x) || s.cleanup == Some(x) ==> s.freed[x] == 0 && x < |s.objects|
    ensures s.cleanup == Some(x) ==> s.consumed != Some(x)
  {
    assert s.freed[x] + Owners(s, x) <= 1;
  }

  /** `consume` from `s` when the slot is not empty, with the producer's turns between its three steps. */
  ghost function TakeCall<T>(s: State<T>, first: seq<Step<T>>, second: seq<Step<T>>): (t: State<T>)
    requires Inv(s) && s.consumer.ConsumerIdle? && s.slot.Some?
    ensures Inv(t) && t.consumer.ConsumerIdle?
  {
    StepInv(s, Load);
    var a := Next(s, Load);
    TurnInv(a, true, first);
    var b := Turn(a, true, first);
    StepInv(b, Retire);
    var c := Next(b, Retire);
    TurnInv(c, true, second);
    var d := Turn(c, true, second);
    StepInv(d, Take);
    Next(d, Take)
  }

  lemma TakeEnabled<T>(s: State<T>, first: seq<Step<T>>, second: seq<Step<T>>)
    requires Inv(s) && s.consumer.ConsumerIdle? && s.slot.Some?
    ensures var b := Turn(Next(s, Load), true, first);
      && b.consumer.SawValue?
      && var d := Turn(Next(b, Retire), true, second); d.consumer.Retired? && d.slot.Some?
  {
    StepInv(s, Load);
    TurnInv(Next(s, Load), true, first);
    var b := Turn(Next(s, Load), true, first);
    StepInv(b, Retire);
    TurnInv(Next(b, Retire), true, second);
  }

  /** The result is newer than the current object, which is kept for cleanup in place of what was kept
      before; that, and nothing still reachable, is released. */
  lemma TakeMeans<T>(s: State<T>, first: seq<Step<T>>, second: seq<Step<T>>)
    requires Inv(s) && s.consumer.ConsumerIdle? && s.slot.Some?
    ensures var t := TakeCall(s, first, second);
      && s.objects <= t.objects && t.consumed.Some? && t.returned == s.returned + [t.consumed.value]
      && s.last <= t.consumed.value && s.consumed.value < t.consumed.value < |t.objects|
      && t.cleanup == s.consumed && t.freed[t.consumed.value] == 0 && t.freed[s.consumed.value] == 0
      && (s.cleanup.Some? ==> t.freed[s.cleanup.value] == 1)
  {
    TakeSlot(s, first, second);
    var t := TakeCall(s, first, second);
    QuietConsumer(t, t.consumed.value);
    QuietConsumer(t, s.consumed.value);
    if s.cleanup.Some? {
      QuietConsumer(t, s.cleanup.value);
    }
  }

  /** What `consume` does to the pointers. */
  lemma TakeSlot<T>(s: State<T>, first: seq<Step<T>>, second: seq<Step<T>>)
    requires Inv(s) && s.consumer.ConsumerIdle? && s.slot.Some?
    ensures var t := TakeCall(s, first, second);
      && s.objects <= t.objects && t.consumed.Some? && t.returned == s.returned + [t.consumed.value]
      && s.last <= t.consumed.value && s.consumed.value < s.last && t.cleanup == s.consumed
      && (s.cleanup.Some? ==> t.freed[s.cleanup.value] >= 1)
  {
    KeepSlot(s, first);
    TurnInv(Next(Turn(Next(s, Load), true, first), Retire), true, second);
  }

  /** The first two of its steps. */
  lemma KeepSlot<T>(s: State<T>, first: seq<Step<T>>)
    requires Inv(s) && s.consumer.ConsumerIdle? && s.slot.Some?
    ensures var b := Turn(Next(s, Load), true, first);
      && b.consumer.SawValue?
      && var c := Next(b, Retire);
         && Inv(c) && c.consumer.Retired? && c.slot.Some? && c.consumed == s.consumed && c.cleanup == s.consumed
         && c.returned == s.returned && s.last <= c.last && s.objects <= c.objects
         && s.consumed.Some? && s.consumed.value < s.last
         && (s.cleanup.Some? ==> c.freed[s.cleanup.value] >= 1)
  {
    StepInv(s, Load);
    TurnInv(Next(s, Load), true, first);
    StepInv(Turn(Next(s, Load), true, first), Retire);
  }

  /** The cell with its fields. `objects` stands for the heap; the last three fields are history. */
  class Cell<T> {
    var slot: Option<nat>
    var consumed: Option<nat>
    var cleanup: Option<nat>
    var cache: T
    var producer: Producer
    var consumer: Consumer
    var objects: seq<T>
    var freed: multiset<nat>
    var last: nat
    var returned: seq<nat>

    function Abs(): State<T>
      reads this
    {
      State(slot, consumed, cleanup, cache, producer, consumer, objects, freed, last, returned)
    }

    constructor (content: T, cache: T)
      ensures Abs() == Init(content, cache) && Inv(Abs())
    {
      slot, consumed, cleanup, this.cache := None, Some(0), None, cache;
      producer, consumer := ProducerIdle, ConsumerIdle;
      objects, freed, last, returned := [content], multiset{}, 0, [];
      new;
      InitInv(content, cache);
    }

    /** The other thread runs. */
    method Interfere(producers: bool, choices: seq<Step<T>>)
      modifies this
      ensures Abs() == Turn(old(Abs()), producers, choices)
    {
      var t := Turn(Abs(), producers, choices);
      slot, consumed, cleanup, cache, producer := t.slot, t.consumed, t.cleanup, t.cache, t.producer;
      consumer, objects, freed, last, returned := t.consumer, t.objects, t.freed, t.last, t.returned;
    }

    /** Writing through the reference from `reserve`: only the producer's own cache changes. */
    method Write(content: T)
      requires Whole(Inv(Abs())) && producer.ProducerIdle?
      modifies this`cache
      ensures Whole(Inv(Abs())) && cache == content
    {
      ghost var s := Abs();
      StepInv(s, Reserve(content));
      cache := content;
      assert Abs() == Next(s, Reserve(content));
    }

    /** `commit`, whatever the consumer does between its steps. */
    method Commit(first: seq<Step<T>>, second: seq<Step<T>>)
      requires Whole(Inv(Abs())) && producer.ProducerIdle?
      modifies this
      ensures Whole(Inv(Abs())) && producer.ProducerIdle? && cache == old(cache)
      ensures objects == old(objects) + [old(cache)]
      ensures slot == Some(|old(objects)|) || (slot.None? && consumed == Some(|old(objects)|))
      ensures forall x: nat {:trigger freed[x]} :: x < |old(objects)| ==>
        freed[x] == if consumed == Some(x) || cleanup == Some(x) then 0 else 1
    {
      ghost var s := Abs();
      CommitMeans(s, first, second);
      NewObject();
      Interfere(false, first);
      CommitEnabled(s, first, second);
      SwapIn();
      Interfere(false, second);
      DropStale();
      assert Abs() == CommitCall(s, first, second);
    }

    // The atomic steps of the two calls.

    method NewObject()
      requires producer.ProducerIdle?
      modifies this`objects, this`producer
      ensures Abs() == Next(old(Abs()), Allocate)
    {
      producer := Allocated(|objects|);
      objects := objects + [cache];
    }

    method SwapIn()
      requires producer.Allocated?
      modifies this`slot, this`last, this`producer
      ensures Abs() == Next(old(Abs()), Exchange)
    {
      last := producer.obj;
      slot, producer := Some(producer.obj), Exchanged(slot);
    }

    method DropStale()
      requires producer.Exchanged?
      modifies this`freed, this`producer
      ensures Abs() == Next(old(Abs()), Discard)
    {
      freed := freed + Count(producer.stale);
      producer := ProducerIdle;
    }

    method SeeValue()
      requires consumer.ConsumerIdle? && slot.Some?
      modifies this`consumer
      ensures Abs() == Next(old(Abs()), Load)
    {
      consumer := SawValue;
    }

    method KeepCurrent()
      requires consumer.SawValue?
      modifies this`freed, this`cleanup, this`consumer
      ensures Abs() == Next(old(Abs()), Retire)
    {
      freed := freed + Count(cleanup);
      cleanup := consumed;
      consumer := Retired;
    }

    method TakeOut() returns (r: nat)
      requires consumer.Retired? && slot.Some?
      modifies this`slot, this`consumed, this`consumer, this`returned
      ensures Abs() == Next(old(Abs()), Take) && consumed == Some(r)
    {
      consumed, slot := slot, None;
      consumer := ConsumerIdle;
      r := consumed.value;
      returned := returned + [r];
    }

    /** `consume`, whatever the producer does between its steps. The result is at least as new as every
        commit finished before the call and as every earlier result. Neither it nor the result before it
        has been released; what was kept for cleanup is, if and only if there was something new. */
    method Consume(first: seq<Step<T>>, second: seq<Step<T>>) returns (r: nat)
      requires Whole(Inv(Abs())) && consumer.ConsumerIdle?
      modifies this
      ensures Whole(Inv(Abs())) && consumer.ConsumerIdle? && old(objects) <= objects
      ensures returned == old(returned) + [r] && consumed == Some(r) && r < |objects|
      ensures old(Finished(Abs())) <= r && forall i :: 0 <= i < |old(returned)| ==> old(returned)[i] <= r
      ensures old(consumed).Some? && freed[r] == 0 && freed[old(consumed).value] == 0
      ensures r == old(consumed).value <==> old(slot).None?
      ensures cleanup == if old(slot).None? then old(cleanup) else old(consumed)
      ensures old(cleanup).Some? ==> freed[old(cleanup).value] == if old(slot).None? then 0 else 1
    {
      ghost var s := Abs();
      if slot == None {
        r := consumed.value;
        returned := returned + [r];
        NothingNew(s);
        assert Abs() == Next(s, Load);
      } else {
        TakeMeans(s, first, second);
        TakeEnabled(s, first, second);
        SeeValue();
        Interfere(true, first);
        KeepCurrent();
        Interfere(true, second);
        r := TakeOut();
        assert Abs() == TakeCall(s, first, second);
      }
    }

    /** `cleanup`: exactly the object kept for cleanup is released. */
    method Cleanup()
      requires Whole(Inv(Abs())) && consumer.ConsumerIdle?
      modifies this`cleanup, this`freed
      ensures Whole(Inv(Abs())) && cleanup == None
      ensures forall x: nat {:trigger freed[x]} :: freed[x] == if old(cleanup) == Some(x) then 1 else old(freed)[x]
    {
      ghost var s := Abs();
      StepInv(s, Step.Cleanup);
      if cleanup.Some? {
        QuietConsumer(s, cleanup.value);
      }
      freed := freed + Count(cleanup);
      cleanup := None;
      assert Abs() == Next(s, Step.Cleanup);
    }

    /** The destructor, when neither thread is inside a call: every object has been released once. */
    method Destroy()
      requires Whole(Inv(Abs())) && producer.ProducerIdle? && consumer.ConsumerIdle?
      modifies this`slot, this`consumed, this`cleanup, this`freed
      ensures forall x: nat {:trigger freed[x]} :: freed[x] == if x < |objects| then 1 else 0
    {
      ghost var s := Abs();
      freed := freed + Count(slot) + Count(consumed) + Count(cleanup);
      slot, consumed, cleanup := None, None, None;
      forall x: nat ensures freed[x] == if x < |objects| then 1 else 0 {
        DestroyedLedger(s, x);
      }
    }
  }

  /** The ledger in a destroyed cell. */
  lemma DestroyedLedger<T>(s: State<T>, x: nat)
    requires Inv(s) && s.producer.ProducerIdle? && s.consumer.ConsumerIdle?
    ensures Destroy(s).freed[x] == if x < |s.objects| then 1 else 0
  {
    assert s.freed[x] + Owners(s, x) == if x < |s.objects| then 1 else 0;
  }

  lemma NothingNew<T>(s: State<T>)
    requires Inv(s) && s.consumer.ConsumerIdle? && s.slot.None?
    ensures Inv(Next(s, Load)) && s.consumed.Some? && s.freed[s.consumed.value] == 0
    ensures Finished(s) <= s.consumed.value < |s.objects|
    ensures s.cleanup.Some? ==> s.freed[s.cleanup.value] == 0
  {
    StepInv(s, Load);
    QuietConsumer(s, s.consumed.value);
    if s.cleanup.Some? {
      QuietConsumer(s, s.cleanup.value);
    }
  }
}
