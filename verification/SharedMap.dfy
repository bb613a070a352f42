/** shared_map: handles with private caches over one table behind a mutex. */
module SharedMap {

  datatype Option<T> = None | Some(value: T)

  // ---------- the single map that the handles stand for ----------

  datatype Call<K, V> = Find(key: K) | Insert(key: K, value: V)

  function Lookup<K, V>(t: map<K, V>, k: K): Option<V> {
    if k in t then Some(t[k]) else None
  }

  /** The table after a call: only the first insertion of a key counts. */
  function After<K, V>(t: map<K, V>, c: Call<K, V>): map<K, V> {
    if c.Insert? && c.key !in t then t[c.key := c.value] else t
  }

  /** The entry a call gives back. */
  function Result<K, V>(t: map<K, V>, c: Call<K, V>): Option<V> {
    Lookup(After(t, c), c.key)
  }

  /** `local` holds nothing but what `t` holds. */
  ghost predicate Caches<K, V>(local: map<K, V>, t: map<K, V>) {
    forall k :: k in local ==> k in t && local[k] == t[k]
  }

  // ---------- one handle at a time ----------

  /** `_shared`; each method holds the mutex throughout. */
  class Shared<K(==), V> {
    var table: map<K, V>

    constructor ()
      ensures table == map[]
    {
      table := map[];
    }

    method Find(key: K) returns (r: Option<V>)
      ensures r == Lookup(table, key)
    {
      r := if key in table then Some(table[key]) else None;
    }

    /** `unordered_map::emplace` leaves an existing entry alone. */
    method Emplace(key: K, value: V) returns (r: V)
      modifies this
      ensures table == After(old(table), Call.Insert(key, value))
      ensures Some(r) == Result(old(table), Call.Insert(key, value))
    {
      if key !in table {
        table := table[key := value];
      }
      r := table[key];
    }
  }

  class Handle<K(==), V> {
    const shared: Shared<K, V>
    var local: map<K, V>

    ghost predicate Valid()
      reads this, shared
    {
      Caches(local, shared.table)
    }

    constructor (shared: Shared<K, V>)
      ensures Valid() && this.shared == shared && local == map[]
    {
      this.shared := shared;
      local := map[];
    }

    /** `find` gives what the shared table holds, and remembers it. */
    method Find(key: K) returns (r: Option<V>)
      requires Valid()
      modifies this`local
      ensures Valid() && r == Lookup(shared.table, key)
      ensures local == if r.Some? then old(local)[key := r.value] else old(local)
    {
      if key in local {
        return Some(local[key]);
      }
      var n := shared.Find(key);
      if n.Some? {
        local := local[key := n.value];
        return Some(local[key]);
      }
      return None;
    }

    /** The `const` members look no further than the cache. */
    method Contains(key: K) returns (b: bool)
      requires Valid()
      ensures b <==> key in local
      ensures b ==> key in shared.table
    {
      b := key in local;
    }

    /** `insert` gives the entry of a single shared map. The flag speaks of this handle only. */
    method Insert(key: K, value: V) returns (r: V, inserted: bool)
      requires Valid()
      modifies this`local, shared
      ensures Valid() && shared.table == After(old(shared.table), Call.Insert(key, value))
      ensures Some(r) == Result(old(shared.table), Call.Insert(key, value))
      ensures local == old(local)[key := r]
      ensures inserted <==> key !in old(local)
      ensures (inserted <==> key !in old(shared.table)) <==> !(key in old(shared.table) && key !in old(local))
    {
      if key in local {
        return local[key], false;
      }
      var n := shared.Emplace(key, value);
      local := local[key := n];
      return local[key], true;
    }
  }

  // ---------- any number of handles, step by step ----------

  /** Where a handle is within a call. `since` is the length of the log when the call began. */
  datatype Pc<K, V> =
    | Idle
    | Missed(call: Call<K, V>, since: nat)
    | Answered(call: Call<K, V>, since: nat, at: nat, entry: Option<V>)

  datatype Local<K, V> = Local(cache: map<K, V>, pc: Pc<K, V>)

  /** A call taking effect on the shared map. */
  datatype Event<K, V> = Event(handle: nat, call: Call<K, V>, entry: Option<V>)

  /** A call that has returned; it took effect as the event `at`. */
  datatype Answer<K, V> =
    Answer(handle: nat, call: Call<K, V>, since: nat, at: nat, until: nat, entry: Option<V>, inserted: bool)

  datatype State<K, V> = State(table: map<K, V>, handles: map<nat, Local<K, V>>,
                               log: seq<Event<K, V>>, answers: seq<Answer<K, V>>)

  /** One atomic step; everything a handle does outside the mutex is private to it. */
  datatype Step<K, V> =
    | Copy(handle: nat)
    | Begin(handle: nat, call: Call<K, V>)
    | Critical(handle: nat)
    | Finish(handle: nat)

  predicate Enabled<K, V>(s: State<K, V>, a: Step<K, V>) {
    if a.Copy? then a.handle !in s.handles
    else
      && a.handle in s.handles
      && (a.Begin? ==> s.handles[a.handle].pc.Idle?)
      && (a.Critical? ==> s.handles[a.handle].pc.Missed?)
      && (a.Finish? ==> s.handles[a.handle].pc.Answered?)
  }

  function Next<K, V>(s: State<K, V>, a: Step<K, V>): State<K, V>
    requires Enabled(s, a)
  {
    match a
    case Copy(h) => s.(handles := s.handles[h := Local(map[], Idle)])
    case Begin(h, call) =>
      var cache := s.handles[h].cache;
      if call.key in cache then
        var e := Some(cache[call.key]);
        s.(log := s.log + [Event(h, call, e)],
           answers := s.answers + [Answer(h, call, |s.log|, |s.log|, |s.log| + 1, e, false)])
      else s.(handles := s.handles[h := Local(cache, Missed(call, |s.log|))])
    case Critical(h) =>
      var pc := s.handles[h].pc;
      var t := if pc.call.Insert? && pc.call.key !in s.table then s.table[pc.call.key := pc.call.value] else s.table;
      var e := Lookup(t, pc.call.key);
      s.(table := t, log := s.log + [Event(h, pc.call, e)],
         handles := s.handles[h := Local(s.handles[h].cache, Answered(pc.call, pc.since, |s.log|, e))])
    case Finish(h) =>
      var pc := s.handles[h].pc;
      var had := s.handles[h].cache;
      var cache := if pc.entry.Some? && pc.call.key !in had then had[pc.call.key := pc.entry.value] else had;
      s.(handles := s.handles[h := Local(cache, Idle)],
         answers := s.answers + [Answer(h, pc.call, pc.since, pc.at, |s.log|, Lookup(cache, pc.call.key),
                                        pc.call.Insert? && pc.call.key !in had)])
  }

  function Init<K, V>(): State<K, V> {
    State(map[], map[0 := Local(map[], Idle)], [], [])
  }

  // ---------- what every step keeps ----------

  /** The map after the first calls of the log, one after the other. */
  function Replay<K, V>(log: seq<Event<K, V>>): map<K, V> {
    if log == [] then map[] else After(Replay(log[..|log| - 1]), log[|log| - 1].call)
  }

  /** The log is a history of one map used sequentially. */
  ghost predicate Sequential<K, V>(log: seq<Event<K, V>>) {
    forall i :: 0 <= i < |log| ==> log[i].entry == Result(Replay(log[..i]), log[i].call)
  }

  ghost predicate CachesAgree<K, V>(s: State<K, V>) {
    forall h :: h in s.handles ==> Caches(s.handles[h].cache, s.table)
  }

  ghost predicate PcAgrees<K, V>(s: State<K, V>, h: nat, l: Local<K, V>) {
    match l.pc
    case Idle => true
    case Missed(call, since) => call.key !in l.cache && since <= |s.log|
    case Answered(call, since, at, entry) =>
      && call.key !in l.cache && since <= at < |s.log| && s.log[at] == Event(h, call, entry)
      && (entry.Some? ==> call.key in s.table && s.table[call.key] == entry.value)
      && (call.Insert? ==> entry.Some?)
  }

  ghost predicate PcsAgree<K, V>(s: State<K, V>) {
    forall h :: h in s.handles ==> PcAgrees(s, h, s.handles[h])
  }

  /** A call returned what it got when it took effect, which was while it was under way. */
  ghost predicate Answers<K, V>(s: State<K, V>, a: Answer<K, V>) {
    && a.since <= a.at < a.until <= |s.log|
    && s.log[a.at] == Event(a.handle, a.call, a.entry)
  }

  ghost predicate AnswersAgree<K, V>(s: State<K, V>) {
    forall i :: 0 <= i < |s.answers| ==> Answers(s, s.answers[i])
  }

  ghost predicate Inv<K, V>(s: State<K, V>) {
    && s.table == Replay(s.log) && Sequential(s.log)
    && CachesAgree(s) && PcsAgree(s) && AnswersAgree(s)
  }

  /** `a` gave its handle an entry for `k`. */
  predicate Gave<K(==), V>(a: Answer<K, V>, h: nat, k: K) {
    a.handle == h && a.call.key == k && a.entry.Some?
  }

  /** One of the first `n` calls to return had already given handle `h` an entry for `k`. */
  ghost predicate Given<K, V>(s: State<K, V>, n: nat, h: nat, k: K)
    requires n <= |s.answers|
  {
    exists j :: 0 <= j < n && Gave(s.answers[j], h, k)
  }

  /** The calls of one handle follow one another. */
  ghost predicate InTurn<K, V>(answers: seq<Answer<K, V>>) {
    forall i, j :: 0 <= i < j < |answers| && answers[i].handle == answers[j].handle ==>
      answers[i].until <= answers[j].since
  }

  /** An answered call ended before what its handle is doing now. */
  ghost predicate Over<K, V>(s: State<K, V>, b: Answer<K, V>) {
    && b.until <= |s.log| && b.handle in s.handles
    && (!s.handles[b.handle].pc.Idle? ==> b.until <= s.handles[b.handle].pc.since)
  }

  ghost predicate Ordered<K, V>(s: State<K, V>) {
    InTurn(s.answers) && forall i :: 0 <= i < |s.answers| ==> Over(s, s.answers[i])
  }

  ghost predicate CachesGiven<K, V>(s: State<K, V>) {
    && (forall h, k :: h in s.handles && k in s.handles[h].cache ==> Given(s, |s.answers|, h, k))
    && (forall j :: 0 <= j < |s.answers| && s.answers[j].entry.Some? ==>
          s.answers[j].handle in s.handles && s.answers[j].call.key in s.handles[s.answers[j].handle].cache)
  }

  /** `insert` reports an insertion exactly when its handle had not been given the key before. */
  ghost predicate FlagsRight<K, V>(s: State<K, V>) {
    forall i {:trigger s.answers[i].inserted} :: 0 <= i < |s.answers| ==>
      (s.answers[i].inserted <==>
        s.answers[i].call.Insert? && !Given(s, i, s.answers[i].handle, s.answers[i].call.key))
  }

  lemma LogGrows<K, V>(log: seq<Event<K, V>>, e: Event<K, V>)
    requires Sequential(log) && e.entry == Result(Replay(log), e.call)
    ensures Sequential(log + [e]) && Replay(log + [e]) == After(Replay(log), e.call)
  {
    var r := log + [e];
    assert r[..|log|] == log;
    forall i | 0 <= i < |log| ensures r[i].entry == Result(Replay(r[..i]), r[i].call) {
      assert r[..i] == log[..i];
    }
  }

  lemma AnswersStay<K, V>(s: State<K, V>, e: Event<K, V>, a: Answer<K, V>)
    requires Answers(s, a)
    ensures Answers(s.(log := s.log + [e]), a)
  {
    assert (s.log + [e])[..a.at] == s.log[..a.at];
  }

  /** Nothing published is ever changed. */
  lemma StepPublishes<K, V>(s: State<K, V>, a: Step<K, V>)
    requires Enabled(s, a)
    ensures Caches(s.table, Next(s, a).table)
    ensures s.log <= Next(s, a).log && s.answers <= Next(s, a).answers
  {
  }

  lemma BeginInv<K, V>(s: State<K, V>, h: nat, call: Call<K, V>)
    requires Inv(s) && Enabled(s, Begin(h, call))
    ensures Inv(Next(s, Begin(h, call)))
  {
    var r := Next(s, Begin(h, call));
    var cache := s.handles[h].cache;
    if call.key in cache {
      assert Caches(cache, s.table);
      var e := Event(h, call, Some(cache[call.key]));
      LogGrows(s.log, e);
      assert r.log == s.log + [e];
      forall i | 0 <= i < |r.answers| ensures Answers(r, r.answers[i]) {
        if i < |s.answers| {
          AnswersStay(s, e, s.answers[i]);
        } else {
          assert r.log[..|s.log|] == s.log;
        }
      }
      assert forall g :: g in r.handles ==> PcAgrees(s, g, r.handles[g]);
    } else {
      assert forall g :: g in r.handles && g != h ==> PcAgrees(s, g, r.handles[g]);
    }
  }

  lemma CriticalInv<K, V>(s: State<K, V>, h: nat)
    requires Inv(s) && Enabled(s, Critical(h))
    ensures Inv(Next(s, Critical(h)))
  {
    var r := Next(s, Critical(h));
    assert PcAgrees(s, h, s.handles[h]);
    var call := s.handles[h].pc.call;
    var e := Event(h, call, Lookup(r.table, call.key));
    LogGrows(s.log, e);
    assert r.log == s.log + [e];
    forall i | 0 <= i < |r.answers| ensures Answers(r, r.answers[i]) {
      AnswersStay(s, e, s.answers[i]);
    }
    forall g | g in r.handles ensures PcAgrees(r, g, r.handles[g]) && Caches(r.handles[g].cache, r.table) {
      assert PcAgrees(s, g, s.handles[g]);
      assert Caches(s.handles[g].cache, s.table);
    }
  }

  lemma FinishInv<K, V>(s: State<K, V>, h: nat)
    requires Inv(s) && Enabled(s, Finish(h))
    ensures Inv(Next(s, Finish(h)))
  {
    var r := Next(s, Finish(h));
    assert PcAgrees(s, h, s.handles[h]) && Caches(s.handles[h].cache, s.table);
    forall i | 0 <= i < |r.answers| ensures Answers(r, r.answers[i]) {
      assert i < |s.answers| ==> Answers(s, s.answers[i]);
    }
    forall g | g in r.handles ensures PcAgrees(r, g, r.handles[g]) && Caches(r.handles[g].cache, r.table) {
      assert g in s.handles && PcAgrees(s, g, s.handles[g]) && Caches(s.handles[g].cache, s.table);
    }
  }

  lemma StepInv<K, V>(s: State<K, V>, a: Step<K, V>)
    requires Inv(s) && Enabled(s, a)
    ensures Inv(Next(s, a))
  {
    match a
    case Copy(h) =>
      var r := Next(s, a);
      assert forall g :: g in r.handles && g != h ==> PcAgrees(s, g, r.handles[g]);
    case Begin(h, call) => BeginInv(s, h, call);
    case Critical(h) => CriticalInv(s, h);
    case Finish(h) => FinishInv(s, h);
  }

  lemma StepOrdered<K, V>(s: State<K, V>, a: Step<K, V>)
    requires Inv(s) && Ordered(s) && Enabled(s, a)
    ensures Ordered(Next(s, a))
  {
    var t, n := Next(s, a), |s.answers|;
    if !a.Copy? {
      assert PcAgrees(s, a.handle, s.handles[a.handle]);
    }
    forall i | 0 <= i < n ensures Over(t, t.answers[i]) {
      StillOver(s, a, s.answers[i]);
    }
    forall i | 0 <= i < n && n < |t.answers| && t.answers[i].handle == t.answers[n].handle
      ensures t.answers[i].until <= t.answers[n].since
    {
      assert Over(s, s.answers[i]);
    }
  }

  lemma StillOver<K, V>(s: State<K, V>, a: Step<K, V>, b: Answer<K, V>)
    requires Over(s, b) && Enabled(s, a)
    ensures Over(Next(s, a), b)
  {
  }

  /** A call that returns adds to what its handle has been given, and to nothing else. */
  lemma GivenStep<K, V>(s: State<K, V>, t: State<K, V>, h: nat, k: K)
    requires s.answers <= t.answers && |t.answers| <= |s.answers| + 1
    ensures Given(t, |t.answers|, h, k) <==>
      Given(s, |s.answers|, h, k) || (|t.answers| > |s.answers| && Gave(t.answers[|s.answers|], h, k))
    ensures forall n: nat :: n <= |s.answers| ==> (Given(t, n, h, k) <==> Given(s, n, h, k))
  {
    forall n: nat | n <= |s.answers| ensures Given(t, n, h, k) <==> Given(s, n, h, k) {
      if Given(s, n, h, k) {
        var j :| 0 <= j < n && Gave(s.answers[j], h, k);
        assert Gave(t.answers[j], h, k);
      }
      if Given(t, n, h, k) {
        var j :| 0 <= j < n && Gave(t.answers[j], h, k);
        assert Gave(s.answers[j], h, k);
      }
    }
    if Given(s, |s.answers|, h, k) {
      var j :| 0 <= j < |s.answers| && Gave(s.answers[j], h, k);
      assert Gave(t.answers[j], h, k);
    }
    if Given(t, |t.answers|, h, k) {
      var j :| 0 <= j < |t.answers| && Gave(t.answers[j], h, k);
      if j < |s.answers| {
        assert Gave(s.answers[j], h, k);
      }
    }
  }

  lemma StepCachesGiven<K, V>(s: State<K, V>, a: Step<K, V>)
    requires Inv(s) && Ordered(s) && CachesGiven(s) && Enabled(s, a)
    ensures CachesGiven(Next(s, a))
  {
    var t := Next(s, a);
    StepPublishes(s, a);
    forall h, k | h in t.handles && k in t.handles[h].cache ensures Given(t, |t.answers|, h, k) {
      GivenStep(s, t, h, k);
      assert h in s.handles && PcAgrees(s, h, s.handles[h]);
    }
    forall j | 0 <= j < |t.answers| && t.answers[j].entry.Some?
      ensures t.answers[j].handle in t.handles && t.answers[j].call.key in t.handles[t.answers[j].handle].cache
    {
      assert j < |s.answers| ==> s.answers[j] == t.answers[j];
    }
  }

  lemma StepFlags<K, V>(s: State<K, V>, a: Step<K, V>)
    requires Inv(s) && CachesGiven(s) && FlagsRight(s) && Enabled(s, a)
    ensures FlagsRight(Next(s, a))
  {
    var t := Next(s, a);
    StepPublishes(s, a);
    forall i | 0 <= i < |t.answers|
      ensures t.answers[i].inserted <==>
        t.answers[i].call.Insert? && !Given(t, i, t.answers[i].handle, t.answers[i].call.key)
    {
      var b := t.answers[i];
      GivenStep(s, t, b.handle, b.call.key);
      if i < |s.answers| {
        assert s.answers[i] == b && (s.answers[i].inserted <==> b.inserted);
      } else {
        assert PcAgrees(s, a.handle, s.handles[a.handle]);
      }
    }
  }

  // ---------- runs ----------

  ghost predicate Runs<K, V>(s: State<K, V>, steps: seq<Step<K, V>>)
    decreases |steps|
  {
    steps == [] || (Enabled(s, steps[0]) && Runs(Next(s, steps[0]), steps[1..]))
  }

  ghost function Exec<K, V>(s: State<K, V>, steps: seq<Step<K, V>>): State<K, V>
    requires Runs(s, steps)
    decreases |steps|
  {
    if steps == [] then s else Exec(Next(s, steps[0]), steps[1..])
  }

  /** The invariant holds in every interleaving, and published entries stay as they are. */
  lemma {:induction false} RunInv<K, V>(s: State<K, V>, steps: seq<Step<K, V>>)
    requires Inv(s) && Runs(s, steps)
    ensures Inv(Exec(s, steps))
    ensures Caches(s.table, Exec(s, steps).table)
    decreases |steps|
  {
    if steps != [] {
      StepInv(s, steps[0]);
      StepPublishes(s, steps[0]);
      RunInv(Next(s, steps[0]), steps[1..]);
    }
  }

  lemma InitInv<K, V>()
    ensures Inv(Init<K, V>())
  {
  }

  /** The order of calls, the history of the caches and the meaning of the flags hold in every interleaving. */
  lemma {:induction false} RunHistory<K, V>(s: State<K, V>, steps: seq<Step<K, V>>)
    requires Inv(s) && Ordered(s) && CachesGiven(s) && FlagsRight(s) && Runs(s, steps)
    ensures Ordered(Exec(s, steps)) && CachesGiven(Exec(s, steps)) && FlagsRight(Exec(s, steps))
    decreases |steps|
  {
    if steps != [] {
      StepInv(s, steps[0]);
      StepOrdered(s, steps[0]);
      StepCachesGiven(s, steps[0]);
      StepFlags(s, steps[0]);
      RunHistory(Next(s, steps[0]), steps[1..]);
    }
  }

  /** What a reachable state satisfies. */
  lemma Reached<K, V>(steps: seq<Step<K, V>>)
    requires Runs(Init<K, V>(), steps)
    ensures var s := Exec(Init<K, V>(), steps); Inv(s) && Ordered(s) && CachesGiven(s) && FlagsRight(s)
  {
    InitInv<K, V>();
    RunInv(Init<K, V>(), steps);
    RunHistory(Init<K, V>(), steps);
  }

  lemma {:induction false} ReplayGrows<K, V>(log: seq<Event<K, V>>, i: nat)
    requires i <= |log|
    ensures Caches(Replay(log[..i]), Replay(log))
    decreases |log|
  {
    if i < |log| {
      var shorter := log[..|log| - 1];
      assert shorter[..i] == log[..i];
      ReplayGrows(shorter, i);
    } else {
      assert log[..i] == log;
    }
  }

  /**
   * In any interleaving, the calls that have returned are distinct events of a history of one map,
   * used sequentially; each took effect between its beginning and its end and gave what the map gives.
   */
  lemma Linearizable<K, V>(steps: seq<Step<K, V>>)
    requires Runs(Init(), steps)
    ensures var s := Exec(Init(), steps);
      && Sequential(s.log) && s.table == Replay(s.log)
      && (forall i :: 0 <= i < |s.answers| ==> Answers(s, s.answers[i]))
      && (forall i :: 0 <= i < |s.answers| ==> s.answers[i].since <= s.answers[i].at < s.answers[i].until <= |s.log|)
      && (forall i, j :: 0 <= i < j < |s.answers| ==> s.answers[i].at != s.answers[j].at)
      && (forall i, j :: 0 <= i < j < |s.answers| && s.answers[i].handle == s.answers[j].handle ==>
            s.answers[i].until <= s.answers[j].since)
  {
    Reached(steps);
    var s := Exec(Init(), steps);
    forall i, j | 0 <= i < j < |s.answers| ensures s.answers[i].at != s.answers[j].at {
      assert Answers(s, s.answers[i]) && Answers(s, s.answers[j]);
    }
  }

  /** Racing calls for one key all get the entry that was published first, which the table still holds. */
  lemma FirstWins<K, V>(steps: seq<Step<K, V>>, i: nat, j: nat)
    requires Runs(Init(), steps)
    requires i < |Exec(Init(), steps).answers| && j < |Exec(Init(), steps).answers|
    ensures var s := Exec(Init(), steps);
      var a, b := s.answers[i], s.answers[j];
      && (a.entry.Some? ==> a.entry == Lookup(s.table, a.call.key))
      && (a.entry.Some? && b.entry.Some? && a.call.key == b.call.key ==> a.entry == b.entry)
      && (a.call.Insert? ==> a.entry.Some?)
  {
    InitInv<K, V>();
    RunInv(Init(), steps);
    var s := Exec(Init(), steps);
    StillThere(s, s.answers[i]);
    StillThere(s, s.answers[j]);
  }

  lemma StillThere<K, V>(s: State<K, V>, a: Answer<K, V>)
    requires Inv(s) && Answers(s, a)
    ensures a.entry.Some? ==> a.entry == Lookup(s.table, a.call.key)
    ensures a.call.Insert? ==> a.entry.Some?
  {
    assert s.log[..a.at + 1][..a.at] == s.log[..a.at];
    ReplayGrows(s.log, a.at + 1);
    assert Replay(s.log[..a.at + 1]) == After(Replay(s.log[..a.at]), a.call);
  }

  /** The event inserts `k`. */
  predicate Inserts<K(==), V>(e: Event<K, V>, k: K) {
    e.call.Insert? && e.call.key == k
  }

  /** The map after some calls holds, for each key, the value of its first insertion. */
  lemma {:induction false} ReplayIs<K, V>(log: seq<Event<K, V>>, k: K)
    ensures k !in Replay(log) ==> forall j :: 0 <= j < |log| ==> !Inserts(log[j], k)
    ensures k in Replay(log) ==> exists j :: 0 <= j < |log| && Inserts(log[j], k) && Replay(log)[k] == log[j].call.value
                                           && forall m :: 0 <= m < j ==> !Inserts(log[m], k)
    decreases |log|
  {
    if log != [] {
      var n := |log| - 1;
      var shorter := log[..n];
      ReplayIs(shorter, k);
      if k in Replay(shorter) {
        var j :| 0 <= j < n && Inserts(shorter[j], k) && Replay(shorter)[k] == shorter[j].call.value
                 && forall m :: 0 <= m < j ==> !Inserts(shorter[m], k);
        assert Inserts(log[j], k) && Replay(log)[k] == log[j].call.value;
        assert forall m :: 0 <= m < j ==> log[m] == shorter[m];
      } else {
        assert forall m :: 0 <= m < n ==> log[m] == shorter[m];
        assert k in Replay(log) ==> Inserts(log[n], k) && Replay(log)[k] == log[n].call.value;
      }
    }
  }

  /**
   * In any interleaving, a call gives the value that the first insertion of its key brought, its own
   * included, and nothing exactly when there was none: said by the history alone.
   */
  lemma EntryIsFirstInserted<K, V>(steps: seq<Step<K, V>>, i: nat, j: nat)
    requires Runs(Init(), steps) && i < |Exec(Init(), steps).answers|
    ensures var s := Exec(Init(), steps);
      var a := s.answers[i];
      && a.at < |s.log| && s.log[a.at].call == a.call
      && (a.entry.None? <==> forall m :: 0 <= m <= a.at ==> !(s.log[m].call.Insert? && s.log[m].call.key == a.call.key))
      && (j <= a.at && s.log[j].call.Insert? && s.log[j].call.key == a.call.key
          && (forall m :: 0 <= m < j ==> !(s.log[m].call.Insert? && s.log[m].call.key == a.call.key))
          ==> a.entry == Some(s.log[j].call.value))
  {
    Reached(steps);
    var s := Exec(Init(), steps);
    assert Answers(s, s.answers[i]);
    EventIsFirstInserted(s.log, s.answers[i].at);
  }

  lemma EventIsFirstInserted<K, V>(log: seq<Event<K, V>>, at: nat)
    requires Sequential(log) && at < |log|
    ensures var k, entry := log[at].call.key, log[at].entry;
      && (entry.None? <==> forall m :: 0 <= m <= at ==> !(log[m].call.Insert? && log[m].call.key == k))
      && forall j :: 0 <= j <= at && log[j].call.Insert? && log[j].call.key == k
           && (forall m :: 0 <= m < j ==> !(log[m].call.Insert? && log[m].call.key == k))
           ==> entry == Some(log[j].call.value)
  {
    var t, k := log[..at + 1], log[at].call.key;
    assert t[..at] == log[..at];
    assert log[at].entry == Lookup(Replay(t), k);
    ReplayIs(t, k);
    forall m | 0 <= m <= at
      ensures t[m] == log[m] && (Inserts(t[m], k) <==> log[m].call.Insert? && log[m].call.key == k)
    {
    }
  }

  /** Whatever a handle has cached, `contains` included, is published. */
  lemma CacheIsPublished<K, V>(steps: seq<Step<K, V>>, h: nat, k: K)
    requires Runs(Init(), steps) && h in Exec(Init(), steps).handles
    ensures var s := Exec(Init(), steps);
      k in s.handles[h].cache ==> Lookup(s.handles[h].cache, k) == Lookup(s.table, k)
  {
    InitInv<K, V>();
    RunInv(Init(), steps);
    var s := Exec(Init(), steps);
    assert Caches(s.handles[h].cache, s.table);
  }

  /**
   * In any interleaving, `insert` reports an insertion exactly when its handle had never been given an
   * entry for the key; so the report is right if and only if the key was not yet published, or its
   * handle had been given it.
   */
  lemma InsertFlag<K, V>(steps: seq<Step<K, V>>, i: nat)
    requires Runs(Init(), steps) && i < |Exec(Init(), steps).answers|
    requires Exec(Init(), steps).answers[i].call.Insert?
    ensures var s := Exec(Init(), steps);
      var a := s.answers[i];
      && a.at <= |s.log|
      && var published := a.call.key in Replay(s.log[..a.at]);
         var given := Given(s, i, a.handle, a.call.key);
         && (a.inserted <==> !given)
         && (given ==> published)
         && ((a.inserted <==> !published) <==> (!published || given))
  {
    Reached(steps);
    var s := Exec(Init(), steps);
    var a := s.answers[i];
    assert Answers(s, a);
    assert s.answers[i].inserted <==> !Given(s, i, a.handle, a.call.key);
    if Given(s, i, a.handle, a.call.key) {
      var j :| 0 <= j < i && Gave(s.answers[j], a.handle, a.call.key);
      assert Answers(s, s.answers[j]);
      PublishedBefore(s.log, s.answers[j].at, a.at);
    }
  }

  lemma PublishedBefore<K, V>(log: seq<Event<K, V>>, j: nat, i: nat)
    requires Sequential(log) && j < i <= |log| && log[j].entry.Some?
    ensures log[j].call.key in Replay(log[..i])
  {
    assert log[..i][..j + 1] == log[..j + 1] && log[..j + 1][..j] == log[..j];
    ReplayGrows(log[..i], j + 1);
    assert Replay(log[..j + 1]) == After(Replay(log[..j]), log[j].call);
  }

  /** A run in which the report is wrong: a second handle inserts a published key it was never given. */
  lemma BothAreTold()
    ensures var steps := [Copy(1), Begin(0, Call.Insert(7, 1)), Critical(0), Finish(0),
                          Begin(1, Call.Insert(7, 2)), Critical(1), Finish(1)];
      && Runs(Init<int, int>(), steps)
      && var answers := Exec(Init<int, int>(), steps).answers;
         && |answers| == 2 && answers[0].inserted && answers[1].inserted
         && answers[0].entry == Some(1) && answers[1].entry == Some(1)
  {
  }
}
