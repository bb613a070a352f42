/** lazy_rem_vector: a vector whose removals wait until nobody is iterating over it. */
module LazyRemVector {

  datatype Entry<T> = Entry(value: T, gone: bool)

  /** How many entries are flagged as removed. */
  function Flagged<T>(e: seq<Entry<T>>): nat {
    if e == [] then 0 else Flagged(e[..|e| - 1]) + (if e[|e| - 1].gone then 1 else 0)
  }

  lemma {:induction false} FlaggedUpdate<T>(e: seq<Entry<T>>, i: nat, x: Entry<T>)
    requires i < |e|
    ensures Flagged(e[i := x]) == Flagged(e) - (if e[i].gone then 1 else 0) + (if x.gone then 1 else 0)
    decreases |e|
  {
    var n := |e| - 1;
    if i < n {
      assert e[i := x][..n] == e[..n][i := x];
      FlaggedUpdate(e[..n], i, x);
    } else {
      assert e[i := x][..n] == e[..n];
    }
  }

  lemma FlaggedAppend<T>(e: seq<Entry<T>>, x: Entry<T>)
    ensures Flagged(e + [x]) == Flagged(e) + if x.gone then 1 else 0
  {
    assert (e + [x])[..|e|] == e;
  }

  lemma {:induction false} FlaggedZero<T>(e: seq<Entry<T>>)
    ensures Flagged(e) == 0 <==> forall i :: 0 <= i < |e| ==> !e[i].gone
  {
    if e != [] {
      FlaggedZero(e[..|e| - 1]);
    }
  }

  // ---------- what each call does to the entries ----------

  /** Every entry whose value satisfies `f` is flagged; nothing moves. */
  function Flag<T>(e: seq<Entry<T>>, f: T -> bool): (r: seq<Entry<T>>)
    ensures |r| == |e|
    ensures forall i :: 0 <= i < |e| ==> r[i] == Entry(e[i].value, e[i].gone || f(e[i].value))
  {
    seq(|e|, i requires 0 <= i < |e| => Entry(e[i].value, e[i].gone || f(e[i].value)))
  }

  /** `remove_if` and `erase`: the entries that do not satisfy `f`, in order. */
  function Without<T>(e: seq<T>, f: T -> bool): seq<T> {
    if e == [] then []
    else Without(e[..|e| - 1], f) + if f(e[|e| - 1]) then [] else [e[|e| - 1]]
  }

  lemma {:induction false} WithoutMembers<T>(e: seq<T>, f: T -> bool)
    ensures forall x :: x in Without(e, f) ==> x in e && !f(x)
    ensures forall x :: x in e && !f(x) ==> x in Without(e, f)
  {
    if e != [] {
      var n := |e| - 1;
      WithoutMembers(e[..n], f);
      assert e == e[..n] + [e[n]];
    }
  }

  /** The first entry from `i` on with value `x`, or the length. */
  function IndexOf<T(==)>(e: seq<Entry<T>>, x: T, i: nat): (k: nat)
    requires i <= |e|
    ensures i <= k <= |e|
    ensures k < |e| ==> e[k].value == x
    ensures forall j :: i <= j < k ==> e[j].value != x
    decreases |e| - i
  {
    if i == |e| || e[i].value == x then i else IndexOf(e, x, i + 1)
  }

  /** Entry `i` is the first with value `x`. */
  ghost predicate FirstAt<T>(e: seq<Entry<T>>, x: T, i: nat)
    requires i < |e|
  {
    e[i].value == x && forall j :: 0 <= j < i ==> e[j].value != x
  }

  // ---------- calls and runs ----------

  datatype State<T> = State(entries: seq<Entry<T>>, locks: nat)

  datatype Op<!T> = EmplaceBack(x: T) | PushUnique(x: T) | EraseIf(f: T -> bool) | Clear | Lock | Release

  /** `release` pairs with an earlier `lock`. */
  predicate Legal<T>(s: State<T>, op: Op<T>) {
    op.Release? ==> s.locks > 0
  }

  function Any<T>(): T -> bool {
    (_: T) => true
  }

  function Gone<T>(): Entry<T> -> bool {
    (x: Entry<T>) => x.gone
  }

  function OnValue<T>(f: T -> bool): Entry<T> -> bool {
    (x: Entry<T>) => f(x.value)
  }

  /** One call on the lazy vector. */
  function Step<T(==)>(s: State<T>, op: Op<T>): State<T>
    requires Legal(s, op)
  {
    var e := s.entries;
    match op
    case EmplaceBack(x) => State(e + [Entry(x, false)], s.locks)
    case PushUnique(x) =>
      var k := IndexOf(e, x, 0);
      State(if k == |e| then e + [Entry(x, false)] else e[k := Entry(x, false)], s.locks)
    case EraseIf(f) => State(if s.locks == 0 then Without(e, OnValue(f)) else Flag(e, f), s.locks)
    case Clear => State(if s.locks == 0 then [] else Flag(e, Any()), s.locks)
    case Lock => State(e, s.locks + 1)
    case Release => State(if s.locks == 1 then Without(e, Gone()) else e, s.locks - 1)
  }

  /** The same call on a vector that removes at once. */
  function Eager<T(==)>(v: seq<T>, op: Op<T>): seq<T> {
    match op
    case EmplaceBack(x) => v + [x]
    case PushUnique(x) => if x in v then v else v + [x]
    case EraseIf(f) => Without(v, f)
    case Clear => []
    case Lock => v
    case Release => v
  }

  /** No entry is flagged unless the vector is locked. */
  ghost predicate Settled<T>(s: State<T>) {
    s.locks == 0 ==> Flagged(s.entries) == 0
  }

  /** The values that have not been removed. */
  ghost function Elements<T>(e: seq<Entry<T>>): set<T> {
    set i | 0 <= i < |e| && !e[i].gone :: e[i].value
  }

  ghost function Members<T>(v: seq<T>): set<T> {
    set x | x in v
  }

  // ---------- one call ----------

  lemma ElementsAppend<T>(e: seq<Entry<T>>, x: T)
    ensures Elements(e + [Entry(x, false)]) == Elements(e) + {x}
  {
    var r := e + [Entry(x, false)];
    assert !r[|e|].gone && r[|e|].value == x;
    forall y | y in Elements(e) ensures y in Elements(r) {
      var i :| 0 <= i < |e| && !e[i].gone && e[i].value == y;
      assert !r[i].gone && r[i].value == y;
    }
  }

  lemma ElementsRevive<T>(e: seq<Entry<T>>, k: nat)
    requires k < |e|
    ensures Elements(e[k := Entry(e[k].value, false)]) == Elements(e) + {e[k].value}
  {
    var r := e[k := Entry(e[k].value, false)];
    assert !r[k].gone;
    forall y | y in Elements(e) ensures y in Elements(r) {
      var i :| 0 <= i < |e| && !e[i].gone && e[i].value == y;
      assert !r[i].gone && r[i].value == y;
    }
  }

  lemma ElementsFlag<T>(e: seq<Entry<T>>, f: T -> bool)
    ensures Elements(Flag(e, f)) == set x | x in Elements(e) && !f(x)
  {
    var r := Flag(e, f);
    forall y | y in Elements(e) && !f(y) ensures y in Elements(r) {
      var i :| 0 <= i < |e| && !e[i].gone && e[i].value == y;
      assert !r[i].gone && r[i].value == y;
    }
  }

  lemma ElementsWithout<T>(e: seq<Entry<T>>, f: Entry<T> -> bool)
    ensures Elements(Without(e, f)) == set i | 0 <= i < |e| && !e[i].gone && !f(e[i]) :: e[i].value
  {
    var r := Without(e, f);
    WithoutMembers(e, f);
    forall y | y in Elements(r) ensures exists i :: 0 <= i < |e| && !e[i].gone && !f(e[i]) && e[i].value == y {
      var i :| 0 <= i < |r| && !r[i].gone && r[i].value == y;
      assert r[i] in e;
    }
    forall i | 0 <= i < |e| && !e[i].gone && !f(e[i]) ensures e[i].value in Elements(r) {
      assert e[i] in r;
    }
  }

  lemma StepSettled<T>(s: State<T>, op: Op<T>)
    requires Legal(s, op) && Settled(s)
    ensures Settled(Step(s, op))
  {
    var e, r := s.entries, Step(s, op).entries;
    FlaggedZero(e);
    FlaggedZero(r);
    match op
    case EraseIf(f) => if s.locks == 0 { NoneFlagged(e, OnValue(f)); }
    case Release => GoneRemoved(e);
    case _ =>
  }

  lemma NoneFlagged<T>(e: seq<Entry<T>>, f: Entry<T> -> bool)
    requires forall i :: 0 <= i < |e| ==> !e[i].gone
    ensures forall i :: 0 <= i < |Without(e, f)| ==> !Without(e, f)[i].gone
  {
    var r := Without(e, f);
    WithoutMembers(e, f);
    forall i | 0 <= i < |r| ensures !r[i].gone {
      var x := r[i];
      assert x in r;
      assert x in e;
    }
  }

  lemma GoneRemoved<T>(e: seq<Entry<T>>)
    ensures forall i :: 0 <= i < |Without(e, Gone())| ==> !Without(e, Gone())[i].gone
  {
    var r := Without(e, Gone());
    WithoutMembers(e, Gone());
    forall i | 0 <= i < |r| ensures !r[i].gone {
      assert r[i] in r;
    }
  }

  lemma ElementsOnValue<T>(e: seq<Entry<T>>, f: T -> bool)
    ensures (set i | 0 <= i < |e| && !e[i].gone && !OnValue(f)(e[i]) :: e[i].value)
         == set x | x in Elements(e) && !f(x)
  {
  }

  lemma WithoutAsSet<T>(v: seq<T>, f: T -> bool)
    ensures Members(Without(v, f)) == set x | x in Members(v) && !f(x)
  {
    WithoutMembers(v, f);
  }

  lemma EraseElements<T>(s: State<T>, v: seq<T>, f: T -> bool)
    requires Settled(s) && Elements(s.entries) == Members(v)
    ensures Elements(Step(s, EraseIf(f)).entries) == Members(Without(v, f))
  {
    var e := s.entries;
    WithoutMembers(v, f);
    if s.locks == 0 {
      ElementsWithout(e, OnValue(f));
      ElementsOnValue(e, f);
    } else {
      ElementsFlag(e, f);
    }
    WithoutAsSet(v, f);
    assert Elements(Step(s, EraseIf(f)).entries) == set x | x in Elements(e) && !f(x);
  }

  lemma PushElements<T>(e: seq<Entry<T>>, v: seq<T>, x: T)
    requires Elements(e) == Members(v)
    ensures Elements(Step(State(e, 0), PushUnique(x)).entries) == Members(Eager(v, PushUnique(x)))
  {
    var k := IndexOf(e, x, 0);
    assert x in v <==> x in Members(v);
    if k == |e| {
      ElementsAppend(e, x);
      assert x !in Elements(e);
    } else {
      ElementsRevive(e, k);
    }
    assert Elements(Step(State(e, 0), PushUnique(x)).entries) == Members(v) + {x};
  }

  /** Every call has the same effect on the set of elements as on an eager vector. */
  lemma StepElements<T>(s: State<T>, v: seq<T>, op: Op<T>)
    requires Legal(s, op) && Settled(s) && Elements(s.entries) == Members(v)
    ensures Elements(Step(s, op).entries) == Members(Eager(v, op))
  {
    var e := s.entries;
    match op
    case EmplaceBack(x) => ElementsAppend(e, x);
    case PushUnique(x) => PushElements(e, v, x);
    case EraseIf(f) => EraseElements(s, v, f);
    case Clear => if s.locks > 0 { ElementsFlag(e, Any()); }
    case Lock =>
    case Release => ElementsWithout(e, Gone());
  }

  // ---------- runs ----------

  ghost predicate LegalRun<T>(s: State<T>, ops: seq<Op<T>>)
    decreases |ops|
  {
    ops == [] || (Legal(s, ops[0]) && LegalRun(Step(s, ops[0]), ops[1..]))
  }

  ghost function Run<T>(s: State<T>, ops: seq<Op<T>>): State<T>
    requires LegalRun(s, ops)
    decreases |ops|
  {
    if ops == [] then s else Run(Step(s, ops[0]), ops[1..])
  }

  ghost function EagerRun<T>(v: seq<T>, ops: seq<Op<T>>): seq<T>
    decreases |ops|
  {
    if ops == [] then v else EagerRun(Eager(v, ops[0]), ops[1..])
  }

  /**
   * After any run the two vectors have the same elements, and an unlocked vector has
   * nothing else in it.
   */
  lemma {:induction false} SameElements<T>(s: State<T>, v: seq<T>, ops: seq<Op<T>>)
    requires LegalRun(s, ops) && Settled(s) && Elements(s.entries) == Members(v)
    ensures Settled(Run(s, ops))
    ensures Elements(Run(s, ops).entries) == Members(EagerRun(v, ops))
    ensures Run(s, ops).locks == 0 ==>
      forall i :: 0 <= i < |Run(s, ops).entries| ==>
        !Run(s, ops).entries[i].gone && Run(s, ops).entries[i].value in EagerRun(v, ops)
    decreases |ops|
  {
    if ops == [] {
      FlaggedZero(s.entries);
      forall i | s.locks == 0 && 0 <= i < |s.entries| ensures s.entries[i].value in v {
        assert s.entries[i].value in Elements(s.entries);
      }
    } else {
      StepSettled(s, ops[0]);
      StepElements(s, v, ops[0]);
      SameElements(Step(s, ops[0]), Eager(v, ops[0]), ops[1..]);
    }
  }

  // ---------- counting locks ----------

  /** How many of the calls are `lock`, and how many are `release`. */
  ghost function Locks<T>(ops: seq<Op<T>>): nat {
    |set i | 0 <= i < |ops| && ops[i].Lock?|
  }

  ghost function Releases<T>(ops: seq<Op<T>>): nat {
    |set i | 0 <= i < |ops| && ops[i].Release?|
  }

  lemma LocksSnoc<T>(ops: seq<Op<T>>)
    requires ops != []
    ensures var n := |ops| - 1; Locks(ops) == Locks(ops[..n]) + if ops[n].Lock? then 1 else 0
  {
    var n := |ops| - 1;
    var s, r := ops[..n], set i | 0 <= i < |ops| && ops[i].Lock?;
    assert (set i | 0 <= i < |s| && s[i].Lock?) == r - {n};
  }

  lemma ReleasesSnoc<T>(ops: seq<Op<T>>)
    requires ops != []
    ensures var n := |ops| - 1; Releases(ops) == Releases(ops[..n]) + if ops[n].Release? then 1 else 0
  {
    var n := |ops| - 1;
    var s, r := ops[..n], set i | 0 <= i < |ops| && ops[i].Release?;
    assert (set i | 0 <= i < |s| && s[i].Release?) == r - {n};
  }

  /** A run call by call, from its end. */
  lemma {:induction false} RunSnoc<T>(s: State<T>, ops: seq<Op<T>>)
    requires ops != []
    ensures var n := |ops| - 1;
      && (LegalRun(s, ops) <==> LegalRun(s, ops[..n]) && Legal(Run(s, ops[..n]), ops[n]))
      && (LegalRun(s, ops) ==> Run(s, ops) == Step(Run(s, ops[..n]), ops[n]))
    decreases |ops|
  {
    var n := |ops| - 1;
    if n > 0 && Legal(s, ops[0]) {
      RunSnoc(Step(s, ops[0]), ops[1..]);
      assert ops[1..][..n - 1] == ops[..n][1..];
    }
  }

  /** The locks held after a run are those held before it and one for each `lock` that no `release` undid. */
  lemma {:induction false} LocksCount<T>(s: State<T>, ops: seq<Op<T>>)
    requires LegalRun(s, ops)
    ensures Run(s, ops).locks == s.locks + Locks(ops) - Releases(ops)
    decreases |ops|
  {
    if ops != [] {
      RunSnoc(s, ops);
      LocksSnoc(ops);
      ReleasesSnoc(ops);
      LocksCount(s, ops[..|ops| - 1]);
    }
  }

  /** A run is legal exactly when at no time more locks have been released than were held and taken. */
  lemma {:induction false} LegalWhenCovered<T>(s: State<T>, ops: seq<Op<T>>)
    ensures LegalRun(s, ops) <==> forall i :: 0 <= i <= |ops| ==> Releases(ops[..i]) <= s.locks + Locks(ops[..i])
    decreases |ops|
  {
    if ops != [] {
      var n := |ops| - 1;
      RunSnoc(s, ops);
      LocksSnoc(ops);
      ReleasesSnoc(ops);
      LegalWhenCovered(s, ops[..n]);
      assert forall i :: 0 <= i <= n ==> ops[..n][..i] == ops[..i];
      assert ops[..|ops|] == ops && ops[..n][..n] == ops[..n];
      if LegalRun(s, ops[..n]) {
        LocksCount(s, ops[..n]);
      }
      forall i | 0 <= i <= |ops| && LegalRun(s, ops) ensures Releases(ops[..i]) <= s.locks + Locks(ops[..i]) {
        if i <= n {
          assert ops[..n][..i] == ops[..i];
        }
      }
      if forall i :: 0 <= i <= |ops| ==> Releases(ops[..i]) <= s.locks + Locks(ops[..i]) {
        forall i | 0 <= i <= n ensures Releases(ops[..n][..i]) <= s.locks + Locks(ops[..n][..i]) {
          assert ops[..n][..i] == ops[..i];
        }
      }
    } else {
      assert ops[..0] == [];
    }
  }

  /** `a` is the beginning of `b`, apart from flags. */
  ghost predicate SamePlaces<T>(a: seq<Entry<T>>, b: seq<Entry<T>>) {
    |a| <= |b| && forall i :: 0 <= i < |a| ==> a[i].value == b[i].value
  }

  /** While at no time all locks, those held at the start included, have been released, no entry moves:
      an index stays valid and means the same value. */
  lemma {:induction false} IndexesStayValid<T>(s: State<T>, ops: seq<Op<T>>)
    requires forall i :: 0 <= i <= |ops| ==> Releases(ops[..i]) < s.locks + Locks(ops[..i])
    ensures LegalRun(s, ops)
    ensures SamePlaces(s.entries, Run(s, ops).entries)
    decreases |ops|
  {
    LegalWhenCovered(s, ops);
    if ops != [] {
      var n := |ops| - 1;
      forall i | 0 <= i <= n ensures Releases(ops[..n][..i]) < s.locks + Locks(ops[..n][..i]) {
        assert ops[..n][..i] == ops[..i];
      }
      IndexesStayValid(s, ops[..n]);
      RunSnoc(s, ops);
      LocksCount(s, ops[..n]);
      LocksCount(s, ops);
      assert ops[..|ops|] == ops;
      StepKeepsPlaces(Run(s, ops[..n]), ops[n]);
    }
  }

  lemma StepKeepsPlaces<T>(s: State<T>, op: Op<T>)
    requires Legal(s, op) && s.locks > 0 && Step(s, op).locks > 0
    ensures SamePlaces(s.entries, Step(s, op).entries)
  {
  }

  /** Balanced calls on an unlocked vector leave it unlocked, with nothing but live entries. */
  lemma BalancedRun<T>(s: State<T>, ops: seq<Op<T>>)
    requires s.locks == 0 && Settled(s)
    requires forall i :: 0 <= i <= |ops| ==> Releases(ops[..i]) <= Locks(ops[..i])
    requires Releases(ops) == Locks(ops)
    ensures LegalRun(s, ops) && Run(s, ops).locks == 0
    ensures forall i :: 0 <= i < |Run(s, ops).entries| ==> !Run(s, ops).entries[i].gone
  {
    LegalWhenCovered(s, ops);
    LocksCount(s, ops);
    RunSettled(s, ops);
    FlaggedZero(Run(s, ops).entries);
  }

  lemma {:induction false} RunSettled<T>(s: State<T>, ops: seq<Op<T>>)
    requires LegalRun(s, ops) && Settled(s)
    ensures Settled(Run(s, ops))
    decreases |ops|
  {
    if ops != [] {
      StepSettled(s, ops[0]);
      RunSettled(Step(s, ops[0]), ops[1..]);
    }
  }

  // ---------- multiplicities and order ----------

  /** The values that have not been removed, in order. */
  function Live<T>(e: seq<Entry<T>>): seq<T> {
    if e == [] then []
    else Live(e[..|e| - 1]) + if e[|e| - 1].gone then [] else [e[|e| - 1].value]
  }

  lemma {:induction false} LiveConcat<T>(a: seq<Entry<T>>, b: seq<Entry<T>>)
    ensures Live(a + b) == Live(a) + Live(b)
    decreases |b|
  {
    if b == [] {
      assert a + b == a;
    } else {
      var n := |b| - 1;
      assert (a + b)[..|a + b| - 1] == a + b[..n];
      LiveConcat(a, b[..n]);
    }
  }

  lemma {:induction false} LiveMembers<T>(e: seq<Entry<T>>, x: T)
    ensures x in Live(e) <==> exists i :: 0 <= i < |e| && !e[i].gone && e[i].value == x
  {
    if e != [] {
      LiveMembers(e[..|e| - 1], x);
    }
  }

  lemma LiveSnoc<T>(e: seq<Entry<T>>, x: Entry<T>)
    ensures Live(e + [x]) == if x.gone then Live(e) else Live(e) + [x.value]
  {
    assert (e + [x])[..|e|] == e;
    assert Live(e) + [] == Live(e);
  }

  lemma LiveLast<T>(e: seq<Entry<T>>)
    requires e != []
    ensures var n := |e| - 1; Live(e) == if e[n].gone then Live(e[..n]) else Live(e[..n]) + [e[n].value]
  {
    assert Live(e[..|e| - 1]) + [] == Live(e[..|e| - 1]);
  }

  /** The entry `x` between `a` and `b`. */
  lemma LiveAround<T>(a: seq<Entry<T>>, x: Entry<T>, b: seq<Entry<T>>)
    ensures Live(a + [x] + b) == if x.gone then Live(a) + Live(b) else Live(a) + [x.value] + Live(b)
  {
    LiveConcat(a + [x], b);
    LiveSnoc(a, x);
  }

  lemma {:induction false} LiveFlag<T>(e: seq<Entry<T>>, f: T -> bool)
    ensures Live(Flag(e, f)) == Without(Live(e), f)
    decreases |e|
  {
    if e != [] {
      var n := |e| - 1;
      LiveFlag(e[..n], f);
      assert Flag(e, f)[..n] == Flag(e[..n], f);
      LiveLast(e);
      LiveLast(Flag(e, f));
      WithoutSnoc(Live(e[..n]), e[n].value, f);
    }
  }

  lemma WithoutSnoc<T>(v: seq<T>, x: T, f: T -> bool)
    ensures Without(v + [x], f) == if f(x) then Without(v, f) else Without(v, f) + [x]
  {
    assert (v + [x])[..|v|] == v;
    assert Without(v, f) + [] == Without(v, f);
  }

  lemma {:induction false} LiveWithout<T>(e: seq<Entry<T>>, f: T -> bool)
    ensures Live(Without(e, OnValue(f))) == Without(Live(e), f)
    decreases |e|
  {
    if e != [] {
      var n := |e| - 1;
      LiveWithout(e[..n], f);
      assert e == e[..n] + [e[n]];
      WithoutSnoc(e[..n], e[n], OnValue(f));
      LiveSnoc(Without(e[..n], OnValue(f)), e[n]);
      LiveLast(e);
      WithoutSnoc(Live(e[..n]), e[n].value, f);
    }
  }

  lemma {:induction false} LiveSwept<T>(e: seq<Entry<T>>)
    ensures Live(Without(e, Gone())) == Live(e)
    decreases |e|
  {
    if e != [] {
      var n := |e| - 1;
      LiveSwept(e[..n]);
      assert e == e[..n] + [e[n]];
      WithoutSnoc(e[..n], e[n], Gone());
      LiveSnoc(Without(e[..n], Gone()), e[n]);
      LiveLast(e);
    }
  }

  lemma {:induction false} WithoutEverything<T>(v: seq<T>)
    ensures Without(v, Any()) == []
  {
    if v != [] {
      WithoutEverything(v[..|v| - 1]);
    }
  }

  /** Every call but `push_unique` does to the live values what it does to an eager vector. */
  lemma StepLive<T>(s: State<T>, op: Op<T>)
    requires Legal(s, op) && !op.PushUnique?
    ensures Live(Step(s, op).entries) == Eager(Live(s.entries), op)
  {
    var e := s.entries;
    match op
    case EmplaceBack(x) => LiveSnoc(e, Entry(x, false));
    case EraseIf(f) => LiveFlag(e, f); LiveWithout(e, f);
    case Clear => LiveFlag(e, Any()); WithoutEverything(Live(e));
    case Lock =>
    case Release => LiveSwept(e);
  }

  /** `push_unique` finds `x` first in a removed entry. */
  predicate Revives<T(==)>(e: seq<Entry<T>>, x: T) {
    var k := IndexOf(e, x, 0);
    k < |e| && e[k].gone
  }

  /** What `push_unique` does to the live values. */
  lemma PushLive<T>(s: State<T>, x: T)
    ensures var e, k := s.entries, IndexOf(s.entries, x, 0);
            var r := Live(Step(s, PushUnique(x)).entries);
            if k == |e| then x !in Live(e) && r == Live(e) + [x]
            else if !e[k].gone then x in Live(e) && r == Live(e)
            else x !in Live(e[..k]) && Live(e) == Live(e[..k]) + Live(e[k + 1..])
                 && r == Live(e[..k]) + [x] + Live(e[k + 1..])
  {
    var e, k := s.entries, IndexOf(s.entries, x, 0);
    LiveMembers(e, x);
    if k == |e| {
      LiveSnoc(e, Entry(x, false));
    } else {
      LiveMembers(e[..k], x);
      LiveUpdated(e, k);
    }
  }

  lemma LiveUpdated<T>(e: seq<Entry<T>>, k: nat)
    requires k < |e|
    ensures var a, x, b := Live(e[..k]), e[k].value, Live(e[k + 1..]);
            && Live(e) == (if e[k].gone then a + b else a + [x] + b)
            && Live(e[k := Entry(x, false)]) == a + [x] + b
  {
    var a, b, x := e[..k], e[k + 1..], Entry(e[k].value, false);
    assert e == a + [e[k]] + b && e[k := x] == a + [x] + b;
    LiveAround(a, e[k], b);
    LiveAround(a, x, b);
  }

  /** `push_unique` puts a second `x` next to a live one. */
  predicate Doubles<T(==)>(e: seq<Entry<T>>, x: T) {
    Revives(e, x) && x in Live(e)
  }

  /** When the bags agree before `push_unique`, they agree after it if and only if it doubles nothing. */
  lemma PushKeepsBag<T>(s: State<T>, v: seq<T>, x: T)
    requires multiset(Live(s.entries)) == multiset(v)
    ensures multiset(Live(Step(s, PushUnique(x)).entries)) == multiset(Eager(v, PushUnique(x)))
       <==> !Doubles(s.entries, x)
  {
    var e, k := s.entries, IndexOf(s.entries, x, 0);
    PushLive(s, x);
    assert x in v <==> x in multiset(v);
    assert x in Live(e) <==> x in multiset(Live(e));
    if Revives(e, x) {
      var a, b := Live(e[..k]), Live(e[k + 1..]);
      assert multiset(a + [x] + b) == multiset(a + b) + multiset{x};
      assert |multiset(v) + multiset{x}| != |multiset(v)|;
    }
  }

  /** `push_unique` revives `x` in front of a live value. */
  predicate Displaces<T(==)>(e: seq<Entry<T>>, x: T) {
    Revives(e, x) && (x in Live(e) || Live(e[IndexOf(e, x, 0) + 1..]) != [])
  }

  /** When the live values are those of the eager vector, in order, before `push_unique`, they are so
      after it if and only if it displaces nothing. */
  lemma PushKeepsOrder<T>(s: State<T>, x: T)
    ensures Live(Step(s, PushUnique(x)).entries) == Eager(Live(s.entries), PushUnique(x))
       <==> !Displaces(s.entries, x)
  {
    var e, k := s.entries, IndexOf(s.entries, x, 0);
    PushLive(s, x);
    if Revives(e, x) {
      var a, b := Live(e[..k]), Live(e[k + 1..]);
      if x in a + b {
        assert |a + [x] + b| == |a + b| + 1;
      } else if b != [] {
        assert (a + [x] + b)[|a|] == x;
        assert (a + b + [x])[|a|] == b[0] && b[0] == (a + b)[|a|];
      } else {
        assert a + [x] + b == a + b + [x];
      }
    }
  }

  lemma {:induction false} WithoutCount<T>(v: seq<T>, f: T -> bool, x: T)
    ensures multiset(Without(v, f))[x] == if f(x) then 0 else multiset(v)[x]
  {
    if v != [] {
      var n := |v| - 1;
      WithoutCount(v[..n], f, x);
      WithoutSnoc(v[..n], v[n], f);
      assert v == v[..n] + [v[n]];
      CountSnoc(v[..n], v[n], x);
      CountSnoc(Without(v[..n], f), v[n], x);
    }
  }

  lemma CountSnoc<T>(v: seq<T>, y: T, x: T)
    ensures multiset(v + [y])[x] == multiset(v)[x] + if x == y then 1 else 0
  {
  }

  lemma WithoutBag<T>(u: seq<T>, v: seq<T>, f: T -> bool)
    requires multiset(u) == multiset(v)
    ensures multiset(Without(u, f)) == multiset(Without(v, f))
  {
    forall x ensures multiset(Without(u, f))[x] == multiset(Without(v, f))[x] {
      WithoutCount(u, f, x);
      WithoutCount(v, f, x);
    }
    SameCounts(multiset(Without(u, f)), multiset(Without(v, f)));
  }

  lemma SameCounts<T>(a: multiset<T>, b: multiset<T>)
    requires forall x :: a[x] == b[x]
    ensures a == b
  {
  }

  /** An eager call takes equal bags to equal bags. */
  lemma EagerBag<T>(u: seq<T>, v: seq<T>, op: Op<T>)
    requires multiset(u) == multiset(v)
    ensures multiset(Eager(u, op)) == multiset(Eager(v, op))
  {
    match op
    case PushUnique(x) =>
      assert x in u <==> x in multiset(u);
      assert x in v <==> x in multiset(v);
    case EraseIf(f) => WithoutBag(u, v, f);
    case _ =>
  }

  /** The bags agree now and after every call of the run. */
  ghost predicate BagsAgree<T>(s: State<T>, v: seq<T>, ops: seq<Op<T>>)
    requires LegalRun(s, ops)
    decreases |ops|
  {
    multiset(Live(s.entries)) == multiset(v)
    && (ops == [] || BagsAgree(Step(s, ops[0]), Eager(v, ops[0]), ops[1..]))
  }

  /** No `push_unique` of the run doubles a live value. */
  ghost predicate NoneDoubled<T>(s: State<T>, ops: seq<Op<T>>)
    requires LegalRun(s, ops)
    decreases |ops|
  {
    ops == [] || ((ops[0].PushUnique? ==> !Doubles(s.entries, ops[0].x)) && NoneDoubled(Step(s, ops[0]), ops[1..]))
  }

  /** The elements agree with their multiplicities throughout a run if and only if no `push_unique`
      finds its value first in a removed entry while a live one stands behind it. */
  lemma {:induction false} SameBag<T>(s: State<T>, v: seq<T>, ops: seq<Op<T>>)
    requires LegalRun(s, ops) && multiset(Live(s.entries)) == multiset(v)
    ensures BagsAgree(s, v, ops) <==> NoneDoubled(s, ops)
    ensures NoneDoubled(s, ops) ==> multiset(Live(Run(s, ops).entries)) == multiset(EagerRun(v, ops))
    decreases |ops|
  {
    if ops != [] {
      var op := ops[0];
      if op.PushUnique? {
        PushKeepsBag(s, v, op.x);
      } else {
        StepLive(s, op);
        EagerBag(Live(s.entries), v, op);
      }
      if !op.PushUnique? || !Doubles(s.entries, op.x) {
        SameBag(Step(s, op), Eager(v, op), ops[1..]);
      }
    }
  }

  /** The live values are those of the eager vector, in order, now and after every call of the run. */
  ghost predicate OrdersAgree<T>(s: State<T>, v: seq<T>, ops: seq<Op<T>>)
    requires LegalRun(s, ops)
    decreases |ops|
  {
    Live(s.entries) == v && (ops == [] || OrdersAgree(Step(s, ops[0]), Eager(v, ops[0]), ops[1..]))
  }

  /** No `push_unique` of the run displaces a live value. */
  ghost predicate NoneDisplaced<T>(s: State<T>, ops: seq<Op<T>>)
    requires LegalRun(s, ops)
    decreases |ops|
  {
    ops == []
    || ((ops[0].PushUnique? ==> !Displaces(s.entries, ops[0].x)) && NoneDisplaced(Step(s, ops[0]), ops[1..]))
  }

  /** The vectors agree in order throughout a run if and only if every `push_unique` that revives an
      entry finds no live value behind it. */
  lemma {:induction false} SameOrder<T>(s: State<T>, ops: seq<Op<T>>)
    requires LegalRun(s, ops)
    ensures OrdersAgree(s, Live(s.entries), ops) <==> NoneDisplaced(s, ops)
    ensures NoneDisplaced(s, ops) ==> Live(Run(s, ops).entries) == EagerRun(Live(s.entries), ops)
    decreases |ops|
  {
    if ops != [] {
      var op := ops[0];
      if op.PushUnique? {
        PushKeepsOrder(s, op.x);
      } else {
        StepLive(s, op);
      }
      if !op.PushUnique? || !Displaces(s.entries, op.x) {
        SameOrder(Step(s, op), ops[1..]);
      }
    }
  }

  /** A run that `Doubles` rules out: the revived entry doubles one that `emplace_back` put behind it. */
  lemma RevivedDuplicate()
    ensures var s := Step(State([Entry(1, false)], 1), EraseIf((x: int) => x == 1));
            var t := Step(Step(s, EmplaceBack(1)), PushUnique(1));
            Live(t.entries) == [1, 1]
    ensures Eager(Eager(Eager([1], EraseIf((x: int) => x == 1)), EmplaceBack(1)), PushUnique(1)) == [1]
  {
    var f := (x: int) => x == 1;
    var s := Step(State([Entry(1, false)], 1), EraseIf(f));
    assert s.entries == [Entry(1, true)];
    var t := Step(Step(s, EmplaceBack(1)), PushUnique(1));
    assert t.entries == [Entry(1, false), Entry(1, false)];
    assert t.entries[..1] == [Entry(1, false)];
    assert Live(t.entries[..1]) == [1];
    assert Without([1], f) == Without([1][..0], f) == [];
  }

  /** A run that `Displaces` rules out: the revived entry keeps its old place. */
  lemma RevivedOrder()
    ensures var s := Step(State([Entry(1, false), Entry(2, false)], 1), EraseIf((x: int) => x == 1));
            Live(Step(s, PushUnique(1)).entries) == [1, 2]
    ensures Eager(Eager([1, 2], EraseIf((x: int) => x == 1)), PushUnique(1)) == [2, 1]
  {
    var f := (x: int) => x == 1;
    var s := Step(State([Entry(1, false), Entry(2, false)], 1), EraseIf(f));
    assert s.entries == [Entry(1, true), Entry(2, false)];
    var e := Step(s, PushUnique(1)).entries;
    assert e == [Entry(1, false), Entry(2, false)];
    assert e[..1] == [Entry(1, false)];
    assert Live(e[..1]) == [1];
    assert [1, 2][..1] == [1] && Without([1], f) == Without([1][..0], f) == [];
    assert Without([1, 2], f) == Without([1], f) + [2];
  }

  /** `push_unique` on the entries: a new one at the end, or the first with the value made live. */
  lemma PushMeans<T>(s: State<T>, x: T)
    ensures var e, r := s.entries, Step(s, PushUnique(x)).entries;
      && ((forall i :: 0 <= i < |e| ==> e[i].value != x) ==> r == e + [Entry(x, false)])
      && forall i :: 0 <= i < |e| && FirstAt(e, x, i) ==> r == e[i := Entry(x, false)]
  {
    var e := s.entries;
    forall i | 0 <= i < |e| && FirstAt(e, x, i) ensures IndexOf(e, x, 0) == i {
    }
  }

  // ---------- the vector itself ----------

  class LazyVector<T(==)> {
    var entries: seq<Entry<T>>
    var lockCount: nat
    var removedCount: nat

    ghost function Abs(): State<T>
      reads this
    {
      State(entries, lockCount)
    }

    /** `removed_count` counts the flagged entries, of which there are none while unlocked. */
    ghost predicate Valid()
      reads this
    {
      removedCount == Flagged(entries) && Settled(Abs())
    }

    constructor ()
      ensures Valid() && Abs() == State([], 0)
    {
      entries, lockCount, removedCount := [], 0, 0;
    }

    method EmplaceBack(x: T)
      requires Valid()
      modifies this
      ensures Valid() && Abs() == Step(old(Abs()), Op.EmplaceBack(x))
      ensures entries == old(entries) + [Entry(x, false)] && lockCount == old(lockCount)
    {
      FlaggedAppend(entries, Entry(x, false));
      entries := entries + [Entry(x, false)];
    }

    method Clear()
      requires Valid()
      modifies this
      ensures Valid() && Abs() == Step(old(Abs()), Op.Clear) && lockCount == old(lockCount)
      ensures old(lockCount) == 0 ==> entries == []
      ensures old(lockCount) > 0 ==> |entries| == |old(entries)|
      ensures old(lockCount) > 0 ==>
        forall i :: 0 <= i < |entries| ==> entries[i].value == old(entries)[i].value && entries[i].gone
    {
      if lockCount == 0 {
        entries := [];
      } else {
        FlagAll(Any());
      }
    }

    /** The loops of `clear` and `erase_if` over a locked vector. */
    method FlagAll(f: T -> bool)
      requires Valid() && lockCount > 0
      modifies this`entries, this`removedCount
      ensures Valid() && entries == Flag(old(entries), f)
    {
      ghost var was := entries;
      var i := 0;
      while i < |entries|
        invariant i <= |entries| == |was| && removedCount == Flagged(entries)
        invariant forall k :: 0 <= k < i ==> entries[k] == Flag(was, f)[k]
        invariant forall k :: i <= k < |was| ==> entries[k] == was[k]
      {
        var val := entries[i];
        if f(val.value) {
          FlaggedUpdate(entries, i, Entry(val.value, true));
          if !val.gone {
            removedCount := removedCount + 1;
          }
          entries := entries[i := Entry(val.value, true)];
        }
        i := i + 1;
      }
    }

    method EraseIf(f: T -> bool)
      requires Valid()
      modifies this
      ensures Valid() && Abs() == Step(old(Abs()), Op.EraseIf(f)) && lockCount == old(lockCount)
      ensures old(lockCount) == 0 ==>
        (forall e :: e in entries ==> e in old(entries) && !f(e.value))
        && (forall e :: e in old(entries) && !f(e.value) ==> e in entries)
      ensures old(lockCount) > 0 ==> |entries| == |old(entries)|
      ensures old(lockCount) > 0 ==> forall i :: 0 <= i < |entries| ==>
        entries[i].value == old(entries)[i].value && entries[i].gone == (old(entries)[i].gone || f(entries[i].value))
    {
      if lockCount == 0 {
        StepSettled(Abs(), Op.EraseIf(f));
        WithoutMembers(entries, OnValue(f));
        entries := Without(entries, OnValue(f));
      } else {
        FlagAll(f);
      }
    }

    method PushUnique(x: T)
      requires Valid()
      modifies this
      ensures Valid() && Abs() == Step(old(Abs()), Op.PushUnique(x)) && lockCount == old(lockCount)
      ensures (forall i :: 0 <= i < |old(entries)| ==> old(entries)[i].value != x) ==>
        entries == old(entries) + [Entry(x, false)]
      ensures forall i :: 0 <= i < |old(entries)| && FirstAt(old(entries), x, i) ==>
        entries == old(entries)[i := Entry(x, false)]
    {
      PushMeans(Abs(), x);
      PushInto(x);
    }

    method PushInto(x: T)
      requires Valid()
      modifies this
      ensures Valid() && Abs() == Step(old(Abs()), Op.PushUnique(x)) && lockCount == old(lockCount)
    {
      StepSettled(Abs(), Op.PushUnique(x));
      var i := 0;
      while i < |entries|
        invariant i <= |entries| && IndexOf(entries, x, 0) == IndexOf(entries, x, i)
      {
        if x == entries[i].value {
          FlaggedUpdate(entries, i, Entry(x, false));
          if entries[i].gone {
            removedCount := removedCount - 1;
          }
          entries := entries[i := Entry(entries[i].value, false)];
          return;
        }
        i := i + 1;
      }
      FlaggedAppend(entries, Entry(x, false));
      entries := entries + [Entry(x, false)];
    }

    method Lock()
      requires Valid()
      modifies this
      ensures Valid() && Abs() == Step(old(Abs()), Op.Lock)
      ensures lockCount == old(lockCount) + 1 && entries == old(entries)
    {
      lockCount := lockCount + 1;
    }

    /** The last `release` drops the flagged entries, if there are any. */
    method Release()
      requires Valid() && lockCount > 0
      modifies this
      ensures Valid() && Abs() == Step(old(Abs()), Op.Release) && lockCount == old(lockCount) - 1
      ensures lockCount > 0 ==> entries == old(entries)
      ensures lockCount == 0 ==> (forall e :: e in entries <==> e in old(entries) && !e.gone)
    {
      StepSettled(Abs(), Op.Release);
      WithoutMembers(entries, Gone());
      lockCount := lockCount - 1;
      if lockCount == 0 {
        if removedCount > 0 {
          removedCount := 0;
          entries := Without(entries, Gone());
        } else {
          FlaggedZero(entries);
          NothingToRemove(entries);
        }
      }
    }
  }

  lemma {:induction false} NothingToRemove<T>(e: seq<Entry<T>>)
    requires forall i :: 0 <= i < |e| ==> !e[i].gone
    ensures Without(e, Gone()) == e
  {
    if e != [] {
      NothingToRemove(e[..|e| - 1]);
      assert e == e[..|e| - 1] + [e[|e| - 1]];
    }
  }
}
