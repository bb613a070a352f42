/** uthash: what the table means to its user, a plain map from keys to elements, and what the
    bookkeeping numbers of the buckets mean. */
module UtHashModel {
  import opened MergeSort
  import opened Bits
  import opened HashElements
  import opened Facts
  import opened HashTable
  import opened UtHash

  // ---------- the table as a map ----------

  /** The last element with each key. */
  ghost function AsMap<V>(s: seq<Elem<V>>): map<Key, Elem<V>> {
    if |s| == 0 then map[] else AsMap(s[..|s| - 1])[s[|s| - 1].key := s[|s| - 1]]
  }

  lemma {:induction false} AsMapOwn<V>(s: seq<Elem<V>>, key: Key)
    ensures key in AsMap(s) ==> AsMap(s)[key] in s && AsMap(s)[key].key == key
    ensures key !in AsMap(s) ==> forall e :: e in s ==> e.key != key
  {
    if |s| > 0 {
      AsMapOwn(s[..|s| - 1], key);
      assert s == s[..|s| - 1] + [s[|s| - 1]];
    }
  }

  lemma SameElement<V>(s: seq<Elem<V>>, a: Elem<V>, b: Elem<V>)
    requires DistinctKeys(s) && a in s && b in s && a.key == b.key
    ensures a == b
  {
    var i :| 0 <= i < |s| && s[i] == a;
    var j :| 0 <= j < |s| && s[j] == b;
  }

  /** With unique keys, finding an element with a key is looking the key up. */
  lemma FoundIsLookup<V>(s: seq<Elem<V>>, key: Key, out: Elem?<V>)
    requires DistinctKeys(s)
    requires out != null ==> out in s && out.key == key
    requires out == null ==> forall e :: e in s ==> e.key != key
    ensures out == Lookup(AsMap(s), key)
  {
    AsMapOwn(s, key);
    if key in AsMap(s) {
      SameElement(s, AsMap(s)[key], out);
    }
  }

  ghost function Lookup<V>(m: map<Key, Elem<V>>, key: Key): Elem?<V> {
    if key in m then m[key] else null
  }

  lemma SameLookups<V>(m: map<Key, Elem<V>>, m': map<Key, Elem<V>>)
    requires forall key :: Lookup(m', key) == Lookup(m, key)
    ensures m == m'
  {
    forall key ensures key in m <==> key in m' {
      assert Lookup(m', key) == Lookup(m, key);
    }
    forall key | key in m ensures m[key] == m'[key] {
      assert Lookup(m', key) == Lookup(m, key);
    }
  }

  // ---------- operations ----------

  /** The calls of a client that keeps keys unique. */
  datatype Op<!V> =
    | Put(elem: Elem<V>)
    | PutInorder(elem: Elem<V>, cmp: Comparator<Elem<V>>)
    | Remove(key: Key)
    | Get(key: Key)
    | SortBy(cmp: Comparator<Elem<V>>)

  /** The application order without the first element that has the key. */
  ghost function RemoveKey<V>(s: seq<Elem<V>>, key: Key): seq<Elem<V>> {
    if s == [] then [] else if s[0].key == key then s[1..] else [s[0]] + RemoveKey(s[1..], key)
  }

  lemma {:induction false} RemoveKeyAt<V>(s: seq<Elem<V>>, key: Key, k: nat)
    requires DistinctKeys(s) && k < |s| && s[k].key == key
    ensures RemoveKey(s, key) == Without(s, k)
  {
    if k > 0 {
      assert s[0].key != s[k].key;
      RemoveKeyAt(s[1..], key, k - 1);
      assert Without(s, k) == [s[0]] + Without(s[1..], k - 1);
    } else {
      assert s[..0] + s[1..] == s[1..];
    }
  }

  lemma {:induction false} RemoveKeyNone<V>(s: seq<Elem<V>>, key: Key)
    requires forall e :: e in s ==> e.key != key
    ensures RemoveKey(s, key) == s
  {
    if s != [] {
      assert s[0] in s;
      RemoveKeyNone(s[1..], key);
    }
  }

  lemma {:induction false} RemoveKeyFacts<V>(s: seq<Elem<V>>, key: Key)
    requires DistinctKeys(s)
    ensures DistinctKeys(RemoveKey(s, key))
    ensures forall e :: e in RemoveKey(s, key) ==> e in s && e.key != key
    ensures forall e :: e in s && e.key != key ==> e in RemoveKey(s, key)
  {
    if s != [] {
      RemoveKeyFacts(s[1..], key);
      var r := RemoveKey(s[1..], key);
      assert s == [s[0]] + s[1..];
      KeysInFront(s[0], r, s[1..]);
    }
  }

  lemma KeysInFront<V>(e: Elem<V>, r: seq<Elem<V>>, s: seq<Elem<V>>)
    requires DistinctKeys([e] + s) && DistinctKeys(r) && forall d :: d in r ==> d in s
    ensures DistinctKeys([e] + r)
  {
    forall i | 0 <= i < |r| ensures r[i].key != e.key {
      assert r[i] in s;
      var j :| 0 <= j < |s| && s[j] == r[i];
      assert ([e] + s)[0] == e && ([e] + s)[j + 1] == s[j];
    }
  }

  /** The application order after a call. */
  ghost function OrderAfter<V>(s: seq<Elem<V>>, op: Op<V>): seq<Elem<V>> {
    match op
    case Put(e) => RemoveKey(s, e.key) + [e]
    case PutInorder(e, cmp) => PlacedIn(RemoveKey(s, e.key), e, cmp)
    case Remove(key) => RemoveKey(s, key)
    case Get(_) => s
    case SortBy(cmp) => Sort(cmp, s)
  }

  ghost function PlacedIn<V>(s: seq<Elem<V>>, e: Elem<V>, cmp: Comparator<Elem<V>>): seq<Elem<V>> {
    UpperBoundInside(cmp, s, e);
    InsertAt(s, UpperBound(cmp, s, e), e)
  }

  lemma {:induction false} UpperBoundInside<V>(cmp: Comparator<Elem<V>>, s: seq<Elem<V>>, e: Elem<V>)
    ensures UpperBound(cmp, s, e) <= |s|
  {
    if s != [] {
      UpperBoundInside(cmp, s[1..], e);
    }
  }

  /** What a call returns: the element that its key had before. */
  ghost function Reply<V>(m: map<Key, Elem<V>>, op: Op<V>): Elem?<V> {
    match op
    case Put(e) => Lookup(m, e.key)
    case PutInorder(e, _) => Lookup(m, e.key)
    case Remove(key) => Lookup(m, key)
    case Get(key) => Lookup(m, key)
    case SortBy(_) => null
  }

  /** The map after a call. */
  ghost function Apply<V>(m: map<Key, Elem<V>>, op: Op<V>): map<Key, Elem<V>> {
    match op
    case Put(e) => m[e.key := e]
    case PutInorder(e, _) => m[e.key := e]
    case Remove(key) => m - {key}
    case Get(_) => m
    case SortBy(_) => m
  }

  lemma InsertedFacts<V>(s: seq<Elem<V>>, k: nat, e: Elem<V>)
    requires k <= |s| && DistinctKeys(s) && forall d :: d in s ==> d.key != e.key
    ensures DistinctKeys(InsertAt(s, k, e))
    ensures forall d :: d in InsertAt(s, k, e) ==> d in s || d == e
    ensures forall d :: d in s || d == e ==> d in InsertAt(s, k, e)
  {
    var r := InsertAt(s, k, e);
    InsertMembers(s, k, e);
    forall d ensures d in r <==> d in s || d == e {
      assert d in r <==> d in Members(r);
      assert d in s <==> d in Members(s);
    }
    assert forall i :: 0 <= i < |s| ==> s[i] in s;
  }

  lemma SortedFacts<V>(cmp: Comparator<Elem<V>>, s: seq<Elem<V>>)
    requires DistinctKeys(s)
    ensures DistinctKeys(Sort(cmp, s))
    ensures forall d :: d in Sort(cmp, s) ==> d in s
    ensures forall d :: d in s ==> d in Sort(cmp, s)
  {
    var t := Sort(cmp, s);
    SortIsStableSort(cmp, s);
    SameMembers(s, t);
    forall i, j | 0 <= i < j < |t| ensures t[i].key != t[j].key {
      var a, b := t[i], t[j];
      assert a in t && b in t;
      if a.key == b.key {
        SameElement(s, a, b);
        TwiceIn(t, i, j);
        OnceIn(s, a);
      }
    }
  }

  lemma SameMembers<X>(s: seq<X>, t: seq<X>)
    requires multiset(s) == multiset(t)
    ensures forall d :: d in t ==> d in s
    ensures forall d :: d in s ==> d in t
  {
    forall d ensures d in t <==> d in s {
      assert d in t <==> d in multiset(t);
      assert d in s <==> d in multiset(s);
    }
  }

  lemma TwiceIn<X>(t: seq<X>, i: nat, j: nat)
    requires i < j < |t| && t[i] == t[j]
    ensures multiset(t)[t[i]] >= 2
  {
    assert t == t[..i] + [t[i]] + t[i + 1..j] + [t[j]] + t[j + 1..];
  }

  lemma {:induction false} OnceIn<V>(s: seq<Elem<V>>, e: Elem<V>)
    requires DistinctKeys(s)
    ensures multiset(s)[e] <= 1
    ensures e !in s ==> multiset(s)[e] == 0
  {
    if s != [] {
      OnceIn(s[1..], e);
      assert s == [s[0]] + s[1..];
    }
  }

  /** The call takes the element with this key out of the order, or replaces it. */
  predicate Drops<V>(op: Op<V>, key: Key) {
    match op
    case Put(e) => key == e.key
    case PutInorder(e, _) => key == e.key
    case Remove(k) => key == k
    case Get(_) => false
    case SortBy(_) => false
  }

  predicate Puts<V>(op: Op<V>) {
    op.Put? || op.PutInorder?
  }

  /** Which elements a call leaves in the order. */
  lemma OrderMembers<V>(s: seq<Elem<V>>, op: Op<V>)
    requires DistinctKeys(s)
    ensures DistinctKeys(OrderAfter(s, op))
    ensures forall d :: d in OrderAfter(s, op) ==> (d in s && !Drops(op, d.key)) || (Puts(op) && d == op.elem)
    ensures forall d :: d in s && !Drops(op, d.key) ==> d in OrderAfter(s, op)
    ensures Puts(op) ==> op.elem in OrderAfter(s, op)
  {
    match op
    case Put(e) =>
      var r := RemoveKey(s, e.key);
      RemoveKeyFacts(s, e.key);
      InsertedFacts(r, |r|, e);
      assert InsertAt(r, |r|, e) == r + [e];
    case PutInorder(e, cmp) =>
      var r := RemoveKey(s, e.key);
      RemoveKeyFacts(s, e.key);
      UpperBoundInside(cmp, r, e);
      InsertedFacts(r, UpperBound(cmp, r, e), e);
    case Remove(key) => RemoveKeyFacts(s, key);
    case Get(_) =>
    case SortBy(cmp) => SortedFacts(cmp, s);
  }

  /** Looking up after a call: the element put in, or what was there unless it was dropped. */
  lemma ApplyLookup<V>(m: map<Key, Elem<V>>, op: Op<V>, key: Key)
    ensures Lookup(Apply(m, op), key)
         == if Puts(op) && key == op.elem.key then op.elem else if Drops(op, key) then null else Lookup(m, key)
  {
  }

  /** Unique keys stay unique, and the map of the new order is the new map. */
  lemma OrderIsMap<V>(s: seq<Elem<V>>, op: Op<V>)
    requires DistinctKeys(s)
    ensures AsMap(OrderAfter(s, op)) == Apply(AsMap(s), op)
  {
    var t, m := OrderAfter(s, op), Apply(AsMap(s), op);
    OrderMembers(s, op);
    forall key ensures Lookup(AsMap(t), key) == Lookup(m, key) {
      ApplyLookup(AsMap(s), op, key);
      AsMapOwn(s, key);
      FoundIsLookup(t, key, Lookup(m, key));
    }
    SameLookups(m, AsMap(t));
  }

  // ---------- runs ----------

  ghost function OrderAfterAll<V>(s: seq<Elem<V>>, ops: seq<Op<V>>): seq<Elem<V>>
    decreases |ops|
  {
    if |ops| == 0 then s else OrderAfterAll(OrderAfter(s, ops[0]), ops[1..])
  }

  ghost function ApplyAll<V>(m: map<Key, Elem<V>>, ops: seq<Op<V>>): map<Key, Elem<V>>
    decreases |ops|
  {
    if |ops| == 0 then m else ApplyAll(Apply(m, ops[0]), ops[1..])
  }

  ghost function Replies<V>(m: map<Key, Elem<V>>, ops: seq<Op<V>>): seq<Elem?<V>>
    decreases |ops|
  {
    if |ops| == 0 then [] else [Reply(m, ops[0])] + Replies(Apply(m, ops[0]), ops[1..])
  }

  /** The map of the final order is the final map. */
  lemma {:induction false} OrdersAreMaps<V>(s: seq<Elem<V>>, ops: seq<Op<V>>)
    requires DistinctKeys(s)
    ensures DistinctKeys(OrderAfterAll(s, ops))
    ensures AsMap(OrderAfterAll(s, ops)) == ApplyAll(AsMap(s), ops)
    decreases |ops|
  {
    if |ops| > 0 {
      OrderMembers(s, ops[0]);
      OrderIsMap(s, ops[0]);
      OrdersAreMaps(OrderAfter(s, ops[0]), ops[1..]);
    }
  }

  /** After any run a key has the element last put in with it, unless it was removed since. */
  lemma {:induction false} LastPutWins<V>(m: map<Key, Elem<V>>, ops: seq<Op<V>>, i: nat, key: Key)
    requires i < |ops| && (ops[i].Put? || ops[i].PutInorder?) && ops[i].elem.key == key
    requires forall j :: i < j < |ops| ==> !Drops(ops[j], key)
    ensures key in ApplyAll(m, ops) && ApplyAll(m, ops)[key] == ops[i].elem
    decreases |ops|
  {
    if i > 0 {
      LastPutWins(Apply(m, ops[0]), ops[1..], i - 1, key);
    } else {
      Unchanged(Apply(m, ops[0]), ops[1..], key);
    }
  }

  lemma {:induction false} RemovedStaysOut<V>(m: map<Key, Elem<V>>, ops: seq<Op<V>>, i: nat, key: Key)
    requires i < |ops| && ops[i] == Remove(key)
    requires forall j :: i < j < |ops| ==> !Drops(ops[j], key)
    ensures key !in ApplyAll(m, ops)
    decreases |ops|
  {
    if i > 0 {
      RemovedStaysOut(Apply(m, ops[0]), ops[1..], i - 1, key);
    } else {
      Unchanged(Apply(m, ops[0]), ops[1..], key);
    }
  }

  lemma {:induction false} Unchanged<V>(m: map<Key, Elem<V>>, ops: seq<Op<V>>, key: Key)
    requires forall j :: 0 <= j < |ops| ==> !Drops(ops[j], key)
    ensures key in ApplyAll(m, ops) <==> key in m
    ensures key in m ==> ApplyAll(m, ops)[key] == m[key]
    decreases |ops|
  {
    if ops != [] {
      assert !Drops(ops[0], key);
      Unchanged(Apply(m, ops[0]), ops[1..], key);
    }
  }

  /** Every answer is the element that its key has at that moment, or null if it has none. */
  lemma {:induction false} RepliesAre<V>(m: map<Key, Elem<V>>, ops: seq<Op<V>>, i: nat, key: Key)
    requires i < |ops|
    requires ops[i] == Get(key) || ops[i] == Remove(key)
          || ((ops[i].Put? || ops[i].PutInorder?) && ops[i].elem.key == key)
    ensures |Replies(m, ops)| == |ops|
    ensures Replies(m, ops)[i] == if key in ApplyAll(m, ops[..i]) then ApplyAll(m, ops[..i])[key] else null
    decreases |ops|
  {
    RepliesLength(m, ops);
    if i > 0 {
      RepliesAre(Apply(m, ops[0]), ops[1..], i - 1, key);
      assert ops[..i][0] == ops[0] && ops[..i][1..] == ops[1..][..i - 1];
    }
  }

  lemma {:induction false} RepliesLength<V>(m: map<Key, Elem<V>>, ops: seq<Op<V>>)
    ensures |Replies(m, ops)| == |ops|
    decreases |ops|
  {
    if ops != [] {
      RepliesLength(Apply(m, ops[0]), ops[1..]);
    }
  }

  /** One call on the table. */
  method Step<V>(t: Table<V>, op: Op<V>) returns (r: Elem?<V>)
    requires t.Valid() && DistinctKeys(t.order)
    modifies t, t.buckets, t.order, if Puts(op) then {op.elem} else {}
    ensures Whole(t.Valid()) && (t.buckets == old(t.buckets) || fresh(t.buckets))
    ensures t.order == OrderAfter(old(t.order), op)
    ensures r == Reply(AsMap(old(t.order)), op)
  {
    match op
    case Put(e) => r := StepPut(t, e);
    case PutInorder(e, cmp) => r := StepPutInorder(t, e, cmp);
    case Remove(key) => r := StepRemove(t, key);
    case Get(key) =>
      r := t.Find(key);
      FoundIsLookup(t.order, key, r);
    case SortBy(cmp) =>
      t.Sort(cmp);
      r := null;
  }

  method StepPut<V>(t: Table<V>, e: Elem<V>) returns (r: Elem?<V>)
    requires t.Valid() && DistinctKeys(t.order)
    modifies t, t.buckets, t.order, e
    ensures Whole(t.Valid()) && (t.buckets == old(t.buckets) || fresh(t.buckets))
    ensures t.order == RemoveKey(old(t.order), e.key) + [e]
    ensures r == Lookup(AsMap(old(t.order)), e.key)
  {
    ghost var s, k := t.order, 0;
    KeysEnter(s, e);
    r, k := t.Replace(e);
    Replaced(s, e.key, r, k);
  }

  method StepPutInorder<V>(t: Table<V>, e: Elem<V>, cmp: Comparator<Elem<V>>) returns (r: Elem?<V>)
    requires t.Valid() && DistinctKeys(t.order)
    modifies t, t.buckets, t.order, e
    ensures Whole(t.Valid()) && (t.buckets == old(t.buckets) || fresh(t.buckets))
    ensures t.order == PlacedIn(RemoveKey(old(t.order), e.key), e, cmp)
    ensures r == Lookup(AsMap(old(t.order)), e.key)
  {
    ghost var s, k, m := t.order, 0, 0;
    KeysEnter(s, e);
    r, k, m := t.ReplaceInorder(e, cmp);
    Replaced(s, e.key, r, k);
    UpperBoundUnique(cmp, RemoveKey(s, e.key), e, m);
  }

  method StepRemove<V>(t: Table<V>, key: Key) returns (r: Elem?<V>)
    requires t.Valid() && DistinctKeys(t.order)
    modifies t, t.buckets, t.order
    ensures Whole(t.Valid()) && t.buckets == old(t.buckets)
    ensures t.order == RemoveKey(old(t.order), key)
    ensures r == Lookup(AsMap(old(t.order)), key)
  {
    ghost var s, k := t.order, 0;
    r := t.Find(key);
    if r != null {
      k :| 0 <= k < |s| && s[k] == r;
      Replaced(s, key, r, k);
      t.Delete(r, k);
    } else {
      Replaced(s, key, r, k);
    }
  }

  lemma KeysEnter<V>(s: seq<Elem<V>>, e: Elem<V>)
    requires DistinctKeys(s)
    ensures Enters(s, e)
  {
    forall d | e in s && d in s && d.key == e.key ensures d == e {
      SameElement(s, d, e);
    }
  }

  /** What a search found, as the reply and as the change of the order. */
  lemma Replaced<V>(s: seq<Elem<V>>, key: Key, r: Elem?<V>, k: nat)
    requires DistinctKeys(s)
    requires r == null ==> forall e :: e in s ==> e.key != key
    requires r != null ==> k < |s| && s[k] == r && r.key == key
    ensures RemoveKey(s, key) == if r == null then s else Without(s, k)
    ensures r == Lookup(AsMap(s), key)
  {
    FoundIsLookup(s, key, r);
    if r == null {
      RemoveKeyNone(s, key);
    } else {
      RemoveKeyAt(s, key, k);
    }
  }

  ghost function PutElems<V>(ops: seq<Op<V>>): set<Elem<V>> {
    set op | op in ops && Puts(op) :: op.elem
  }

  /** After `i` calls the order is `s` and the answers so far are `rs`. */
  ghost predicate Underway<V>(s0: seq<Elem<V>>, ops: seq<Op<V>>, i: nat, s: seq<Elem<V>>, rs: seq<Elem?<V>>) {
    && i <= |ops| && DistinctKeys(s)
    && rs + Replies(AsMap(s), ops[i..]) == Replies(AsMap(s0), ops)
    && OrderAfterAll(s, ops[i..]) == OrderAfterAll(s0, ops)
  }

  lemma RunStart<V>(s: seq<Elem<V>>, ops: seq<Op<V>>)
    requires DistinctKeys(s)
    ensures Whole(Underway(s, ops, 0, s, []))
  {
    assert ops[0..] == ops;
  }

  lemma RunStep<V>(s0: seq<Elem<V>>, s: seq<Elem<V>>, ops: seq<Op<V>>, i: nat, rs: seq<Elem?<V>>)
    requires i < |ops| && Whole(Underway(s0, ops, i, s, rs))
    ensures forall e :: e in OrderAfter(s, ops[i]) ==> e in s || (Puts(ops[i]) && e == ops[i].elem)
    ensures Whole(Underway(s0, ops, i + 1, OrderAfter(s, ops[i]), rs + [Reply(AsMap(s), ops[i])]))
  {
    OrderMembers(s, ops[i]);
    OrderIsMap(s, ops[i]);
    assert ops[i..][0] == ops[i] && ops[i..][1..] == ops[i + 1..];
    var rest := Replies(AsMap(OrderAfter(s, ops[i])), ops[i + 1..]);
    Associative(rs, [Reply(AsMap(s), ops[i])], rest);
  }

  lemma RunEnd<V>(s0: seq<Elem<V>>, ops: seq<Op<V>>, s: seq<Elem<V>>, rs: seq<Elem?<V>>)
    requires Whole(Underway(s0, ops, |ops|, s, rs)) && DistinctKeys(s0)
    ensures rs == Replies(AsMap(s0), ops) && s == OrderAfterAll(s0, ops)
    ensures DistinctKeys(s) && AsMap(s) == ApplyAll(AsMap(s0), ops)
  {
    assert ops[|ops|..] == [];
    OrdersAreMaps(s0, ops);
  }

  /** The table after `i` calls of a run, with only known elements in it. */
  ghost predicate InRun<V>(t: Table<V>, s0: seq<Elem<V>>, ops: seq<Op<V>>, i: nat, known: set<Elem<V>>,
                           rs: seq<Elem?<V>>)
    reads t, t.buckets, t.order
  {
    t.Valid() && Members(t.order) <= known && Underway(s0, ops, i, t.order, rs)
  }

  /** One call of a run. */
  method RunOne<V>(t: Table<V>, ghost s0: seq<Elem<V>>, ops: seq<Op<V>>, i: nat, ghost known: set<Elem<V>>,
                   ghost rs: seq<Elem?<V>>)
    returns (r: Elem?<V>)
    requires i < |ops| && Whole(InRun(t, s0, ops, i, known, rs)) && PutElems(ops) <= known
    modifies t, t.buckets, known
    ensures Whole(InRun(t, s0, ops, i + 1, known, rs + [r])) && (t.buckets == old(t.buckets) || fresh(t.buckets))
  {
    ghost var s := t.order;
    assert Puts(ops[i]) ==> ops[i].elem in PutElems(ops);
    RunStep(s0, s, ops, i, rs);
    r := Step(t, ops[i]);
  }

  /** The calls one after the other. */
  method RunAll<V>(t: Table<V>, ops: seq<Op<V>>, ghost s0: seq<Elem<V>>, ghost known: set<Elem<V>>)
    returns (rs: seq<Elem?<V>>)
    requires Whole(InRun(t, s0, ops, 0, known, [])) && PutElems(ops) <= known
    modifies t, t.buckets, known
    ensures Whole(InRun(t, s0, ops, |ops|, known, rs))
  {
    rs := [];
    var i := 0;
    while i < |ops|
      invariant 0 <= i <= |ops|
      invariant Whole(InRun(t, s0, ops, i, known, rs)) && (t.buckets == old(t.buckets) || fresh(t.buckets))
    {
      var r := RunOne(t, s0, ops, i, known, rs);
      rs := rs + [r];
      i := i + 1;
    }
    assert i == |ops|;
  }

  /** Over any run, the table answers as the map does, and its application order is the specified one. */
  method Run<V>(t: Table<V>, ops: seq<Op<V>>) returns (rs: seq<Elem?<V>>)
    requires t.Valid() && DistinctKeys(t.order)
    modifies t, t.buckets, t.order, PutElems(ops)
    ensures t.Valid() && DistinctKeys(t.order)
    ensures rs == Replies(AsMap(old(t.order)), ops)
    ensures t.order == OrderAfterAll(old(t.order), ops)
    ensures AsMap(t.order) == ApplyAll(AsMap(old(t.order)), ops)
  {
    RunStart(t.order, ops);
    rs := RunAll(t, ops, t.order, Members(t.order) + PutElems(ops));
    RunEnd(old(t.order), ops, t.order, rs);
  }

  // ---------- inserting in order ----------

  /** Under a total preorder, adding in order keeps a sorted table sorted and puts the new element
      behind its equals. */
  lemma InorderKeepsSorted<V>(cmp: Comparator<Elem<V>>, s: seq<Elem<V>>, add: Elem<V>, k: nat)
    requires PreorderOn(cmp, s + [add]) && Sorted(cmp, s) && UpperBoundAt(cmp, s, add, k)
    ensures Sorted(cmp, InsertAt(s, k, add))
    ensures forall i :: 0 <= i < |s| && Equivalent(cmp, s[i], add) ==> i < k
  {
    var dom := s + [add];
    assert dom[|s|] == add;
    forall i | k <= i < |s| ensures cmp(add, s[i]) <= 0 && cmp(s[i], add) > 0 {
      assert dom[i] == s[i] && dom[k] == s[k];
      assert add in dom && s[i] in dom && s[k] in dom;
      assert cmp(add, s[k]) <= 0;
      if i > k {
        assert cmp(s[k], s[i]) <= 0;
      }
    }
    InsertSorted(cmp, s, k, add);
  }

  // ---------- the integrity check ----------

  function CountSum<V>(bs: seq<Bucket<V>>): nat {
    if |bs| == 0 then 0 else CountSum(bs[..|bs| - 1]) + bs[|bs| - 1].count
  }

  lemma {:induction false} DistinctSize<V>(s: seq<Elem<V>>)
    requires Distinct(s)
    ensures |Members(s)| == |s|
  {
    if |s| > 0 {
      var t, e := s[..|s| - 1], s[|s| - 1];
      DistinctSize(t);
      assert s == t + [e] && e !in t;
      assert Members(s) == Members(t) + {e};
    }
  }

  lemma {:induction false} FrontCount<V>(bs: seq<Bucket<V>>, cs: seq<seq<Elem<V>>>, i: nat)
    requires |bs| == |cs| && i <= |cs| && Apart(cs)
    requires forall j :: 0 <= j < |cs| ==> bs[j].count == |cs[j]| && Distinct(cs[j])
    ensures CountSum(bs[..i]) == |Front(cs, i)|
  {
    if i > 0 {
      FrontCount(bs, cs, i - 1);
      FrontSize(cs, i);
      assert bs[..i][..i - 1] == bs[..i - 1];
    }
  }

  lemma FrontSize<V>(cs: seq<seq<Elem<V>>>, i: nat)
    requires 0 < i <= |cs| && Apart(cs) && Distinct(cs[i - 1])
    ensures |Front(cs, i)| == |Front(cs, i - 1)| + |cs[i - 1]|
  {
    FrontApart(cs, i - 1, i - 1);
    DistinctSize(cs[i - 1]);
  }

  /** HASH_FSCK: the counts of the buckets add up to the number of items. */
  lemma CountsAddUp<V>(t: Table<V>)
    requires t.Valid() && t.head != null
    ensures CountSum(t.buckets[..]) == t.numItems
  {
    var bs, cs, elems := t.buckets[..], t.chains, Members(t.order);
    PlacedApart(cs, elems);
    FrontIsAll(cs, elems);
    forall j | 0 <= j < |cs| ensures bs[j].count == |cs[j]| && Distinct(cs[j]) {
      assert Chain(bs[j], cs[j]);
    }
    FrontCount(bs, cs, |cs|);
    assert bs[..|cs|] == bs;
    DistinctSize(t.order);
  }

  // ---------- what the statistics of an expansion mean ----------

  /** A bucket number is the hash value modulo the number of buckets. */
  lemma SlotIsRemainder(hashv: nat, k: nat)
    ensures Slot(hashv, Pow2(k)) == hashv % Pow2(k)
  {
    AndMask(hashv, k);
  }

  /** Doubling sends an element either to the same bucket number or to the one `2^k` further on. */
  lemma SlotSplits(hashv: nat, k: nat)
    ensures Slot(hashv, Pow2(k + 1)) == Slot(hashv, Pow2(k))
         || Slot(hashv, Pow2(k + 1)) == Slot(hashv, Pow2(k)) + Pow2(k)
  {
    SlotIsRemainder(hashv, k);
    SlotIsRemainder(hashv, k + 1);
    HalfRemainder(hashv, Pow2(k));
  }

  lemma HalfRemainder(h: nat, n: nat)
    requires n > 0
    ensures h % (2 * n) == h % n || h % (2 * n) == h % n + n
  {
    var m := 2 * n;
    Division(h, m);
    NonNegative(h, m);
    Halved(h, n, m, h / m, h % m);
  }

  lemma Halved(h: nat, n: nat, m: nat, q: nat, r: nat)
    requires m == 2 * n && h == q * m + r && r < m
    ensures h % n == if r < n then r else r - n
  {
    assert q * m == 2 * q * n && (2 * q + 1) * n == 2 * q * n + n;
    if r < n {
      DivMod(h, 2 * q, r, n);
    } else {
      DivMod(h, 2 * q + 1, r - n, n);
    }
  }
}
