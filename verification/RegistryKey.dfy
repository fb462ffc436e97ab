/**
 * The shared ownership of an open registry key by `RegistryKey` objects
 * (RegistryKey.cpp).  Copies of an object share the key through a heap
 * counter; `Close` decrements it and the last holder closes the key and
 * frees the counter.
 *
 * The world holds every `RegistryKey` object, the counters ever allocated
 * (a freed one becomes `None`) and the keys passed to `RegCloseKey`, in
 * order.  Using a freed counter is a fault.  Whether `RegOpenKey` succeeds,
 * and the key it opens, is given.
 */
module RegistryKey {
  import opened Wrappers

  type ObjId = nat
  type CountId = nat

  const NULL_KEY: int := 0

  /** `_key` and `_refcount`; no counter means the object has no key. */
  datatype Holder = Holder(key: int, refcount: Option<CountId>)

  /** A live counter: its value and the key its holders share. */
  datatype Counter = Counter(count: int, key: int)

  datatype Keys = Keys(objs: map<ObjId, Holder>, counters: seq<Option<Counter>>, closed: seq<int>)

  datatype Fault = FreedCounter(c: CountId)

  predicate Live(k: Keys, c: CountId)
  {
    c < |k.counters| && k.counters[c].Some?
  }

  /** The objects holding counter `c`. */
  function HoldersOf(objs: map<ObjId, Holder>, c: CountId): set<ObjId>
  {
    set o | o in objs && objs[o].refcount == Some(c)
  }

  /** The one extra count an assignment holds on the source's counter while it closes its own key. */
  function Extra(pending: Option<CountId>, c: CountId): nat
  {
    if pending == Some(c) then 1 else 0
  }

  /**
   * The counts with `pending` incremented but not yet held: every holder's
   * counter is live and names its key, and every live counter is at least
   * one and equals the number of objects holding it, plus one for the
   * pending counter.
   */
  predicate Balanced(k: Keys, pending: Option<CountId>)
  {
    (forall o :: o in k.objs && k.objs[o].refcount.Some? ==>
      Live(k, k.objs[o].refcount.value) && k.counters[k.objs[o].refcount.value].value.key == k.objs[o].key) &&
    (forall c: CountId :: c < |k.counters| && k.counters[c].Some? ==>
      k.counters[c].value.count == |HoldersOf(k.objs, c)| + Extra(pending, c) && k.counters[c].value.count >= 1)
  }

  /** The reference-count invariant: every live counter equals the number of its holders. */
  predicate Counted(k: Keys)
  {
    Balanced(k, None)
  }

  /** `IsOpen()`, and `!object` as its negation. */
  predicate IsOpen(k: Keys, o: ObjId)
    requires o in k.objs
  {
    k.objs[o].refcount.Some?
  }

  // ---------------------------------------------------------------------
  // Counting

  lemma HoldersUpdate(objs: map<ObjId, Holder>, o: ObjId, h: Holder, c: CountId)
    ensures HoldersOf(objs[o := h], c) == (HoldersOf(objs, c) - {o}) + (if h.refcount == Some(c) then {o} else {})
  {
  }

  lemma RemoveOne(s: set<ObjId>, o: ObjId)
    requires o in s
    ensures |s - {o}| == |s| - 1
  {
    assert s == (s - {o}) + {o};
  }

  lemma AddOne(s: set<ObjId>, o: ObjId)
    requires o !in s
    ensures |s + {o}| == |s| + 1
  {
  }

  /** A counter held by one object only is held by nobody once that object lets go. */
  lemma SoleHolder(s: set<ObjId>, o: ObjId, other: ObjId)
    requires o in s && |s| == 1 && other != o
    ensures other !in s
  {
    if other in s {
      assert {o, other} <= s;
      assert |{o, other}| == 2;
      SubsetCard({o, other}, s);
    }
  }

  lemma SubsetCard(a: set<ObjId>, b: set<ObjId>)
    requires a <= b
    ensures |a| <= |b|
  {
    assert b == a + (b - a);
  }

  // ---------------------------------------------------------------------
  // Operations

  /**
   * `Close()`: an object with a counter decrements it; the holder that
   * brings it to zero closes the key and frees the counter.  The object is
   * left without a key.
   */
  function Close(k: Keys, o: ObjId): (r: Result<Keys, Fault>)
    requires o in k.objs
    ensures k.objs[o].refcount.None? ==> r == Success(k)
    ensures r.Success? ==> o in r.value.objs && !IsOpen(r.value, o) && r.value.objs.Keys == k.objs.Keys
    ensures r.Success? ==> forall p :: p in k.objs && p != o ==> r.value.objs[p] == k.objs[p]
    ensures r.Success? && k.objs[o].refcount.Some? ==>
      var c := k.objs[o].refcount.value;
      Live(k, c) &&
      (k.counters[c].value.count == 1 ==> r.value.closed == k.closed + [k.counters[c].value.key] && !Live(r.value, c)) &&
      (k.counters[c].value.count != 1 ==>
        r.value.closed == k.closed && Live(r.value, c) && r.value.counters[c].value.count == k.counters[c].value.count - 1)
    ensures r.Success? ==> |r.value.counters| == |k.counters|
    ensures r.Success? ==> forall c :: 0 <= c < |k.counters| && Some(c) != k.objs[o].refcount ==> r.value.counters[c] == k.counters[c]
  {
    var h := k.objs[o];
    if h.refcount.None? then Success(k)
    else
      var c := h.refcount.value;
      if !Live(k, c) then Failure(FreedCounter(c))
      else
        var counter := k.counters[c].value;
        var objs := k.objs[o := h.(refcount := None)];
        if counter.count - 1 == 0 then Success(Keys(objs, k.counters[c := None], k.closed + [counter.key]))
        else Success(Keys(objs, k.counters[c := Some(counter.(count := counter.count - 1))], k.closed))
  }

  /** `InterlockedIncrement(_refcount)`. */
  function Increment(k: Keys, c: CountId): (r: Result<Keys, Fault>)
    ensures !Live(k, c) ==> r == Failure(FreedCounter(c))
    ensures Live(k, c) ==> r.Success? && r.value.objs == k.objs && r.value.closed == k.closed
    ensures Live(k, c) ==> |r.value.counters| == |k.counters| && Live(r.value, c)
    ensures Live(k, c) ==> r.value.counters[c].value == k.counters[c].value.(count := k.counters[c].value.count + 1)
    ensures Live(k, c) ==> forall d :: 0 <= d < |k.counters| && d != c ==> r.value.counters[d] == k.counters[d]
  {
    if !Live(k, c) then Failure(FreedCounter(c))
    else
      var counter := k.counters[c].value;
      Success(k.(counters := k.counters[c := Some(counter.(count := counter.count + 1))]))
  }

  /**
   * `operator=(copy)`: assigning an object to itself does nothing; otherwise
   * the source's counter is incremented before the object's own key is
   * closed, and the object then shares the source's key.
   */
  function Assign(k: Keys, o: ObjId, src: ObjId): (r: Result<Keys, Fault>)
    requires o in k.objs && src in k.objs
    ensures o == src ==> r == Success(k)
    ensures r.Success? ==> r.value.objs.Keys == k.objs.Keys && r.value.objs[o] == k.objs[src]
  {
    if o == src then Success(k)
    else
      var s := k.objs[src];
      var counted :- if s.refcount.Some? then Increment(k, s.refcount.value) else Success(k);
      var closed :- Close(counted, o);
      Success(closed.(objs := closed.objs[o := s]))
  }

  /**
   * `Open(root, subkey)`: the object's key is closed first.  When
   * `RegOpenKey` fails (`answer` is none) the object is left without a key
   * and the result is false; otherwise a new counter of 1 is allocated for
   * key it opened.
   */
  function Open(k: Keys, o: ObjId, answer: Option<int>): (r: Result<(Keys, bool), Fault>)
    requires o in k.objs
    ensures Close(k, o).Failure? ==> r.Failure?
    ensures r.Success? ==> o in r.value.0.objs && r.value.1 == answer.Some? && r.value.1 == IsOpen(r.value.0, o)
    ensures r.Success? && answer.Some? ==>
      var c := r.value.0.objs[o].refcount.value;
      c == |k.counters| && |r.value.0.counters| == c + 1 && r.value.0.counters[c] == Some(Counter(1, answer.value)) && r.value.0.objs[o].key == answer.value
  {
    var closed :- Close(k, o);
    if answer.None? then Success((closed, false))
    else
      var c := |closed.counters|;
      Success((Keys(closed.objs[o := Holder(answer.value, Some(c))], closed.counters + [Some(Counter(1, answer.value))], closed.closed), true))
  }

  /** `RegistryKey()`: a new object without a key. */
  function Construct(k: Keys, o: ObjId): (r: Keys)
    requires o !in k.objs
    ensures o in r.objs && !IsOpen(r, o)
    ensures r.counters == k.counters && r.closed == k.closed
  {
    k.(objs := k.objs[o := Holder(NULL_KEY, None)])
  }

  /** `RegistryKey(copy)`: a new object that shares the source's key. */
  function CopyConstruct(k: Keys, o: ObjId, src: ObjId): (r: Result<Keys, Fault>)
    requires o !in k.objs && src in k.objs
    ensures r.Success? ==> o in r.value.objs && r.value.objs[o] == k.objs[src]
  {
    Assign(Construct(k, o), o, src)
  }

  /** `~RegistryKey()`: closes, then the object is gone. */
  function Destruct(k: Keys, o: ObjId): (r: Result<Keys, Fault>)
    requires o in k.objs
    ensures r.Success? ==> r.value.objs.Keys == k.objs.Keys - {o}
  {
    var closed :- Close(k, o);
    Success(closed.(objs := closed.objs - {o}))
  }

  // ---------------------------------------------------------------------
  // The invariant

  /** Changing only `o`, to hold nothing, keeps the holders of every counter `o` did not hold. */
  lemma OthersKept(objs: map<ObjId, Holder>, o: ObjId, h: Holder)
    requires o in objs && h.refcount.None?
    ensures forall d: CountId :: Some(d) != objs[o].refcount ==> HoldersOf(objs[o := h], d) == HoldersOf(objs, d)
  {
    forall d: CountId | Some(d) != objs[o].refcount
      ensures HoldersOf(objs[o := h], d) == HoldersOf(objs, d)
    {
      HoldersUpdate(objs, o, h, d);
    }
  }

  /** `Close` keeps the counts balanced, and never touches a freed counter. */
  lemma CloseBalanced(k: Keys, o: ObjId, pending: Option<CountId>)
    requires Balanced(k, pending) && o in k.objs
    ensures Close(k, o).Success? && Balanced(Close(k, o).value, pending)
  {
    var h := k.objs[o];
    if h.refcount.Some? {
      var c := h.refcount.value;
      var objs := k.objs[o := h.(refcount := None)];
      var r := Close(k, o).value;
      assert r.objs == objs;
      OthersKept(k.objs, o, h.(refcount := None));
      HoldersUpdate(k.objs, o, h.(refcount := None), c);
      assert o in HoldersOf(k.objs, c);
      RemoveOne(HoldersOf(k.objs, c), o);
      if k.counters[c].value.count == 1 {
        forall p | p in objs && objs[p].refcount.Some?
          ensures objs[p].refcount.value != c
        {
          if p != o {
            SoleHolder(HoldersOf(k.objs, c), o, p);
          }
        }
      }
    }
  }

  lemma CloseCounted(k: Keys, o: ObjId)
    requires Counted(k) && o in k.objs
    ensures Close(k, o).Success? && Counted(Close(k, o).value)
  {
    CloseBalanced(k, o, None);
  }

  /** The increment of an assignment leaves its counter pending. */
  lemma IncrementPending(k: Keys, c: CountId)
    requires Counted(k) && Live(k, c)
    ensures Increment(k, c).Success? && Balanced(Increment(k, c).value, Some(c))
  {
  }

  /** Making `o`, which holds nothing, a holder of the pending counter balances the counts again. */
  lemma AdoptPending(k: Keys, o: ObjId, s: Holder)
    requires s.refcount.Some? && Balanced(k, s.refcount) && o in k.objs && k.objs[o].refcount.None?
    requires Live(k, s.refcount.value) && k.counters[s.refcount.value].value.key == s.key
    ensures Counted(k.(objs := k.objs[o := s]))
  {
    var c := s.refcount.value;
    var objs := k.objs[o := s];
    assert o !in HoldersOf(k.objs, c);
    HoldersUpdate(k.objs, o, s, c);
    AddOne(HoldersOf(k.objs, c), o);
    forall d: CountId | d != c
      ensures HoldersOf(objs, d) == HoldersOf(k.objs, d)
    {
      HoldersUpdate(k.objs, o, s, d);
    }
  }

  /** Making `o` the holder of the next counter id leaves it that counter's only holder and keeps every other counter's holders. */
  lemma FreshHolders(k: Keys, o: ObjId, h: Holder)
    requires Counted(k) && o in k.objs && k.objs[o].refcount.None? && h.refcount == Some(|k.counters|)
    ensures HoldersOf(k.objs[o := h], |k.counters|) == {o}
    ensures forall d: CountId :: d < |k.counters| ==> HoldersOf(k.objs[o := h], d) == HoldersOf(k.objs, d)
  {
    var c := |k.counters|;
    assert HoldersOf(k.objs, c) == {} by {
      forall p | p in k.objs && k.objs[p].refcount.Some?
        ensures k.objs[p].refcount.value < c
      {
      }
    }
    HoldersUpdate(k.objs, o, h, c);
    forall d: CountId | d < c
      ensures HoldersOf(k.objs[o := h], d) == HoldersOf(k.objs, d)
    {
      HoldersUpdate(k.objs, o, h, d);
    }
  }

  /** A new counter of one, held by `o` alone, keeps the counts right. */
  lemma FreshCounter(k: Keys, o: ObjId, key: int)
    requires Counted(k) && o in k.objs && k.objs[o].refcount.None?
    ensures Counted(Keys(k.objs[o := Holder(key, Some(|k.counters|))], k.counters + [Some(Counter(1, key))], k.closed))
  {
    var c := |k.counters|;
    var h := Holder(key, Some(c));
    var r := Keys(k.objs[o := h], k.counters + [Some(Counter(1, key))], k.closed);
    FreshHolders(k, o, h);
    forall d: CountId | d < c && r.counters[d].Some?
      ensures r.counters[d].value.count == |HoldersOf(r.objs, d)| + Extra(None, d) && r.counters[d].value.count >= 1
    {
      assert r.counters[d] == k.counters[d];
    }
    forall p | p in r.objs && r.objs[p].refcount.Some?
      ensures Live(r, r.objs[p].refcount.value) && r.counters[r.objs[p].refcount.value].value.key == r.objs[p].key
    {
      if p != o {
        assert r.objs[p] == k.objs[p];
      }
    }
  }

  /** `Open` keeps the counts right: the new counter has exactly its one holder. */
  lemma OpenCounted(k: Keys, o: ObjId, answer: Option<int>)
    requires Counted(k) && o in k.objs
    ensures Open(k, o, answer).Success? && Counted(Open(k, o, answer).value.0)
  {
    CloseCounted(k, o);
    if answer.Some? {
      FreshCounter(Close(k, o).value, o, answer.value);
    }
  }

  /**
   * Assignment keeps the counts right: the source's count goes up before
   * the object's own key is closed, so the pending count keeps the source's
   * counter alive even when the object already shared it.
   */
  lemma AssignCounted(k: Keys, o: ObjId, src: ObjId)
    requires Counted(k) && o in k.objs && src in k.objs
    ensures Assign(k, o, src).Success? && Counted(Assign(k, o, src).value)
  {
    if o != src {
      var s := k.objs[src];
      if s.refcount.Some? {
        var c := s.refcount.value;
        IncrementPending(k, c);
        var counted := Increment(k, c).value;
        CloseBalanced(counted, o, Some(c));
        var closed := Close(counted, o).value;
        assert closed.objs[src] == s;
        AdoptPending(closed, o, s);
      } else {
        CloseCounted(k, o);
        var closed := Close(k, o).value;
        forall d: CountId ensures HoldersOf(closed.objs[o := s], d) == HoldersOf(closed.objs, d) {
          HoldersUpdate(closed.objs, o, s, d);
        }
      }
    }
  }

  // ---------------------------------------------------------------------
  // Properties

  /** A successful open makes the object the only holder of a fresh counter; a failed one leaves it without a key. */
  lemma OpenFreshOrClosed(k: Keys, o: ObjId, answer: Option<int>)
    requires Counted(k) && o in k.objs
    ensures Open(k, o, answer).Success?
    ensures var r := Open(k, o, answer).value.0;
      (answer.None? ==> !IsOpen(r, o)) &&
      (answer.Some? ==> IsOpen(r, o) && HoldersOf(r.objs, r.objs[o].refcount.value) == {o})
  {
    OpenCounted(k, o, answer);
    var r := Open(k, o, answer).value.0;
    if answer.Some? {
      var c := r.objs[o].refcount.value;
      assert o in HoldersOf(r.objs, c);
      assert |HoldersOf(r.objs, c)| == 1;
      forall p | p in HoldersOf(r.objs, c)
        ensures p == o
      {
        if p != o {
          SoleHolder(HoldersOf(r.objs, c), o, p);
        }
      }
    }
  }

  /** Assigning between two holders of the same key closes nothing and leaves every count as it was. */
  lemma AssignSharedIsHarmless(k: Keys, o: ObjId, src: ObjId)
    requires Counted(k) && o in k.objs && src in k.objs && o != src
    requires k.objs[o].refcount.Some? && k.objs[o].refcount == k.objs[src].refcount
    ensures Assign(k, o, src) == Success(k)
  {
    var c := k.objs[src].refcount.value;
    assert {o, src} <= HoldersOf(k.objs, c);
    SubsetCard({o, src}, HoldersOf(k.objs, c));
    var counted := Increment(k, c).value;
    var closed := Close(counted, o).value;
    assert closed.counters == k.counters;
    assert closed.objs[o := k.objs[src]] == k.objs;
  }

  /** The key is closed exactly when its last holder closes: with other holders left, `Close` closes nothing. */
  lemma CloseSharedKeepsKey(k: Keys, o: ObjId, other: ObjId)
    requires Counted(k) && o in k.objs && other in k.objs && o != other
    requires k.objs[o].refcount.Some? && k.objs[o].refcount == k.objs[other].refcount
    ensures Close(k, o).Success? && Close(k, o).value.closed == k.closed
    ensures Live(Close(k, o).value, k.objs[o].refcount.value)
  {
    var c := k.objs[o].refcount.value;
    assert {o, other} <= HoldersOf(k.objs, c);
    SubsetCard({o, other}, HoldersOf(k.objs, c));
  }

  /** A new object holds nothing, so no count changes. */
  lemma ConstructCounted(k: Keys, o: ObjId)
    requires Counted(k) && o !in k.objs
    ensures Counted(Construct(k, o))
  {
    forall c: CountId ensures HoldersOf(Construct(k, o).objs, c) == HoldersOf(k.objs, c) {
      HoldersUpdate(k.objs, o, Holder(NULL_KEY, None), c);
    }
  }

  /** The calls a program makes on `RegistryKey` objects. */
  datatype Call =
    | CallConstruct(o: ObjId)
    | CallOpen(o: ObjId, answer: Option<int>)
    | CallCopy(o: ObjId, src: ObjId)
    | CallAssign(o: ObjId, src: ObjId)
    | CallClose(o: ObjId)
    | CallDestruct(o: ObjId)

  /** The objects a call names exist, and a constructed one is new. */
  predicate Applicable(k: Keys, call: Call)
  {
    match call
    case CallConstruct(o) => o !in k.objs
    case CallOpen(o, _) => o in k.objs
    case CallCopy(o, src) => o !in k.objs && src in k.objs
    case CallAssign(o, src) => o in k.objs && src in k.objs
    case CallClose(o) => o in k.objs
    case CallDestruct(o) => o in k.objs
  }

  function Step(k: Keys, call: Call): Result<Keys, Fault>
    requires Applicable(k, call)
  {
    match call
    case CallConstruct(o) => Success(Construct(k, o))
    case CallOpen(o, answer) =>
      var r :- Open(k, o, answer);
      Success(r.0)
    case CallCopy(o, src) => CopyConstruct(k, o, src)
    case CallAssign(o, src) => Assign(k, o, src)
    case CallClose(o) => Close(k, o)
    case CallDestruct(o) => Destruct(k, o)
  }

  /**
   * The count equals the number of holders across construction, opening,
   * copying, assignment, closing and destruction, and none of them ever
   * uses a freed counter.
   */
  lemma StepCounted(k: Keys, call: Call)
    requires Counted(k) && Applicable(k, call)
    ensures Step(k, call).Success? && Counted(Step(k, call).value)
  {
    match call
    case CallConstruct(o) => ConstructCounted(k, o);
    case CallOpen(o, answer) => OpenCounted(k, o, answer);
    case CallCopy(o, src) =>
      ConstructCounted(k, o);
      AssignCounted(Construct(k, o), o, src);
    case CallAssign(o, src) => AssignCounted(k, o, src);
    case CallClose(o) => CloseCounted(k, o);
    case CallDestruct(o) =>
      CloseCounted(k, o);
      var closed := Close(k, o).value;
      forall c: CountId ensures HoldersOf(closed.objs - {o}, c) == HoldersOf(closed.objs, c) {
      }
  }
}
