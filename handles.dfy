/** Model of `unique_handle<Type, Traits>`, the move-only owner of one native
    handle value.  `Traits::invalid()` is the constant `invalid` a handle is
    created with, and every call the handle makes to `Traits::close` is
    recorded, in order, in a log of closed values. */
module UniqueHandles {

  /** What one handle holds, and every value it has passed to `Traits::close`. */
  datatype HandleState<T> = HandleState(value: T, closed: seq<T>)

  /** The values a call appended to the close log. */
  function NewlyClosed<T>(before: HandleState<T>, after: HandleState<T>): seq<T>
    requires before.closed <= after.closed
  {
    after.closed[|before.closed|..]
  }

  /** `close()`: calls `Traits::close` on the held value when, and only when,
      the handle is valid; the held value itself is not changed. */
  function AfterClose<T(==)>(s: HandleState<T>, invalid: T): (r: HandleState<T>)
    ensures r.value == s.value && s.closed <= r.closed
    ensures NewlyClosed(s, r) == (if s.value != invalid then [s.value] else [])
    ensures invalid !in NewlyClosed(s, r)
  {
    if s.value != invalid then HandleState(s.value, s.closed + [s.value]) else s
  }

  /** `reset(value)`: a different value first closes the held one (if valid) and
      then takes its place; the held value itself changes nothing, so it is never
      closed twice.  The result is the boolean conversion afterwards. */
  function AfterReset<T(==)>(s: HandleState<T>, v: T, invalid: T): (r: (HandleState<T>, bool))
    ensures r.0.value == v
    ensures r.1 <==> v != invalid
    ensures s.closed <= r.0.closed
    ensures NewlyClosed(s, r.0) == (if s.value != v && s.value != invalid then [s.value] else [])
    ensures s.value == v ==> r.0 == s
  {
    var t := if s.value != v then HandleState(v, AfterClose(s, invalid).closed) else s;
    (t, t.value != invalid)
  }

  /** `release()`: hands the held value to the caller, leaves the handle
      invalid and closes nothing. */
  function AfterRelease<T>(s: HandleState<T>, invalid: T): (r: (HandleState<T>, T))
    ensures r.1 == s.value
    ensures r.0.value == invalid && r.0.closed == s.closed
  {
    (HandleState(invalid, s.closed), s.value)
  }

  /** The move constructor: the new handle (first) takes the source's value, the
      source (second) is left invalid, and nothing is closed. */
  function AfterMoveConstruct<T>(source: HandleState<T>, invalid: T): (r: (HandleState<T>, HandleState<T>))
    ensures r.0.value == source.value && r.0.closed == []
    ensures r.1.value == invalid && r.1.closed == source.closed
  {
    var (src, v) := AfterRelease(source, invalid);
    (HandleState(v, []), src)
  }

  /** Move assignment between two distinct handles, `reset(other.release())`:
      the target (first) takes the source's value and closes its own previous
      value when that was valid and differs from the incoming one; the source
      (second) is left invalid and closes nothing. */
  function AfterMoveAssign<T(==)>(target: HandleState<T>, source: HandleState<T>, invalid: T)
    : (r: (HandleState<T>, HandleState<T>))
    ensures r.0.value == source.value
    ensures target.closed <= r.0.closed
    ensures NewlyClosed(target, r.0) ==
              (if target.value != source.value && target.value != invalid then [target.value] else [])
    ensures r.1.value == invalid && r.1.closed == source.closed
  {
    var (src, v) := AfterRelease(source, invalid);
    (AfterReset(target, v, invalid).0, src)
  }

  /** A self move, `h = std::move(h)`: the release leaves the handle invalid, so the
      following reset closes nothing and restores the value. */
  lemma SelfMoveAssignKeepsValue<T>(s: HandleState<T>, invalid: T)
    ensures var (released, v) := AfterRelease(s, invalid);
            AfterReset(released, v, invalid).0 == s
  {
  }

  // ---------------------------------------------------------------------
  // Sequences of calls on one handle, followed by its destructor.

  /** A call that changes the held value: `reset(v)` (also what move assignment
      from another handle does with that handle's value), or `release()`. */
  datatype HandleOp<T> = ResetTo(v: T) | Release

  /** The state after running `ops`, and the values the `Release` calls handed out. */
  function Run<T(==)>(s: HandleState<T>, ops: seq<HandleOp<T>>, invalid: T): (HandleState<T>, seq<T>)
    decreases |ops|
  {
    if ops == [] then (s, [])
    else match ops[0]
      case ResetTo(v) => Run(AfterReset(s, v, invalid).0, ops[1..], invalid)
      case Release =>
        var (t, released) := Run(AfterRelease(s, invalid).0, ops[1..], invalid);
        (t, [s.value] + released)
  }

  /** The valid values a `ResetTo` passed while the handle already held them:
      the handle keeps its single ownership and does nothing with them. */
  function Absorbed<T(==)>(s: HandleState<T>, ops: seq<HandleOp<T>>, invalid: T): seq<T>
    decreases |ops|
  {
    if ops == [] then []
    else match ops[0]
      case ResetTo(v) =>
        (if v == s.value && v != invalid then [v] else []) + Absorbed(AfterReset(s, v, invalid).0, ops[1..], invalid)
      case Release => Absorbed(AfterRelease(s, invalid).0, ops[1..], invalid)
  }

  /** The values handed to the handle by the `ResetTo` calls, in order. */
  function Acquired<T>(ops: seq<HandleOp<T>>): seq<T>
    decreases |ops|
  {
    if ops == [] then []
    else match ops[0]
      case ResetTo(v) => [v] + Acquired(ops[1..])
      case Release => Acquired(ops[1..])
  }

  /** The values of `xs` other than `invalid`, in order. */
  function ValidOnly<T(==)>(xs: seq<T>, invalid: T): (r: seq<T>)
    ensures forall x :: x in r ==> x in xs && x != invalid
    ensures forall x :: x in xs ==> x in r || x == invalid
    ensures |r| <= |xs|
    decreases |xs|
  {
    if xs == [] then []
    else
      assert xs == [xs[0]] + xs[1..];
      (if xs[0] != invalid then [xs[0]] else []) + ValidOnly(xs[1..], invalid)
  }

  /** The valid part of a single value. */
  function ValidPart<T(==)>(x: T, invalid: T): seq<T>
  {
    if x != invalid then [x] else []
  }

  lemma ValidOnlyCons<T>(x: T, xs: seq<T>, invalid: T)
    ensures ValidOnly([x] + xs, invalid) == ValidPart(x, invalid) + ValidOnly(xs, invalid)
  {
    assert ([x] + xs)[1..] == xs;
  }

  /** No value occurs twice. */
  ghost predicate Distinct<T>(xs: seq<T>)
  {
    forall x :: x in xs ==> multiset(xs)[x] <= 1
  }

  /** The conservation law of `OwnershipConserved`, for one starting state. */
  ghost predicate Conserved<T>(s: HandleState<T>, ops: seq<HandleOp<T>>, invalid: T)
  {
    var r := Run(s, ops, invalid);
    multiset(AfterClose(r.0, invalid).closed) + multiset(ValidOnly(r.1, invalid))
      + multiset(Absorbed(s, ops, invalid))
    == multiset(s.closed) + multiset(ValidOnly([s.value] + Acquired(ops), invalid))
  }

  lemma MultisetShift<T>(c: multiset<T>, v: multiset<T>, ab: multiset<T>, st: multiset<T>, va: multiset<T>, p: multiset<T>)
    requires c + v + ab == st + va
    ensures c + (p + v) + ab == st + (p + va)
  {
    forall x
      ensures (c + (p + v) + ab)[x] == (st + (p + va))[x]
    {
      assert (c + v + ab)[x] == (st + va)[x];
    }
  }

  lemma UnfoldRelease<T>(s: HandleState<T>, rest: seq<HandleOp<T>>, invalid: T)
    ensures var s' := AfterRelease(s, invalid).0;
            && Acquired([Release] + rest) == Acquired(rest)
            && Run(s, [Release] + rest, invalid).0 == Run(s', rest, invalid).0
            && Run(s, [Release] + rest, invalid).1 == [s.value] + Run(s', rest, invalid).1
            && Absorbed(s, [Release] + rest, invalid) == Absorbed(s', rest, invalid)
  {
    assert ([Release] + rest)[1..] == rest;
  }

  lemma UnfoldReset<T>(s: HandleState<T>, v: T, rest: seq<HandleOp<T>>, invalid: T)
    ensures var s' := AfterReset(s, v, invalid).0;
            && Acquired([ResetTo(v)] + rest) == [v] + Acquired(rest)
            && Run(s, [ResetTo(v)] + rest, invalid) == Run(s', rest, invalid)
            && Absorbed(s, [ResetTo(v)] + rest, invalid)
               == (if v == s.value && v != invalid then [v] else []) + Absorbed(s', rest, invalid)
  {
    assert ([ResetTo(v)] + rest)[1..] == rest;
  }

  lemma ConservedReset<T>(s: HandleState<T>, v: T, rest: seq<HandleOp<T>>, invalid: T)
    requires Conserved(AfterReset(s, v, invalid).0, rest, invalid)
    ensures Conserved(s, [ResetTo(v)] + rest, invalid)
  {
    var s' := AfterReset(s, v, invalid).0;
    var a := Acquired(rest);
    var r := Run(s', rest, invalid);
    UnfoldReset(s, v, rest, invalid);
    ValidOnlyCons(s.value, [v] + a, invalid);
    var p := multiset(ValidPart(s.value, invalid));
    var c := multiset(AfterClose(r.0, invalid).closed);
    var rel := multiset(ValidOnly(r.1, invalid));
    var ab := multiset(Absorbed(s', rest, invalid));
    var va := multiset(ValidOnly([v] + a, invalid));
    if v != s.value {
      assert s'.closed == s.closed + ValidPart(s.value, invalid);
      MultisetRegroup(c + rel + ab, multiset(s.closed), p, va);
    } else {
      assert s' == s;
      MultisetShiftAbsorbed(c, rel, ab, multiset(s.closed), va, p);
    }
  }

  lemma MultisetRegroup<T>(lhs: multiset<T>, st: multiset<T>, p: multiset<T>, va: multiset<T>)
    requires lhs == (st + p) + va
    ensures lhs == st + (p + va)
  {
    forall x
      ensures lhs[x] == (st + (p + va))[x]
    {
    }
  }

  lemma MultisetShiftAbsorbed<T>(c: multiset<T>, v: multiset<T>, ab: multiset<T>, st: multiset<T>, va: multiset<T>, p: multiset<T>)
    requires c + v + ab == st + va
    ensures c + v + (p + ab) == st + (p + va)
  {
    forall x
      ensures (c + v + (p + ab))[x] == (st + (p + va))[x]
    {
      assert (c + v + ab)[x] == (st + va)[x];
    }
  }

  lemma ConservedRelease<T>(s: HandleState<T>, rest: seq<HandleOp<T>>, invalid: T)
    requires Conserved(AfterRelease(s, invalid).0, rest, invalid)
    ensures Conserved(s, [Release] + rest, invalid)
  {
    var s' := AfterRelease(s, invalid).0;
    var a := Acquired(rest);
    var r := Run(s', rest, invalid);
    UnfoldRelease(s, rest, invalid);
    ValidOnlyCons(s.value, r.1, invalid);
    ValidOnlyCons(s.value, a, invalid);
    ValidOnlyCons(invalid, a, invalid);
    var p := multiset(ValidPart(s.value, invalid));
    var c := multiset(AfterClose(r.0, invalid).closed);
    var ab := multiset(Absorbed(s', rest, invalid));
    MultisetShift(c, multiset(ValidOnly(r.1, invalid)), ab, multiset(s.closed), multiset(ValidOnly(a, invalid)), p);
  }

  /** Ownership is conserved over any sequence of calls followed by the
      destructor: every valid value the handle ever held (initially or through a
      reset) is closed by it, handed out by `release`, or was a reset to the
      value it already held -- and nothing else is closed or handed out. */
  lemma {:induction false} OwnershipConserved<T>(s: HandleState<T>, ops: seq<HandleOp<T>>, invalid: T)
    ensures var r := Run(s, ops, invalid);
            multiset(AfterClose(r.0, invalid).closed) + multiset(ValidOnly(r.1, invalid))
              + multiset(Absorbed(s, ops, invalid))
            == multiset(s.closed) + multiset(ValidOnly([s.value] + Acquired(ops), invalid))
    decreases |ops|
  {
    if ops == [] {
      ValidOnlyCons(s.value, [], invalid);
    } else {
      assert ops == [ops[0]] + ops[1..];
      match ops[0]
      case ResetTo(v) =>
        OwnershipConserved(AfterReset(s, v, invalid).0, ops[1..], invalid);
        ConservedReset(s, v, ops[1..], invalid);
      case Release =>
        OwnershipConserved(AfterRelease(s, invalid).0, ops[1..], invalid);
        ConservedRelease(s, ops[1..], invalid);
    }
    assert Conserved(s, ops, invalid);
  }

  /** A value a multiset sum on the left holds is held on the right. */
  lemma CountBounded<T>(c: multiset<T>, rest: multiset<T>, st: multiset<T>, acq: multiset<T>, x: T)
    requires c + rest == st + acq
    ensures c[x] <= st[x] + acq[x]
  {
    assert (c + rest)[x] == (st + acq)[x];
  }

  /** `Traits::close` is never applied to the invalid value, whatever the calls
      and including the destructor's close. */
  lemma NeverClosesInvalid<T>(s: HandleState<T>, ops: seq<HandleOp<T>>, invalid: T)
    requires invalid !in s.closed
    ensures invalid !in AfterClose(Run(s, ops, invalid).0, invalid).closed
  {
    var r := Run(s, ops, invalid);
    var closed := AfterClose(r.0, invalid).closed;
    var acquired := ValidOnly([s.value] + Acquired(ops), invalid);
    assert invalid !in acquired;
    assert multiset(acquired)[invalid] == 0;
    OwnershipConserved(s, ops, invalid);
    CountBounded(multiset(closed), multiset(ValidOnly(r.1, invalid)) + multiset(Absorbed(s, ops, invalid)),
                 multiset(s.closed), multiset(acquired), invalid);
  }

  /** Each valid value the handle is given is a resource of its own, handed
      over once; any further time it is passed in, the handle already holds it
      (a reset to the held value, which the handle absorbs). */
  ghost predicate HandedOverOnce<T>(s: HandleState<T>, ops: seq<HandleOp<T>>, invalid: T)
  {
    var given := ValidOnly([s.value] + Acquired(ops), invalid);
    forall x :: x in given ==> multiset(given)[x] <= 1 + multiset(Absorbed(s, ops, invalid))[x]
  }

  /** A value a multiset sum on the left holds, absorbed part included, is held
      on the right. */
  lemma CountBoundedAbsorbed<T>(c: multiset<T>, rel: multiset<T>, ab: multiset<T>, acq: multiset<T>, x: T)
    requires c + rel + ab == acq
    ensures c[x] + ab[x] <= acq[x]
  {
    assert (c + rel + ab)[x] == acq[x];
  }

  /** When each valid resource is handed to the handle once (resets to the value
      it already holds aside), each one is closed at most once over the handle's
      whole life: no double close. */
  lemma NoDoubleClose<T>(s: HandleState<T>, ops: seq<HandleOp<T>>, invalid: T)
    requires s.closed == []
    requires HandedOverOnce(s, ops, invalid)
    ensures Distinct(AfterClose(Run(s, ops, invalid).0, invalid).closed)
  {
    var r := Run(s, ops, invalid);
    var closed := AfterClose(r.0, invalid).closed;
    var acquired := ValidOnly([s.value] + Acquired(ops), invalid);
    var absorbed := multiset(Absorbed(s, ops, invalid));
    OwnershipConserved(s, ops, invalid);
    assert multiset(closed) + multiset(ValidOnly(r.1, invalid)) + absorbed == multiset(acquired);
    forall x | x in closed
      ensures multiset(closed)[x] <= 1
    {
      CountBoundedAbsorbed(multiset(closed), multiset(ValidOnly(r.1, invalid)), absorbed, multiset(acquired), x);
      assert x in acquired;
    }
  }

  /** Resetting twice to the same valid value hands one resource over once: the
      second reset is absorbed, so the handle's life closes it exactly once. */
  lemma RepeatedResetClosesOnce<T>(a: T, invalid: T)
    requires a != invalid
    ensures var s := HandleState(invalid, []);
            var ops := [ResetTo(a), ResetTo(a)];
            && HandedOverOnce(s, ops, invalid)
            && AfterClose(Run(s, ops, invalid).0, invalid).closed == [a]
  {
    var s := HandleState(invalid, []);
    var ops := [ResetTo(a), ResetTo(a)];
    UnfoldReset(s, a, [ResetTo(a)], invalid);
    var s1 := AfterReset(s, a, invalid).0;
    UnfoldReset(s1, a, [], invalid);
    assert [ResetTo(a)] + [ResetTo(a)] == ops;
    assert Acquired(ops) == [a, a];
    assert Absorbed(s, ops, invalid) == [a];
    ValidOnlyCons(invalid, [a, a], invalid);
    ValidOnlyCons(a, [a], invalid);
    ValidOnlyCons(a, [], invalid);
    assert ValidOnly([s.value] + Acquired(ops), invalid) == [a, a];
  }

  // ---------------------------------------------------------------------

  /** One `unique_handle`.  Copying is not part of its interface. */
  class UniqueHandle<T(==)> {
    const invalid: T
    var value: T
    ghost var closed: seq<T>
    /** False once the destructor has run. */
    ghost var live: bool

    ghost function State(): HandleState<T>
      reads this
    {
      HandleState(value, closed)
    }

    /** The default constructor: holds `Traits::invalid()`, so it converts to false. */
    constructor Default(invalid: T)
      ensures this.invalid == invalid && live
      ensures State() == HandleState(invalid, []) && !IsValid()
    {
      this.invalid := invalid;
      value := invalid;
      closed := [];
      live := true;
    }

    /** `explicit unique_handle(value)`: takes ownership of `v`. */
    constructor (invalid: T, v: T)
      ensures this.invalid == invalid && live
      ensures State() == HandleState(v, [])
    {
      this.invalid := invalid;
      value := v;
      closed := [];
      live := true;
    }

    /** The move constructor: `m_value(other.release())`. */
    constructor MoveFrom(other: UniqueHandle<T>)
      requires other.live
      modifies other
      ensures invalid == other.invalid && live && other.live
      ensures (State(), other.State()) == AfterMoveConstruct(old(other.State()), invalid)
    {
      var v := other.Release();
      invalid := other.invalid;
      value := v;
      closed := [];
      live := true;
    }

    /** `close()`. */
    method Close()
      requires live
      modifies this`closed
      ensures State() == AfterClose(old(State()), invalid)
    {
      if value != invalid {
        closed := closed + [value];
      }
    }

    /** The destructor. */
    method Destroy()
      requires live
      modifies this`closed, this`live
      ensures State() == AfterClose(old(State()), invalid) && !live
    {
      Close();
      live := false;
    }

    /** `get()`. */
    function Get(): (v: T)
      reads this
      ensures v == State().value
    {
      value
    }

    /** The boolean conversion: true exactly when the held value is not `Traits::invalid()`. */
    function IsValid(): (b: bool)
      reads this
      ensures b <==> State().value != invalid
    {
      value != invalid
    }

    /** `reset(v)`. */
    method Reset(v: T) returns (b: bool)
      requires live
      modifies this`value, this`closed
      ensures (State(), b) == AfterReset(old(State()), v, invalid)
    {
      if value != v {
        Close();
        value := v;
      }
      b := IsValid();
    }

    /** `release()`. */
    method Release() returns (v: T)
      requires live
      modifies this`value
      ensures (State(), v) == AfterRelease(old(State()), invalid)
    {
      v := value;
      value := invalid;
    }

    /** Move assignment, `reset(other.release())`; `other` may be this handle itself. */
    method MoveAssign(other: UniqueHandle<T>)
      requires live && other.live && other.invalid == invalid
      modifies this, other
      ensures live && other.live
      ensures other == this ==> State() == old(State())
      ensures other != this ==>
                (State(), other.State()) == AfterMoveAssign(old(State()), old(other.State()), invalid)
    {
      var v := other.Release();
      var _ := Reset(v);
    }
  }
}
